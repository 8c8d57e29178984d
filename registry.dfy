/** The edits the engine makes, as functions from the engine's state before a
    call to its state after it: `patch` (a field of a document), the
    availability rewrite and the intro rewrite of `extractAndPatchContent`.
    A call that throws yields `ok == false` together with what it had already
    changed; the run that called it then fails. */
module Registry {
  import opened Wrappers
  import opened JsText
  import opened Xml
  import opened JsonModel
  import opened Codecs
  import opened Availability
  import opened Sheet
  import opened Course
  import opened Output

  /** The engine's state: `patchedFiles` (entry name to edited document), the
      parse caches `activity.parsed` (by group path and file name), and the
      module-level `contents` and `patchContents` (bundle path to text). */
  datatype State = State(
    dirty: map<string, Document>,
    parsed: map<(string, string), Document>,
    contents: map<string, string>,
    bundle: map<string, string>)

  /** The state after a call, and whether the call returned normally. */
  datatype Step = Step(state: State, ok: bool)

  // ------------------------------------------------------------------ patch

  /** The text `patch` writes for a value: a string as it is, a Date as the
      decimal text of `Math.round(ms / 1000)`; None for any other value. */
  function Encode(v: Cell): Option<string> {
    match v
    case Text(s) => Some(s)
    case DateCell(ms) => Some(IntToString(RoundToSeconds(ms)))
    case _ => None
  }

  /** The document `patch` works on: the cached one, else the file parsed now;
      None when the file is missing (`files[file].toString()` throws). */
  function Cached(st: State, g: Group, file: string, lib: Library): Option<Document> {
    if (g.path, file) in st.parsed then Some(st.parsed[(g.path, file)])
    else if file in g.files then Some(lib.parseXml(g.files[file]))
    else None
  }

  /** `patch` of main.js (lines 14-41), which is also src/magic.js:32-68: fill
      the cache, find the first `element` (throws when there is none), refuse
      a value that is neither a string nor a Date, dereference its text child
      (throws when there is none), and write and record the document when the
      text changes. */
  function WriteField(st: State, g: Group, file: string, element: string, value: Cell, lib: Library): Step {
    match Cached(st, g, file, lib)
    case None => Step(st, false)
    case Some(doc) =>
      var cached := st.(parsed := st.parsed[(g.path, file) := doc]);
      if FirstIndex(doc, element).None? then Step(cached, false)
      else
        match Encode(value)
        case None => Step(cached, true)
        case Some(t) =>
          if !HasText(doc, element) then Step(cached, false)
          else if TextOf(doc, element).value == t then Step(cached, true)
          else
            var edited := SetText(doc, element, t);
            Step(st.(dirty := st.dirty[g.path + file := edited], parsed := st.parsed[(g.path, file) := edited]), true)
  }

  /** `patch` of src/magic.js (lines 27-69): a falsy value changes nothing. */
  function Patch(st: State, g: Group, file: string, element: string, value: Cell, lib: Library): Step {
    if !Truthy(value) then Step(st, true) else WriteField(st, g, file, element, value, lib)
  }

  /** A falsy value, or one that is neither a string nor a Date, leaves the
      documents and the record of edits as they were. */
  lemma PatchIgnores(st: State, g: Group, file: string, element: string, value: Cell, lib: Library)
    requires !Truthy(value) || Encode(value).None?
    ensures var r := Patch(st, g, file, element, value, lib);
      && r.state.dirty == st.dirty && r.state.contents == st.contents && r.state.bundle == st.bundle
      && (forall k :: k in st.parsed ==> k in r.state.parsed && r.state.parsed[k] == st.parsed[k])
      && (!Truthy(value) ==> r == Step(st, true))
  {
  }

  /** What a successful write does: the cached document now holds the encoded
      value at the first `element` and nothing else changed in it; the entry
      `path + file` is recorded, with that document, exactly when the text
      changed; no other entry is touched. */
  lemma WriteFieldEffect(st: State, g: Group, file: string, element: string, value: Cell, lib: Library)
    requires Encode(value).Some?
    requires WriteField(st, g, file, element, value, lib).ok
    ensures var r := WriteField(st, g, file, element, value, lib).state;
      var doc := Cached(st, g, file, lib).value;
      var key := g.path + file;
      var changed := TextOf(doc, element) != Encode(value);
      && HasText(doc, element)
      && r.parsed[(g.path, file)] == SetText(doc, element, Encode(value).value)
      && Read(r.parsed[(g.path, file)], element) == Encode(value).value
      && (forall other :: other != element ==> TextOf(r.parsed[(g.path, file)], other) == TextOf(doc, other))
      && (forall k :: k != (g.path, file) && k in st.parsed ==> k in r.parsed && r.parsed[k] == st.parsed[k])
      && (changed ==> r.dirty == st.dirty[key := r.parsed[(g.path, file)]])
      && (!changed ==> r.dirty == st.dirty)
      && r.contents == st.contents && r.bundle == st.bundle
  {
    var doc := Cached(st, g, file, lib).value;
    var t := Encode(value).value;
    ReadAfterSet(doc, element, t);
    forall other | other != element
      ensures TextOf(SetText(doc, element, t), other) == TextOf(doc, other)
    {
      SetTextOnlyThere(doc, element, t, other);
    }
    if TextOf(doc, element).value == t {
      SetCurrentText(doc, element);
    }
  }

  /** The record of edits grows exactly when a text changes:
      `path + file` is added or replaced then, and otherwise nothing moves. */
  lemma PatchDirtyIffChanged(st: State, g: Group, file: string, element: string, value: Cell, lib: Library)
    requires Patch(st, g, file, element, value, lib).ok
    ensures var r := Patch(st, g, file, element, value, lib).state;
      r.dirty != st.dirty ==>
        && Truthy(value) && Encode(value).Some?
        && TextOf(Cached(st, g, file, lib).value, element) != Encode(value)
        && r.dirty.Keys == st.dirty.Keys + {g.path + file}
    ensures var r := Patch(st, g, file, element, value, lib).state;
      Truthy(value) && Encode(value).Some? && TextOf(Cached(st, g, file, lib).value, element) != Encode(value) ==>
        g.path + file in r.dirty && Read(r.dirty[g.path + file], element) == Encode(value).value
  {
    if Truthy(value) && Encode(value).Some? {
      WriteFieldEffect(st, g, file, element, value, lib);
    }
  }

  /** Patching a second time with the same value changes nothing more. */
  lemma PatchIdempotent(st: State, g: Group, file: string, element: string, value: Cell, lib: Library)
    requires Patch(st, g, file, element, value, lib).ok
    ensures var r := Patch(st, g, file, element, value, lib);
      Patch(r.state, g, file, element, value, lib) == r
  {
    if Truthy(value) {
      WriteFieldIdempotent(st, g, file, element, value, lib);
    }
  }

  lemma WriteFieldIdempotent(st: State, g: Group, file: string, element: string, value: Cell, lib: Library)
    requires WriteField(st, g, file, element, value, lib).ok
    ensures var r := WriteField(st, g, file, element, value, lib);
      WriteField(r.state, g, file, element, value, lib) == r
  {
    var r := WriteField(st, g, file, element, value, lib);
    var doc := Cached(st, g, file, lib).value;
    var now := r.state.parsed[(g.path, file)];
    assert Cached(r.state, g, file, lib) == Some(now);
    assert r.state.parsed[(g.path, file) := now] == r.state.parsed;
    if Encode(value).Some? {
      WriteFieldEffect(st, g, file, element, value, lib);
      FirstIndexSameTags(doc, now, element);
      assert TextOf(now, element) == Encode(value);
    } else {
      assert now == doc;
    }
  }

  /** A date goes in as whole seconds: the text written for `ms` milliseconds
      reads back, through `new Date(parseInt(text, 10) * 1000)`, as `ms` rounded
      to the nearest second, exactly `ms` when it is a whole second. */
  lemma DateRoundTrip(ms: int)
    ensures var text := Encode(DateCell(ms)).value;
      && ParseInt(text) == Some(RoundToSeconds(ms))
      && StampOf(ParseInt(text)).At?
      && ms - 500 < StampOf(ParseInt(text)).ms <= ms + 500
      && (ms % 1000 == 0 ==> StampOf(ParseInt(text)) == At(ms))
  {
    var r := RoundToSeconds(ms);
    ParseIntOfString(r);
    assert StampOf(Some(r)) == At(r * 1000);
    if ms % 1000 == 0 {
      WholeSeconds(ms);
    }
  }

  /** A whole number of seconds is not moved by the rounding. */
  lemma WholeSeconds(ms: int)
    requires ms % 1000 == 0
    ensures RoundToSeconds(ms) * 1000 == ms
  {
    var q := ms / 1000;
    assert ms == q * 1000;
    var r := RoundToSeconds(ms);
    assert (r - q) * 1000 == r * 1000 - ms;
  }

  /** Without the falsy guard main.js behaves the same on a truthy value; on
      a falsy string it still writes it, and on `undefined` it only fills the
      cache, throwing when the file or the element is missing. */
  lemma PatchVariants(st: State, g: Group, file: string, element: string, value: Cell, lib: Library)
    ensures Truthy(value) ==> WriteField(st, g, file, element, value, lib) == Patch(st, g, file, element, value, lib)
    ensures value == Absent ==>
      var r := WriteField(st, g, file, element, value, lib);
      && r.state.dirty == st.dirty
      && (Cached(st, g, file, lib).Some? ==> r.state.parsed == st.parsed[(g.path, file) := Cached(st, g, file, lib).value])
      && (r.ok <==> Cached(st, g, file, lib).Some? && FirstIndex(Cached(st, g, file, lib).value, element).Some?)
  {
  }

  // ----------------------------------------------------------- availability

  /** `patchData.get(id)`, an empty row (every field `undefined`) when absent. */
  function PatchRow(patchData: PatchSet, id: string): SheetRow {
    if Text(id) in patchData then patchData[Text(id)] else map[]
  }

  /** `cell?.getTime?.()`: the milliseconds of a Date, None otherwise. */
  function DateOf(c: Cell): Option<int> {
    if c.DateCell? then Some(c.ms) else None
  }

  /** `patchAvailability` (src/magic.js:113-157): when the patch row's dates
      differ from the window the row shows, the stored expression (read from
      `doc`, the freshly parsed file) is edited and written back through
      `patch`. An edit that throws makes the call throw. */
  function PatchAvailability(st: State, g: Group, doc: Document, file: string, field: string, patchData: Option<PatchSet>,
                             id: string, current: Window, lib: Library): Step {
    if patchData.None? then Step(st, true)
    else
      var p := PatchRow(patchData.value, id);
      var from := DateOf(Field(p, "availableFrom"));
      var to := DateOf(Field(p, "availableTo"));
      if !Differs(from, to, current) then Step(st, true)
      else
        match Edit(lib.parseJson(Read(doc, field)), from, to)
        case None => Step(st, false)
        case Some(j) => Patch(st, g, file, field, Text(lib.stringifyJson(j)), lib)
  }

  /** What the JSON library is trusted to do for the availability round trip:
      `JSON.stringify` never yields an empty text, and parsing what it yields
      gives the value back. */
  predicate RoundTrips(lib: Library, j: Json) {
    lib.stringifyJson(j) != "" && lib.parseJson(lib.stringifyJson(j)) == Some(j)
  }

  /** The availability round trip: after a successful rewrite of a document
      that had not been edited in this run, the file's cached document shows
      exactly the supplied dates, rounded to whole seconds, and keeps the old
      bound where a date was not supplied. */
  lemma PatchAvailabilityRoundTrip(st: State, g: Group, doc: Document, file: string, field: string, patchData: PatchSet,
                                   id: string, lib: Library)
    requires (g.path, file) !in st.parsed && file in g.files && lib.parseXml(g.files[file]) == doc
    requires var parsed := lib.parseJson(Read(doc, field));
      parsed.None? || (IsConjunction(parsed.value) && match Get(parsed.value, "c")
        case Some(JArr(c)) => JNull !in c
        case _ => true)
    requires var p := PatchRow(patchData, id);
      var e := Edit(lib.parseJson(Read(doc, field)), DateOf(Field(p, "availableFrom")), DateOf(Field(p, "availableTo")));
      e.Some? ==> RoundTrips(lib, e.value)
    requires var current := Decode(lib.parseJson(Read(doc, field)));
      var r := PatchAvailability(st, g, doc, file, field, Some(patchData), id, current, lib);
      r.ok && r.state != st
    ensures var current := Decode(lib.parseJson(Read(doc, field)));
      var p := PatchRow(patchData, id);
      var from := DateOf(Field(p, "availableFrom"));
      var to := DateOf(Field(p, "availableTo"));
      var r := PatchAvailability(st, g, doc, file, field, Some(patchData), id, current, lib).state;
      && (g.path, file) in r.parsed
      && var shown := Decode(lib.parseJson(Read(r.parsed[(g.path, file)], field)));
      && shown.from == (if Supplied(from) then Stored(from.value) else current.from)
      && shown.to == (if Supplied(to) then Stored(to.value) else current.to)
  {
    var parsed := lib.parseJson(Read(doc, field));
    var current := Decode(parsed);
    var p := PatchRow(patchData, id);
    var from := DateOf(Field(p, "availableFrom"));
    var to := DateOf(Field(p, "availableTo"));
    var j := Edit(parsed, from, to).value;
    var text := lib.stringifyJson(j);
    assert Cached(st, g, file, lib) == Some(doc);
    WriteFieldEffect(st, g, file, field, Text(text), lib);
    DecodeEdit(parsed, from, to);
  }

  /** main.js:161-200: when the dates differ, the activity's `availability`
      gets the stringified MainRewrite of its text, written by main.js's
      `patch`. When the first write throws, the fallback write meets the same
      missing file, element or text, so the call throws either way. */
  function MainPatchAvailability(st: State, g: Group, moduleDoc: Document, patchData: PatchSet, id: string,
                                 current: Window, lib: Library): Step {
    var p := PatchRow(patchData, id);
    var from := DateOf(Field(p, "availableFrom"));
    var to := DateOf(Field(p, "availableTo"));
    if !Differs(from, to, current) then Step(st, true)
    else
      var raw := Read(moduleDoc, "availability");
      WriteField(st, g, "module.xml", "availability", Text(lib.stringifyJson(MainRewrite(raw, lib.parseJson(raw), from, to))), lib)
  }

  /** An activity whose sheet row has no dates while it shows a window loses
      the window in main.js: the written expression is an empty conjunction. */
  lemma MainDropsUnlistedWindow(st: State, g: Group, moduleDoc: Document, patchData: PatchSet, id: string,
                                current: Window, lib: Library)
    requires Text(id) !in patchData && (current.from.Some? || current.to.Some?)
    requires RoundTrips(lib, FreshWindow(None, None))
    requires (g.path, "module.xml") !in st.parsed && "module.xml" in g.files && lib.parseXml(g.files["module.xml"]) == moduleDoc
    requires MainPatchAvailability(st, g, moduleDoc, patchData, id, current, lib).ok
    ensures var r := MainPatchAvailability(st, g, moduleDoc, patchData, id, current, lib).state;
      Decode(lib.parseJson(Read(r.parsed[(g.path, "module.xml")], "availability"))) == Window(None, None)
  {
    var raw := Read(moduleDoc, "availability");
    var j := MainRewrite(raw, lib.parseJson(raw), None, None);
    assert j == FreshWindow(None, None);
    assert Cached(st, g, "module.xml", lib) == Some(moduleDoc);
    WriteFieldEffect(st, g, "module.xml", "availability", Text(lib.stringifyJson(j)), lib);
    MainFreshRoundTrip(raw, lib.parseJson(raw), None, None);
  }

  // ------------------------------------------------------------ the intro

  /** `extractAndPatchContent` (src/magic.js:162-178) on the freshly parsed
      kind file `doc`: record the intro under its bundle path, and in patch
      mode, when the bundle does not hold exactly that text, write the
      bundle's text (`undefined` when the bundle has no such path) into the
      intro and record this document as the entry's edit. */
  function ExtractContent(st: State, g: Group, file: string, number: int, index: Option<int>, name: string,
                          doc: Document, patching: bool): Step {
    IntroAt(st, g, file, BundlePath(number, index, name, FirstAttribute(doc, "activity", "modulename"), Read(doc, "introformat")),
            doc, patching)
  }

  /** The step of `extractAndPatchContent` once the bundle path is known. */
  function IntroAt(st: State, g: Group, file: string, path: string, doc: Document, patching: bool): Step {
    var intro := Read(doc, "intro");
    var recorded := st.(contents := st.contents[path := intro]);
    if !patching || (path in st.bundle && st.bundle[path] == intro) then Step(recorded, true)
    else if !HasText(doc, "intro") then Step(recorded, false)
    else
      var text := if path in st.bundle then st.bundle[path] else "undefined";
      Step(recorded.(dirty := st.dirty[g.path + file := SetText(doc, "intro", text)]), true)
  }

  /** The intro is always recorded under its bundle path; a bundle entry that
      holds the extracted text leaves the entry alone; any other bundle entry
      becomes the intro of the recorded document, whose other texts are those
      of the file. */
  lemma ExtractContentEffect(st: State, g: Group, file: string, number: int, index: Option<int>, name: string,
                             doc: Document, patching: bool)
    ensures var path := BundlePath(number, index, name, FirstAttribute(doc, "activity", "modulename"), Read(doc, "introformat"));
      var r := ExtractContent(st, g, file, number, index, name, doc, patching);
      && r.state.contents == st.contents[path := Read(doc, "intro")]
      && r.state.bundle == st.bundle && r.state.parsed == st.parsed
      && (!patching || (path in st.bundle && st.bundle[path] == Read(doc, "intro")) ==> r.ok && r.state.dirty == st.dirty)
      && (patching && path in st.bundle && st.bundle[path] != Read(doc, "intro") && r.ok ==>
            && r.state.dirty.Keys == st.dirty.Keys + {g.path + file}
            && Read(r.state.dirty[g.path + file], "intro") == st.bundle[path]
            && forall other :: other != "intro" ==> TextOf(r.state.dirty[g.path + file], other) == TextOf(doc, other))
  {
    IntroAtEffect(st, g, file, BundlePath(number, index, name, FirstAttribute(doc, "activity", "modulename"), Read(doc, "introformat")),
                  doc, patching);
  }

  lemma IntroAtEffect(st: State, g: Group, file: string, path: string, doc: Document, patching: bool)
    ensures var r := IntroAt(st, g, file, path, doc, patching);
      && r.state.contents == st.contents[path := Read(doc, "intro")]
      && r.state.bundle == st.bundle && r.state.parsed == st.parsed
      && (!patching || (path in st.bundle && st.bundle[path] == Read(doc, "intro")) ==> r.ok && r.state.dirty == st.dirty)
      && (patching && path in st.bundle && st.bundle[path] != Read(doc, "intro") && r.ok ==>
            && r.state.dirty.Keys == st.dirty.Keys + {g.path + file}
            && Read(r.state.dirty[g.path + file], "intro") == st.bundle[path]
            && forall other :: other != "intro" ==> TextOf(r.state.dirty[g.path + file], other) == TextOf(doc, other))
  {
    if patching && path in st.bundle && st.bundle[path] != Read(doc, "intro") && HasText(doc, "intro") {
      ReadAfterSet(doc, "intro", st.bundle[path]);
      forall other | other != "intro"
        ensures TextOf(SetText(doc, "intro", st.bundle[path]), other) == TextOf(doc, other)
      {
        SetTextOnlyThere(doc, "intro", st.bundle[path], other);
      }
    }
  }

  /** Patching without a bundle entry for the path overwrites the intro with
      the text `undefined`, and fails when the intro has no text node. */
  lemma ExtractWithoutBundle(st: State, g: Group, file: string, number: int, index: Option<int>, name: string, doc: Document)
    requires BundlePath(number, index, name, FirstAttribute(doc, "activity", "modulename"), Read(doc, "introformat")) !in st.bundle
    ensures var r := ExtractContent(st, g, file, number, index, name, doc, true);
      && (r.ok <==> HasText(doc, "intro"))
      && (r.ok ==> Read(r.state.dirty[g.path + file], "intro") == "undefined")
  {
    if HasText(doc, "intro") {
      ReadAfterSet(doc, "intro", "undefined");
    }
  }

  /** The intro edit does not survive a later change to another field of the
      same file: `patch` edits the cached parse, which never saw the intro
      edit, and records that document in its place. */
  lemma IntroEditLost(st: State, g: Group, file: string, number: int, index: Option<int>, name: string,
                      element: string, value: Cell, lib: Library)
    requires file in g.files && (g.path, file) !in st.parsed && element != "intro"
    requires var doc := lib.parseXml(g.files[file]);
      var e := ExtractContent(st, g, file, number, index, name, doc, true);
      e.ok && e.state.dirty != st.dirty
    requires var doc := lib.parseXml(g.files[file]);
      var e := ExtractContent(st, g, file, number, index, name, doc, true);
      Truthy(value) && Encode(value).Some? && TextOf(doc, element) != Encode(value)
      && WriteField(e.state, g, file, element, value, lib).ok
    ensures var doc := lib.parseXml(g.files[file]);
      var e := ExtractContent(st, g, file, number, index, name, doc, true);
      var r := Patch(e.state, g, file, element, value, lib).state;
      TextOf(r.dirty[g.path + file], "intro") == TextOf(doc, "intro")
  {
    var doc := lib.parseXml(g.files[file]);
    var path := BundlePath(number, index, name, FirstAttribute(doc, "activity", "modulename"), Read(doc, "introformat"));
    assert ExtractContent(st, g, file, number, index, name, doc, true) == IntroAt(st, g, file, path, doc, true);
    IntroAtLost(st, g, file, path, doc, element, value, lib);
  }

  lemma IntroAtLost(st: State, g: Group, file: string, path: string, doc: Document, element: string, value: Cell, lib: Library)
    requires file in g.files && (g.path, file) !in st.parsed && element != "intro" && doc == lib.parseXml(g.files[file])
    requires var e := IntroAt(st, g, file, path, doc, true);
      && e.ok && e.state.dirty != st.dirty
      && Truthy(value) && Encode(value).Some? && TextOf(doc, element) != Encode(value)
      && WriteField(e.state, g, file, element, value, lib).ok
    ensures var r := Patch(IntroAt(st, g, file, path, doc, true).state, g, file, element, value, lib).state;
      TextOf(r.dirty[g.path + file], "intro") == TextOf(doc, "intro")
  {
    var e := IntroAt(st, g, file, path, doc, true);
    assert e.state.parsed == st.parsed;
    assert Cached(e.state, g, file, lib) == Some(doc);
    WriteFieldEffect(e.state, g, file, element, value, lib);
  }

  // ------------------------------------------------------------ field lists

  /** The fields a kind's file has patched, as (element, sheet column) pairs
      in the order of the calls (src/magic.js:355-358, 368-370, 378;
      main.js:221-224, 234-236, 243). */
  function FieldsOf(k: Kind): seq<(string, string)> {
    match k
    case Label => []
    case Assign => [("allowsubmissionsfromdate", "allowsubmissionsfromdate"), ("duedate", "duedate"),
                    ("cutoffdate", "cutoffdate"), ("name", "name")]
    case Quiz => [("timeopen", "allowsubmissionsfromdate"), ("timeclose", "duedate"), ("name", "name")]
    case Other(_) => [("name", "name")]
  }

  /** Consecutive `patch` calls on one file, stopping at the first that
      throws; `guarded` selects src/magic.js's `patch` over main.js's. */
  function PatchAll(st: State, g: Group, file: string, fields: seq<(string, string)>, row: SheetRow, guarded: bool, lib: Library): Step
    decreases |fields|
  {
    if |fields| == 0 then Step(st, true)
    else
      var value := Field(row, fields[0].1);
      var s := if guarded then Patch(st, g, file, fields[0].0, value, lib) else WriteField(st, g, file, fields[0].0, value, lib);
      if !s.ok then s else PatchAll(s.state, g, file, fields[1..], row, guarded, lib)
  }

  /** Only the file being patched is ever recorded as edited, and the
      contents and the bundle are not touched. */
  lemma {:induction false} PatchAllConfined(st: State, g: Group, file: string, fields: seq<(string, string)>, row: SheetRow,
                                            guarded: bool, lib: Library)
    ensures var r := PatchAll(st, g, file, fields, row, guarded, lib).state;
      && r.dirty.Keys <= st.dirty.Keys + {g.path + file}
      && (forall k :: k in st.dirty && k != g.path + file ==> k in r.dirty && r.dirty[k] == st.dirty[k])
      && r.contents == st.contents && r.bundle == st.bundle
    decreases |fields|
  {
    if |fields| > 0 {
      var value := Field(row, fields[0].1);
      var s := if guarded then Patch(st, g, file, fields[0].0, value, lib) else WriteField(st, g, file, fields[0].0, value, lib);
      WriteFieldFrame(st, g, file, fields[0].0, value, lib);
      assert OnlyTouches(st, s.state, g.path + file);
      if s.ok {
        PatchAllConfined(s.state, g, file, fields[1..], row, guarded, lib);
        assert PatchAll(st, g, file, fields, row, guarded, lib) == PatchAll(s.state, g, file, fields[1..], row, guarded, lib);
        OnlyTouchesTrans(st, s.state, PatchAll(s.state, g, file, fields[1..], row, guarded, lib).state, g.path + file);
      }
    }
  }

  /** r differs from st at most in the dirty entry under key. */
  ghost predicate OnlyTouches(st: State, r: State, key: string) {
    && r.dirty.Keys <= st.dirty.Keys + {key}
    && (forall k :: k in st.dirty && k != key ==> k in r.dirty && r.dirty[k] == st.dirty[k])
    && r.contents == st.contents && r.bundle == st.bundle
  }

  lemma OnlyTouchesTrans(a: State, b: State, c: State, key: string)
    requires OnlyTouches(a, b, key) && OnlyTouches(b, c, key)
    ensures OnlyTouches(a, c, key)
  {
  }

  /** `patch` touches nothing but the edit of its file and the cached parse
      of that file. */
  lemma WriteFieldFrame(st: State, g: Group, file: string, element: string, value: Cell, lib: Library)
    ensures OnlyTouches(st, WriteField(st, g, file, element, value, lib).state, g.path + file)
    ensures OnlyTouches(st, Patch(st, g, file, element, value, lib).state, g.path + file)
    ensures WriteField(st, g, file, element, value, lib).state.parsed.Keys <= st.parsed.Keys + {(g.path, file)}
  {
    var r := WriteField(st, g, file, element, value, lib).state;
    match Cached(st, g, file, lib)
    case None =>
    case Some(doc) =>
      var cached := st.(parsed := st.parsed[(g.path, file) := doc]);
      if FirstIndex(doc, element).None? {
        assert r == cached;
      } else {
        match Encode(value)
        case None =>
          assert r == cached;
        case Some(t) =>
          if !HasText(doc, element) || TextOf(doc, element).value == t {
            assert r == cached;
          } else {
            var edited := SetText(doc, element, t);
            assert r == st.(dirty := st.dirty[g.path + file := edited], parsed := st.parsed[(g.path, file) := edited]);
          }
      }
      assert r.parsed.Keys <= st.parsed.Keys + {(g.path, file)};
  }
}
