/** The engine of src/magic.js: `processPatchFile` and `processBackup` with the
    module-level state they share. The run is specified by functions over
    Registry.State (SectionVisit ... Run); the class Engine holds that state in
    fields and its methods are proved to follow those functions. */
module Magic {
  import opened Wrappers
  import opened JsText
  import opened Xml
  import opened JsonModel
  import opened Codecs
  import opened Availability
  import opened Sheet
  import opened Course
  import opened Output
  import opened Registry

  /** What `processBackup` returns: the sheet (with the content bundle when
      `--files` is given), the patched archive, or `undefined` after the outer
      `catch`. */
  datatype Outcome =
    | Exported(name: string, rows: seq<Row>, bundle: Option<map<string, string>>)
    | Patched(name: string, entries: seq<OutEntry>)
    | Failed

  // ------------------------------------------------------------- sections

  /** One turn of the sections loop (src/magic.js:292-313): the row needs
      section.xml; in patch mode the section's availability and name are
      patched. */
  function SectionVisit(st: State, id: string, g: Group, patchData: Option<PatchSet>, lib: Library): Step {
    if "section.xml" !in g.files then Step(st, false)
    else if patchData.None? then Step(st, true)
    else
      var data := lib.parseXml(g.files["section.xml"]);
      var current := Decode(lib.parseJson(Read(data, "availabilityjson")));
      var a := PatchAvailability(st, g, data, "section.xml", "availabilityjson", patchData, id, current, lib);
      if !a.ok then a
      else Patch(a.state, g, "section.xml", "name", Field(PatchRow(patchData.value, id), "name"), lib)
  }

  /** The sections loop over ids in Map order, stopping at the first throw. */
  function SectionsVisit(st: State, order: seq<string>, groups: map<string, Group>, patchData: Option<PatchSet>, lib: Library): Step {
    if |order| == 0 then Step(st, true)
    else
      var s := SectionsVisit(st, order[..|order| - 1], groups, patchData, lib);
      var id := order[|order| - 1];
      if !s.ok then s
      else if id !in groups then Step(s.state, false)
      else SectionVisit(s.state, id, groups[id], patchData, lib)
  }

  /** The section rows and the `sections` map entries the activities look up. */
  function SectionsIndexed(order: seq<string>, groups: map<string, Group>, lib: Library): Option<(seq<Ranked>, map<string, SectionInfo>)> {
    if |order| == 0 then Some(([], map[]))
    else
      var before :- SectionsIndexed(order[..|order| - 1], groups, lib);
      var id := order[|order| - 1];
      if id !in groups then None
      else
        var e :- SectionEntry(id, groups[id], lib);
        Some((before.0 + [e.0], before.1[id := e.1]))
  }

  // ----------------------------------------------------------- activities

  /** One turn of the activities loop (src/magic.js:315-382): module.xml and
      the section are needed; the availability is patched through module.xml
      (read from the fresh parse), then `completionexpected`; the kind file is
      needed; label and assign intros go to the bundle, and the kind's fields
      are patched. */
  function ActivityVisit(st: State, id: string, g: Group, infos: map<string, SectionInfo>, patchData: Option<PatchSet>, lib: Library): Step {
    if "module.xml" !in g.files then Step(st, false)
    else
      var m := lib.parseXml(g.files["module.xml"]);
      match Place(m, infos)
      case None => Step(st, false)
      case Some(place) =>
        var current := Decode(lib.parseJson(Read(m, "availability")));
        var a := PatchAvailability(st, g, m, "module.xml", "availability", patchData, id, current, lib);
        var c := if !a.ok || patchData.None? then a
                 else Patch(a.state, g, "module.xml", "completionexpected", Field(PatchRow(patchData.value, id), "completionexpected"), lib);
        if !c.ok then c
        else
          var kind := KindOf(g.files, Read(m, "modulename"));
          var file := FileOf(kind);
          if file !in g.files then Step(c.state, false)
          else
            var doc := lib.parseXml(g.files[file]);
            var e := if kind.Label? || kind.Assign? then ExtractContent(c.state, g, file, place.position, place.index, Read(doc, "name"), doc, patchData.Some?)
                     else c;
            if !e.ok || patchData.None? then e
            else PatchAll(e.state, g, file, FieldsOf(kind), PatchRow(patchData.value, id), true, lib)
  }

  function ActivitiesVisit(st: State, order: seq<string>, groups: map<string, Group>, infos: map<string, SectionInfo>,
                           patchData: Option<PatchSet>, lib: Library): Step {
    if |order| == 0 then Step(st, true)
    else
      var s := ActivitiesVisit(st, order[..|order| - 1], groups, infos, patchData, lib);
      var id := order[|order| - 1];
      if !s.ok then s
      else if id !in groups then Step(s.state, false)
      else ActivityVisit(s.state, id, groups[id], infos, patchData, lib)
  }

  function ActivitiesIndexed(order: seq<string>, groups: map<string, Group>, infos: map<string, SectionInfo>, lib: Library): Option<seq<Ranked>> {
    if |order| == 0 then Some([])
    else
      var before :- ActivitiesIndexed(order[..|order| - 1], groups, infos, lib);
      var id := order[|order| - 1];
      if id !in groups then None
      else
        var r :- ActivityEntry(id, groups[id], infos, lib);
        Some(before + [r])
  }

  // ------------------------------------------------------------------ run

  /** `processBackup` (src/magic.js:247-463) from the state `st0` the previous
      runs left: `patchedFiles` starts empty, `contents` and `patchContents`
      carry over. */
  function Run(st0: State, items: seq<Item>, filename: string, withFiles: bool, patchData: Option<PatchSet>, lib: Library): (State, Outcome) {
    var st := st0.(dirty := map[], parsed := map[]);
    var (acts, secs) := Grouped(items, lib);
    var s := SectionsVisit(st, secs.order, secs.groups, patchData, lib);
    if !s.ok then (s.state, Failed)
    else
      match SectionsIndexed(secs.order, secs.groups, lib)
      case None => (s.state, Failed)
      case Some(indexed) =>
        var a := ActivitiesVisit(s.state, acts.order, acts.groups, indexed.1, patchData, lib);
        if !a.ok then (a.state, Failed)
        else
          match ActivitiesIndexed(acts.order, acts.groups, indexed.1, lib)
          case None => (a.state, Failed)
          case Some(arows) =>
            var rows := ExportRows(indexed.0 + arows);
            if patchData.None? then
              var name := ExportName(filename);
              (a.state, if withFiles then Exported(BundleName(name), rows, Some(a.state.contents)) else Exported(name, rows, None))
            else (a.state, Patched(PatchedArchiveName(filename), Assembled(items, a.state.dirty, lib.serializeXml)))
  }

  // ---------------------------------------------------------- patch sheet

  /** `--files`: the bundle entries a zip patch file adds to `patchContents`
      (every entry but a root-level `.xlsx`; a later entry with the same name
      wins). */
  function Unzipped(bundle: map<string, string>, entries: seq<Item>, lib: Library): map<string, string> {
    if |entries| == 0 then bundle
    else
      var before := Unzipped(bundle, entries[..|entries| - 1], lib);
      var e := entries[|entries| - 1];
      if IsRootSheet(e.name) then before else before[e.name := lib.decodeText(e.data)]
  }

  /** `entryName.indexOf('/') < 0 && entryName.endsWith('.xlsx')` */
  predicate IsRootSheet(name: string) {
    '/' !in name && EndsWith(name, ".xlsx")
  }

  /** A bundle entry holds the text of the last zip entry with its name; the
      sheet itself never becomes a bundle entry; earlier entries survive. */
  lemma {:induction false} UnzippedFacts(bundle: map<string, string>, entries: seq<Item>, lib: Library, i: int)
    requires 0 <= i < |entries| && !IsRootSheet(entries[i].name)
    requires forall j :: i < j < |entries| ==> entries[j].name != entries[i].name
    ensures entries[i].name in Unzipped(bundle, entries, lib)
    ensures Unzipped(bundle, entries, lib)[entries[i].name] == lib.decodeText(entries[i].data)
    decreases |entries|
  {
    if i < |entries| - 1 {
      UnzippedFacts(bundle, entries[..|entries| - 1], lib, i);
    }
  }

  lemma {:induction false} UnzippedKeeps(bundle: map<string, string>, entries: seq<Item>, lib: Library)
    ensures bundle.Keys <= Unzipped(bundle, entries, lib).Keys
    ensures forall k :: k in Unzipped(bundle, entries, lib) && k !in bundle ==>
      exists j :: 0 <= j < |entries| && entries[j].name == k && !IsRootSheet(k)
    decreases |entries|
  {
    if |entries| > 0 {
      UnzippedKeeps(bundle, entries[..|entries| - 1], lib);
      var e := entries[|entries| - 1];
      forall k | k in Unzipped(bundle, entries, lib) && k !in bundle
        ensures exists j :: 0 <= j < |entries| && entries[j].name == k && !IsRootSheet(k)
      {
        if k == e.name && !IsRootSheet(e.name) {
          assert entries[|entries| - 1].name == k;
        } else {
          var j :| 0 <= j < |entries| - 1 && entries[..|entries| - 1][j].name == k && !IsRootSheet(k);
          assert entries[j].name == k;
        }
      }
    }
  }

  /** Whether the zip holds a root-level sheet. */
  predicate HasRootSheet(entries: seq<Item>) {
    exists j :: 0 <= j < |entries| && IsRootSheet(entries[j].name)
  }

  // ---------------------------------------------------------------- engine

  /** The module-level state of src/magic.js (lines 21, 159-160) with the parse
      caches of the current run. */
  class Engine {
    var dirty: map<string, Document>
    var parsed: map<(string, string), Document>
    var contents: map<string, string>
    var bundle: map<string, string>

    function Snapshot(): State
      reads this
    {
      State(dirty, parsed, contents, bundle)
    }

    /** The state when the module is loaded. */
    constructor()
      ensures Snapshot() == State(map[], map[], map[], map[])
    {
      dirty, parsed, contents, bundle := map[], map[], map[], map[];
    }

    /** `patch` (src/magic.js:27-69). */
    method Patch(g: Group, file: string, element: string, value: Cell, lib: Library) returns (ok: bool)
      modifies this
      ensures Step(Snapshot(), ok) == Registry.Patch(old(Snapshot()), g, file, element, value, lib)
    {
      if !Truthy(value) {
        return true;
      }
      ok := WriteField(g, file, element, value, lib);
    }

    /** The part of `patch` after the falsy guard (src/magic.js:32-68). */
    method WriteField(g: Group, file: string, element: string, value: Cell, lib: Library) returns (ok: bool)
      modifies this
      ensures Step(Snapshot(), ok) == Registry.WriteField(old(Snapshot()), g, file, element, value, lib)
    {
      ghost var st := Snapshot();
      var doc: Document;
      if (g.path, file) in parsed {
        doc := parsed[(g.path, file)];
      } else if file in g.files {
        doc := lib.parseXml(g.files[file]);
      } else {
        return false;
      }
      assert Cached(st, g, file, lib) == Some(doc);
      parsed := parsed[(g.path, file) := doc];
      ghost var cached := Snapshot();
      assert cached == st.(parsed := st.parsed[(g.path, file) := doc]);
      var at := FirstIndex(doc, element);
      if at.None? {
        return false;
      }
      var text := Encode(value);
      if text.None? {
        return true;
      }
      var e := doc[at.value];
      assert TextOf(doc, element) == e.text;
      if e.text.None? {
        return false;
      }
      if e.text.value != text.value {
        ghost var edited := SetText(doc, element, text.value);
        doc := doc[at.value := e.(text := text)];
        assert doc == edited;
        assert parsed[(g.path, file) := doc] == st.parsed[(g.path, file) := edited];
        parsed := parsed[(g.path, file) := doc];
        dirty := dirty[g.path + file := doc];
      }
      return true;
    }

    /** `patchAvailability` (src/magic.js:113-157). */
    method PatchAvailability(g: Group, doc: Document, file: string, field: string, patchData: Option<PatchSet>,
                             id: string, current: Window, lib: Library) returns (ok: bool)
      modifies this
      ensures Step(Snapshot(), ok) == Registry.PatchAvailability(old(Snapshot()), g, doc, file, field, patchData, id, current, lib)
    {
      if patchData.None? {
        return true;
      }
      var p := PatchRow(patchData.value, id);
      var from := DateOf(Field(p, "availableFrom"));
      var to := DateOf(Field(p, "availableTo"));
      if !Differs(from, to, current) {
        return true;
      }
      var edited := Edit(lib.parseJson(Read(doc, field)), from, to);
      if edited.None? {
        return false;
      }
      ok := Patch(g, file, field, Text(lib.stringifyJson(edited.value)), lib);
    }

    /** `extractAndPatchContent` (src/magic.js:162-178). */
    method ExtractAndPatchContent(g: Group, file: string, number: int, index: Option<int>, name: string, doc: Document,
                                  patching: bool) returns (ok: bool)
      modifies this
      ensures Step(Snapshot(), ok) == ExtractContent(old(Snapshot()), g, file, number, index, name, doc, patching)
    {
      ghost var st := Snapshot();
      var path := BundlePath(number, index, name, FirstAttribute(doc, "activity", "modulename"), Read(doc, "introformat"));
      assert ExtractContent(st, g, file, number, index, name, doc, patching) == IntroAt(st, g, file, path, doc, patching);
      var intro := Read(doc, "intro");
      var stored := if path in bundle then Some(bundle[path]) else None;
      contents := contents[path := intro];
      assert Snapshot() == st.(contents := st.contents[path := intro]);
      if !patching || stored == Some(intro) {
        return true;
      }
      if !HasText(doc, "intro") {
        return false;
      }
      var text := if stored.Some? then stored.value else "undefined";
      dirty := dirty[g.path + file := SetText(doc, "intro", text)];
      return true;
    }

    /** One section (src/magic.js:292-313). */
    method IndexSection(id: string, g: Group, patchData: Option<PatchSet>, lib: Library) returns (ok: bool)
      modifies this
      ensures Step(Snapshot(), ok) == SectionVisit(old(Snapshot()), id, g, patchData, lib)
    {
      if "section.xml" !in g.files {
        return false;
      }
      if patchData.None? {
        return true;
      }
      var data := lib.parseXml(g.files["section.xml"]);
      var current := Decode(lib.parseJson(Read(data, "availabilityjson")));
      ok := PatchAvailability(g, data, "section.xml", "availabilityjson", patchData, id, current, lib);
      if !ok {
        return;
      }
      ok := Patch(g, "section.xml", "name", Field(PatchRow(patchData.value, id), "name"), lib);
    }

    /** The kind's field patches of one activity (src/magic.js:354-358,
        367-371, 377-379). */
    method PatchKindFields(g: Group, file: string, kind: Kind, row: SheetRow, lib: Library) returns (ok: bool)
      modifies this
      ensures Step(Snapshot(), ok) == PatchAll(old(Snapshot()), g, file, FieldsOf(kind), row, true, lib)
    {
      var fields := FieldsOf(kind);
      if kind.Label? {
        return true;
      }
      ghost var s := Snapshot();
      PatchAllUnfold(s, g, file, fields, row, lib);
      ok := Patch(g, file, fields[0].0, Field(row, fields[0].1), lib);
      if !ok || |fields| == 1 {
        return;
      }
      s := Snapshot();
      PatchAllUnfold(s, g, file, fields[1..], row, lib);
      ok := Patch(g, file, fields[1].0, Field(row, fields[1].1), lib);
      if !ok || |fields| == 2 {
        return;
      }
      s := Snapshot();
      PatchAllUnfold(s, g, file, fields[2..], row, lib);
      assert fields[1..][1..] == fields[2..];
      ok := Patch(g, file, fields[2].0, Field(row, fields[2].1), lib);
      if !ok || |fields| == 3 {
        return;
      }
      s := Snapshot();
      PatchAllUnfold(s, g, file, fields[3..], row, lib);
      assert fields[2..][1..] == fields[3..];
      ok := Patch(g, file, fields[3].0, Field(row, fields[3].1), lib);
    }

    /** One activity (src/magic.js:315-382). */
    method IndexActivity(id: string, g: Group, infos: map<string, SectionInfo>, patchData: Option<PatchSet>, lib: Library)
      returns (ok: bool)
      modifies this
      ensures Step(Snapshot(), ok) == ActivityVisit(old(Snapshot()), id, g, infos, patchData, lib)
    {
      if "module.xml" !in g.files {
        return false;
      }
      var m := lib.parseXml(g.files["module.xml"]);
      var place := Place(m, infos);
      if place.None? {
        return false;
      }
      var current := Decode(lib.parseJson(Read(m, "availability")));
      ok := PatchAvailability(g, m, "module.xml", "availability", patchData, id, current, lib);
      if !ok {
        return;
      }
      if patchData.Some? {
        ok := Patch(g, "module.xml", "completionexpected", Field(PatchRow(patchData.value, id), "completionexpected"), lib);
        if !ok {
          return;
        }
      }
      var kind := KindOf(g.files, Read(m, "modulename"));
      var file := FileOf(kind);
      if file !in g.files {
        return false;
      }
      var doc := lib.parseXml(g.files[file]);
      if kind.Label? || kind.Assign? {
        ok := ExtractAndPatchContent(g, file, place.value.position, place.value.index, Read(doc, "name"), doc, patchData.Some?);
        if !ok {
          return;
        }
      }
      if patchData.Some? {
        ok := PatchKindFields(g, file, kind, PatchRow(patchData.value, id), lib);
      }
    }

    /** `processPatchFile` (src/magic.js:193-245): with `--files` the zip's
        entries other than the root-level sheet go to `patchContents`, and a
        zip without such a sheet ends the process; then the sheet rows (as the
        spreadsheet library decodes them) are validated. */
    method ProcessPatchFile(zip: Option<seq<Item>>, rows: seq<SheetRow>, toDate: Cell -> Option<int>, lib: Library)
      returns (r: Option<PatchSet>)
      modifies this
      ensures zip.Some? ==> bundle == Unzipped(old(bundle), zip.value, lib)
      ensures zip.None? ==> bundle == old(bundle)
      ensures dirty == old(dirty) && parsed == old(parsed) && contents == old(contents)
      ensures zip.Some? && !HasRootSheet(zip.value) ==> r.None?
      ensures r.Some? <==> (zip.None? || HasRootSheet(zip.value)) && forall i :: 0 <= i < |rows| ==> !RowRejected(rows[i], toDate)
      ensures r.Some? ==> r.value == Keyed(CoerceRows(rows, toDate))
    {
      if zip.Some? {
        var entries := zip.value;
        var found := false;
        for i := 0 to |entries|
          invariant bundle == Unzipped(old(bundle), entries[..i], lib)
          invariant found <==> exists j :: 0 <= j < i && IsRootSheet(entries[j].name)
          invariant dirty == old(dirty) && parsed == old(parsed) && contents == old(contents)
        {
          assert entries[..i + 1][..i] == entries[..i];
          if IsRootSheet(entries[i].name) {
            found := true;
          } else {
            bundle := bundle[entries[i].name := lib.decodeText(entries[i].data)];
          }
        }
        assert entries[..|entries|] == entries;
        if !found {
          return None;
        }
      }
      r := ValidateLenient(rows, toDate);
    }

    /** The sections loop (src/magic.js:291-313). */
    method IndexSections(order: seq<string>, groups: map<string, Group>, patchData: Option<PatchSet>, lib: Library)
      returns (ok: bool, ranked: seq<Ranked>, infos: map<string, SectionInfo>)
      requires forall i :: 0 <= i < |order| ==> order[i] in groups
      modifies this
      ensures Step(Snapshot(), ok) == SectionsVisit(old(Snapshot()), order, groups, patchData, lib)
      ensures ok ==> SectionsIndexed(order, groups, lib) == Some((ranked, infos))
    {
      ghost var start := Snapshot();
      ranked, infos := [], map[];
      for i := 0 to |order|
        invariant SectionsVisit(start, order[..i], groups, patchData, lib) == Step(Snapshot(), true)
        invariant SectionsIndexed(order[..i], groups, lib) == Some((ranked, infos))
      {
        var id := order[i];
        assert order[..i + 1][..i] == order[..i];
        ok := IndexSection(id, groups[id], patchData, lib);
        if !ok {
          SectionsVisitStops(start, order, groups, patchData, lib, i + 1);
          return;
        }
        var entry := SectionEntry(id, groups[id], lib).value;
        ranked, infos := ranked + [entry.0], infos[id := entry.1];
      }
      assert order[..|order|] == order;
      ok := true;
    }

    /** The activities loop (src/magic.js:315-382). */
    method IndexActivities(order: seq<string>, groups: map<string, Group>, infos: map<string, SectionInfo>,
                           patchData: Option<PatchSet>, lib: Library) returns (ok: bool, ranked: seq<Ranked>)
      requires forall i :: 0 <= i < |order| ==> order[i] in groups
      modifies this
      ensures Step(Snapshot(), ok) == ActivitiesVisit(old(Snapshot()), order, groups, infos, patchData, lib)
      ensures ok ==> ActivitiesIndexed(order, groups, infos, lib) == Some(ranked)
    {
      ghost var start := Snapshot();
      ranked := [];
      for i := 0 to |order|
        invariant ActivitiesVisit(start, order[..i], groups, infos, patchData, lib) == Step(Snapshot(), true)
        invariant ActivitiesIndexed(order[..i], groups, infos, lib) == Some(ranked)
      {
        var id := order[i];
        ActivitiesSnoc(start, order, groups, infos, patchData, lib, i);
        ghost var before := Snapshot();
        ok := IndexActivity(id, groups[id], infos, patchData, lib);
        if !ok {
          ActivitiesVisitStops(start, order, groups, infos, patchData, lib, i + 1);
          return;
        }
        ActivityVisitHasRow(before, id, groups[id], infos, patchData, lib);
        ranked := ranked + [ActivityEntry(id, groups[id], infos, lib).value];
      }
      assert order[..|order|] == order;
      ok := true;
    }

    /** `processBackup` (src/magic.js:247-463). */
    method ProcessBackup(items: seq<Item>, filename: string, withFiles: bool, patchData: Option<PatchSet>, lib: Library)
      returns (out: Outcome)
      modifies this
      ensures (Snapshot(), out) == Run(old(Snapshot()), items, filename, withFiles, patchData, lib)
    {
      dirty, parsed := map[], map[];
      var activities, sections := GroupItems(items, lib);
      GroupedWellFormed(items, lib);
      var ok, ranked, infos := IndexSections(sections.order, sections.groups, patchData, lib);
      if !ok {
        return Failed;
      }
      var arows;
      ok, arows := IndexActivities(activities.order, activities.groups, infos, patchData, lib);
      if !ok {
        return Failed;
      }
      var rows := ExportRows(ranked + arows);
      if patchData.None? {
        var name := ExportName(filename);
        if withFiles {
          return Exported(BundleName(name), rows, Some(contents));
        }
        return Exported(name, rows, None);
      }
      var entries := Assemble(items, dirty, lib.serializeXml);
      return Patched(PatchedArchiveName(filename), entries);
    }
  }

  // --------------------------------------------------------------- lemmas

  /** Once the sections loop has thrown, the rest is not visited. */
  lemma {:induction false} SectionsVisitStops(st: State, order: seq<string>, groups: map<string, Group>,
                                              patchData: Option<PatchSet>, lib: Library, k: int)
    requires 0 <= k <= |order| && !SectionsVisit(st, order[..k], groups, patchData, lib).ok
    ensures SectionsVisit(st, order, groups, patchData, lib) == SectionsVisit(st, order[..k], groups, patchData, lib)
    decreases |order| - k
  {
    if k < |order| {
      assert order[..|order| - 1][..k] == order[..k];
      SectionsVisitStops(st, order[..|order| - 1], groups, patchData, lib, k);
    } else {
      assert order[..k] == order;
    }
  }

  lemma {:induction false} ActivitiesVisitStops(st: State, order: seq<string>, groups: map<string, Group>,
                                                infos: map<string, SectionInfo>, patchData: Option<PatchSet>, lib: Library, k: int)
    requires 0 <= k <= |order| && !ActivitiesVisit(st, order[..k], groups, infos, patchData, lib).ok
    ensures ActivitiesVisit(st, order, groups, infos, patchData, lib) == ActivitiesVisit(st, order[..k], groups, infos, patchData, lib)
    decreases |order| - k
  {
    if k < |order| {
      assert order[..|order| - 1][..k] == order[..k];
      ActivitiesVisitStops(st, order[..|order| - 1], groups, infos, patchData, lib, k);
    } else {
      assert order[..k] == order;
    }
  }

  /** One more turn of the activities loop. */
  lemma ActivitiesSnoc(st: State, order: seq<string>, groups: map<string, Group>, infos: map<string, SectionInfo>,
                       patchData: Option<PatchSet>, lib: Library, i: int)
    requires 0 <= i < |order| && order[i] in groups
    ensures var s := ActivitiesVisit(st, order[..i], groups, infos, patchData, lib);
      ActivitiesVisit(st, order[..i + 1], groups, infos, patchData, lib)
        == if !s.ok then s else ActivityVisit(s.state, order[i], groups[order[i]], infos, patchData, lib)
    ensures var r := ActivitiesIndexed(order[..i], groups, infos, lib);
      ActivitiesIndexed(order[..i + 1], groups, infos, lib)
        == if r.None? then None else match ActivityEntry(order[i], groups[order[i]], infos, lib)
             case None => None
             case Some(e) => Some(r.value + [e])
  {
    assert order[..i + 1][..i] == order[..i];
  }

  /** One step of PatchAll. */
  lemma PatchAllUnfold(st: State, g: Group, file: string, fields: seq<(string, string)>, row: SheetRow, lib: Library)
    requires |fields| > 0
    ensures var s := Patch(st, g, file, fields[0].0, Field(row, fields[0].1), lib);
      PatchAll(st, g, file, fields, row, true, lib) == if !s.ok then s else PatchAll(s.state, g, file, fields[1..], row, true, lib)
  {
  }

  /** An activity the loop got through has a row. */
  lemma ActivityVisitHasRow(st: State, id: string, g: Group, infos: map<string, SectionInfo>, patchData: Option<PatchSet>, lib: Library)
    requires ActivityVisit(st, id, g, infos, patchData, lib).ok
    ensures ActivityEntry(id, g, infos, lib).Some?
  {
  }
}
