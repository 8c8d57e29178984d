/** main.js, the older single-file variant of the tool: one run per process,
    the sections are only read, the sheet is checked strictly, activities are
    patched through main.js's unguarded `patch` and there is no content
    bundle. The run is specified by MainRun; the class Script holds the state
    (`patchedFiles` and the activities' `parsed` caches) and its methods are
    proved to follow it. */
module Script {
  import opened Wrappers
  import opened JsText
  import opened Xml
  import opened Codecs
  import opened Availability
  import opened Sheet
  import opened Course
  import opened Output
  import opened Registry
  import opened Magic
  import opened Runs

  /** The state when main.js starts: nothing edited, nothing parsed. */
  const Start: State := State(map[], map[], map[], map[])

  // ----------------------------------------------------------- activities

  /** One turn of main.js's activities loop (lines 129-247): module.xml and
      the section are needed; in patch mode the availability is rewritten
      (lines 161-201), a truthy `completionexpected` is written (line 209-211),
      and the kind's fields are written by the unguarded `patch`; the kind
      file is needed in either mode. */
  function MainActivityVisit(st: State, id: string, g: Group, infos: map<string, SectionInfo>, patchData: Option<PatchSet>,
                             lib: Library): Step {
    if "module.xml" !in g.files then Step(st, false)
    else
      var m := lib.parseXml(g.files["module.xml"]);
      if Place(m, infos).None? then Step(st, false)
      else
        var current := Decode(lib.parseJson(Read(m, "availability")));
        var a := if patchData.None? then Step(st, true) else MainPatchAvailability(st, g, m, patchData.value, id, current, lib);
        var c := if !a.ok || patchData.None? then a
                 else Patch(a.state, g, "module.xml", "completionexpected", Field(PatchRow(patchData.value, id), "completionexpected"), lib);
        if !c.ok then c
        else
          var kind := KindOfMain(g.files, Read(m, "modulename"));
          var file := FileOf(kind);
          if file !in g.files then Step(c.state, false)
          else if patchData.None? then c
          else PatchAll(c.state, g, file, FieldsOf(kind), PatchRow(patchData.value, id), false, lib)
  }

  function MainActivitiesVisit(st: State, order: seq<string>, groups: map<string, Group>, infos: map<string, SectionInfo>,
                               patchData: Option<PatchSet>, lib: Library): Step {
    if |order| == 0 then Step(st, true)
    else
      var s := MainActivitiesVisit(st, order[..|order| - 1], groups, infos, patchData, lib);
      var id := order[|order| - 1];
      if !s.ok then s
      else if id !in groups then Step(s.state, false)
      else MainActivityVisit(s.state, id, groups[id], infos, patchData, lib)
  }

  function MainActivitiesIndexed(order: seq<string>, groups: map<string, Group>, infos: map<string, SectionInfo>, lib: Library): Option<seq<Ranked>> {
    if |order| == 0 then Some([])
    else
      var before :- MainActivitiesIndexed(order[..|order| - 1], groups, infos, lib);
      var id := order[|order| - 1];
      if id !in groups then None
      else
        var e :- MainActivityEntry(id, groups[id], infos, lib);
        Some(before + [e])
  }

  // ------------------------------------------------------------------ run

  /** main.js's sheet check (lines 119-126) passes. */
  predicate StrictlyValid(rows: seq<SheetRow>) {
    forall i :: 0 <= i < |rows| ==> !RowRejectedStrictly(rows[i])
  }

  /** A run of main.js on the archive `items` (named `filename`), with the
      rows of the patch sheet in patch mode: the sections are read (a section
      without section.xml throws), the sheet is checked, the activities are
      read and patched, then the sorted sheet or the patched archive is
      written. Returns the final state and what was written. */
  function MainRun(items: seq<Item>, filename: string, sheet: Option<seq<SheetRow>>, lib: Library): (State, Outcome) {
    var (acts, secs) := Grouped(items, lib);
    match SectionsIndexed(secs.order, secs.groups, lib)
    case None => (Start, Failed)
    case Some(indexed) =>
      if sheet.Some? && !StrictlyValid(sheet.value) then (Start, Failed)
      else MainFinish(items, filename, sheet, acts, indexed, lib)
  }

  /** The activities loop and the output, once the sections have rows and
      the sheet passed. */
  function MainFinish(items: seq<Item>, filename: string, sheet: Option<seq<SheetRow>>, acts: Index,
                      indexed: (seq<Ranked>, map<string, SectionInfo>), lib: Library): (State, Outcome) {
    var patchData := if sheet.None? then None else Some(Keyed(sheet.value));
    var a := MainActivitiesVisit(Start, acts.order, acts.groups, indexed.1, patchData, lib);
    if !a.ok then (a.state, Failed)
    else
      match MainActivitiesIndexed(acts.order, acts.groups, indexed.1, lib)
      case None => (a.state, Failed)
      case Some(arows) =>
        if sheet.None? then (a.state, Exported(ExportName(filename), ExportRows(indexed.0 + arows), None))
        else (a.state, Patched(PatchedArchiveName(filename), AssembledMain(items, a.state.dirty, lib.serializeXml)))
  }

  // ---------------------------------------------------------------- class

  class Script {
    /** `patchedFiles` */
    var dirty: map<string, Document>
    /** the `parsed` caches of the activities, by (path, file) */
    var parsed: map<(string, string), Document>

    function Snapshot(): State
      reads this
    {
      State(dirty, parsed, map[], map[])
    }

    constructor()
      ensures Snapshot() == Start
    {
      dirty, parsed := map[], map[];
    }

    /** `patch` of main.js (lines 14-41). */
    method Patch(g: Group, file: string, element: string, value: Cell, lib: Library) returns (ok: bool)
      modifies this
      ensures Step(Snapshot(), ok) == WriteField(old(Snapshot()), g, file, element, value, lib)
    {
      ghost var st := Snapshot();
      var doc: Document;
      if (g.path, file) in parsed {
        doc := parsed[(g.path, file)];
      } else if file in g.files {
        doc := lib.parseXml(g.files[file]);
      } else {
        return false;
      }
      assert Cached(st, g, file, lib) == Some(doc);
      parsed := parsed[(g.path, file) := doc];
      ghost var cached := Snapshot();
      assert cached == st.(parsed := st.parsed[(g.path, file) := doc]);
      var at := FirstIndex(doc, element);
      if at.None? {
        return false;
      }
      var text := Encode(value);
      if text.None? {
        return true;
      }
      var e := doc[at.value];
      assert TextOf(doc, element) == e.text;
      if e.text.None? {
        return false;
      }
      if e.text.value != text.value {
        ghost var edited := SetText(doc, element, text.value);
        doc := doc[at.value := e.(text := text)];
        assert doc == edited;
        assert parsed[(g.path, file) := doc] == st.parsed[(g.path, file) := edited];
        parsed := parsed[(g.path, file) := doc];
        dirty := dirty[g.path + file := doc];
      }
      return true;
    }

    /** The availability rewrite of main.js (lines 161-201). */
    method PatchAvailability(g: Group, m: Document, patchData: PatchSet, id: string, current: Window, lib: Library)
      returns (ok: bool)
      modifies this
      ensures Step(Snapshot(), ok) == MainPatchAvailability(old(Snapshot()), g, m, patchData, id, current, lib)
    {
      var p := PatchRow(patchData, id);
      var from := DateOf(Field(p, "availableFrom"));
      var to := DateOf(Field(p, "availableTo"));
      if !Differs(from, to, current) {
        return true;
      }
      var raw := Read(m, "availability");
      ok := Patch(g, "module.xml", "availability", Text(lib.stringifyJson(MainRewrite(raw, lib.parseJson(raw), from, to))), lib);
    }

    /** The kind's field writes (main.js:220-225, 233-237, 242-244), each
        through the unguarded `patch`. */
    method PatchKindFields(g: Group, file: string, kind: Kind, row: SheetRow, lib: Library) returns (ok: bool)
      modifies this
      ensures Step(Snapshot(), ok) == PatchAll(old(Snapshot()), g, file, FieldsOf(kind), row, false, lib)
    {
      var fields := FieldsOf(kind);
      if kind.Label? {
        return true;
      }
      ghost var s := Snapshot();
      WriteAllUnfold(s, g, file, fields, row, lib);
      ok := Patch(g, file, fields[0].0, Field(row, fields[0].1), lib);
      if !ok || |fields| == 1 {
        return;
      }
      s := Snapshot();
      WriteAllUnfold(s, g, file, fields[1..], row, lib);
      ok := Patch(g, file, fields[1].0, Field(row, fields[1].1), lib);
      if !ok || |fields| == 2 {
        return;
      }
      s := Snapshot();
      WriteAllUnfold(s, g, file, fields[2..], row, lib);
      assert fields[1..][1..] == fields[2..];
      ok := Patch(g, file, fields[2].0, Field(row, fields[2].1), lib);
      if !ok || |fields| == 3 {
        return;
      }
      s := Snapshot();
      WriteAllUnfold(s, g, file, fields[3..], row, lib);
      assert fields[2..][1..] == fields[3..];
      ok := Patch(g, file, fields[3].0, Field(row, fields[3].1), lib);
    }

    /** One activity (main.js:129-247). */
    method IndexActivity(id: string, g: Group, infos: map<string, SectionInfo>, patchData: Option<PatchSet>, lib: Library)
      returns (ok: bool)
      modifies this
      ensures Step(Snapshot(), ok) == MainActivityVisit(old(Snapshot()), id, g, infos, patchData, lib)
    {
      if "module.xml" !in g.files {
        return false;
      }
      var m := lib.parseXml(g.files["module.xml"]);
      if Place(m, infos).None? {
        return false;
      }
      var current := Decode(lib.parseJson(Read(m, "availability")));
      if patchData.Some? {
        ok := PatchAvailability(g, m, patchData.value, id, current, lib);
        if !ok {
          return;
        }
        var completion := Field(PatchRow(patchData.value, id), "completionexpected");
        if Truthy(completion) {
          ok := Patch(g, "module.xml", "completionexpected", completion, lib);
          if !ok {
            return;
          }
        }
      }
      var kind := KindOfMain(g.files, Read(m, "modulename"));
      var file := FileOf(kind);
      if file !in g.files {
        return false;
      }
      ok := true;
      if patchData.Some? {
        ok := PatchKindFields(g, file, kind, PatchRow(patchData.value, id), lib);
      }
    }

    /** The activities loop (main.js:129-247). */
    method IndexActivities(order: seq<string>, groups: map<string, Group>, infos: map<string, SectionInfo>,
                           patchData: Option<PatchSet>, lib: Library) returns (ok: bool, ranked: seq<Ranked>)
      requires forall i :: 0 <= i < |order| ==> order[i] in groups
      modifies this
      ensures Step(Snapshot(), ok) == MainActivitiesVisit(old(Snapshot()), order, groups, infos, patchData, lib)
      ensures ok ==> MainActivitiesIndexed(order, groups, infos, lib) == Some(ranked)
    {
      ghost var start := Snapshot();
      ranked := [];
      for i := 0 to |order|
        invariant MainActivitiesVisit(start, order[..i], groups, infos, patchData, lib) == Step(Snapshot(), true)
        invariant MainActivitiesIndexed(order[..i], groups, infos, lib) == Some(ranked)
      {
        var id := order[i];
        assert order[..i + 1][..i] == order[..i];
        ghost var before := Snapshot();
        ok := IndexActivity(id, groups[id], infos, patchData, lib);
        if !ok {
          MainActivitiesVisitStops(start, order, groups, infos, patchData, lib, i + 1);
          return;
        }
        MainActivityVisitHasRow(before, id, groups[id], infos, patchData, lib);
        ranked := ranked + [MainActivityEntry(id, groups[id], infos, lib).value];
      }
      assert order[..|order|] == order;
      ok := true;
    }

    /** The sections loop of main.js (lines 78-109): rows only. */
    method IndexSections(order: seq<string>, groups: map<string, Group>, lib: Library)
      returns (r: Option<(seq<Ranked>, map<string, SectionInfo>)>)
      requires forall i :: 0 <= i < |order| ==> order[i] in groups
      ensures r == SectionsIndexed(order, groups, lib)
    {
      var ranked: seq<Ranked> := [];
      var infos: map<string, SectionInfo> := map[];
      for i := 0 to |order|
        invariant SectionsIndexed(order[..i], groups, lib) == Some((ranked, infos))
      {
        var id := order[i];
        assert order[..i + 1][..i] == order[..i];
        var entry := SectionEntry(id, groups[id], lib);
        if entry.None? {
          SectionsIndexedStops(order, groups, lib, i + 1);
          return None;
        }
        ranked, infos := ranked + [entry.value.0], infos[id := entry.value.1];
      }
      assert order[..|order|] == order;
      return Some((ranked, infos));
    }

    /** The whole of main.js on a fresh process: `items` is the archive named
        `filename`, `sheet` the rows of the patch sheet in patch mode. */
    method ProcessArchive(items: seq<Item>, filename: string, sheet: Option<seq<SheetRow>>, lib: Library) returns (out: Outcome)
      requires Snapshot() == Start
      modifies this
      ensures (Snapshot(), out) == MainRun(items, filename, sheet, lib)
    {
      var activities, sections := GroupItems(items, lib);
      GroupedWellFormed(items, lib);
      var indexed := IndexSections(sections.order, sections.groups, lib);
      if indexed.None? {
        return Failed;
      }
      var patchData: Option<PatchSet> := None;
      if sheet.Some? {
        var checked := ValidateStrict(sheet.value);
        if checked.None? {
          return Failed;
        }
        patchData := checked;
      }
      out := Finish(items, filename, sheet, patchData, activities, indexed.value, lib);
    }

    /** The activities loop and the output (main.js:129-313). */
    method Finish(items: seq<Item>, filename: string, sheet: Option<seq<SheetRow>>, patchData: Option<PatchSet>, acts: Index,
                  indexed: (seq<Ranked>, map<string, SectionInfo>), lib: Library) returns (out: Outcome)
      requires Snapshot() == Start && WellFormed(acts, "activities")
      requires patchData == if sheet.None? then None else Some(Keyed(sheet.value))
      modifies this
      ensures (Snapshot(), out) == MainFinish(items, filename, sheet, acts, indexed, lib)
    {
      var ok, arows := IndexActivities(acts.order, acts.groups, indexed.1, patchData, lib);
      if !ok {
        return Failed;
      }
      if sheet.None? {
        return Exported(ExportName(filename), ExportRows(indexed.0 + arows), None);
      }
      var entries := AssembleMain(items, dirty, lib.serializeXml);
      return Patched(PatchedArchiveName(filename), entries);
    }
  }

  /** The output loop of main.js (lines 286-303). */
  method AssembleMain(items: seq<Item>, dirty: map<string, Document>, serialize: Document -> string) returns (out: seq<OutEntry>)
    ensures out == AssembledMain(items, dirty, serialize)
  {
    out := [];
    for i := 0 to |items|
      invariant |out| == i && forall k :: 0 <= k < i ==> out[k] == EmitMain(items[k], dirty, serialize)
    {
      var entry := items[i];
      if entry.name in dirty {
        out := out + [Serialized(entry.name, serialize(dirty[entry.name]))];
      } else {
        out := out + [Original(entry.name, entry.data)];
      }
    }
  }

  // --------------------------------------------------------------- lemmas

  /** One step of the unguarded PatchAll. */
  lemma WriteAllUnfold(st: State, g: Group, file: string, fields: seq<(string, string)>, row: SheetRow, lib: Library)
    requires |fields| > 0
    ensures var s := WriteField(st, g, file, fields[0].0, Field(row, fields[0].1), lib);
      PatchAll(st, g, file, fields, row, false, lib) == if !s.ok then s else PatchAll(s.state, g, file, fields[1..], row, false, lib)
  {
  }

  lemma {:induction false} MainActivitiesVisitStops(st: State, order: seq<string>, groups: map<string, Group>,
                                                    infos: map<string, SectionInfo>, patchData: Option<PatchSet>, lib: Library, k: int)
    requires 0 <= k <= |order| && !MainActivitiesVisit(st, order[..k], groups, infos, patchData, lib).ok
    ensures MainActivitiesVisit(st, order, groups, infos, patchData, lib) == MainActivitiesVisit(st, order[..k], groups, infos, patchData, lib)
    decreases |order| - k
  {
    if k < |order| {
      assert order[..|order| - 1][..k] == order[..k];
      MainActivitiesVisitStops(st, order[..|order| - 1], groups, infos, patchData, lib, k);
    } else {
      assert order[..k] == order;
    }
  }

  /** Once a section has no row, neither has the loop. */
  lemma {:induction false} SectionsIndexedStops(order: seq<string>, groups: map<string, Group>, lib: Library, k: int)
    requires 0 <= k <= |order| && SectionsIndexed(order[..k], groups, lib).None?
    ensures SectionsIndexed(order, groups, lib).None?
    decreases |order| - k
  {
    if k < |order| {
      assert order[..|order| - 1][..k] == order[..k];
      SectionsIndexedStops(order[..|order| - 1], groups, lib, k);
    } else {
      assert order[..k] == order;
    }
  }

  /** An activity main.js got through has a row. */
  lemma MainActivityVisitHasRow(st: State, id: string, g: Group, infos: map<string, SectionInfo>, patchData: Option<PatchSet>, lib: Library)
    requires MainActivityVisit(st, id, g, infos, patchData, lib).ok
    ensures MainActivityEntry(id, g, infos, lib).Some?
  {
  }

  // ------------------------------------------------------------ read mode

  lemma ReadActivityVisit(st: State, id: string, g: Group, infos: map<string, SectionInfo>, lib: Library)
    ensures MainActivityVisit(st, id, g, infos, None, lib) == Step(st, MainActivityEntry(id, g, infos, lib).Some?)
  {
    if "module.xml" in g.files {
      var m := lib.parseXml(g.files["module.xml"]);
      var kind := KindOfMain(g.files, Read(m, "modulename"));
      if FileOf(kind) in g.files {
        assert KindDoc(g.files, kind, lib).Some?;
      } else {
        assert KindDoc(g.files, kind, lib).None?;
      }
    }
  }

  lemma {:induction false} ReadActivitiesVisit(st: State, order: seq<string>, groups: map<string, Group>,
                                               infos: map<string, SectionInfo>, lib: Library)
    ensures MainActivitiesVisit(st, order, groups, infos, None, lib) == Step(st, MainActivitiesIndexed(order, groups, infos, lib).Some?)
    decreases |order|
  {
    if |order| > 0 {
      ReadActivitiesVisit(st, order[..|order| - 1], groups, infos, lib);
      var id := order[|order| - 1];
      if id in groups {
        ReadActivityVisit(st, id, groups[id], infos, lib);
      }
    }
  }

  /** Without a patch sheet main.js edits nothing and writes the sheet
      exactly when every section and activity row can be built: those rows,
      sorted, under the archive's name with `.xlsx` for its extension. */
  lemma MainReadMode(items: seq<Item>, filename: string, lib: Library)
    ensures var (st, out) := MainRun(items, filename, None, lib);
      var (acts, secs) := Grouped(items, lib);
      var sections := SectionsIndexed(secs.order, secs.groups, lib);
      && st == Start
      && !out.Patched?
      && (out.Exported? <==> sections.Some? && MainActivitiesIndexed(acts.order, acts.groups, sections.value.1, lib).Some?)
      && (out.Exported? ==>
            && out.name == ExportName(filename) && out.bundle.None?
            && out.rows == ExportRows(sections.value.0 + MainActivitiesIndexed(acts.order, acts.groups, sections.value.1, lib).value))
  {
    var (acts, secs) := Grouped(items, lib);
    var sections := SectionsIndexed(secs.order, secs.groups, lib);
    if sections.Some? {
      ReadActivitiesVisit(Start, acts.order, acts.groups, sections.value.1, lib);
    }
  }

  // ------------------------------------------------------------ patch mode

  /** The part of an activity's turn after the availability rule: the
      completion date and the per-kind field patches of the activity's own file. */
  lemma MainActivityTailAddsIn(st: State, a: Step, g: Group, m: Document, p: SheetRow, lib: Library)
    requires AddsIn(st, a.state, g) && "module.xml" in g.files
    ensures var c := if !a.ok then a
                     else Patch(a.state, g, "module.xml", "completionexpected", Field(p, "completionexpected"), lib);
      var kind := KindOfMain(g.files, Read(m, "modulename"));
      var file := FileOf(kind);
      var r := if !c.ok || file !in g.files then c.state
               else PatchAll(c.state, g, file, FieldsOf(kind), p, false, lib).state;
      AddsIn(st, r, g)
  {
    var c := if !a.ok then a
             else Patch(a.state, g, "module.xml", "completionexpected", Field(p, "completionexpected"), lib);
    if a.ok {
      WriteFieldAdds(a.state, g, "module.xml", "completionexpected", Field(p, "completionexpected"), lib);
      AddsInChain(st, a.state, c.state, g, "module.xml");
    }
    var kind := KindOfMain(g.files, Read(m, "modulename"));
    var file := FileOf(kind);
    if c.ok && file in g.files {
      PatchAllAdds(c.state, g, file, FieldsOf(kind), p, false, lib);
      var r := PatchAll(c.state, g, file, FieldsOf(kind), p, false, lib);
      AddsInChain(st, c.state, r.state, g, file);
    }
  }

  /** An activity's turn only edits or caches files of its own group. */
  lemma MainActivityVisitAddsIn(st: State, id: string, g: Group, infos: map<string, SectionInfo>, patchData: Option<PatchSet>, lib: Library)
    ensures AddsIn(st, MainActivityVisit(st, id, g, infos, patchData, lib).state, g)
  {
    if "module.xml" in g.files && patchData.Some? {
      var m := lib.parseXml(g.files["module.xml"]);
      if Place(m, infos).Some? {
        var current := Decode(lib.parseJson(Read(m, "availability")));
        var p := PatchRow(patchData.value, id);
        var from := DateOf(Field(p, "availableFrom"));
        var to := DateOf(Field(p, "availableTo"));
        var raw := Read(m, "availability");
        WriteFieldAdds(st, g, "module.xml", "availability", Text(lib.stringifyJson(MainRewrite(raw, lib.parseJson(raw), from, to))), lib);
        var a := MainPatchAvailability(st, g, m, patchData.value, id, current, lib);
        AddsInChain(st, st, a.state, g, "module.xml");
        MainActivityTailAddsIn(st, a, g, m, p, lib);
      }
    }
  }

  lemma {:induction false} MainActivitiesVisitConfined(st: State, order: seq<string>, infos: map<string, SectionInfo>,
                                                       patchData: Option<PatchSet>, lib: Library, acts: Index)
    requires Confined(st, acts, NoGroups)
    ensures Confined(MainActivitiesVisit(st, order, acts.groups, infos, patchData, lib).state, acts, NoGroups)
    decreases |order|
  {
    if |order| > 0 {
      MainActivitiesVisitConfined(st, order[..|order| - 1], infos, patchData, lib, acts);
      var s := MainActivitiesVisit(st, order[..|order| - 1], acts.groups, infos, patchData, lib);
      var id := order[|order| - 1];
      if s.ok && id in acts.groups {
        MainActivityVisitAddsIn(s.state, id, acts.groups[id], infos, patchData, lib);
        ConfinedAddsIn(s.state, MainActivitiesVisit(st, order, acts.groups, infos, patchData, lib).state, acts.groups[id], acts, NoGroups);
      }
    }
  }

  /** main.js edits activity files only: every recorded edit is a file of an
      activity, under `activities/`; the sections are never written. */
  lemma MainEditsActivitiesOnly(items: seq<Item>, filename: string, sheet: Option<seq<SheetRow>>, lib: Library)
    ensures var acts := Grouped(items, lib).0;
      var st := MainRun(items, filename, sheet, lib).0;
      && Confined(st, acts, NoGroups)
      && forall k :: k in st.dirty ==> StartsWith(k, "activities/")
  {
    var (acts, secs) := Grouped(items, lib);
    GroupedWellFormed(items, lib);
    var sections := SectionsIndexed(secs.order, secs.groups, lib);
    if sections.Some? {
      var patchData := if sheet.None? then None else Some(Keyed(sheet.value));
      MainActivitiesVisitConfined(Start, acts.order, sections.value.1, patchData, lib, acts);
    }
    ActivityPaths(MainRun(items, filename, sheet, lib).0, acts);
  }

  lemma ActivityPaths(st: State, acts: Index)
    requires Confined(st, acts, NoGroups) && WellFormed(acts, "activities")
    ensures forall k :: k in st.dirty ==> StartsWith(k, "activities/")
  {
    forall k | k in st.dirty
      ensures StartsWith(k, "activities/")
    {
      var g, f :| IsGroup(g, acts, NoGroups) && f in g.files && k == g.path + f;
      var id :| id in acts.groups && acts.groups[id] == g;
      ActivityPath(id, f);
    }
  }

  lemma ActivityPath(id: string, f: string)
    ensures StartsWith("activities" + "/" + id + "/" + f, "activities/")
  {
    assert "activities" + "/" == "activities/";
    assert "activities" + "/" + id + "/" + f == "activities/" + (id + "/" + f);
    AppendEnds("activities/", id + "/" + f);
  }

  /** Every edit main.js records is written into the patched archive in place
      of the entry it was read from, provided the XML entries are named
      `prefix/id/file`. */
  lemma MainDelivers(items: seq<Item>, filename: string, sheet: seq<SheetRow>, lib: Library)
    requires ThreePieces(items)
    ensures var (st, out) := MainRun(items, filename, Some(sheet), lib);
      out.Patched? ==> forall k :: k in st.dirty ==>
        exists i :: 0 <= i < |items| && items[i].name == k && out.entries[i] == Serialized(k, lib.serializeXml(st.dirty[k]))
  {
    var (acts, secs) := Grouped(items, lib);
    MainEditsActivitiesOnly(items, filename, Some(sheet), lib);
    var (st, out) := MainRun(items, filename, Some(sheet), lib);
    if out.Patched? {
      assert out.entries == AssembledMain(items, st.dirty, lib.serializeXml);
      forall k | k in st.dirty
        ensures exists i :: 0 <= i < |items| && items[i].name == k && out.entries[i] == Serialized(k, lib.serializeXml(st.dirty[k]))
      {
        var g, f :| IsGroup(g, acts, NoGroups) && f in g.files && k == g.path + f;
        assert IsGroup(g, acts, secs);
        GroupFileDelivered(items, lib, g, f);
        var i :| 0 <= i < |items| && !EndsWith(items[i].name, "/") && items[i].name == k;
        assert out.entries[i] == EmitMain(items[i], st.dirty, lib.serializeXml);
      }
    }
  }

  // ------------------------------------------------------------- variants

  /** The two variants give an activity the same row when they dispatch it to
      the same assign or quiz file; for a file of another kind main.js shows
      the first line of the name only. */
  lemma EntryVariants(id: string, g: Group, infos: map<string, SectionInfo>, lib: Library)
    requires "module.xml" in g.files
    ensures var moduleName := Read(lib.parseXml(g.files["module.xml"]), "modulename");
      var kind := KindOf(g.files, moduleName);
      && (kind == KindOfMain(g.files, moduleName) && !kind.Other? ==> ActivityEntry(id, g, infos, lib) == MainActivityEntry(id, g, infos, lib))
      && (kind == KindOfMain(g.files, moduleName) && kind.Other? && ActivityEntry(id, g, infos, lib).Some? ==>
            && MainActivityEntry(id, g, infos, lib).Some?
            && MainActivityEntry(id, g, infos, lib).value.row == ActivityEntry(id, g, infos, lib).value.row.(name := FirstLine(ActivityEntry(id, g, infos, lib).value.row.name)))
  {
  }
}
