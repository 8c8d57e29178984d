/** What a whole run of src/magic.js's `processBackup` promises: a read run
    edits nothing and fails only where a row cannot be built; no run removes a
    bundle path or alters the patch bundle; and every edit a patch run records
    is re-serialised into the output archive. */
module Runs {
  import opened Wrappers
  import opened JsText
  import opened Xml
  import opened Codecs
  import opened Availability
  import opened Sheet
  import opened Course
  import opened Output
  import opened Registry
  import opened Magic

  // ------------------------------------------------------------- read mode

  lemma {:induction false} ReadSectionsVisit(st: State, order: seq<string>, groups: map<string, Group>, lib: Library)
    ensures SectionsVisit(st, order, groups, None, lib) == Step(st, SectionsIndexed(order, groups, lib).Some?)
    decreases |order|
  {
    if |order| > 0 {
      ReadSectionsVisit(st, order[..|order| - 1], groups, lib);
    }
  }

  /** In read mode an activity only adds its intro to the contents, and it
      gets through exactly when its row can be built. */
  lemma ReadActivityVisit(st: State, id: string, g: Group, infos: map<string, SectionInfo>, lib: Library)
    ensures var r := ActivityVisit(st, id, g, infos, None, lib);
      && r.state.dirty == st.dirty && r.state.parsed == st.parsed && r.state.bundle == st.bundle
      && st.contents.Keys <= r.state.contents.Keys
      && (r.ok <==> ActivityEntry(id, g, infos, lib).Some?)
  {
    if "module.xml" in g.files {
      var m := lib.parseXml(g.files["module.xml"]);
      if Place(m, infos).Some? {
        var place := Place(m, infos).value;
        var current := Decode(lib.parseJson(Read(m, "availability")));
        var a := PatchAvailability(st, g, m, "module.xml", "availability", None, id, current, lib);
        assert a == Step(st, true);
        var kind := KindOf(g.files, Read(m, "modulename"));
        var file := FileOf(kind);
        if file in g.files {
          var doc := lib.parseXml(g.files[file]);
          assert KindDoc(g.files, kind, lib) == Some(doc);
          if kind.Label? || kind.Assign? {
            ExtractContentEffect(st, g, file, place.position, place.index, Read(doc, "name"), doc, false);
          }
        } else {
          assert KindDoc(g.files, kind, lib).None?;
        }
      }
    }
  }

  lemma {:induction false} ReadActivitiesVisit(st: State, order: seq<string>, groups: map<string, Group>,
                                               infos: map<string, SectionInfo>, lib: Library)
    ensures var r := ActivitiesVisit(st, order, groups, infos, None, lib);
      && r.state.dirty == st.dirty && r.state.parsed == st.parsed && r.state.bundle == st.bundle
      && st.contents.Keys <= r.state.contents.Keys
      && (r.ok <==> ActivitiesIndexed(order, groups, infos, lib).Some?)
    decreases |order|
  {
    if |order| > 0 {
      var init := order[..|order| - 1];
      ReadActivitiesVisit(st, init, groups, infos, lib);
      var s := ActivitiesVisit(st, init, groups, infos, None, lib);
      var id := order[|order| - 1];
      if s.ok && id in groups {
        ReadActivityVisit(s.state, id, groups[id], infos, lib);
      }
    }
  }

  /** A read run (no patch data) records no edit, keeps the bundle, and yields
      the sheet exactly when every section and activity row can be built; the
      sheet then holds those rows, sorted. */
  lemma RunReadMode(st0: State, items: seq<Item>, filename: string, withFiles: bool, lib: Library)
    ensures var (st, out) := Run(st0, items, filename, withFiles, None, lib);
      var (acts, secs) := Grouped(items, lib);
      var sections := SectionsIndexed(secs.order, secs.groups, lib);
      && st.dirty == map[] && st.parsed == map[] && st.bundle == st0.bundle
      && st0.contents.Keys <= st.contents.Keys
      && !out.Patched?
      && (out.Exported? <==> sections.Some? && ActivitiesIndexed(acts.order, acts.groups, sections.value.1, lib).Some?)
      && (out.Exported? ==>
            && out.rows == ExportRows(sections.value.0 + ActivitiesIndexed(acts.order, acts.groups, sections.value.1, lib).value)
            && (out.bundle.Some? <==> withFiles)
            && (withFiles ==> out.bundle.value == st.contents))
  {
    var st := st0.(dirty := map[], parsed := map[]);
    var (acts, secs) := Grouped(items, lib);
    ReadSectionsVisit(st, secs.order, secs.groups, lib);
    var sections := SectionsIndexed(secs.order, secs.groups, lib);
    if sections.Some? {
      ReadActivitiesVisit(st, acts.order, acts.groups, sections.value.1, lib);
    }
  }

  // ------------------------------------------------------ state carried over

  /** The bundle is never changed by a run and no bundle path is forgotten:
      `contents` only gains or replaces paths. */
  ghost predicate Grows(a: State, b: State) {
    b.bundle == a.bundle && a.contents.Keys <= b.contents.Keys
  }

  lemma PatchAvailabilityFrame(st: State, g: Group, doc: Document, file: string, field: string, patchData: Option<PatchSet>,
                               id: string, current: Window, lib: Library)
    ensures var r := PatchAvailability(st, g, doc, file, field, patchData, id, current, lib).state;
      r.contents == st.contents && r.bundle == st.bundle
  {
    if patchData.Some? {
      var p := PatchRow(patchData.value, id);
      var e := Edit(lib.parseJson(Read(doc, field)), DateOf(Field(p, "availableFrom")), DateOf(Field(p, "availableTo")));
      if e.Some? {
        WriteFieldFrame(st, g, file, field, Text(lib.stringifyJson(e.value)), lib);
      }
    }
  }

  lemma SectionVisitGrows(st: State, id: string, g: Group, patchData: Option<PatchSet>, lib: Library)
    ensures Grows(st, SectionVisit(st, id, g, patchData, lib).state)
  {
    if "section.xml" in g.files && patchData.Some? {
      var data := lib.parseXml(g.files["section.xml"]);
      var current := Decode(lib.parseJson(Read(data, "availabilityjson")));
      PatchAvailabilityFrame(st, g, data, "section.xml", "availabilityjson", patchData, id, current, lib);
      var a := PatchAvailability(st, g, data, "section.xml", "availabilityjson", patchData, id, current, lib);
      if a.ok {
        var name := Field(PatchRow(patchData.value, id), "name");
        PatchFrame(a.state, g, "section.xml", "name", name, lib);
        assert SectionVisit(st, id, g, patchData, lib) == Patch(a.state, g, "section.xml", "name", name, lib);
      }
    }
  }

  lemma PatchFrame(st: State, g: Group, file: string, element: string, value: Cell, lib: Library)
    ensures var r := Patch(st, g, file, element, value, lib).state;
      r.contents == st.contents && r.bundle == st.bundle
  {
    WriteFieldFrame(st, g, file, element, value, lib);
  }

  lemma ActivityVisitGrows(st: State, id: string, g: Group, infos: map<string, SectionInfo>, patchData: Option<PatchSet>, lib: Library)
    ensures Grows(st, ActivityVisit(st, id, g, infos, patchData, lib).state)
  {
    if "module.xml" in g.files {
      var m := lib.parseXml(g.files["module.xml"]);
      if Place(m, infos).Some? {
        var place := Place(m, infos).value;
        var current := Decode(lib.parseJson(Read(m, "availability")));
        PatchAvailabilityFrame(st, g, m, "module.xml", "availability", patchData, id, current, lib);
        var a := PatchAvailability(st, g, m, "module.xml", "availability", patchData, id, current, lib);
        var c := if !a.ok || patchData.None? then a
                 else Patch(a.state, g, "module.xml", "completionexpected", Field(PatchRow(patchData.value, id), "completionexpected"), lib);
        if a.ok && patchData.Some? {
          PatchFrame(a.state, g, "module.xml", "completionexpected", Field(PatchRow(patchData.value, id), "completionexpected"), lib);
        }
        assert Grows(st, c.state);
        var kind := KindOf(g.files, Read(m, "modulename"));
        var file := FileOf(kind);
        if c.ok && file in g.files {
          var doc := lib.parseXml(g.files[file]);
          if kind.Label? || kind.Assign? {
            ExtractContentEffect(c.state, g, file, place.position, place.index, Read(doc, "name"), doc, patchData.Some?);
          }
          var e := if kind.Label? || kind.Assign? then ExtractContent(c.state, g, file, place.position, place.index, Read(doc, "name"), doc, patchData.Some?)
                   else c;
          assert Grows(st, e.state);
          if e.ok && patchData.Some? {
            PatchAllConfined(e.state, g, file, FieldsOf(kind), PatchRow(patchData.value, id), true, lib);
            assert ActivityVisit(st, id, g, infos, patchData, lib) == PatchAll(e.state, g, file, FieldsOf(kind), PatchRow(patchData.value, id), true, lib);
          } else {
            assert ActivityVisit(st, id, g, infos, patchData, lib) == e;
          }
        }
      }
    }
  }

  lemma {:induction false} SectionsVisitGrows(st: State, order: seq<string>, groups: map<string, Group>, patchData: Option<PatchSet>, lib: Library)
    ensures Grows(st, SectionsVisit(st, order, groups, patchData, lib).state)
    decreases |order|
  {
    if |order| > 0 {
      SectionsVisitGrows(st, order[..|order| - 1], groups, patchData, lib);
      var s := SectionsVisit(st, order[..|order| - 1], groups, patchData, lib);
      var id := order[|order| - 1];
      if s.ok && id in groups {
        SectionVisitGrows(s.state, id, groups[id], patchData, lib);
      }
    }
  }

  lemma {:induction false} ActivitiesVisitGrows(st: State, order: seq<string>, groups: map<string, Group>, infos: map<string, SectionInfo>,
                                                patchData: Option<PatchSet>, lib: Library)
    ensures Grows(st, ActivitiesVisit(st, order, groups, infos, patchData, lib).state)
    decreases |order|
  {
    if |order| > 0 {
      ActivitiesVisitGrows(st, order[..|order| - 1], groups, infos, patchData, lib);
      var s := ActivitiesVisit(st, order[..|order| - 1], groups, infos, patchData, lib);
      var id := order[|order| - 1];
      if s.ok && id in groups {
        ActivityVisitGrows(s.state, id, groups[id], infos, patchData, lib);
      }
    }
  }

  /** Every run, in either mode and whether or not it fails, leaves the
      bundle as it was and keeps every bundle path earlier runs recorded, so a
      later `--files` export still lists the intros of earlier backups. */
  lemma RunGrows(st0: State, items: seq<Item>, filename: string, withFiles: bool, patchData: Option<PatchSet>, lib: Library)
    ensures Grows(st0, Run(st0, items, filename, withFiles, patchData, lib).0)
  {
    var st := st0.(dirty := map[], parsed := map[]);
    var (acts, secs) := Grouped(items, lib);
    SectionsVisitGrows(st, secs.order, secs.groups, patchData, lib);
    var s := SectionsVisit(st, secs.order, secs.groups, patchData, lib);
    var sections := SectionsIndexed(secs.order, secs.groups, lib);
    if s.ok && sections.Some? {
      ActivitiesVisitGrows(s.state, acts.order, acts.groups, sections.value.1, patchData, lib);
    }
  }

  // ------------------------------------------------------ edits reach output

  /** `g` is one of the groups of the two maps. */
  ghost predicate IsGroup(g: Group, acts: Index, secs: Index) {
    (exists id :: id in acts.groups && acts.groups[id] == g) || (exists id :: id in secs.groups && secs.groups[id] == g)
  }

  /** Every edit is recorded under `path + file` and every cached parse under
      `(path, file)` of a file some group holds. */
  ghost predicate Confined(st: State, acts: Index, secs: Index) {
    && (forall k :: k in st.dirty ==> exists g, f :: IsGroup(g, acts, secs) && f in g.files && k == g.path + f)
    && (forall key :: key in st.parsed ==> exists g :: IsGroup(g, acts, secs) && g.path == key.0 && key.1 in g.files)
  }

  /** `r` differs from `st` at most by the edit and the cached parse of
      `file` in group `g`. */
  ghost predicate Adds(st: State, r: State, g: Group, file: string) {
    r.dirty.Keys <= st.dirty.Keys + {g.path + file} && r.parsed.Keys <= st.parsed.Keys + {(g.path, file)}
  }

  lemma ConfinedAdds(st: State, r: State, g: Group, file: string, acts: Index, secs: Index)
    requires Confined(st, acts, secs) && IsGroup(g, acts, secs) && file in g.files && Adds(st, r, g, file)
    ensures Confined(r, acts, secs)
  {
    forall k | k in r.dirty
      ensures exists g', f :: IsGroup(g', acts, secs) && f in g'.files && k == g'.path + f
    {
      if k !in st.dirty {
        assert IsGroup(g, acts, secs) && file in g.files && k == g.path + file;
      }
    }
    forall key | key in r.parsed
      ensures exists g' :: IsGroup(g', acts, secs) && g'.path == key.0 && key.1 in g'.files
    {
      if key !in st.parsed {
        assert IsGroup(g, acts, secs) && g.path == key.0 && key.1 in g.files;
      }
    }
  }

  lemma WriteFieldAdds(st: State, g: Group, file: string, element: string, value: Cell, lib: Library)
    ensures Adds(st, WriteField(st, g, file, element, value, lib).state, g, file)
  {
    WriteFieldFrame(st, g, file, element, value, lib);
  }

  lemma PatchAvailabilityAdds(st: State, g: Group, doc: Document, file: string, field: string, patchData: Option<PatchSet>,
                              id: string, current: Window, lib: Library)
    ensures Adds(st, PatchAvailability(st, g, doc, file, field, patchData, id, current, lib).state, g, file)
  {
    if patchData.Some? {
      var p := PatchRow(patchData.value, id);
      var from := DateOf(Field(p, "availableFrom"));
      var to := DateOf(Field(p, "availableTo"));
      var e := Edit(lib.parseJson(Read(doc, field)), from, to);
      if Differs(from, to, current) && e.Some? {
        WriteFieldAdds(st, g, file, field, Text(lib.stringifyJson(e.value)), lib);
      }
    }
  }

  lemma {:induction false} PatchAllAdds(st: State, g: Group, file: string, fields: seq<(string, string)>, row: SheetRow,
                                        guarded: bool, lib: Library)
    ensures Adds(st, PatchAll(st, g, file, fields, row, guarded, lib).state, g, file)
    decreases |fields|
  {
    if |fields| > 0 {
      var value := Field(row, fields[0].1);
      var s := if guarded then Patch(st, g, file, fields[0].0, value, lib) else WriteField(st, g, file, fields[0].0, value, lib);
      WriteFieldAdds(st, g, file, fields[0].0, value, lib);
      if s.ok {
        PatchAllAdds(s.state, g, file, fields[1..], row, guarded, lib);
      }
    }
  }

  lemma SectionVisitConfined(st: State, id: string, g: Group, patchData: Option<PatchSet>, lib: Library, acts: Index, secs: Index)
    requires Confined(st, acts, secs) && IsGroup(g, acts, secs)
    ensures Confined(SectionVisit(st, id, g, patchData, lib).state, acts, secs)
  {
    if "section.xml" in g.files && patchData.Some? {
      var data := lib.parseXml(g.files["section.xml"]);
      var current := Decode(lib.parseJson(Read(data, "availabilityjson")));
      PatchAvailabilityAdds(st, g, data, "section.xml", "availabilityjson", patchData, id, current, lib);
      var a := PatchAvailability(st, g, data, "section.xml", "availabilityjson", patchData, id, current, lib);
      ConfinedAdds(st, a.state, g, "section.xml", acts, secs);
      if a.ok {
        WriteFieldAdds(a.state, g, "section.xml", "name", Field(PatchRow(patchData.value, id), "name"), lib);
        var r := Patch(a.state, g, "section.xml", "name", Field(PatchRow(patchData.value, id), "name"), lib);
        ConfinedAdds(a.state, r.state, g, "section.xml", acts, secs);
      }
    }
  }

  /** `r` differs from `st` at most by edits and cached parses of files of
      group `g`. */
  ghost predicate AddsIn(st: State, r: State, g: Group) {
    && (forall k :: k in r.dirty && k !in st.dirty ==> exists f :: f in g.files && k == g.path + f)
    && (forall key :: key in r.parsed && key !in st.parsed ==> key.0 == g.path && key.1 in g.files)
  }

  lemma AddsInChain(a: State, b: State, c: State, g: Group, file: string)
    requires AddsIn(a, b, g) && Adds(b, c, g, file) && file in g.files
    ensures AddsIn(a, c, g)
  {
    forall k | k in c.dirty && k !in a.dirty
      ensures exists f :: f in g.files && k == g.path + f
    {
      if k !in b.dirty {
        assert file in g.files && k == g.path + file;
      }
    }
  }

  lemma ConfinedAddsIn(st: State, r: State, g: Group, acts: Index, secs: Index)
    requires Confined(st, acts, secs) && IsGroup(g, acts, secs) && AddsIn(st, r, g)
    ensures Confined(r, acts, secs)
  {
    forall k | k in r.dirty
      ensures exists g', f :: IsGroup(g', acts, secs) && f in g'.files && k == g'.path + f
    {
      if k !in st.dirty {
        var f :| f in g.files && k == g.path + f;
        assert IsGroup(g, acts, secs) && f in g.files && k == g.path + f;
      }
    }
  }

  /** The part of an activity's turn after the module fields: the content
      extraction and the per-kind field patches of the activity's own file. */
  lemma ActivityTailAddsIn(st: State, cs: State, g: Group, kind: Kind, place: Placement, id: string,
                           patchData: Option<PatchSet>, lib: Library)
    requires AddsIn(st, cs, g) && FileOf(kind) in g.files
    ensures var file := FileOf(kind);
      var doc := lib.parseXml(g.files[file]);
      var e := if kind.Label? || kind.Assign? then ExtractContent(cs, g, file, place.position, place.index, Read(doc, "name"), doc, patchData.Some?)
               else Step(cs, true);
      var r := if !e.ok || patchData.None? then e
               else PatchAll(e.state, g, file, FieldsOf(kind), PatchRow(patchData.value, id), true, lib);
      AddsIn(st, r.state, g)
  {
    var file := FileOf(kind);
    var doc := lib.parseXml(g.files[file]);
    if kind.Label? || kind.Assign? {
      ExtractContentEffect(cs, g, file, place.position, place.index, Read(doc, "name"), doc, patchData.Some?);
    }
    var e := if kind.Label? || kind.Assign? then ExtractContent(cs, g, file, place.position, place.index, Read(doc, "name"), doc, patchData.Some?)
             else Step(cs, true);
    AddsInChain(st, cs, e.state, g, file);
    if e.ok && patchData.Some? {
      PatchAllAdds(e.state, g, file, FieldsOf(kind), PatchRow(patchData.value, id), true, lib);
      var r := PatchAll(e.state, g, file, FieldsOf(kind), PatchRow(patchData.value, id), true, lib);
      AddsInChain(st, e.state, r.state, g, file);
    }
  }

  /** An activity's turn only edits or caches files of its own group. */
  lemma ActivityVisitAddsIn(st: State, id: string, g: Group, infos: map<string, SectionInfo>, patchData: Option<PatchSet>, lib: Library)
    ensures AddsIn(st, ActivityVisit(st, id, g, infos, patchData, lib).state, g)
  {
    if "module.xml" in g.files {
      var m := lib.parseXml(g.files["module.xml"]);
      if Place(m, infos).Some? {
        var place := Place(m, infos).value;
        var current := Decode(lib.parseJson(Read(m, "availability")));
        PatchAvailabilityAdds(st, g, m, "module.xml", "availability", patchData, id, current, lib);
        var a := PatchAvailability(st, g, m, "module.xml", "availability", patchData, id, current, lib);
        AddsInChain(st, st, a.state, g, "module.xml");
        var c := if !a.ok || patchData.None? then a
                 else Patch(a.state, g, "module.xml", "completionexpected", Field(PatchRow(patchData.value, id), "completionexpected"), lib);
        if a.ok && patchData.Some? {
          WriteFieldAdds(a.state, g, "module.xml", "completionexpected", Field(PatchRow(patchData.value, id), "completionexpected"), lib);
          AddsInChain(st, a.state, c.state, g, "module.xml");
        }
        var kind := KindOf(g.files, Read(m, "modulename"));
        if c.ok && FileOf(kind) in g.files {
          ActivityTailAddsIn(st, c.state, g, kind, place, id, patchData, lib);
        }
      }
    }
  }

  lemma {:induction false} SectionsVisitConfined(st: State, order: seq<string>, patchData: Option<PatchSet>, lib: Library, acts: Index, secs: Index)
    requires Confined(st, acts, secs)
    ensures Confined(SectionsVisit(st, order, secs.groups, patchData, lib).state, acts, secs)
    decreases |order|
  {
    if |order| > 0 {
      SectionsVisitConfined(st, order[..|order| - 1], patchData, lib, acts, secs);
      var s := SectionsVisit(st, order[..|order| - 1], secs.groups, patchData, lib);
      var id := order[|order| - 1];
      if s.ok && id in secs.groups {
        SectionVisitConfined(s.state, id, secs.groups[id], patchData, lib, acts, secs);
      }
    }
  }

  lemma {:induction false} ActivitiesVisitConfined(st: State, order: seq<string>, infos: map<string, SectionInfo>,
                                                   patchData: Option<PatchSet>, lib: Library, acts: Index, secs: Index)
    requires Confined(st, acts, secs)
    ensures Confined(ActivitiesVisit(st, order, acts.groups, infos, patchData, lib).state, acts, secs)
    decreases |order|
  {
    if |order| > 0 {
      ActivitiesVisitConfined(st, order[..|order| - 1], infos, patchData, lib, acts, secs);
      var s := ActivitiesVisit(st, order[..|order| - 1], acts.groups, infos, patchData, lib);
      var id := order[|order| - 1];
      if s.ok && id in acts.groups {
        ActivityVisitAddsIn(s.state, id, acts.groups[id], infos, patchData, lib);
        ConfinedAddsIn(s.state, ActivitiesVisit(st, order, acts.groups, infos, patchData, lib).state, acts.groups[id], acts, secs);
      }
    }
  }

  /** Entry j of the archive is the XML entry `prefix/id/file`. */
  ghost predicate From(items: seq<Item>, j: int, prefix: string, id: string, file: string) {
    0 <= j < |items| && Qualifies(items[j].name) && Pieces(items[j].name) == (prefix, id, file)
  }

  /** Every file of every group came from an archive entry named after it. */
  ghost predicate Listed(items: seq<Item>, idx: Index, prefix: string) {
    forall id, f :: id in idx.groups && f in idx.groups[id].files ==> exists j :: From(items, j, prefix, id, f)
  }

  lemma AddFileListed(items: seq<Item>, idx: Index, text: string, prefix: string)
    requires |items| > 0 && Listed(items[..|items| - 1], idx, prefix)
    requires Qualifies(items[|items| - 1].name) && Pieces(items[|items| - 1].name).0 == prefix
    ensures Listed(items, AddFile(idx, items[|items| - 1].name, text), prefix)
  {
    var n := |items| - 1;
    var (_, id0, f0) := Pieces(items[n].name);
    var next := AddFile(idx, items[n].name, text);
    forall id, f | id in next.groups && f in next.groups[id].files
      ensures exists j :: From(items, j, prefix, id, f)
    {
      if id == id0 && f == f0 {
        assert From(items, n, prefix, id, f);
      } else {
        var j :| From(items[..n], j, prefix, id, f);
        assert items[..n][j] == items[j];
        assert From(items, j, prefix, id, f);
      }
    }
  }

  lemma {:induction false} GroupedListed(items: seq<Item>, lib: Library)
    ensures Listed(items, Grouped(items, lib).0, "activities")
    ensures Listed(items, Grouped(items, lib).1, "sections")
  {
    if |items| > 0 {
      var n := |items| - 1;
      var init := items[..n];
      GroupedListed(init, lib);
      var (acts, secs) := Grouped(init, lib);
      var e := items[n];
      if !Qualifies(e.name) {
        ListedExtends(items, acts, "activities");
        ListedExtends(items, secs, "sections");
      } else if StartsWith(e.name, "activities/") {
        PrefixPiece(e.name, "activities");
        AddFileListed(items, acts, lib.decodeText(e.data), "activities");
        ListedExtends(items, secs, "sections");
      } else {
        PrefixPiece(e.name, "sections");
        AddFileListed(items, secs, lib.decodeText(e.data), "sections");
        ListedExtends(items, acts, "activities");
      }
    }
  }

  lemma ListedExtends(items: seq<Item>, idx: Index, prefix: string)
    requires |items| > 0 && Listed(items[..|items| - 1], idx, prefix)
    ensures Listed(items, idx, prefix)
  {
    forall id, f | id in idx.groups && f in idx.groups[id].files
      ensures exists j :: From(items, j, prefix, id, f)
    {
      var j :| From(items[..|items| - 1], j, prefix, id, f);
      assert items[..|items| - 1][j] == items[j];
      assert From(items, j, prefix, id, f);
    }
  }

  /** Every XML entry below `activities/` or `sections/` is `prefix/id/file`
      with exactly three pieces. */
  ghost predicate ThreePieces(items: seq<Item>) {
    forall i :: 0 <= i < |items| && Qualifies(items[i].name) ==> |Split(items[i].name, '/')| == 3
  }

  lemma XmlIsNoFolder(name: string)
    requires EndsWith(name, ".xml")
    ensures !EndsWith(name, "/")
  {
    assert name[|name| - 1] == ".xml"[3];
  }

  /** With three-piece names, a group's file is found back as the archive
      entry `path + file`. */
  lemma GroupFileIsEntry(items: seq<Item>, idx: Index, prefix: string, id: string, f: string)
    requires ThreePieces(items) && WellFormed(idx, prefix) && Listed(items, idx, prefix)
    requires id in idx.groups && f in idx.groups[id].files
    ensures exists j :: 0 <= j < |items| && !EndsWith(items[j].name, "/") && items[j].name == idx.groups[id].path + f
  {
    var j :| From(items, j, prefix, id, f);
    EntryKeyIsName(items[j].name);
    XmlIsNoFolder(items[j].name);
  }

  /** Every recorded edit and cached parse of a run belongs to a file of the
      run's groups. */
  lemma RunConfined(st0: State, items: seq<Item>, filename: string, withFiles: bool, patchData: Option<PatchSet>, lib: Library)
    ensures var (acts, secs) := Grouped(items, lib);
      var (st, out) := Run(st0, items, filename, withFiles, patchData, lib);
      && Confined(st, acts, secs)
      && (out.Patched? ==> out.entries == Assembled(items, st.dirty, lib.serializeXml))
  {
    var st := st0.(dirty := map[], parsed := map[]);
    var (acts, secs) := Grouped(items, lib);
    SectionsVisitConfined(st, secs.order, patchData, lib, acts, secs);
    var s := SectionsVisit(st, secs.order, secs.groups, patchData, lib);
    var sections := SectionsIndexed(secs.order, secs.groups, lib);
    if s.ok && sections.Some? {
      ActivitiesVisitConfined(s.state, acts.order, sections.value.1, patchData, lib, acts, secs);
    }
  }

  lemma GroupFileDelivered(items: seq<Item>, lib: Library, g: Group, f: string)
    requires ThreePieces(items) && IsGroup(g, Grouped(items, lib).0, Grouped(items, lib).1) && f in g.files
    ensures exists i :: 0 <= i < |items| && !EndsWith(items[i].name, "/") && items[i].name == g.path + f
  {
    var (acts, secs) := Grouped(items, lib);
    GroupedWellFormed(items, lib);
    GroupedListed(items, lib);
    if id :| id in acts.groups && acts.groups[id] == g {
      GroupFileIsEntry(items, acts, "activities", id, f);
    } else {
      var id :| id in secs.groups && secs.groups[id] == g;
      GroupFileIsEntry(items, secs, "sections", id, f);
    }
  }

  /** With three-piece names, every edit confined to the groups lands on the
      entry it names. */
  lemma EditsDelivered(items: seq<Item>, st: State, lib: Library)
    requires ThreePieces(items) && Confined(st, Grouped(items, lib).0, Grouped(items, lib).1)
    ensures forall k :: k in st.dirty ==>
      exists i :: 0 <= i < |items| && items[i].name == k && Assembled(items, st.dirty, lib.serializeXml)[i] == Serialized(k, lib.serializeXml(st.dirty[k]))
  {
    var (acts, secs) := Grouped(items, lib);
    var out := Assembled(items, st.dirty, lib.serializeXml);
    forall k | k in st.dirty
      ensures exists i :: 0 <= i < |items| && items[i].name == k && out[i] == Serialized(k, lib.serializeXml(st.dirty[k]))
    {
      var g, f :| IsGroup(g, acts, secs) && f in g.files && k == g.path + f;
      GroupFileDelivered(items, lib, g, f);
      var i :| 0 <= i < |items| && !EndsWith(items[i].name, "/") && items[i].name == k;
      assert out[i] == Emit(items[i], st.dirty, lib.serializeXml);
    }
  }

  /** Every edit a patch run records is written into the patched archive, in
      place of the entry it was read from, provided the XML entries are named
      `prefix/id/file`. */
  lemma RunDelivers(st0: State, items: seq<Item>, filename: string, withFiles: bool, patchData: PatchSet, lib: Library)
    requires ThreePieces(items)
    ensures var (st, out) := Run(st0, items, filename, withFiles, Some(patchData), lib);
      out.Patched? ==> forall k :: k in st.dirty ==>
        exists i :: 0 <= i < |items| && items[i].name == k && out.entries[i] == Serialized(k, lib.serializeXml(st.dirty[k]))
  {
    RunConfined(st0, items, filename, withFiles, Some(patchData), lib);
    var (st, out) := Run(st0, items, filename, withFiles, Some(patchData), lib);
    EditsDelivered(items, st, lib);
  }
}
