/** The course index: how the backup's XML entries are grouped into sections
    and activities, the ordinal that orders them, and the row each one
    contributes to the sheet. Everything here only reads; the edits are in
    Registry, Magic and Script. */
module Course {
  import opened Wrappers
  import opened JsText
  import opened Xml
  import opened Codecs
  import opened Availability

  /** An entry of the backup archive. */
  datatype Item = Item(name: string, data: Bytes)

  /** An entry of the `activities` or `sections` map: its `path` and its
      `files` (file name to text). */
  datatype Group = Group(path: string, files: map<string, string>)

  /** A JavaScript Map from id to group: its keys in insertion order and its
      contents. */
  datatype Index = Index(order: seq<string>, groups: map<string, Group>)

  const NoGroups: Index := Index([], map[])

  // --------------------------------------------------------------- grouping

  /** src/magic.js:262 and main.js:60: an XML entry below `activities/` or
      `sections/`. */
  predicate Qualifies(name: string) {
    (StartsWith(name, "activities/") || StartsWith(name, "sections/")) && EndsWith(name, ".xml")
  }

  /** `const [prefix, id, file] = name.split('/')`, missing pieces being
      `undefined`. */
  function Pieces(name: string): (string, string, string) {
    var parts := Split(name, '/');
    (PartOr(parts, 0), PartOr(parts, 1), PartOr(parts, 2))
  }

  /** `entries.get(id).files[file] = text`, after creating the entry
      `{path: prefix/id/, files: {}}` when the id is new. */
  function AddFile(idx: Index, name: string, text: string): Index {
    var (prefix, id, file) := Pieces(name);
    var g := if id in idx.groups then idx.groups[id] else Group(prefix + "/" + id + "/", map[]);
    Index(if id in idx.groups then idx.order else idx.order + [id],
          idx.groups[id := g.(files := g.files[file := text])])
  }

  /** The `activities` and `sections` maps after the entries. */
  function Grouped(items: seq<Item>, lib: Library): (Index, Index) {
    if |items| == 0 then (NoGroups, NoGroups)
    else
      var (acts, secs) := Grouped(items[..|items| - 1], lib);
      var e := items[|items| - 1];
      if !Qualifies(e.name) then (acts, secs)
      else if StartsWith(e.name, "activities/") then (AddFile(acts, e.name, lib.decodeText(e.data)), secs)
      else (acts, AddFile(secs, e.name, lib.decodeText(e.data)))
  }

  /** The grouping loop of src/magic.js:260-272 (main.js:58-73). */
  method GroupItems(items: seq<Item>, lib: Library) returns (activities: Index, sections: Index)
    ensures (activities, sections) == Grouped(items, lib)
  {
    activities, sections := NoGroups, NoGroups;
    for i := 0 to |items|
      invariant (activities, sections) == Grouped(items[..i], lib)
    {
      var e := items[i];
      assert items[..i + 1][..i] == items[..i] && items[..i + 1][i] == e;
      if Qualifies(e.name) {
        var isActivity := StartsWith(e.name, "activities/");
        var entries := if isActivity then activities else sections;
        ghost var before := entries;
        var (prefix, id, file) := Pieces(e.name);
        if id !in entries.groups {
          entries := Index(entries.order + [id], entries.groups[id := Group(prefix + "/" + id + "/", map[])]);
        }
        var g := entries.groups[id];
        entries := entries.(groups := entries.groups[id := g.(files := g.files[file := lib.decodeText(e.data)])]);
        assert entries == AddFile(before, e.name, lib.decodeText(e.data));
        if isActivity {
          activities := entries;
        } else {
          sections := entries;
        }
      }
    }
    assert items[..|items|] == items;
  }

  /** Each id once in insertion order, exactly the keys, and every group at
      `prefix/id/`. */
  ghost predicate WellFormed(idx: Index, prefix: string) {
    && (forall a, b :: 0 <= a < b < |idx.order| ==> idx.order[a] != idx.order[b])
    && (forall id :: id in idx.groups <==> id in idx.order)
    && (forall id :: id in idx.groups ==> idx.groups[id].path == prefix + "/" + id + "/")
  }

  /** The first piece of a name below `p/` is p. */
  lemma PrefixPiece(name: string, p: string)
    requires '/' !in p && StartsWith(name, p + "/")
    ensures Pieces(name).0 == p
  {
    var rest := name[|p| + 1..];
    assert name == p + ['/'] + rest;
    SplitFront(p, rest, '/');
  }

  lemma AddFileWellFormed(idx: Index, name: string, text: string, prefix: string)
    requires WellFormed(idx, prefix) && Pieces(name).0 == prefix
    ensures WellFormed(AddFile(idx, name, text), prefix)
  {
    var id := Pieces(name).1;
    if id !in idx.groups {
      assert id !in idx.order;
    }
  }

  /** Both maps are well formed whatever the archive holds. */
  lemma {:induction false} GroupedWellFormed(items: seq<Item>, lib: Library)
    ensures WellFormed(Grouped(items, lib).0, "activities")
    ensures WellFormed(Grouped(items, lib).1, "sections")
  {
    if |items| > 0 {
      GroupedWellFormed(items[..|items| - 1], lib);
      var (acts, secs) := Grouped(items[..|items| - 1], lib);
      var e := items[|items| - 1];
      if Qualifies(e.name) {
        if StartsWith(e.name, "activities/") {
          PrefixPiece(e.name, "activities");
          AddFileWellFormed(acts, e.name, lib.decodeText(e.data), "activities");
        } else {
          PrefixPiece(e.name, "sections");
          AddFileWellFormed(secs, e.name, lib.decodeText(e.data), "sections");
        }
      }
    }
  }

  /** Every XML entry below `activities/` or `sections/` lands in its group,
      under the third piece of its name. */
  lemma {:induction false} GroupedContains(items: seq<Item>, lib: Library, i: int)
    requires 0 <= i < |items| && Qualifies(items[i].name)
    ensures var idx := if StartsWith(items[i].name, "activities/") then Grouped(items, lib).0 else Grouped(items, lib).1;
      var (_, id, file) := Pieces(items[i].name);
      id in idx.groups && file in idx.groups[id].files
  {
    var init := items[..|items| - 1];
    if i < |items| - 1 {
      assert init[i] == items[i];
      GroupedContains(init, lib, i);
    }
  }

  /** For an entry `prefix/id/file` with exactly three pieces, the key
      `path + file` under which an edit is recorded is the entry's own name,
      so the output step finds it. */
  lemma EntryKeyIsName(name: string)
    requires |Split(name, '/')| == 3
    ensures var (prefix, id, file) := Pieces(name); prefix + "/" + id + "/" + file == name
  {
    var parts := Split(name, '/');
    JoinSplit(name, '/');
    assert parts[1..][1..] == [parts[2]];
    assert Join(parts[1..][1..], '/') == parts[2];
    assert Join(parts[1..], '/') == parts[1] + ['/'] + parts[2];
    assert Join(parts, '/') == parts[0] + ['/'] + (parts[1] + ['/'] + parts[2]);
  }

  // --------------------------------------------------------------- ordinals

  /** `parseInt(read(data, 'number'), 10) * 1000`; None stands for NaN. */
  function SectionOrdinal(numberText: string): Option<int> {
    match ParseInt(numberText)
    case None => None
    case Some(n) => Some(n * 1000)
  }

  /** `number + offset + 1` for the position in the section's sequence and the
      section's ordinal. */
  function ActivityOrdinal(position: int, offset: Option<int>): Option<int> {
    match offset
    case None => None
    case Some(o) => Some(position + o + 1)
  }

  /** A section numbered n has ordinal n*1000. */
  lemma SectionOrdinalOf(n: int)
    ensures SectionOrdinal(IntToString(n)) == Some(n * 1000)
  {
    ParseIntOfString(n);
  }

  /** An activity listed in its section's sequence comes after the section's
      own row and before the next section; one missing from the sequence
      (position -1) ties with its section. */
  lemma ActivityInSlot(position: int, n: int)
    requires -1 <= position <= 998
    ensures var o := ActivityOrdinal(position, SectionOrdinal(IntToString(n)));
      && o.Some?
      && (position >= 0 ==> n * 1000 < o.value < (n + 1) * 1000)
      && (position == -1 ==> o.value == n * 1000)
  {
    SectionOrdinalOf(n);
  }

  /** For positions up to 998, ordinals order activities by section number
      first and position second, and two activities share an ordinal only when
      they share both. */
  lemma OrdinalOrder(p1: int, n1: int, p2: int, n2: int)
    requires -1 <= p1 <= 998 && -1 <= p2 <= 998
    ensures var o1 := ActivityOrdinal(p1, SectionOrdinal(IntToString(n1)));
      var o2 := ActivityOrdinal(p2, SectionOrdinal(IntToString(n2)));
      && o1.Some? && o2.Some?
      && (o1.value < o2.value <==> n1 < n2 || (n1 == n2 && p1 < p2))
      && (o1.value == o2.value <==> n1 == n2 && p1 == p2)
  {
    SectionOrdinalOf(n1);
    SectionOrdinalOf(n2);
    SlotOrder(p1, n1, p2, n2);
  }

  lemma SlotOrder(p1: int, n1: int, p2: int, n2: int)
    requires -1 <= p1 <= 998 && -1 <= p2 <= 998
    ensures p1 + n1 * 1000 < p2 + n2 * 1000 <==> n1 < n2 || (n1 == n2 && p1 < p2)
    ensures p1 + n1 * 1000 == p2 + n2 * 1000 <==> n1 == n2 && p1 == p2
  {
    if n1 < n2 {
      assert n1 * 1000 + 1000 <= n2 * 1000;
    } else if n2 < n1 {
      assert n2 * 1000 + 1000 <= n1 * 1000;
    }
  }

  // ------------------------------------------------------------------- rows

  /** A date column of a row: not set, an Invalid Date (NaN), or milliseconds. */
  datatype Stamp = Unset | Invalid | At(ms: int)

  /** `new Date(parseInt(x, 10) * 1000)` for the parsed seconds. */
  function StampOf(seconds: Option<int>): Stamp {
    match seconds
    case None => Invalid
    case Some(s) => At(s * 1000)
  }

  /** A row of the sheet. */
  datatype Row = Row(
    id: string,
    name: string,
    availableFrom: Option<int>,
    availableTo: Option<int>,
    completionExpected: Option<int>,
    opens: Stamp,
    due: Stamp,
    cutoff: Stamp)

  /** A row with its ordinal (`number`); None stands for NaN. */
  datatype Ranked = Ranked(ordinal: Option<int>, row: Row)

  /** What the activities of a section need: its ordinal and its `sequence`
      split on commas. */
  datatype SectionInfo = SectionInfo(ordinal: Option<int>, sequence: seq<string>)

  /** The row of a section and its SectionInfo (src/magic.js:293-305,
      main.js:79-106); None when the group has no section.xml. */
  function SectionEntry(id: string, g: Group, lib: Library): Option<(Ranked, SectionInfo)> {
    if "section.xml" !in g.files then None
    else
      var data := lib.parseXml(g.files["section.xml"]);
      var ordinal := SectionOrdinal(Read(data, "number"));
      var w := Decode(lib.parseJson(Read(data, "availabilityjson")));
      Some((Ranked(ordinal, Row(id, Read(data, "name"), w.from, w.to, None, Unset, Unset, Unset)),
            SectionInfo(ordinal, Split(Read(data, "sequence"), ','))))
  }

  /** Where an activity sits: its position in the sequence, its ordinal and
      `Number(sectionnumber)`. */
  datatype Placement = Placement(position: int, ordinal: Option<int>, index: Option<int>)

  /** src/magic.js:318-321, main.js:132-134: None when the section
      `section_<sectionid>` does not exist or the module document has no
      element (`documentElement` is null). */
  function Place(moduleDoc: Document, sections: map<string, SectionInfo>): Option<Placement> {
    var key := "section_" + Read(moduleDoc, "sectionid");
    if key !in sections then None
    else
      match RootAttribute(moduleDoc, "id")
      case None => None
      case Some(idAttr) =>
        var position := IndexOf(sections[key].sequence, idAttr);
        Some(Placement(position, ActivityOrdinal(position, sections[key].ordinal), ToNumber(Read(moduleDoc, "sectionnumber"))))
  }

  /** The placement ties the activity to the section its `sectionid` names:
      the ordinal is that section's plus the position plus one, and the
      position is the first place of the module's id in the sequence, or -1. */
  lemma PlaceFacts(moduleDoc: Document, sections: map<string, SectionInfo>)
    requires Place(moduleDoc, sections).Some?
    ensures var key := "section_" + Read(moduleDoc, "sectionid");
      var p := Place(moduleDoc, sections).value;
      && key in sections && |moduleDoc| > 0
      && -1 <= p.position < |sections[key].sequence|
      && (p.position >= 0 ==> sections[key].sequence[p.position] == RootAttribute(moduleDoc, "id").value)
      && (p.position == -1 <==> RootAttribute(moduleDoc, "id").value !in sections[key].sequence)
      && (p.ordinal.Some? <==> sections[key].ordinal.Some?)
      && (p.ordinal.Some? ==> p.ordinal.value == sections[key].ordinal.value + p.position + 1)
  {
  }

  /** `completionexpected`: set only when `parseInt` gives a non-zero number. */
  function CompletionOf(moduleDoc: Document): Option<int> {
    var c := ParseInt(Read(moduleDoc, "completionexpected"));
    if c.Some? && c.value != 0 then Some(c.value * 1000) else None
  }

  // --------------------------------------------------------------- dispatch

  /** The kind of an activity, which decides the file its name and dates come
      from. */
  datatype Kind = Label | Assign | Quiz | Other(file: string)

  /** In src/magic.js a file is the decoded text, so an empty one is falsy. */
  predicate Present(files: map<string, string>, f: string) {
    f in files && files[f] != ""
  }

  /** src/magic.js:342-373: label.xml, then assign.xml, then quiz.xml, then
      `<modulename>.xml`. */
  function KindOf(files: map<string, string>, moduleName: string): Kind {
    if Present(files, "label.xml") then Label
    else if Present(files, "assign.xml") then Assign
    else if Present(files, "quiz.xml") then Quiz
    else Other(moduleName + ".xml")
  }

  /** main.js:213-239: a file is a buffer object, always truthy, so presence
      decides; there is no label branch. */
  function KindOfMain(files: map<string, string>, moduleName: string): Kind {
    if "assign.xml" in files then Assign
    else if "quiz.xml" in files then Quiz
    else Other(moduleName + ".xml")
  }

  function FileOf(k: Kind): string {
    match k
    case Label => "label.xml"
    case Assign => "assign.xml"
    case Quiz => "quiz.xml"
    case Other(f) => f
  }

  /** The two variants agree on an activity without label.xml whose files are
      all non-empty; a non-empty label.xml (without assign.xml and quiz.xml)
      makes src/magic.js take the label branch where main.js falls back to
      `<modulename>.xml`. */
  lemma DispatchVariants(files: map<string, string>, moduleName: string)
    ensures "label.xml" !in files && (forall f :: f in files ==> files[f] != "")
      ==> KindOf(files, moduleName) == KindOfMain(files, moduleName)
    ensures Present(files, "label.xml") && "assign.xml" !in files && "quiz.xml" !in files
      ==> KindOf(files, moduleName) == Label && KindOfMain(files, moduleName) == Other(moduleName + ".xml")
  {
  }

  /** The dates an activity's row shows: assign.xml has all three, a quiz
      shows `timeopen`/`timeclose` as open/due (src/magic.js:350-352,
      364-365; main.js:216-218, 230-231). */
  function Stamps(k: Kind, doc: Document): (Stamp, Stamp, Stamp) {
    match k
    case Assign =>
      (StampOf(ParseInt(Read(doc, "allowsubmissionsfromdate"))),
       StampOf(ParseInt(Read(doc, "duedate"))),
       StampOf(ParseInt(Read(doc, "cutoffdate"))))
    case Quiz =>
      (StampOf(ParseInt(Read(doc, "timeopen"))), StampOf(ParseInt(Read(doc, "timeclose"))), Unset)
    case _ => (Unset, Unset, Unset)
  }

  /** What an activity's kind file is parsed into, None when the file is
      missing (`activity.files[type].toString()` throws). */
  function KindDoc(files: map<string, string>, k: Kind, lib: Library): Option<Document> {
    if FileOf(k) in files then Some(lib.parseXml(files[FileOf(k)])) else None
  }

  /** The row of an activity in src/magic.js (lines 316-381). */
  function ActivityEntry(id: string, g: Group, sections: map<string, SectionInfo>, lib: Library): Option<Ranked> {
    if "module.xml" !in g.files then None
    else
      var moduleDoc := lib.parseXml(g.files["module.xml"]);
      var place :- Place(moduleDoc, sections);
      var kind := KindOf(g.files, Read(moduleDoc, "modulename"));
      var doc :- KindDoc(g.files, kind, lib);
      var w := Decode(lib.parseJson(Read(moduleDoc, "availability")));
      var (opens, due, cutoff) := Stamps(kind, doc);
      Some(Ranked(place.ordinal, Row(id, Read(doc, "name"), w.from, w.to, CompletionOf(moduleDoc), opens, due, cutoff)))
  }

  /** main.js:240: the fallback name is its first line, trimmed. */
  function FirstLine(name: string): string {
    Trim(Split(name, '\n')[0])
  }

  /** The row of an activity in main.js (lines 130-246). */
  function MainActivityEntry(id: string, g: Group, sections: map<string, SectionInfo>, lib: Library): Option<Ranked> {
    if "module.xml" !in g.files then None
    else
      var moduleDoc := lib.parseXml(g.files["module.xml"]);
      var place :- Place(moduleDoc, sections);
      var kind := KindOfMain(g.files, Read(moduleDoc, "modulename"));
      var doc :- KindDoc(g.files, kind, lib);
      var w := Decode(lib.parseJson(Read(moduleDoc, "availability")));
      var (opens, due, cutoff) := Stamps(kind, doc);
      var name := if kind.Other? then FirstLine(Read(doc, "name")) else Read(doc, "name");
      Some(Ranked(place.ordinal, Row(id, name, w.from, w.to, CompletionOf(moduleDoc), opens, due, cutoff)))
  }

  /** The fallback name of main.js is the text before the first line break
      with the white space at its two ends removed: it holds no line break and
      no surrounding white space, and a one-line name without such white space
      is kept. */
  lemma FirstLineFacts(name: string)
    ensures var line := name[..PieceEnd(name, '\n')];
      FirstLine(name) == Trim(line) && exists i, j :: CutAt(line, FirstLine(name), i, j)
    ensures '\n' !in FirstLine(name)
    ensures |FirstLine(name)| > 0 ==> !IsJsSpace(FirstLine(name)[0]) && !IsJsSpace(FirstLine(name)[|FirstLine(name)| - 1])
    ensures '\n' !in name && (|name| == 0 || (!IsJsSpace(name[0]) && !IsJsSpace(name[|name| - 1]))) ==> FirstLine(name) == name
  {
    var first := Split(name, '\n')[0];
    SplitFirst(name, '\n');
    TrimFacts(first, '\n');
    if '\n' !in name {
      SplitWhole(name, '\n');
    }
  }
}
