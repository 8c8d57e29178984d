/** What a run hands back: the sorted sheet rows in read mode, the rebuilt
    archive in patch mode, and the names of both. */
module Output {
  import opened Wrappers
  import opened JsText
  import opened Xml
  import opened Codecs
  import opened Course

  // ------------------------------------------------------------ read mode

  predicate AllRanked(s: seq<Ranked>) {
    forall i :: 0 <= i < |s| ==> s[i].ordinal.Some?
  }

  /** Ascending by ordinal, among the rows that have one. */
  predicate Sorted(s: seq<Ranked>) {
    forall i, j :: 0 <= i < j < |s| && s[i].ordinal.Some? && s[j].ordinal.Some? ==> s[i].ordinal.value <= s[j].ordinal.value
  }

  /** The ordinal of a ranked row, read where every ordinal is a number. */
  function Key(x: Ranked): int {
    if x.ordinal.Some? then x.ordinal.value else 0
  }

  predicate KeySorted(s: seq<Ranked>) {
    forall i, j :: 0 <= i < j < |s| ==> Key(s[i]) <= Key(s[j])
  }

  /** Puts `x` in front of the first row of `s` with a key no smaller. */
  function InsertByKey(x: Ranked, s: seq<Ranked>): seq<Ranked> {
    if |s| == 0 then [x]
    else if Key(x) <= Key(s[0]) then [x] + s
    else [s[0]] + InsertByKey(x, s[1..])
  }

  function InsertionSort(s: seq<Ranked>): seq<Ranked> {
    if |s| == 0 then [] else InsertByKey(s[0], InsertionSort(s[1..]))
  }

  /** `rows.sort((a, b) => a.number - b.number)` (src/magic.js:386,
      main.js:251), a stable sort. With a NaN ordinal the comparator is
      inconsistent and the order is implementation-defined; the model keeps
      the input order then, one of the orders the language permits. */
  function SortByOrdinal(s: seq<Ranked>): seq<Ranked> {
    if AllRanked(s) then InsertionSort(s) else s
  }

  lemma {:induction false} InsertByKeyFacts(x: Ranked, s: seq<Ranked>)
    requires KeySorted(s)
    ensures KeySorted(InsertByKey(x, s))
    ensures multiset(InsertByKey(x, s)) == multiset(s) + multiset{x}
    decreases |s|
  {
    InsertByKeyPermutes(x, s);
    if |s| > 0 && Key(x) > Key(s[0]) {
      InsertByKeyFacts(x, s[1..]);
      var t := InsertByKey(x, s[1..]);
      assert InsertByKey(x, s) == [s[0]] + t;
      forall y | y in multiset(t)
        ensures Key(s[0]) <= Key(y)
      {
        assert y in multiset(s[1..]) + multiset{x};
        if y != x {
          var j :| 0 <= j < |s[1..]| && s[1..][j] == y;
          assert s[j + 1] == y;
        }
      }
      ConsSorted(s[0], t);
    }
  }

  /** Inserting adds x and nothing else. */
  lemma {:induction false} InsertByKeyPermutes(x: Ranked, s: seq<Ranked>)
    ensures multiset(InsertByKey(x, s)) == multiset(s) + multiset{x}
    decreases |s|
  {
    if |s| > 0 && Key(x) > Key(s[0]) {
      InsertByKeyPermutes(x, s[1..]);
      assert s == [s[0]] + s[1..];
      assert InsertByKey(x, s) == [s[0]] + InsertByKey(x, s[1..]);
    }
  }

  /** A row no greater than every row of a sorted sequence can go in front. */
  lemma ConsSorted(y: Ranked, t: seq<Ranked>)
    requires KeySorted(t) && forall z :: z in multiset(t) ==> Key(y) <= Key(z)
    ensures KeySorted([y] + t)
  {
    forall i, j | 0 <= i < j < |[y] + t|
      ensures Key(([y] + t)[i]) <= Key(([y] + t)[j])
    {
      if i == 0 {
        assert ([y] + t)[j] == t[j - 1];
        assert t[j - 1] in multiset(t);
      } else {
        assert ([y] + t)[i] == t[i - 1] && ([y] + t)[j] == t[j - 1];
      }
    }
  }

  lemma {:induction false} InsertionSortFacts(s: seq<Ranked>)
    ensures KeySorted(InsertionSort(s))
    ensures multiset(InsertionSort(s)) == multiset(s)
    decreases |s|
  {
    if |s| > 0 {
      InsertionSortFacts(s[1..]);
      InsertByKeyFacts(s[0], InsertionSort(s[1..]));
      assert s == [s[0]] + s[1..];
    }
  }

  /** The rows of s whose key is k, in the order of s. */
  function WithKey(s: seq<Ranked>, k: int): seq<Ranked> {
    if |s| == 0 then []
    else (if Key(s[0]) == k then [s[0]] else []) + WithKey(s[1..], k)
  }

  lemma WithKeyCons(y: Ranked, t: seq<Ranked>, k: int)
    ensures WithKey([y] + t, k) == (if Key(y) == k then [y] else []) + WithKey(t, k)
  {
    assert ([y] + t)[0] == y && ([y] + t)[1..] == t;
  }

  /** Inserting puts x in front of every row with the same key. */
  lemma {:induction false} InsertByKeyStable(x: Ranked, s: seq<Ranked>, k: int)
    ensures WithKey(InsertByKey(x, s), k) == (if Key(x) == k then [x] else []) + WithKey(s, k)
    decreases |s|
  {
    if |s| == 0 {
      WithKeyCons(x, [], k);
      assert [x] + [] == [x];
    } else if Key(x) <= Key(s[0]) {
      assert InsertByKey(x, s) == [x] + s;
      WithKeyCons(x, s, k);
    } else {
      InsertByKeyStable(x, s[1..], k);
      var t := InsertByKey(x, s[1..]);
      assert InsertByKey(x, s) == [s[0]] + t;
      WithKeyCons(s[0], t, k);
      var mine := if Key(x) == k then [x] else [];
      var first := if Key(s[0]) == k then [s[0]] else [];
      assert first == [] || mine == [];
      calc {
        WithKey(InsertByKey(x, s), k);
        first + WithKey(t, k);
        first + (mine + WithKey(s[1..], k));
        mine + (first + WithKey(s[1..], k));
        mine + WithKey(s, k);
      }
    }
  }

  /** The insertion sort is stable: rows with equal keys keep their order. */
  lemma {:induction false} InsertionSortStable(s: seq<Ranked>, k: int)
    ensures WithKey(InsertionSort(s), k) == WithKey(s, k)
    decreases |s|
  {
    if |s| > 0 {
      InsertionSortStable(s[1..], k);
      InsertByKeyStable(s[0], InsertionSort(s[1..]), k);
    }
  }

  /** The sorted rows are a permutation of the built rows; when every row has
      a numeric ordinal they are in ascending order of it, rows with the same
      ordinal keeping their build order (a stable sort), otherwise left as
      they were. */
  lemma SortByOrdinalFacts(s: seq<Ranked>)
    ensures multiset(SortByOrdinal(s)) == multiset(s)
    ensures AllRanked(s) ==> AllRanked(SortByOrdinal(s)) && Sorted(SortByOrdinal(s))
    ensures forall k :: WithKey(SortByOrdinal(s), k) == WithKey(s, k)
    ensures !AllRanked(s) ==> SortByOrdinal(s) == s
  {
    forall k {
      InsertionSortStable(s, k);
    }
    InsertionSortFacts(s);
    if AllRanked(s) {
      var r := InsertionSort(s);
      forall i | 0 <= i < |r| ensures r[i].ordinal.Some? {
        assert r[i] in multiset(s);
      }
    }
  }

  /** `forEach(e => delete e.number)` */
  function Strip(s: seq<Ranked>): seq<Row> {
    seq(|s|, i requires 0 <= i < |s| => s[i].row)
  }

  /** The rows of the read-mode sheet (src/magic.js:385-387,
      main.js:250-252): sorted by ordinal, which is then dropped. */
  function ExportRows(ranked: seq<Ranked>): seq<Row> {
    Strip(SortByOrdinal(ranked))
  }

  lemma {:induction false} StripInsert(x: Ranked, s: seq<Ranked>)
    ensures multiset(Strip(InsertByKey(x, s))) == multiset(Strip(s)) + multiset{x.row}
    decreases |s|
  {
    if |s| > 0 && Key(x) > Key(s[0]) {
      StripInsert(x, s[1..]);
      assert InsertByKey(x, s) == [s[0]] + InsertByKey(x, s[1..]);
      StripCons(s[0], InsertByKey(x, s[1..]));
      StripCons(s[0], s[1..]);
      assert [s[0]] + s[1..] == s;
    } else {
      assert InsertByKey(x, s) == [x] + s;
      StripCons(x, s);
    }
  }

  lemma StripCons(y: Ranked, t: seq<Ranked>)
    ensures Strip([y] + t) == [y.row] + Strip(t)
  {
    assert forall i :: 0 <= i < |t| ==> ([y] + t)[i + 1] == t[i];
  }

  lemma {:induction false} StripSort(s: seq<Ranked>)
    ensures multiset(Strip(InsertionSort(s))) == multiset(Strip(s))
    decreases |s|
  {
    if |s| > 0 {
      StripSort(s[1..]);
      StripInsert(s[0], InsertionSort(s[1..]));
      StripCons(s[0], s[1..]);
      assert [s[0]] + s[1..] == s;
    }
  }

  /** The sheet holds exactly the built rows, each as often as it was built. */
  lemma ExportKeepsRows(ranked: seq<Ranked>)
    ensures multiset(ExportRows(ranked)) == multiset(Strip(ranked))
    ensures !AllRanked(ranked) ==> ExportRows(ranked) == Strip(ranked)
  {
    if AllRanked(ranked) {
      StripSort(ranked);
    }
  }

  // ----------------------------------------------------------- patch mode

  /** An entry of the rebuilt archive. */
  datatype OutEntry = Folder(name: string) | Serialized(name: string, text: string) | Original(name: string, data: Bytes)

  /** One entry of src/magic.js:439-448: a folder, the serialised edited
      document, or the original bytes. */
  function Emit(e: Item, dirty: map<string, Document>, serialize: Document -> string): OutEntry {
    if EndsWith(e.name, "/") then Folder(e.name)
    else if e.name in dirty then Serialized(e.name, serialize(dirty[e.name]))
    else Original(e.name, e.data)
  }

  function Assembled(items: seq<Item>, dirty: map<string, Document>, serialize: Document -> string): seq<OutEntry> {
    seq(|items|, i requires 0 <= i < |items| => Emit(items[i], dirty, serialize))
  }

  /** The archive as it was: folders as folders, files with their bytes. */
  function Unchanged(items: seq<Item>): seq<OutEntry> {
    seq(|items|, i requires 0 <= i < |items| => if EndsWith(items[i].name, "/") then Folder(items[i].name) else Original(items[i].name, items[i].data))
  }

  /** The output loop of src/magic.js:439-448. */
  method Assemble(items: seq<Item>, dirty: map<string, Document>, serialize: Document -> string) returns (out: seq<OutEntry>)
    ensures out == Assembled(items, dirty, serialize)
  {
    out := [];
    for i := 0 to |items|
      invariant |out| == i && forall k :: 0 <= k < i ==> out[k] == Emit(items[k], dirty, serialize)
    {
      var entry := items[i];
      if EndsWith(entry.name, "/") {
        out := out + [Folder(entry.name)];
      } else if entry.name in dirty {
        out := out + [Serialized(entry.name, serialize(dirty[entry.name]))];
      } else {
        out := out + [Original(entry.name, entry.data)];
      }
    }
  }

  /** The rebuilt archive has the original entries, by name, in the original
      order; only files recorded as edited are re-serialised, and every other
      file keeps its bytes. */
  lemma AssembledFacts(items: seq<Item>, dirty: map<string, Document>, serialize: Document -> string)
    ensures var out := Assembled(items, dirty, serialize);
      && |out| == |items|
      && (forall i :: 0 <= i < |items| ==> out[i].name == items[i].name)
      && (forall i :: 0 <= i < |items| ==> (out[i].Serialized? <==> !EndsWith(items[i].name, "/") && items[i].name in dirty))
      && (forall i :: 0 <= i < |items| && out[i].Serialized? ==> out[i].text == serialize(dirty[items[i].name]))
      && (forall i :: 0 <= i < |items| && items[i].name !in dirty ==> out[i] == Unchanged(items)[i])
  {
  }

  /** A run that edits nothing gives the archive back as it was. */
  lemma AssembledClean(items: seq<Item>, serialize: Document -> string)
    ensures Assembled(items, map[], serialize) == Unchanged(items)
  {
  }

  /** main.js:286-303: every entry is passed through unless it was edited;
      there is no folder case. */
  function EmitMain(e: Item, dirty: map<string, Document>, serialize: Document -> string): OutEntry {
    if e.name in dirty then Serialized(e.name, serialize(dirty[e.name])) else Original(e.name, e.data)
  }

  function AssembledMain(items: seq<Item>, dirty: map<string, Document>, serialize: Document -> string): seq<OutEntry> {
    seq(|items|, i requires 0 <= i < |items| => EmitMain(items[i], dirty, serialize))
  }

  /** The two variants rebuild the same archive except for entries named like
      folders, which main.js passes through as they are. */
  lemma AssemblyVariants(items: seq<Item>, dirty: map<string, Document>, serialize: Document -> string)
    ensures |AssembledMain(items, dirty, serialize)| == |Assembled(items, dirty, serialize)|
    ensures forall i :: 0 <= i < |items| && !EndsWith(items[i].name, "/") ==>
      AssembledMain(items, dirty, serialize)[i] == Assembled(items, dirty, serialize)[i]
    ensures forall i :: 0 <= i < |items| && EndsWith(items[i].name, "/") && items[i].name !in dirty ==>
      AssembledMain(items, dirty, serialize)[i] == Original(items[i].name, items[i].data)
  {
  }

  // ------------------------------------------------------------------ names

  /** `${filename.replace(/\.[^.]*$/, '.patched')}.mbz` (src/magic.js:434,
      main.js:277). */
  function PatchedArchiveName(filename: string): string {
    ReplaceExtension(filename, ".patched") + ".mbz"
  }

  /** The patched archive never takes the input's name and always ends in
      `.mbz`. */
  lemma PatchedArchiveNameFresh(filename: string)
    ensures PatchedArchiveName(filename) != filename
    ensures EndsWith(PatchedArchiveName(filename), ".mbz")
  {
    var stem := ReplaceExtension(filename, ".patched");
    AppendEnds(stem, ".mbz");
    var d := LastDot(filename);
    if d.None? {
      assert |stem + ".mbz"| == |filename| + 4;
    } else {
      assert stem + ".mbz" == filename[..d.value] + ".patched.mbz";
      PatchedNameDiffers(filename, d.value);
    }
  }

  /** The last extension becomes `.patched` and `.mbz` follows; a name
      without dot only gets `.mbz`. */
  lemma PatchedArchiveNameShape(filename: string)
    ensures '.' !in filename ==> PatchedArchiveName(filename) == filename + ".mbz"
    ensures LastDot(filename).Some? ==>
      PatchedArchiveName(filename) == filename[..LastDot(filename).value] + ".patched.mbz"
  {
    var d := LastDot(filename);
    if d.None? {
      assert ReplaceExtension(filename, ".patched") == filename;
    } else {
      var head := filename[..d.value];
      assert ReplaceExtension(filename, ".patched") == head + ".patched";
      PatchedSuffix(head);
    }
  }

  lemma PatchedSuffix(head: string)
    ensures (head + ".patched") + ".mbz" == head + ".patched.mbz"
  {
    assert ".patched" + ".mbz" == ".patched.mbz";
  }

  lemma PatchedNameDiffers(filename: string, k: nat)
    requires k < |filename| && '.' !in filename[k + 1..]
    ensures filename[..k] + ".patched.mbz" != filename
  {
    var r := filename[..k] + ".patched.mbz";
    if |r| == |filename| {
      assert r[k + 8] == '.';
      assert filename[k + 1..][7] == filename[k + 8];
    }
  }

  /** `${filename.replace(/\.[^.]*$/, '')}.xlsx` (src/magic.js:406,
      main.js:272). */
  function ExportName(filename: string): string {
    ReplaceExtension(filename, "") + ".xlsx"
  }

  /** `name.replace(/xlsx$/, 'zip')` (src/magic.js:418). */
  function BundleName(name: string): string {
    if EndsWith(name, "xlsx") then name[..|name| - 4] + "zip" else name
  }

  /** The content bundle of a read run is named like the sheet, with `.zip`. */
  lemma BundleOfExport(filename: string)
    ensures EndsWith(ExportName(filename), ".xlsx")
    ensures BundleName(ExportName(filename)) == ReplaceExtension(filename, "") + ".zip"
  {
    var n := ExportName(filename);
    assert n[|n| - 4..] == "xlsx";
    assert n[..|n| - 4] == ReplaceExtension(filename, "") + ".";
  }

  // ------------------------------------------------------------ bundle path

  /** The bundle path of an activity's intro (src/magic.js:167-169):
      `sections/<number + 1, 2 digits>/<index + 1, 3 digits>_<slug>.<type>.<html|txt>`.
      The engine passes the position in the sequence as `number` and
      `Number(sectionnumber)` as `index` (src/magic.js:345, 349), so the
      directory is the position and the file prefix the section number. */
  function BundlePath(number: int, index: Option<int>, name: string, moduleName: Option<string>, introFormat: string): string {
    "sections/" + BundleStem(number, index, name, moduleName) + IntroExtension(introFormat)
  }

  function BundleStem(number: int, index: Option<int>, name: string, moduleName: Option<string>): string {
    var dir := PadStart(IntToString(number + 1), 2, '0');
    var prefix := PadStart(NumberToString(if index.Some? then Some(index.value + 1) else None), 3, '0');
    var kind := if moduleName.Some? then moduleName.value else "undefined";
    dir + "/" + prefix + "_" + Slug(name) + "." + kind
  }

  /** `introformat` 1 is HTML, anything else plain text. */
  function IntroExtension(introFormat: string): string {
    if introFormat == "1" then ".html" else ".txt"
  }

  /** Every bundle path lies under `sections/` and ends in `.html` exactly
      when `introformat` is `1`, in `.txt` otherwise. */
  lemma BundlePathShape(number: int, index: Option<int>, name: string, moduleName: Option<string>, introFormat: string)
    ensures var p := BundlePath(number, index, name, moduleName, introFormat);
      && StartsWith(p, "sections/")
      && (EndsWith(p, ".html") <==> introFormat == "1")
      && (introFormat != "1" ==> EndsWith(p, ".txt"))
  {
    PathShape(BundleStem(number, index, name, moduleName), introFormat);
  }

  lemma PathShape(stem: string, introFormat: string)
    ensures var p := "sections/" + stem + IntroExtension(introFormat);
      && StartsWith(p, "sections/")
      && (EndsWith(p, ".html") <==> introFormat == "1")
      && (introFormat != "1" ==> EndsWith(p, ".txt"))
  {
    var ext := IntroExtension(introFormat);
    var p := "sections/" + stem + ext;
    assert p == "sections/" + (stem + ext);
    AppendEnds("sections/", stem + ext);
    AppendEnds("sections/" + stem, ext);
    if introFormat != "1" {
      assert p[|p| - 1] == 't';
      assert ".html"[4] == 'l';
    }
  }
}
