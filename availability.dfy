/** The availability codec. Moodle stores an activity's (`availability` in
    module.xml) or a section's (`availabilityjson` in section.xml) access
    restrictions as a JSON condition tree; the engine only understands the
    conjunction `{op: '&', c: [...], showc: [...]}` with date conditions
    `{type: 'date', d: '>=' | '<', t: <unix seconds>}`. */
module Availability {
  import opened Wrappers
  import opened JsText
  import opened JsonModel

  /** `row.availableFrom` / `row.availableTo` in milliseconds; None when the
      row has no such key. */
  datatype Window = Window(from: Option<int>, to: Option<int>)

  const Lower: string := ">="
  const Upper: string := "<"

  /** `e.type === 'date' && e.d === d` */
  predicate IsDateBound(e: Json, d: string) {
    Get(e, "type") == Some(JStr("date")) && Get(e, "d") == Some(JStr(d))
  }

  /** The outcome of `c.find(e => e.type === 'date' && e.d === d)`: reading
      `.type` of a `null` element throws a TypeError. */
  datatype Search = Found(at: nat) | Missing | Threw

  function Find(c: seq<Json>, d: string): (r: Search)
    ensures r.Found? ==> r.at < |c| && IsDateBound(c[r.at], d) && c[r.at].JObj?
    ensures r.Found? ==> forall k :: 0 <= k < r.at ==> c[k] != JNull && !IsDateBound(c[k], d)
    ensures r.Missing? ==> forall k :: 0 <= k < |c| ==> c[k] != JNull && !IsDateBound(c[k], d)
    ensures r.Threw? <==> exists k :: 0 <= k < |c| && c[k] == JNull && forall j :: 0 <= j < k ==> !IsDateBound(c[j], d)
  {
    if |c| == 0 then Missing
    else if c[0] == JNull then Threw
    else if IsDateBound(c[0], d) then Found(0)
    else
      var r := Find(c[1..], d);
      assert forall k :: 1 <= k < |c| ==> c[k] == c[1..][k - 1];
      match r
      case Found(i) => Found(i + 1)
      case Missing => Missing
      case Threw => Threw
  }

  /** `t ? new Date(t * 1000) : undefined` for a constraint's `t` member. */
  function Seen(t: Option<Json>): (r: Option<int>)
    ensures r.Some? <==> t.Some? && t.value.JNum? && t.value.n != 0
    ensures r.Some? ==> r.value == t.value.n * 1000 && r.value % 1000 == 0 && r.value != 0
  {
    if t.Some? && t.value.JNum? && t.value.n != 0 then Some(t.value.n * 1000) else None
  }

  /** The `t` a search result points at, as the row shows it. */
  function BoundOf(c: seq<Json>, s: Search): (r: Option<int>)
    requires s.Found? ==> s.at < |c|
    ensures r.Some? ==> r.value % 1000 == 0 && r.value != 0
  {
    if s.Found? then Seen(Get(c[s.at], "t")) else None
  }

  predicate IsConjunction(j: Json) {
    Get(j, "op") == Some(JStr("&"))
  }

  /** The `c` list of an expression, empty when it has none. */
  function Constraints(j: Json): seq<Json> {
    match Get(j, "c")
    case Some(JArr(c)) => c
    case _ => []
  }

  /** The `showc` list of an expression, empty when it has none. */
  function ShowFlags(j: Json): seq<Json> {
    match Get(j, "showc")
    case Some(JArr(s)) => s
    case _ => []
  }

  /** `parseAvailability` (src/magic.js) and the same inline decode of
      main.js: the window a stored expression shows. `parsed` is the result of
      `JSON.parse`, None when it threw. Anything the code reads through a
      `try` that throws leaves the window empty from that point on. */
  function Decode(parsed: Option<Json>): (w: Window)
    ensures parsed.None? || !IsConjunction(parsed.value) ==> w == Window(None, None)
    ensures w.from.Some? ==> w.from.value % 1000 == 0 && w.from.value != 0
    ensures w.to.Some? ==> w.to.value % 1000 == 0 && w.to.value != 0
  {
    if parsed.None? || !IsConjunction(parsed.value) then Window(None, None)
    else
      match Get(parsed.value, "c")
      case Some(JArr(c)) =>
        var f := Find(c, Lower);
        if f.Threw? then Window(None, None)
        else
          var t := Find(c, Upper);
          Window(BoundOf(c, f), if t.Threw? then None else BoundOf(c, t))
      case _ => Window(None, None)
  }

  /** `{op: '&', c: [], showc: []}` */
  const Empty: Json := JObj([("op", JStr("&")), ("c", JArr([])), ("showc", JArr([]))])

  /** `{type: 'date', d, t}` */
  function DateBound(d: string, t: int): Json {
    JObj([("type", JStr("date")), ("d", JStr(d)), ("t", JNum(t))])
  }

  /** A patch date counts when `getTime()` is truthy. */
  predicate Supplied(ms: Option<int>) {
    ms.Some? && ms.value != 0
  }

  /** What the row shows after a date of `ms` milliseconds was stored as
      `Math.round(ms / 1000)` seconds. */
  function Stored(ms: int): Option<int> {
    Seen(Some(JNum(RoundToSeconds(ms))))
  }

  /** One bound of `patchAvailability` (src/magic.js:127-153): overwrite `t` of
      the first date condition with comparator d, or append `{type: 'date', d, t}`
      to `c` and `true` to `showc`. None when the code throws: the expression is
      not an object, `c` or (when appending) `showc` is not an array, or the
      search meets a `null`. */
  function SetBound(j: Json, d: string, t: int): Option<Json> {
    if !j.JObj? then None
    else
      match Member(j.members, "c")
      case Some(JArr(c)) =>
        (match Find(c, d)
         case Threw => None
         case Found(i) =>
           Some(JObj(Put(j.members, "c", JArr(c[i := JObj(Put(c[i].members, "t", JNum(t)))]))))
         case Missing =>
           match Member(j.members, "showc")
           case Some(JArr(s)) =>
             Some(JObj(Put(Put(j.members, "showc", JArr(s + [JBool(true)])), "c", JArr(c + [DateBound(d, t)]))))
           case _ => None)
      case _ => None
  }

  /** The expression `patchAvailability` (src/magic.js:116-153) hands to
      `JSON.stringify`: the parsed text, or the empty conjunction when it did
      not parse, with each supplied bound set. The code does not check `op`
      here, so a disjunction has its `c` list edited too. */
  function Edit(parsed: Option<Json>, from: Option<int>, to: Option<int>): Option<Json> {
    var base := if parsed.None? then Empty else parsed.value;
    var withFrom :- if Supplied(from) then SetBound(base, Lower, RoundToSeconds(from.value)) else Some(base);
    if Supplied(to) then SetBound(withFrom, Upper, RoundToSeconds(to.value)) else Some(withFrom)
  }

  /** main.js:161 (and src/magic.js:114): the rewrite runs only when the
      patch's dates differ from the row's. */
  predicate Differs(from: Option<int>, to: Option<int>, current: Window) {
    from != current.from || to != current.to
  }

  // ----------------------------------------------------------- main.js rewrite

  /** main.js:163-170 get through without throwing: the stored text parsed as
      a conjunction whose `c` holds both a `'>='` and a `'<'` date condition,
      neither with a `null` bound, and the patch row has both dates. */
  predicate KeepsExisting(parsed: Option<Json>, from: Option<int>, to: Option<int>) {
    && parsed.Some? && IsConjunction(parsed.value)
    && (match Get(parsed.value, "c")
        case Some(JArr(c)) =>
          && Find(c, Lower).Found? && Get(c[Find(c, Lower).at], "t") != Some(JNull)
          && Find(c, Upper).Found? && Get(c[Find(c, Upper).at], "t") != Some(JNull)
        case _ => false)
    && from.Some? && to.Some?
  }

  /** main.js:175-197: a fresh conjunction with a `'>='` and then a `'<'`
      condition for the supplied dates only. */
  function FreshWindow(from: Option<int>, to: Option<int>): Json {
    var lower := if Supplied(from) then [DateBound(Lower, RoundToSeconds(from.value))] else [];
    var upper := if Supplied(to) then [DateBound(Upper, RoundToSeconds(to.value))] else [];
    JObj([("op", JStr("&")), ("c", JArr(lower + upper)), ("showc", JArr(Trues(|lower + upper|)))])
  }

  /** The value main.js hands to `JSON.stringify`: in the keep-existing branch
      it is the raw text itself (main.js:172), the edits to `parsed` being
      dropped; otherwise the fresh conjunction. */
  function MainRewrite(raw: string, parsed: Option<Json>, from: Option<int>, to: Option<int>): Json {
    if KeepsExisting(parsed, from, to) then JStr(raw) else FreshWindow(from, to)
  }

  // ---------------------------------------------------------------- lemmas

  /** `true` flags, one per appended condition. */
  function Trues(n: nat): seq<Json> {
    seq(n, _ => JBool(true))
  }

  /** Members other than `c` and `showc` are untouched. */
  ghost predicate SameOutside(a: Json, b: Json) {
    forall key :: key != "c" && key != "showc" ==> Get(b, key) == Get(a, key)
  }

  /** c2 holds c's conditions in place, except possibly date bounds with
      comparator d, and perhaps more after them. */
  predicate KeepsOthers(c: seq<Json>, c2: seq<Json>, d: string) {
    |c| <= |c2| && forall k :: 0 <= k < |c| && !IsDateBound(c[k], d) ==> c2[k] == c[k]
  }

  /** The first date bound with comparator d holds t. */
  predicate HoldsBound(c: seq<Json>, d: string, t: int) {
    Find(c, d).Found? && Get(c[Find(c, d).at], "t") == Some(JNum(t))
  }

  lemma DateBoundReads(d: string, t: int)
    ensures IsDateBound(DateBound(d, t), d)
    ensures Get(DateBound(d, t), "t") == Some(JNum(t))
  {
    MemberOfThree(("type", JStr("date")), ("d", JStr(d)), ("t", JNum(t)), "type");
    MemberOfThree(("type", JStr("date")), ("d", JStr(d)), ("t", JNum(t)), "d");
    MemberOfThree(("type", JStr("date")), ("d", JStr(d)), ("t", JNum(t)), "t");
  }

  lemma EmptyReads()
    ensures IsConjunction(Empty)
    ensures Get(Empty, "c") == Some(JArr([])) && Get(Empty, "showc") == Some(JArr([]))
  {
    MemberOfThree(("op", JStr("&")), ("c", JArr([])), ("showc", JArr([])), "op");
    MemberOfThree(("op", JStr("&")), ("c", JArr([])), ("showc", JArr([])), "c");
    MemberOfThree(("op", JStr("&")), ("c", JArr([])), ("showc", JArr([])), "showc");
  }

  /** A search stopping at i sees only the first i+1 elements. */
  lemma {:induction false} FindPrefixSame(c: seq<Json>, c2: seq<Json>, d: string, i: nat)
    requires Find(c, d) == Found(i) && |c2| == |c|
    requires forall k :: 0 <= k < i ==> c2[k] == c[k]
    requires IsDateBound(c2[i], d)
    ensures Find(c2, d) == Found(i)
  {
    if i > 0 {
      assert Find(c[1..], d) == Found(i - 1);
      FindPrefixSame(c[1..], c2[1..], d, i - 1);
    }
  }

  /** Overwriting `t` of the condition found for d leaves the search for any
      other comparator as it was: the condition keeps its `type` and `d`. */
  lemma {:induction false} FindAfterSet(c: seq<Json>, d: string, t: int, other: string)
    requires other != d && Find(c, d).Found?
    ensures var i := Find(c, d).at;
      Find(c[i := JObj(Put(c[i].members, "t", JNum(t)))], other) == Find(c, other)
  {
    var i := Find(c, d).at;
    var c2 := c[i := JObj(Put(c[i].members, "t", JNum(t)))];
    assert IsDateBound(c2[i], d);
    if c[0] != JNull && !IsDateBound(c[0], other) {
      if i > 0 {
        assert c2[1..] == c[1..][i - 1 := JObj(Put(c[i].members, "t", JNum(t)))];
        assert Find(c[1..], d) == Found(i - 1);
        FindAfterSet(c[1..], d, t, other);
      } else {
        assert c2[1..] == c[1..];
      }
    }
  }

  /** Appending a bound with comparator d leaves the search for any other
      comparator as it was. */
  lemma {:induction false} FindAfterAppend(c: seq<Json>, d: string, t: int, other: string)
    requires other != d
    ensures Find(c + [DateBound(d, t)], other) == Find(c, other)
  {
    var e := DateBound(d, t);
    DateBoundReads(d, t);
    if |c| > 0 {
      assert (c + [e])[1..] == c[1..] + [e];
      FindAfterAppend(c[1..], d, t, other);
    } else {
      assert [e][1..] == [];
    }
  }

  /** Appending to a list where d is missing makes the appended bound the one
      found. */
  lemma {:induction false} FindAppended(c: seq<Json>, d: string, t: int)
    requires Find(c, d).Missing?
    ensures Find(c + [DateBound(d, t)], d) == Found(|c|)
  {
    DateBoundReads(d, t);
    var c2 := c + [DateBound(d, t)];
    if |c| > 0 {
      assert c2[1..] == c[1..] + [DateBound(d, t)];
      FindAppended(c[1..], d, t);
    }
  }

  /** The shape of a successful SetBound: which branch it took and what it
      built. */
  lemma SetBoundShape(j: Json, d: string, t: int)
    requires SetBound(j, d, t).Some?
    ensures j.JObj? && Get(j, "c") == Some(JArr(Constraints(j))) && !Find(Constraints(j), d).Threw?
    ensures Find(Constraints(j), d).Found? ==>
      var c := Constraints(j);
      var i := Find(c, d).at;
      SetBound(j, d, t).value == JObj(Put(j.members, "c", JArr(c[i := JObj(Put(c[i].members, "t", JNum(t)))])))
    ensures Find(Constraints(j), d).Missing? ==>
      && Get(j, "showc") == Some(JArr(ShowFlags(j)))
      && SetBound(j, d, t).value
         == JObj(Put(Put(j.members, "showc", JArr(ShowFlags(j) + [JBool(true)])), "c", JArr(Constraints(j) + [DateBound(d, t)])))
  {
  }

  /** SetBound when the bound exists: `t` is overwritten in place. */
  lemma SetBoundFound(j: Json, d: string, t: int, other: string)
    requires other != d && SetBound(j, d, t).Some?
    requires Find(Constraints(j), d).Found?
    ensures var j2 := SetBound(j, d, t).value;
      && SameOutside(j, j2) && Get(j2, "c") == Some(JArr(Constraints(j2)))
      && HoldsBound(Constraints(j2), d, t)
      && Find(Constraints(j2), other) == Find(Constraints(j), other)
      && KeepsOthers(Constraints(j), Constraints(j2), d)
      && |Constraints(j2)| == |Constraints(j)| && ShowFlags(j2) == ShowFlags(j)
  {
    SetBoundFoundMembers(j, d, t);
    SetBoundFoundList(j, d, t, other);
  }

  lemma SetBoundFoundMembers(j: Json, d: string, t: int)
    requires SetBound(j, d, t).Some? && Find(Constraints(j), d).Found?
    ensures var j2 := SetBound(j, d, t).value;
      && SameOutside(j, j2) && ShowFlags(j2) == ShowFlags(j)
      && Get(j2, "c") == Some(JArr(Constraints(j2)))
      && var c := Constraints(j);
         var i := Find(c, d).at;
         Constraints(j2) == c[i := JObj(Put(c[i].members, "t", JNum(t)))]
  {
    SetBoundShape(j, d, t);
  }

  lemma SetBoundFoundList(j: Json, d: string, t: int, other: string)
    requires other != d && SetBound(j, d, t).Some? && Find(Constraints(j), d).Found?
    ensures var j2 := SetBound(j, d, t).value;
      && HoldsBound(Constraints(j2), d, t)
      && Find(Constraints(j2), other) == Find(Constraints(j), other)
      && KeepsOthers(Constraints(j), Constraints(j2), d)
      && |Constraints(j2)| == |Constraints(j)|
  {
    var c := Constraints(j);
    var i := Find(c, d).at;
    var c2 := c[i := JObj(Put(c[i].members, "t", JNum(t)))];
    SetBoundFoundMembers(j, d, t);
    FindAfterSet(c, d, t, other);
    assert IsDateBound(c2[i], d);
    FindPrefixSame(c, c2, d, i);
  }

  /** SetBound when the bound is missing: one condition and one flag are
      appended. */
  lemma SetBoundMissing(j: Json, d: string, t: int, other: string)
    requires other != d && SetBound(j, d, t).Some?
    requires !Find(Constraints(j), d).Found?
    ensures var j2 := SetBound(j, d, t).value;
      && SameOutside(j, j2) && Get(j2, "c") == Some(JArr(Constraints(j2)))
      && HoldsBound(Constraints(j2), d, t)
      && Find(Constraints(j2), other) == Find(Constraints(j), other)
      && KeepsOthers(Constraints(j), Constraints(j2), d)
      && |Constraints(j2)| == |Constraints(j)| + 1 && ShowFlags(j2) == ShowFlags(j) + [JBool(true)]
  {
    var c := Constraints(j);
    var j2 := SetBound(j, d, t).value;
    SetBoundShape(j, d, t);
    assert Constraints(j2) == c + [DateBound(d, t)];
    FindAfterAppend(c, d, t, other);
    FindAppended(c, d, t);
    DateBoundReads(d, t);
  }

  /** What one SetBound does, whichever branch it takes. */
  lemma SetBoundEffect(j: Json, d: string, t: int, other: string)
    requires other != d && SetBound(j, d, t).Some?
    ensures var j2 := SetBound(j, d, t).value;
      && Get(j, "c") == Some(JArr(Constraints(j)))
      && SameOutside(j, j2) && Get(j2, "c") == Some(JArr(Constraints(j2)))
      && HoldsBound(Constraints(j2), d, t)
      && Find(Constraints(j2), other) == Find(Constraints(j), other)
      && KeepsOthers(Constraints(j), Constraints(j2), d)
      && ShowFlags(j2) == ShowFlags(j) + Trues(|Constraints(j2)| - |Constraints(j)|)
  {
    if Find(Constraints(j), d).Found? {
      SetBoundFound(j, d, t, other);
      assert Trues(0) == [];
    } else {
      SetBoundMissing(j, d, t, other);
      assert Trues(1) == [JBool(true)];
    }
  }

  /** A bound the edit did not target reads as before. */
  lemma BoundKept(c: seq<Json>, c2: seq<Json>, d: string, other: string)
    requires other != d && KeepsOthers(c, c2, d) && Find(c2, other) == Find(c, other)
    ensures BoundOf(c2, Find(c2, other)) == BoundOf(c, Find(c, other))
  {
  }

  /** The decoder over a conjunction whose `c` list is an array and whose
      searches do not throw. */
  lemma DecodeList(j: Json, c: seq<Json>)
    requires IsConjunction(j) && Get(j, "c") == Some(JArr(c))
    requires !Find(c, Lower).Threw? && !Find(c, Upper).Threw?
    ensures Decode(Some(j)) == Window(BoundOf(c, Find(c, Lower)), BoundOf(c, Find(c, Upper)))
  {
  }

  /** The codec round trip (src/magic.js:88-157): after an edit of a
      conjunction whose conditions are all objects (or of text that did not
      parse), the decoder sees every supplied bound as stored, rounded to
      whole seconds, and every other bound as before. */
  lemma DecodeEdit(parsed: Option<Json>, from: Option<int>, to: Option<int>)
    requires parsed.None? || (IsConjunction(parsed.value) && JNull !in Constraints(parsed.value))
    requires Edit(parsed, from, to).Some?
    ensures Decode(Some(Edit(parsed, from, to).value)).from
         == if Supplied(from) then Stored(from.value) else Decode(parsed).from
    ensures Decode(Some(Edit(parsed, from, to).value)).to
         == if Supplied(to) then Stored(to.value) else Decode(parsed).to
  {
    EmptyReads();
    var base := if parsed.None? then Empty else parsed.value;
    var j := Edit(parsed, from, to).value;
    if !Supplied(from) && !Supplied(to) {
      assert j == base;
      return;
    }
    var c0 := Constraints(base);
    var j1 := if Supplied(from) then SetBound(base, Lower, RoundToSeconds(from.value)).value else base;
    if Supplied(from) {
      SetBoundEffect(base, Lower, RoundToSeconds(from.value), Upper);
    } else {
      SetBoundEffect(base, Upper, RoundToSeconds(to.value), Lower);
    }
    assert Get(base, "c") == Some(JArr(c0));
    NoNullNoThrow(c0, Lower);
    NoNullNoThrow(c0, Upper);
    DecodeList(base, c0);
    var c1 := Constraints(j1);
    assert IsConjunction(j1) && Get(j1, "c") == Some(JArr(c1));
    assert !Find(c1, Lower).Threw? && !Find(c1, Upper).Threw?;
    assert BoundOf(c1, Find(c1, Lower)) == if Supplied(from) then Stored(from.value) else BoundOf(c0, Find(c0, Lower));
    assert BoundOf(c1, Find(c1, Upper)) == BoundOf(c0, Find(c0, Upper)) by {
      if Supplied(from) {
        BoundKept(c0, c1, Lower, Upper);
      }
    }
    if Supplied(to) {
      SetBoundEffect(j1, Upper, RoundToSeconds(to.value), Lower);
      assert j == SetBound(j1, Upper, RoundToSeconds(to.value)).value;
      var c2 := Constraints(j);
      BoundKept(c1, c2, Upper, Lower);
      DecodeList(j, c2);
    } else {
      assert j == j1;
      DecodeList(j1, c1);
    }
  }

  lemma {:induction false} NoNullNoThrow(c: seq<Json>, d: string)
    requires JNull !in c
    ensures !Find(c, d).Threw?
  {
  }

  /** b keeps what a has, except date bounds and appended conditions: the
      other members, the other conditions in place, and the flags, followed by
      one `true` per appended condition. */
  ghost predicate Preserves(a: Json, b: Json) {
    var ca, cb := Constraints(a), Constraints(b);
    && SameOutside(a, b)
    && |ca| <= |cb|
    && (forall k :: 0 <= k < |ca| && !IsDateBound(ca[k], Lower) && !IsDateBound(ca[k], Upper) ==> cb[k] == ca[k])
    && ShowFlags(b) == ShowFlags(a) + Trues(|cb| - |ca|)
  }

  lemma PreservesTrans(a: Json, b: Json, c: Json)
    requires Preserves(a, b) && Preserves(b, c)
    ensures Preserves(a, c)
  {
    var na, nb, nc := |Constraints(a)|, |Constraints(b)|, |Constraints(c)|;
    assert Trues(nb - na) + Trues(nc - nb) == Trues(nc - na);
  }

  lemma SetBoundPreserves(j: Json, d: string, t: int)
    requires d == Lower || d == Upper
    requires SetBound(j, d, t).Some?
    ensures Preserves(j, SetBound(j, d, t).value)
  {
    SetBoundEffect(j, d, t, if d == Lower then Upper else Lower);
  }

  /** The edit keeps everything it is not asked to change (src/magic.js:127-153):
      the other members of the expression, the conditions that are not date
      bounds (values and order), and the flags, to which it only appends one
      `true` per appended condition. */
  lemma EditPreserves(parsed: Option<Json>, from: Option<int>, to: Option<int>)
    requires Edit(parsed, from, to).Some?
    ensures Preserves(if parsed.None? then Empty else parsed.value, Edit(parsed, from, to).value)
  {
    var base := if parsed.None? then Empty else parsed.value;
    var j := Edit(parsed, from, to).value;
    var j1 := if Supplied(from) then SetBound(base, Lower, RoundToSeconds(from.value)).value else base;
    if Supplied(from) {
      SetBoundPreserves(base, Lower, RoundToSeconds(from.value));
    } else {
      assert Trues(0) == [];
    }
    if Supplied(to) {
      SetBoundPreserves(j1, Upper, RoundToSeconds(to.value));
      assert j == SetBound(j1, Upper, RoundToSeconds(to.value)).value;
      PreservesTrans(base, j1, j);
    } else {
      assert j == j1;
    }
  }

  /** When the stored expression is not a conjunction, the edit still goes
      into its `c` list, yet the decoder shows no window at all. */
  lemma EditInvisibleOutsideConjunction(parsed: Option<Json>, from: Option<int>, to: Option<int>)
    requires parsed.Some? && !IsConjunction(parsed.value)
    requires Edit(parsed, from, to).Some?
    ensures Decode(Some(Edit(parsed, from, to).value)) == Window(None, None)
  {
    EditPreserves(parsed, from, to);
  }

  /** main.js:172: when both bounds exist and the patch row has both dates,
      what is written is the old text as a JSON string, which reads back as no
      window at all. */
  lemma MainKeepBranchLosesWindow(raw: string, parsed: Option<Json>, from: Option<int>, to: Option<int>)
    requires KeepsExisting(parsed, from, to)
    ensures MainRewrite(raw, parsed, from, to) == JStr(raw)
    ensures Decode(Some(MainRewrite(raw, parsed, from, to))) == Window(None, None)
  {
  }

  /** main.js:175-199: outside the keep branch the written expression shows
      exactly the supplied dates, rounded to whole seconds, and nothing else;
      a row without dates (an activity missing from the sheet) clears the window. */
  lemma MainFreshRoundTrip(raw: string, parsed: Option<Json>, from: Option<int>, to: Option<int>)
    requires !KeepsExisting(parsed, from, to)
    ensures Decode(Some(MainRewrite(raw, parsed, from, to)))
         == Window(if Supplied(from) then Stored(from.value) else None,
                   if Supplied(to) then Stored(to.value) else None)
  {
    var lower := if Supplied(from) then [DateBound(Lower, RoundToSeconds(from.value))] else [];
    var upper := if Supplied(to) then [DateBound(Upper, RoundToSeconds(to.value))] else [];
    var c := lower + upper;
    var j := FreshWindow(from, to);
    MemberOfThree(("op", JStr("&")), ("c", JArr(c)), ("showc", JArr(Trues(|c|))), "op");
    MemberOfThree(("op", JStr("&")), ("c", JArr(c)), ("showc", JArr(Trues(|c|))), "c");
    assert j == JObj([("op", JStr("&")), ("c", JArr(c)), ("showc", JArr(Trues(|c|)))]);
    assert IsConjunction(j) && Get(j, "c") == Some(JArr(c));
    var cl: seq<Json> := [];
    if Supplied(from) {
      DateBoundReads(Lower, RoundToSeconds(from.value));
      FindAppended(cl, Lower, RoundToSeconds(from.value));
      assert cl + lower == lower;
    }
    if Supplied(to) {
      DateBoundReads(Upper, RoundToSeconds(to.value));
      assert Find(lower, Upper).Missing? by {
        if Supplied(from) {
          FindAfterAppend(cl, Lower, RoundToSeconds(from.value), Upper);
          assert cl + lower == lower;
        }
      }
      FindAppended(lower, Upper, RoundToSeconds(to.value));
    }
    assert Find(c, Lower) == (if Supplied(from) then Found(0) else Missing) by {
      if Supplied(from) && Supplied(to) {
        FindPrefixSame(lower, c[..1], Lower, 0);
        assert c[0] == lower[0];
        assert IsDateBound(c[0], Lower);
      } else if Supplied(to) {
        assert c == [DateBound(Upper, RoundToSeconds(to.value))];
        assert c[1..] == [];
      }
    }
    assert Find(c, Upper) == (if Supplied(to) then Found(|lower|) else Missing) by {
      if !Supplied(to) && Supplied(from) {
        assert c == [DateBound(Lower, RoundToSeconds(from.value))];
        assert c[1..] == [];
      }
    }
    DecodeList(j, c);
  }
}
