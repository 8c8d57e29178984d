/** JSON values as `JSON.parse` returns them and `JSON.stringify` consumes
    them. Objects keep their members in insertion order, as JavaScript objects
    with non-numeric keys do. Numbers are integers here. */
module JsonModel {
  import opened Wrappers

  datatype Json =
    | JNull
    | JBool(b: bool)
    | JNum(n: int)
    | JStr(s: string)
    | JArr(items: seq<Json>)
    | JObj(members: seq<(string, Json)>)

  /** `obj[key]` on an object's members; None for `undefined`. */
  function Member(members: seq<(string, Json)>, key: string): (r: Option<Json>)
    ensures r.Some? <==> exists k :: 0 <= k < |members| && members[k].0 == key
  {
    if |members| == 0 then None
    else if members[0].0 == key then Some(members[0].1)
    else Member(members[1..], key)
  }

  /** No member before position k has the key. */
  predicate FirstWithKey(members: seq<(string, Json)>, key: string, k: int) {
    forall j :: 0 <= j < k && j < |members| ==> members[j].0 != key
  }

  /** The lookup reads the value of the first member with the key. */
  lemma {:induction false} MemberFirst(members: seq<(string, Json)>, key: string, k: int)
    requires 0 <= k < |members| && members[k].0 == key && FirstWithKey(members, key, k)
    ensures Member(members, key) == Some(members[k].1)
    decreases k
  {
    if k > 0 {
      assert members[0].0 != key;
      MemberFirst(members[1..], key, k - 1);
    }
  }

  /** `j[key]` for any value: only objects have members. */
  function Get(j: Json, key: string): Option<Json> {
    if j.JObj? then Member(j.members, key) else None
  }

  /** `obj[key] = v`: an existing member keeps its place and takes the new
      value; a new member goes last. */
  function Put(members: seq<(string, Json)>, key: string, v: Json): (r: seq<(string, Json)>)
    ensures Member(r, key) == Some(v)
    ensures forall other :: other != key ==> Member(r, other) == Member(members, other)
    ensures |r| == |members| || |r| == |members| + 1
  {
    if |members| == 0 then [(key, v)]
    else if members[0].0 == key then [(key, v)] + members[1..]
    else [members[0]] + Put(members[1..], key, v)
  }

  /** Reading a member of a three-member object literal. */
  lemma {:induction false} MemberOfThree(a: (string, Json), b: (string, Json), c: (string, Json), key: string)
    ensures Member([a, b, c], key)
         == if a.0 == key then Some(a.1) else if b.0 == key then Some(b.1) else if c.0 == key then Some(c.1) else None
  {
    assert [a, b, c][1..] == [b, c];
    assert [b, c][1..] == [c];
    assert [c][1..] == [];
    assert Member([c], key) == if c.0 == key then Some(c.1) else None;
    assert Member([b, c], key) == if b.0 == key then Some(b.1) else Member([c], key);
  }
}
