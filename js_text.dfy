/** The JavaScript string and number built-ins the patch engine relies on,
    written out over `string` and `int`: `split` with a one-character
    separator, `indexOf`, `trim`, `parseInt(s, 10)`, `Number(s)` on integer
    numerals, `String(n)`, `padStart`, `Math.round(ms / 1000)`, and the regular
    expressions the engine applies to names. */
module JsText {
  import opened Wrappers

  // ---------------------------------------------------------------- prefixes

  predicate StartsWith(s: string, p: string) {
    |p| <= |s| && s[..|p|] == p
  }

  predicate EndsWith(s: string, p: string) {
    |p| <= |s| && s[|s| - |p|..] == p
  }

  lemma AppendEnds(a: string, b: string)
    ensures StartsWith(a + b, a) && EndsWith(a + b, b)
  {
    assert (a + b)[..|a|] == a;
    assert (a + b)[|a + b| - |b|..] == b;
  }

  // ------------------------------------------------------------ white space

  /** WhiteSpace and LineTerminator code points of ECMAScript, the set that
      `trim`, `parseInt` and `Number` skip. */
  predicate IsJsSpace(c: char) {
    ('\U{0009}' <= c <= '\U{000D}') || c == '\U{0020}' || c == '\U{00A0}' || c == '\U{1680}' ||
    ('\U{2000}' <= c <= '\U{200A}') || c == '\U{2028}' || c == '\U{2029}' || c == '\U{202F}' ||
    c == '\U{205F}' || c == '\U{3000}' || c == '\U{FEFF}'
  }

  /** The number of white-space characters at the front of s. */
  function LeadingSpace(s: string): (n: nat)
    ensures n <= |s|
  {
    if |s| > 0 && IsJsSpace(s[0]) then 1 + LeadingSpace(s[1..]) else 0
  }

  /** The number of white-space characters at the end of s. */
  function TrailingSpace(s: string): (n: nat)
    ensures n <= |s|
  {
    if |s| > 0 && IsJsSpace(s[|s| - 1]) then 1 + TrailingSpace(s[..|s| - 1]) else 0
  }

  lemma {:induction false} LeadingSpaceFacts(s: string)
    ensures forall k :: 0 <= k < LeadingSpace(s) ==> IsJsSpace(s[k])
    ensures LeadingSpace(s) < |s| ==> !IsJsSpace(s[LeadingSpace(s)])
  {
    if |s| > 0 && IsJsSpace(s[0]) {
      LeadingSpaceFacts(s[1..]);
      forall k | 1 <= k < LeadingSpace(s)
        ensures IsJsSpace(s[k])
      {
        assert s[k] == s[1..][k - 1];
      }
      assert LeadingSpace(s) < |s| ==> s[LeadingSpace(s)] == s[1..][LeadingSpace(s[1..])];
    }
  }

  lemma {:induction false} TrailingSpaceFacts(s: string)
    ensures forall k :: |s| - TrailingSpace(s) <= k < |s| ==> IsJsSpace(s[k])
    ensures TrailingSpace(s) < |s| ==> !IsJsSpace(s[|s| - 1 - TrailingSpace(s)])
  {
    if |s| > 0 && IsJsSpace(s[|s| - 1]) {
      var p := s[..|s| - 1];
      TrailingSpaceFacts(p);
      forall k | |s| - TrailingSpace(s) <= k < |s| - 1
        ensures IsJsSpace(s[k])
      {
        assert s[k] == p[k];
      }
      assert TrailingSpace(s) < |s| ==> s[|s| - 1 - TrailingSpace(s)] == p[|p| - 1 - TrailingSpace(p)];
    }
  }

  /** `s.trimStart()` */
  function TrimStart(s: string): string {
    s[LeadingSpace(s)..]
  }

  /** `s.trimEnd()` */
  function TrimEnd(s: string): string {
    s[..|s| - TrailingSpace(s)]
  }

  /** `s.trim()` */
  function Trim(s: string): string {
    TrimEnd(TrimStart(s))
  }

  /** r is s[i..j] and everything cut off on either side is white space. */
  predicate CutAt(s: string, r: string, i: int, j: int) {
    && 0 <= i <= j <= |s| && r == s[i..j]
    && (forall k :: 0 <= k < i ==> IsJsSpace(s[k]))
    && (forall k :: j <= k < |s| ==> IsJsSpace(s[k]))
  }

  lemma TrimCut(s: string)
    ensures CutAt(s, Trim(s), LeadingSpace(s), LeadingSpace(s) + |Trim(s)|)
  {
    var i := LeadingSpace(s);
    var t := s[i..];
    var m := |t| - TrailingSpace(t);
    LeadingSpaceFacts(s);
    TrailingSpaceFacts(t);
    CutCompose(s, t, t[..m], i, m);
  }

  /** Cutting white space off the front and then off the back is one cut. */
  lemma CutCompose(s: string, t: string, r: string, i: int, m: int)
    requires 0 <= i <= |s| && t == s[i..] && 0 <= m <= |t| && r == t[..m]
    requires forall k :: 0 <= k < i ==> IsJsSpace(s[k])
    requires forall k :: m <= k < |t| ==> IsJsSpace(t[k])
    ensures CutAt(s, r, i, i + m)
  {
    assert r == s[i..i + m];
    forall k | i + m <= k < |s|
      ensures IsJsSpace(s[k])
    {
      assert s[k] == t[k - i];
    }
  }

  /** `trim` keeps a middle part of the text: it removes white space at the
      two ends and nothing else, adds no character, leaves no white space at
      either end, and keeps a text that has none there. */
  lemma TrimFacts(s: string, c: char)
    ensures exists i, j :: CutAt(s, Trim(s), i, j)
    ensures c !in s ==> c !in Trim(s)
    ensures |Trim(s)| > 0 ==> !IsJsSpace(Trim(s)[0]) && !IsJsSpace(Trim(s)[|Trim(s)| - 1])
    ensures |s| == 0 || (!IsJsSpace(s[0]) && !IsJsSpace(s[|s| - 1])) ==> Trim(s) == s
  {
    var i := LeadingSpace(s);
    var t := s[i..];
    var m := |t| - TrailingSpace(t);
    var r := t[..m];
    assert Trim(s) == r;
    TrimCut(s);
    assert r == s[i..i + m];
    assert forall x :: x in r ==> x in s;
    LeadingSpaceFacts(s);
    TrailingSpaceFacts(t);
    if |r| > 0 {
      assert r[0] == s[i] && r[|r| - 1] == t[m - 1];
    }
    if |s| == 0 || (!IsJsSpace(s[0]) && !IsJsSpace(s[|s| - 1])) {
      assert i == 0 && t == s;
      assert TrailingSpace(t) == 0;
      assert r == s;
    }
  }

  // ------------------------------------------------------------------ split

  /** `s.split(sep)` for a one-character separator: the pieces between
      separators, always at least one (`''.split(',')` is `['']`). */
  function Split(s: string, sep: char): (r: seq<string>)
    ensures |r| >= 1
    ensures forall k :: 0 <= k < |r| ==> sep !in r[k]
  {
    if |s| == 0 then [""]
    else
      var rest := Split(s[1..], sep);
      if s[0] == sep then [""] + rest
      else [[s[0]] + rest[0]] + rest[1..]
  }

  /** `parts.join(sep)`, the inverse of Split. */
  function Join(parts: seq<string>, sep: char): string
    requires |parts| >= 1
  {
    if |parts| == 1 then parts[0] else parts[0] + [sep] + Join(parts[1..], sep)
  }

  /** Splitting loses nothing: joining the pieces gives the text back. */
  lemma {:induction false} JoinSplit(s: string, sep: char)
    ensures Join(Split(s, sep), sep) == s
  {
    if |s| > 0 {
      var rest := Split(s[1..], sep);
      JoinSplit(s[1..], sep);
      if s[0] == sep {
        calc {
          Join(Split(s, sep), sep);
          Join([""] + rest, sep);
          { assert ([""] + rest)[1..] == rest; }
          "" + [sep] + Join(rest, sep);
          [s[0]] + s[1..];
        }
      } else if |rest| == 1 {
        assert Split(s, sep) == [[s[0]] + rest[0]];
      } else {
        var parts := [[s[0]] + rest[0]] + rest[1..];
        assert parts[1..] == rest[1..];
        assert Join(rest, sep) == rest[0] + [sep] + Join(rest[1..], sep);
      }
    }
  }

  /** Splitting a piece without separator in front of a separator peels it off. */
  lemma {:induction false} SplitFront(p: string, t: string, sep: char)
    requires sep !in p
    ensures Split(p + [sep] + t, sep) == [p] + Split(t, sep)
  {
    if |p| > 0 {
      var s := p + [sep] + t;
      SplitFront(p[1..], t, sep);
      assert s[0] == p[0] && s[1..] == p[1..] + [sep] + t;
      var rest := Split(s[1..], sep);
      assert rest == [p[1..]] + Split(t, sep);
      assert Split(s, sep) == [[p[0]] + rest[0]] + rest[1..];
      assert [p[0]] + p[1..] == p;
    } else {
      assert p + [sep] + t == [sep] + t;
      assert ([sep] + t)[1..] == t;
    }
  }

  /** A text without separator is a single piece. */
  lemma {:induction false} SplitWhole(p: string, sep: char)
    requires sep !in p
    ensures Split(p, sep) == [p]
  {
    if |p| > 0 {
      SplitWhole(p[1..], sep);
      assert Split(p, sep) == [[p[0]] + p[1..]];
      assert [p[0]] + p[1..] == p;
    }
  }

  /** The first piece of a split is the text up to the first separator, or
      the whole text when there is none. */
  lemma SplitFirst(s: string, sep: char)
    ensures Split(s, sep)[0] == s[..PieceEnd(s, sep)]
  {
    var n := IndexOf(s, sep);
    if n < 0 {
      SplitWhole(s, sep);
      assert s[..|s|] == s;
    } else {
      assert s == s[..n] + [sep] + s[n + 1..];
      SplitFront(s[..n], s[n + 1..], sep);
    }
  }

  /** Where the first piece of a split ends. */
  function PieceEnd(s: string, sep: char): (r: nat)
    ensures r <= |s|
  {
    var n := IndexOf(s, sep);
    if n < 0 then |s| else n
  }

  /** Joining pieces that contain no separator and splitting again gives the
      pieces back. */
  lemma {:induction false} SplitJoin(parts: seq<string>, sep: char)
    requires |parts| >= 1
    requires forall k :: 0 <= k < |parts| ==> sep !in parts[k]
    ensures Split(Join(parts, sep), sep) == parts
  {
    if |parts| == 1 {
      SplitWhole(parts[0], sep);
    } else {
      SplitJoin(parts[1..], sep);
      SplitFront(parts[0], Join(parts[1..], sep), sep);
      assert [parts[0]] + parts[1..] == parts;
    }
  }

  /** `parts[k]`, or the text `undefined` that a template literal prints for
      an index past the end of a destructured array. */
  function PartOr(parts: seq<string>, k: nat): string {
    if k < |parts| then parts[k] else "undefined"
  }

  // ---------------------------------------------------------------- indexOf

  /** `xs.indexOf(x)`: the first position of x, or -1. */
  function IndexOf<T(==)>(xs: seq<T>, x: T): (r: int)
    ensures -1 <= r < |xs|
    ensures r >= 0 ==> xs[r] == x && x !in xs[..r]
    ensures r == -1 <==> x !in xs
  {
    if |xs| == 0 then -1
    else if xs[0] == x then 0
    else
      var k := IndexOf(xs[1..], x);
      assert xs == [xs[0]] + xs[1..];
      if k < 0 then -1
      else
        assert xs[..k + 1] == [xs[0]] + xs[1..][..k];
        k + 1
  }

  // ---------------------------------------------------------------- numerals

  predicate IsDigit(c: char) {
    '0' <= c <= '9'
  }

  predicate AllDigits(s: string) {
    forall k :: 0 <= k < |s| ==> IsDigit(s[k])
  }

  function DigitValue(c: char): nat
    requires IsDigit(c)
  {
    c as int - '0' as int
  }

  function DigitChar(d: nat): (c: char)
    requires d < 10
    ensures IsDigit(c) && DigitValue(c) == d
  {
    (d + '0' as int) as char
  }

  /** The value of a run of decimal digits. */
  function DigitsValue(ds: string): nat
    requires AllDigits(ds)
  {
    if |ds| == 0 then 0 else DigitsValue(ds[..|ds| - 1]) * 10 + DigitValue(ds[|ds| - 1])
  }

  /** The decimal numeral of a natural number, without leading zeros. */
  function NatToString(n: nat): (r: string)
    ensures |r| >= 1 && AllDigits(r)
  {
    if n < 10 then [DigitChar(n)] else NatToString(n / 10) + [DigitChar(n % 10)]
  }

  /** `String(n)` for an integer. */
  function IntToString(n: int): (r: string)
    ensures |r| >= 1
  {
    if n < 0 then "-" + NatToString(-n) else NatToString(n)
  }

  /** The length of the run of digits at the front of s. */
  function DigitRun(s: string): (k: nat)
    ensures k <= |s| && AllDigits(s[..k])
    ensures k < |s| ==> !IsDigit(s[k])
  {
    if |s| == 0 || !IsDigit(s[0]) then 0
    else
      var k := DigitRun(s[1..]);
      assert s[..k + 1] == [s[0]] + s[1..][..k];
      k + 1
  }

  /** `parseInt(s, 10)`: leading white space, an optional sign, then the
      longest run of digits; None stands for NaN (no digit at all). */
  function ParseInt(s: string): Option<int> {
    var t := TrimStart(s);
    var signed := |t| > 0 && (t[0] == '-' || t[0] == '+');
    var body := if signed then t[1..] else t;
    var k := DigitRun(body);
    if k == 0 then None
    else
      var v: int := DigitsValue(body[..k]);
      Some(if signed && t[0] == '-' then -v else v)
  }

  lemma {:induction false} DigitsValueOfNat(n: nat)
    ensures DigitsValue(NatToString(n)) == n
  {
    if n >= 10 {
      DigitsValueOfNat(n / 10);
      var ds := NatToString(n);
      assert ds[..|ds| - 1] == NatToString(n / 10);
    }
  }

  /** `parseInt(String(n), 10) === n`: the text a date patch writes reads back
      as the same number of seconds. */
  lemma ParseIntOfString(n: int)
    ensures ParseInt(IntToString(n)) == Some(n)
  {
    var m: nat := if n < 0 then -n else n;
    var digits := NatToString(m);
    DigitsValueOfNat(m);
    DigitRunAll(digits);
    var s := IntToString(n);
    assert !IsJsSpace(s[0]);
    assert TrimStart(s) == s;
    if n < 0 {
      assert s[1..] == digits;
    } else {
      assert s == digits;
      assert !(s[0] == '-' || s[0] == '+');
    }
  }

  lemma {:induction false} DigitRunAll(ds: string)
    requires AllDigits(ds)
    ensures DigitRun(ds) == |ds| && ds[..|ds|] == ds
  {
    if |ds| > 0 {
      DigitRunAll(ds[1..]);
    }
  }

  /** `Number(s)` for the numerals the model covers: surrounding white space
      is ignored, the empty text is 0, an optional sign and a run of digits
      give their value; None stands for NaN. */
  function ToNumber(s: string): Option<int> {
    var t := Trim(s);
    if |t| == 0 then Some(0)
    else
      var signed := t[0] == '-' || t[0] == '+';
      var body := if signed then t[1..] else t;
      if |body| == 0 || !AllDigits(body) then None
      else
        var v: int := DigitsValue(body);
        Some(if t[0] == '-' then -v else v)
  }

  /** `String(x)` for a number that may be NaN. */
  function NumberToString(x: Option<int>): string {
    match x
    case Some(n) => IntToString(n)
    case None => "NaN"
  }

  function Repeat(c: char, n: nat): (r: string)
    ensures |r| == n && forall k :: 0 <= k < n ==> r[k] == c
  {
    if n == 0 then "" else [c] + Repeat(c, n - 1)
  }

  /** `s.padStart(n, c)` */
  function PadStart(s: string, n: nat, c: char): (r: string)
    ensures |r| == if |s| < n then n else |s|
    ensures EndsWith(r, s)
    ensures forall k :: 0 <= k < |r| - |s| ==> r[k] == c
  {
    if |s| >= n then s else Repeat(c, n - |s|) + s
  }

  /** `Math.round(ms / 1000)`: whole seconds, halves rounded up. */
  function RoundToSeconds(ms: int): (r: int)
    ensures r * 1000 - 500 <= ms < r * 1000 + 500
  {
    (ms + 500) / 1000
  }

  // ------------------------------------------------------------------- slug

  predicate IsSlugChar(c: char) {
    'a' <= c <= 'z' || '0' <= c <= '9' || c == '_' || c == '-'
  }

  /** `toLowerCase` on the ASCII letters. */
  function LowerAscii(c: char): char {
    if 'A' <= c <= 'Z' then (c as int + 32) as char else c
  }

  /** The length of a text in UTF-16 code units, the unit JavaScript strings
      are counted in: a character outside the Basic Multilingual Plane is a
      surrogate pair. */
  function Utf16Length(s: string): nat {
    if |s| == 0 then 0 else (if s[0] as int >= 0x1_0000 then 2 else 1) + Utf16Length(s[1..])
  }

  /** `toLowerCase().replace(/[^a-z0-9_\-]/g, '-')`. The expression has no `u`
      flag, so it replaces each half of a surrogate pair by its own dash. */
  function Sanitize(s: string): (r: string)
    ensures |r| == Utf16Length(s) && forall k :: 0 <= k < |r| ==> IsSlugChar(r[k])
  {
    if |s| == 0 then ""
    else if s[0] as int >= 0x1_0000 then "--" + Sanitize(s[1..])
    else
      var c := LowerAscii(s[0]);
      [if IsSlugChar(c) then c else '-'] + Sanitize(s[1..])
  }

  /** The first position where two dashes stand next to each other. */
  function FirstDoubleDash(s: string): (r: Option<nat>)
    ensures r.Some? ==> r.value + 1 < |s| && s[r.value] == '-' && s[r.value + 1] == '-'
    ensures r.Some? ==> forall k :: 0 <= k < r.value ==> !(s[k] == '-' && s[k + 1] == '-')
    ensures r.None? ==> forall k :: 0 <= k < |s| - 1 ==> !(s[k] == '-' && s[k + 1] == '-')
  {
    if |s| < 2 then None
    else if s[0] == '-' && s[1] == '-' then Some(0)
    else
      match FirstDoubleDash(s[1..])
      case None => None
      case Some(i) => Some(i + 1)
  }

  /** The end of the run of dashes that starts at i. */
  function DashRunEnd(s: string, i: nat): (j: nat)
    requires i <= |s|
    ensures i <= j <= |s| && (j < |s| ==> s[j] != '-')
    ensures forall k :: i <= k < j ==> s[k] == '-'
    decreases |s| - i
  {
    if i < |s| && s[i] == '-' then DashRunEnd(s, i + 1) else i
  }

  /** `s.replace(/--+/, '-')`: only the first run of two or more dashes. */
  function CollapseFirstDashRun(s: string): (r: string)
    ensures |r| <= |s|
    ensures (forall k :: 0 <= k < |s| ==> IsSlugChar(s[k])) ==> forall k :: 0 <= k < |r| ==> IsSlugChar(r[k])
  {
    match FirstDoubleDash(s)
    case None => s
    case Some(i) => s[..i] + "-" + s[DashRunEnd(s, i)..]
  }

  /** `s.replace(/-$/, '')`: one trailing dash at most. */
  function DropTrailingDash(s: string): string {
    if |s| > 0 && s[|s| - 1] == '-' then s[..|s| - 1] else s
  }

  /** The file-name slug of an activity name:
      `name.toLowerCase().replace(/[^a-z0-9_\-]/g, '-').slice(0, 20).replace(/--+/, '-').replace(/-$/, '')`. */
  function Slug(name: string): (r: string)
    ensures |r| <= 20
    ensures forall k :: 0 <= k < |r| ==> IsSlugChar(r[k])
  {
    var s := Sanitize(name);
    DropTrailingDash(CollapseFirstDashRun(if |s| <= 20 then s else s[..20]))
  }

  /** A name that already is a short slug, with no double dash and no
      trailing dash, is its own slug. */
  lemma {:induction false} SlugFixpoint(s: string)
    requires |s| <= 20
    requires forall k :: 0 <= k < |s| ==> IsSlugChar(s[k])
    requires forall k :: 0 <= k < |s| - 1 ==> !(s[k] == '-' && s[k + 1] == '-')
    requires |s| == 0 || s[|s| - 1] != '-'
    ensures Slug(s) == s
  {
    SanitizeSlug(s);
  }

  /** A character outside the Basic Multilingual Plane takes two of the 20
      code units the slug keeps: each half of its surrogate pair becomes a
      dash, the first run of dashes then collapses to one, so a name such as
      an emoji followed by nineteen letters keeps only eighteen of them. */
  lemma SlugCountsCodeUnits(c: char, t: string)
    requires c as int >= 0x1_0000 && |t| >= 18
    requires forall k :: 0 <= k < |t| ==> IsSlugChar(t[k]) && t[k] != '-'
    ensures Slug([c] + t) == "-" + t[..18]
  {
    var head := t[..18];
    var s := "--" + t;
    assert Sanitize([c] + t) == s by {
      SanitizeSlug(t);
      SanitizeWide(c, t);
    }
    assert s[..20] == "--" + head;
    assert Slug([c] + t) == DropTrailingDash(CollapseFirstDashRun(s[..20])) by {
      SlugOfLong([c] + t, s);
    }
    assert DropTrailingDash(CollapseFirstDashRun("--" + head)) == "-" + head by {
      CollapseLeadingPair(head);
    }
  }

  lemma SlugOfLong(name: string, s: string)
    requires Sanitize(name) == s && |s| >= 20
    ensures Slug(name) == DropTrailingDash(CollapseFirstDashRun(s[..20]))
  {
    assert |s| == 20 ==> s[..20] == s;
  }

  lemma SanitizeWide(c: char, t: string)
    requires c as int >= 0x1_0000
    ensures Sanitize([c] + t) == "--" + Sanitize(t)
  {
    assert ([c] + t)[0] == c && ([c] + t)[1..] == t;
  }

  /** Two leading dashes before a text without dash collapse to one, and no
      dash is left at the end. */
  lemma CollapseLeadingPair(head: string)
    requires |head| > 0 && forall k :: 0 <= k < |head| ==> head[k] != '-'
    ensures DropTrailingDash(CollapseFirstDashRun("--" + head)) == "-" + head
  {
    var cut := "--" + head;
    assert cut[0] == '-' && cut[1] == '-' && cut[2] == head[0] && cut[2..] == head;
    assert FirstDoubleDash(cut) == Some(0);
    assert DashRunEnd(cut, 2) == 2;
    assert DashRunEnd(cut, 0) == 2;
    assert CollapseFirstDashRun(cut) == "" + "-" + head;
    assert ("-" + head)[|head|] == head[|head| - 1];
  }

  lemma {:induction false} SanitizeSlug(s: string)
    requires forall k :: 0 <= k < |s| ==> IsSlugChar(s[k])
    ensures Sanitize(s) == s
  {
    if |s| > 0 {
      SanitizeSlug(s[1..]);
    }
  }

  // ------------------------------------------------------------- extensions

  /** The position of the last dot. */
  function LastDot(s: string): (r: Option<nat>)
    ensures r.Some? ==> r.value < |s| && s[r.value] == '.' && '.' !in s[r.value + 1..]
    ensures r.None? <==> '.' !in s
  {
    if |s| == 0 then None
    else if s[|s| - 1] == '.' then Some(|s| - 1)
    else
      var r := LastDot(s[..|s| - 1]);
      assert s == s[..|s| - 1] + [s[|s| - 1]];
      r
  }

  /** `s.replace(/\.[^.]*$/, repl)`: the last dot and everything after it
      are replaced; a text without dot is unchanged. */
  function ReplaceExtension(s: string, repl: string): string {
    match LastDot(s)
    case None => s
    case Some(k) => s[..k] + repl
  }
}
