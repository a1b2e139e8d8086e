/**
 * The few `java.lang.String` operations the agent's command surgery relies
 * on, written out over `seq<char>`: the regex class `\s`, `startsWith`,
 * `contains`, `split` with a limit, `replaceFirst("\\s+", "")`, `trim` and
 * `String.valueOf(long)`.
 */
module JavaStrings {
  import opened Base

  /** Java's regex class `\s`: space, tab, newline, vertical tab, form feed, carriage return. */
  predicate IsWhitespace(c: char) {
    c == ' ' || c == '\t' || c == '\n' || c == '\r' || c as int == 0x0B || c as int == 0x0C
  }

  /** The characters the regex `.` does not match (Java's default line terminators). */
  predicate IsLineTerminator(c: char) {
    c == '\n' || c == '\r' || c as int == 0x85 || c as int == 0x2028 || c as int == 0x2029
  }

  /** The characters `String.trim` removes: every code point up to U+0020. */
  predicate IsTrimmable(c: char) {
    c as int <= 0x20
  }

  predicate NoWhitespace(s: string) {
    forall k :: 0 <= k < |s| ==> !IsWhitespace(s[k])
  }

  predicate AllWhitespace(s: string) {
    forall k :: 0 <= k < |s| ==> IsWhitespace(s[k])
  }

  predicate StartsWith(s: string, prefix: string) {
    |prefix| <= |s| && s[..|prefix|] == prefix
  }

  /** `t` occurs in `s` starting at index `i`. */
  predicate OccursAt(s: string, t: string, i: nat) {
    i + |t| <= |s| && s[i..i + |t|] == t
  }

  /** `s.indexOf(t, from)`: the first occurrence of `t` at or after `from`. */
  function IndexOfFrom(s: string, t: string, from: nat): (r: Option<nat>)
    decreases |s| - from
    ensures r.Some? ==> from <= r.value && OccursAt(s, t, r.value)
    ensures r.Some? ==> forall j :: from <= j < r.value ==> !OccursAt(s, t, j)
    ensures r.None? ==> forall j :: from <= j ==> !OccursAt(s, t, j)
  {
    if from + |t| > |s| then None
    else if s[from..from + |t|] == t then Some(from)
    else IndexOfFrom(s, t, from + 1)
  }

  /** `s.contains(t)`. */
  function Contains(s: string, t: string): (r: bool)
    ensures r <==> exists i :: OccursAt(s, t, i)
  {
    IndexOfFrom(s, t, 0).Some?
  }

  /** A string contains its own suffix. */
  lemma {:induction false} ContainsSuffix(a: string, t: string)
    ensures Contains(a + t, t)
  {
    assert (a + t)[|a|..|a| + |t|] == t;
    assert OccursAt(a + t, t, |a|);
  }

  /** Whatever a string contains, it still contains with more text after it. */
  lemma {:induction false} ContainsExtend(a: string, t: string, b: string)
    requires Contains(a, t)
    ensures Contains(a + b, t)
  {
    var i: nat :| OccursAt(a, t, i);
    assert (a + b)[i..i + |t|] == a[i..i + |t|];
    assert OccursAt(a + b, t, i);
  }

  /** The first index at or after `from` that holds a `\s` character. */
  function FirstWhitespace(s: string, from: nat): (r: Option<nat>)
    decreases |s| - from
    ensures r.Some? ==> from <= r.value < |s| && IsWhitespace(s[r.value])
    ensures r.Some? ==> forall k :: from <= k < r.value ==> !IsWhitespace(s[k])
    ensures r.None? ==> forall k :: from <= k < |s| ==> !IsWhitespace(s[k])
  {
    if from >= |s| then None
    else if IsWhitespace(s[from]) then Some(from)
    else FirstWhitespace(s, from + 1)
  }

  /** Where the maximal run of `\s` characters starting at `i` ends (greedy `\s+`). */
  function WhitespaceRunEnd(s: string, i: nat): (j: nat)
    requires i <= |s|
    decreases |s| - i
    ensures i <= j <= |s|
    ensures forall k :: i <= k < j ==> IsWhitespace(s[k])
    ensures j < |s| ==> !IsWhitespace(s[j])
  {
    if i < |s| && IsWhitespace(s[i]) then WhitespaceRunEnd(s, i + 1) else i
  }

  /** Where the maximal run of non-`\s` characters starting at `i` ends (greedy `[^\s]+`). */
  function NonWhitespaceRunEnd(s: string, i: nat): (j: nat)
    requires i <= |s|
    decreases |s| - i
    ensures i <= j <= |s|
    ensures forall k :: i <= k < j ==> !IsWhitespace(s[k])
    ensures j < |s| ==> IsWhitespace(s[j])
  {
    if i < |s| && !IsWhitespace(s[i]) then NonWhitespaceRunEnd(s, i + 1) else i
  }

  /**
   * `s.split("\\s+", 2)`: the text before the first whitespace run and the
   * text after it, or `[s]` when `s` holds no whitespace. A run at the very
   * start yields an empty first fragment, as Java's `split` does.
   */
  function SplitAtWhitespace(s: string): (r: seq<string>)
    ensures 1 <= |r| <= 2
    ensures NoWhitespace(r[0]) && StartsWith(s, r[0])
    ensures |r| == 1 <==> NoWhitespace(s)
    ensures |r| == 1 ==> r[0] == s
    ensures |r| == 2 ==> r[1] == [] || !IsWhitespace(r[1][0])
  {
    match FirstWhitespace(s, 0)
    case None => [s]
    case Some(i) =>
      var j := WhitespaceRunEnd(s, i);
      assert j < |s| ==> s[j..][0] == s[j];
      [s[..i], s[j..]]
  }

  /** `s.replaceFirst("\\s+", "")`: the first whitespace run, wherever it is, is cut out. */
  function RemoveFirstWhitespaceRun(s: string): (r: string)
    ensures |r| <= |s|
    ensures NoWhitespace(s) ==> r == s
  {
    match FirstWhitespace(s, 0)
    case None => s
    case Some(i) => s[..i] + s[WhitespaceRunEnd(s, i)..]
  }

  /** Splitting `p + gap + rest` at its first whitespace run gives back `p` and `rest`. */
  lemma {:induction false} SplitAtWhitespaceOf(p: string, gap: string, rest: string)
    requires NoWhitespace(p)
    requires gap != [] && AllWhitespace(gap)
    requires rest == [] || !IsWhitespace(rest[0])
    ensures SplitAtWhitespace(p + gap + rest) == [p, rest]
  {
    var s := p + gap + rest;
    assert forall k :: 0 <= k < |p| ==> s[k] == p[k];
    assert forall k :: |p| <= k < |p| + |gap| ==> s[k] == gap[k - |p|];
    assert rest != [] ==> s[|p| + |gap|] == rest[0];
    assert s[|p|] == gap[0];
    assert FirstWhitespace(s, 0) == Some(|p|);
    assert WhitespaceRunEnd(s, |p|) == |p| + |gap|;
    assert s[..|p|] == p;
    assert s[|p| + |gap|..] == rest;
  }

  /** Cutting the first whitespace run out of `gap + rest` leaves `rest`. */
  lemma {:induction false} RemoveLeadingWhitespaceRun(gap: string, rest: string)
    requires gap != [] && AllWhitespace(gap)
    requires rest == [] || !IsWhitespace(rest[0])
    ensures RemoveFirstWhitespaceRun(gap + rest) == rest
  {
    var s := gap + rest;
    assert forall k :: 0 <= k < |gap| ==> s[k] == gap[k];
    assert rest != [] ==> s[|gap|] == rest[0];
    assert FirstWhitespace(s, 0) == Some(0);
    assert WhitespaceRunEnd(s, 0) == |gap|;
    assert s[|gap|..] == rest;
  }

  /**
   * `s.split(d, limit)` for a delimiter `d` holding no regex metacharacter and
   * a positive limit: at most `limit - 1` cuts, the last fragment keeps the
   * rest of the input, and a delimiter at the start gives an empty fragment.
   */
  function SplitLimit(s: string, d: string, limit: nat): (r: seq<string>)
    requires |d| > 0 && limit >= 1
    decreases limit
    ensures 1 <= |r| <= limit
  {
    if limit == 1 then [s]
    else
      match IndexOfFrom(s, d, 0)
      case None => [s]
      case Some(i) => [s[..i]] + SplitLimit(s[i + |d|..], d, limit - 1)
  }

  /** `s.split(d, 2)` cuts at the first occurrence of `d`, and only there. */
  lemma {:induction false} SplitTwoAtFirst(before: string, d: string, after: string)
    requires |d| > 0
    requires forall j :: 0 <= j < |before| ==> !OccursAt(before + d, d, j)
    ensures SplitLimit(before + d + after, d, 2) == [before, after]
  {
    var s := before + d + after;
    assert OccursAt(s, d, |before|) by {
      assert s[|before|..|before| + |d|] == d;
    }
    forall j | 0 <= j < |before|
      ensures !OccursAt(s, d, j)
    {
      assert s[j..j + |d|] == (before + d)[j..j + |d|];
      assert !OccursAt(before + d, d, j);
    }
    assert IndexOfFrom(s, d, 0) == Some(|before|);
    assert s[..|before|] == before;
    assert s[|before| + |d|..] == after;
  }

  /** `s.split(d, limit)` is `[s]` when `d` does not occur in `s`. */
  lemma {:induction false} SplitLimitAbsent(s: string, d: string, limit: nat)
    requires |d| > 0 && limit >= 1
    requires !Contains(s, d)
    ensures SplitLimit(s, d, limit) == [s]
  {
  }

  /** The first index at or after `i` that holds a character `trim` keeps (or `|s|`). */
  function TrimStartIndex(s: string, i: nat): (j: nat)
    requires i <= |s|
    decreases |s| - i
    ensures i <= j <= |s|
    ensures forall k :: i <= k < j ==> IsTrimmable(s[k])
    ensures j < |s| ==> !IsTrimmable(s[j])
  {
    if i < |s| && IsTrimmable(s[i]) then TrimStartIndex(s, i + 1) else i
  }

  /** The smallest end `e` with `lo <= e <= hi` such that only `trim`-able characters lie in `s[e..hi]`. */
  function TrimEndIndex(s: string, lo: nat, hi: nat): (e: nat)
    requires lo <= hi <= |s|
    decreases hi
    ensures lo <= e <= hi
    ensures forall k :: e <= k < hi ==> IsTrimmable(s[k])
    ensures e > lo ==> !IsTrimmable(s[e - 1])
  {
    if hi > lo && IsTrimmable(s[hi - 1]) then TrimEndIndex(s, lo, hi - 1) else hi
  }

  /**
   * `String.trim`: the slice of `s` left once every leading and every
   * trailing character up to U+0020 is dropped.
   */
  function Trim(s: string): (r: string)
    ensures r != [] ==> !IsTrimmable(r[0]) && !IsTrimmable(r[|r| - 1])
    ensures exists i, j :: 0 <= i <= j <= |s| && r == s[i..j]
                           && (forall k :: 0 <= k < i ==> IsTrimmable(s[k]))
                           && (forall k :: j <= k < |s| ==> IsTrimmable(s[k]))
  {
    var i := TrimStartIndex(s, 0);
    var j := TrimEndIndex(s, i, |s|);
    assert forall k :: i <= k < |s| && k >= j ==> IsTrimmable(s[k]);
    s[i..j]
  }

  /** The decimal digits of a natural number, most significant first. */
  function NatToString(n: nat): (r: string)
    decreases n
    ensures |r| >= 1
    ensures forall k :: 0 <= k < |r| ==> '0' <= r[k] <= '9'
    ensures n >= 10 ==> |r| >= 2
  {
    if n < 10 then [('0' as int + n) as char]
    else NatToString(n / 10) + [('0' as int + n % 10) as char]
  }

  /** `String.valueOf(long)`: a minus sign for negative numbers, then the digits. */
  function DecimalString(n: int): (r: string)
    ensures |r| >= 1
    ensures n >= 0 ==> r == NatToString(n)
    ensures n < 0 ==> r == "-" + NatToString(-n)
  {
    if n < 0 then "-" + NatToString(-n) else NatToString(n)
  }

  /** Different natural numbers have different decimal renderings. */
  lemma {:induction false} NatToStringInjective(a: nat, b: nat)
    requires NatToString(a) == NatToString(b)
    ensures a == b
  {
    var s := NatToString(a);
    assert a < 10 <==> |s| == 1;
    assert b < 10 <==> |s| == 1;
    if a < 10 {
      assert s[0] == ('0' as int + a) as char == ('0' as int + b) as char;
    } else {
      var pa, pb := NatToString(a / 10), NatToString(b / 10);
      assert s == pa + [('0' as int + a % 10) as char];
      assert s == pb + [('0' as int + b % 10) as char];
      assert pa == s[..|s| - 1] == pb;
      assert s[|s| - 1] == ('0' as int + a % 10) as char == ('0' as int + b % 10) as char;
      NatToStringInjective(a / 10, b / 10);
    }
  }

  /** Different numbers have different `String.valueOf` renderings. */
  lemma {:induction false} DecimalStringInjective(a: int, b: int)
    requires DecimalString(a) == DecimalString(b)
    ensures a == b
  {
    var s := DecimalString(a);
    assert a < 0 <==> s[0] == '-';
    assert b < 0 <==> s[0] == '-';
    if a < 0 {
      assert NatToString(-a) == s[1..] == NatToString(-b);
      NatToStringInjective(-a, -b);
    } else {
      NatToStringInjective(a, b);
    }
  }
}
