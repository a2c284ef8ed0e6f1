/**
 Character and string helpers standing in for the Python built-ins the scripts use:
 `str.strip`, `int(...)` on a run of digits, `str(...)` on an integer and `str.join`.
 */
module Text {

  /** Python's `str.isspace`: the characters `str.strip()` removes. */
  predicate IsSpace(c: char) {
    || ('\t' <= c <= '\r')
    || ('\U{1C}' <= c <= '\U{1F}')
    || c == ' '
    || c == '\U{85}'
    || c == '\U{A0}'
    || c == '\U{1680}'
    || ('\U{2000}' <= c <= '\U{200A}')
    || c == '\U{2028}'
    || c == '\U{2029}'
    || c == '\U{202F}'
    || c == '\U{205F}'
    || c == '\U{3000}'
  }

  predicate AllSpace(s: string) {
    forall i | 0 <= i < |s| :: IsSpace(s[i])
  }

  /** The index of the first non-space character of `s`, or `|s|`. */
  function TextStart(s: string): (k: nat)
    ensures k <= |s|
    ensures forall i | 0 <= i < k :: IsSpace(s[i])
    ensures k < |s| ==> !IsSpace(s[k])
  {
    if |s| == 0 || !IsSpace(s[0]) then 0 else 1 + TextStart(s[1..])
  }

  /** The index just past the last non-space character of `s[lo..hi]`, or `lo`. */
  function TextEnd(s: string, lo: nat, hi: nat): (e: nat)
    requires lo <= hi <= |s|
    ensures lo <= e <= hi
    ensures forall i | e <= i < hi :: IsSpace(s[i])
    ensures lo < e ==> !IsSpace(s[e - 1])
    decreases hi
  {
    if hi == lo || !IsSpace(s[hi - 1]) then hi else TextEnd(s, lo, hi - 1)
  }

  /** `t` is `s` with some white space cut from both ends. */
  ghost predicate IsTrimOf(s: string, t: string) {
    exists k :: TrimAt(s, t, k)
  }

  /** `t` sits at `k` in `s`, with only white space before and after it. */
  predicate TrimAt(s: string, t: string, k: int) {
    0 <= k && k + |t| <= |s| && s[k..k + |t|] == t && AllSpace(s[..k]) && AllSpace(s[k + |t|..])
  }

  lemma CutIsTrim(s: string, k: nat, e: nat)
    requires k <= e <= |s|
    requires forall i | 0 <= i < k :: IsSpace(s[i])
    requires forall i | e <= i < |s| :: IsSpace(s[i])
    ensures TrimAt(s, s[k..e], k)
  {
    assert s[k..k + (e - k)] == s[k..e];
    assert forall i | 0 <= i < |s[e..]| :: s[e..][i] == s[e + i];
  }

  lemma AllSpaceWhenNoText(s: string, k: nat)
    requires k <= |s|
    requires forall i | 0 <= i < k :: IsSpace(s[i])
    requires k < |s| ==> !IsSpace(s[k])
    ensures AllSpace(s) <==> k == |s|
  {
  }

  lemma TextNotEmpty(s: string, k: nat, e: nat)
    requires k < |s| && k <= e <= |s| && !IsSpace(s[k])
    requires forall i | e <= i < |s| :: IsSpace(s[i])
    ensures k < e
  {
  }

  /** The cut between the first and past the last non-space character is the strip of `s`. */
  lemma StripCut(s: string, k: nat, e: nat)
    requires k == TextStart(s) && e == TextEnd(s, k, |s|)
    ensures TrimAt(s, s[k..e], k)
    ensures e - k > 0 ==> !IsSpace(s[k..e][0]) && !IsSpace(s[k..e][e - k - 1])
    ensures k == e <==> AllSpace(s)
  {
    CutIsTrim(s, k, e);
    AllSpaceWhenNoText(s, k);
    if k < |s| {
      TextNotEmpty(s, k, e);
    }
    assert e - k > 0 ==> s[k..e][0] == s[k] && s[k..e][e - k - 1] == s[e - 1];
  }

  /** Python's `str.strip()` with no argument: all white space is cut from both ends. */
  function Strip(s: string): (t: string)
    ensures IsTrimOf(s, t)
    ensures t != [] ==> !IsSpace(t[0]) && !IsSpace(t[|t| - 1])
    ensures t == [] <==> AllSpace(s)
  {
    var k := TextStart(s);
    var e := TextEnd(s, k, |s|);
    StripCut(s, k, e);
    s[k..e]
  }

  predicate IsDigit(c: char) {
    '0' <= c <= '9'
  }

  predicate AllDigits(s: string) {
    forall i | 0 <= i < |s| :: IsDigit(s[i])
  }

  function Pow10(n: nat): (p: nat)
    ensures p >= 1
  {
    if n == 0 then 1 else 10 * Pow10(n - 1)
  }

  /** Python's `int(s)` for a non-empty run of ASCII digits. */
  function DigitsValue(s: string): (v: nat)
    requires AllDigits(s)
    ensures v < Pow10(|s|)
  {
    if |s| == 0 then 0
    else 10 * DigitsValue(s[..|s| - 1]) + (s[|s| - 1] as int - '0' as int)
  }

  /** The decimal digits of `n`, without leading zeros. */
  function NatToDigits(n: nat): (s: string)
    ensures |s| >= 1 && AllDigits(s)
    ensures |s| > 1 ==> s[0] != '0'
  {
    if n < 10 then [('0' as int + n) as char]
    else NatToDigits(n / 10) + [('0' as int + n % 10) as char]
  }

  /** Reading the digits back gives the number. */
  lemma {:induction false} DigitsRoundTrip(n: nat)
    ensures DigitsValue(NatToDigits(n)) == n
  {
    if n >= 10 {
      var s := NatToDigits(n);
      assert s[..|s| - 1] == NatToDigits(n / 10);
      DigitsRoundTrip(n / 10);
    }
  }

  /** Digits without a leading zero stand for at least one. */
  lemma {:induction false} LeadingDigitBound(s: string)
    requires |s| >= 1 && AllDigits(s) && s[0] != '0'
    ensures DigitsValue(s) >= 1
    decreases |s|
  {
    if |s| > 1 {
      var p := s[..|s| - 1];
      assert p[0] == s[0];
      LeadingDigitBound(p);
    }
  }

  /** Writing back a number read from digits without a leading zero gives the same digits. */
  lemma {:induction false} CanonicalDigitsRoundTrip(s: string)
    requires |s| >= 1 && AllDigits(s) && (|s| > 1 ==> s[0] != '0')
    ensures NatToDigits(DigitsValue(s)) == s
    decreases |s|
  {
    var n := DigitsValue(s);
    if |s| == 1 {
      assert s[..0] == [];
      assert NatToDigits(n) == [s[0]];
    } else {
      var p := s[..|s| - 1];
      assert p[0] == s[0];
      assert AllDigits(p);
      LeadingDigitBound(p);
      CanonicalDigitsRoundTrip(p);
      assert n / 10 == DigitsValue(p) && n % 10 == s[|s| - 1] as int - '0' as int;
      assert s == p + [s[|s| - 1]];
    }
  }

  /** Python's `str(i)` for an integer: an optional minus sign, then the digits. */
  function IntToString(i: int): (s: string)
    ensures i < 0 ==> |s| >= 2 && s[0] == '-' && s[1..] == NatToDigits(-i)
    ensures i >= 0 ==> s == NatToDigits(i)
  {
    if i < 0 then "-" + NatToDigits(-i) else NatToDigits(i)
  }

  predicate NoChar(c: char, s: string) {
    forall i | 0 <= i < |s| :: s[i] != c
  }

  /** How many times `c` occurs in `s`. */
  function Count(c: char, s: string): nat {
    if |s| == 0 then 0 else Count(c, s[..|s| - 1]) + (if s[|s| - 1] == c then 1 else 0)
  }

  lemma {:induction false} CountAppend(c: char, a: string, b: string)
    ensures Count(c, a + b) == Count(c, a) + Count(c, b)
    decreases |b|
  {
    if |b| > 0 {
      assert (a + b)[..|a + b| - 1] == a + b[..|b| - 1];
      CountAppend(c, a, b[..|b| - 1]);
    } else {
      assert a + b == a;
    }
  }

  lemma {:induction false} CountAbsent(c: char, s: string)
    requires NoChar(c, s)
    ensures Count(c, s) == 0
  {
    if |s| > 0 {
      CountAbsent(c, s[..|s| - 1]);
    }
  }

  /** Python's `sep.join(items)`. */
  function Join(sep: string, items: seq<string>): (s: string)
    ensures |items| == 1 ==> s == items[0]
  {
    if |items| == 0 then ""
    else if |items| == 1 then items[0]
    else items[0] + sep + Join(sep, items[1..])
  }

  /** Joining a list extended at the front adds the new item and one separator. */
  lemma JoinCons(sep: string, x: string, items: seq<string>)
    requires |items| >= 1
    ensures Join(sep, [x] + items) == x + sep + Join(sep, items)
  {
    assert ([x] + items)[1..] == items;
  }

  /** A joined list followed by `tail` is its first item, a separator, and the rest joined and followed by `tail`. */
  lemma JoinFront(sep: string, items: seq<string>, tail: string)
    requires |items| >= 2
    ensures Join(sep, items) + tail == items[0] + sep + (Join(sep, items[1..]) + tail)
  {
  }

  lemma Regroup(a: string, b: string, c: string, d: string)
    ensures a + (b + c + d) == a + b + c + d
  {
  }

  /** A string is the text before position `i`, the character there, and the text after. */
  lemma SplitAround(s: string, i: nat, c: char)
    requires i < |s| && s[i] == c
    ensures s == s[..i] + [c] + s[i + 1..]
  {
  }

  /** A string whose text after the character at `i` is `rest + tail` is the text before, that character, `rest` and `tail`. */
  lemma CutAt(s: string, i: nat, c: char, rest: string, tail: string)
    requires i < |s| && s[i] == c
    requires s[i + 1..] == rest + tail
    ensures s == s[..i] + [c] + rest + tail
  {
    SplitAround(s, i, c);
    assert s[..i] + [c] + (rest + tail) == s[..i] + [c] + rest + tail;
  }

  /** Joining a list extended at the back adds one separator and the new item. */
  lemma {:induction false} JoinSnoc(sep: string, items: seq<string>, x: string)
    requires |items| >= 1
    ensures Join(sep, items + [x]) == Join(sep, items) + sep + x
    decreases |items|
  {
    if |items| > 1 {
      assert (items + [x])[1..] == items[1..] + [x];
      JoinSnoc(sep, items[1..], x);
    }
  }

  /** Separators that do not occur in the items are counted once per gap. */
  lemma {:induction false} CountJoin(c: char, items: seq<string>)
    requires |items| >= 1
    requires forall i | 0 <= i < |items| :: NoChar(c, items[i])
    ensures Count(c, Join([c], items)) == |items| - 1
    decreases |items|
  {
    CountAbsent(c, items[0]);
    if |items| > 1 {
      CountJoin(c, items[1..]);
      CountAppend(c, items[0], [c]);
      CountAppend(c, items[0] + [c], Join([c], items[1..]));
      assert Count(c, [c]) == 1 by {
        assert [c][..0] == [];
      }
    }
  }

  /** `x` occurs in `s` as a contiguous piece. */
  ghost predicate IsInfix(x: string, s: string) {
    exists k :: OccursAt(x, s, k)
  }

  predicate OccursAt(x: string, s: string, k: int) {
    0 <= k && k + |x| <= |s| && s[k..k + |x|] == x
  }

  lemma InfixExtends(x: string, p: string, s: string, q: string)
    requires IsInfix(x, s)
    ensures IsInfix(x, p + s + q)
  {
    var k :| OccursAt(x, s, k);
    assert (p + s + q)[|p| + k..|p| + k + |x|] == x;
    assert OccursAt(x, p + s + q, |p| + k);
  }

  /** Every item occurs in the joined text. */
  lemma {:induction false} JoinHasItems(sep: string, items: seq<string>)
    ensures forall i | 0 <= i < |items| :: IsInfix(items[i], Join(sep, items))
    decreases |items|
  {
    if |items| == 1 {
      assert OccursAt(items[0], Join(sep, items), 0);
    } else if |items| > 1 {
      JoinHasItems(sep, items[1..]);
      var rest := Join(sep, items[1..]);
      assert Join(sep, items)[0..|items[0]|] == items[0];
      assert OccursAt(items[0], Join(sep, items), 0);
      forall i | 1 <= i < |items|
        ensures IsInfix(items[i], Join(sep, items))
      {
        assert items[i] == items[1..][i - 1];
        InfixExtends(items[i], items[0] + sep, rest, "");
        assert items[0] + sep + rest + "" == Join(sep, items);
      }
    }
  }
}
