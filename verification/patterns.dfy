/**
 The roster-line regular expressions of both scripts, written out as splitters.

 Every shape is `^(.+)-` followed by hyphen-free fields (`\d{4}`, `\d{1,2}`, `a|b`,
 joined by `-`) and, in the two department shapes, by `-(.+)$`. The reference
 meaning of a pattern is `Fits`: the capture groups, rendered back with their
 hyphens, spell the line. Python's backtracking tries the greedy name group from its
 longest length down, so the match it reports is the fitting one with the longest name;
 `Match` searches the same way, and the lemmas below prove it sound, complete and
 longest-name, and show that without a department there is only one way to fit.
 */
module Patterns {
  import opened Options
  import opened Text
  import opened Roster

  /** The four line shapes, named by their optional parts. */
  datatype Shape = YearDept | Dept | Year | Bare

  predicate HasYear(shape: Shape) {
    shape == YearDept || shape == Year
  }

  predicate HasDept(shape: Shape) {
    shape == YearDept || shape == Dept
  }

  /** The capture groups of a match, as text. */
  datatype Groups = Groups(
    name: string,
    year: Option<string>,
    month: string,
    day: string,
    kind: string,
    dept: Option<string>)

  /** The shape whose groups these are. */
  function ShapeOf(g: Groups): Shape {
    if g.year.Some? then (if g.dept.Some? then YearDept else Year)
    else (if g.dept.Some? then Dept else Bare)
  }

  /** `.+`: at least one character, none of them a newline. */
  predicate DotPlus(s: string) {
    |s| > 0 && NoChar('\n', s)
  }

  /** `\d{4}`, with `\d` read as an ASCII digit. */
  predicate YearText(s: string) {
    |s| == 4 && AllDigits(s)
  }

  /** `\d{1,2}`. */
  predicate MonthDayText(s: string) {
    1 <= |s| <= 2 && AllDigits(s)
  }

  /** `(a|b)`. */
  predicate KindText(s: string) {
    s == "a" || s == "b"
  }

  /** Each group holds text its sub-pattern accepts, and the optional groups are there exactly for `shape`. */
  predicate Admits(shape: Shape, g: Groups) {
    && DotPlus(g.name)
    && (g.year.Some? <==> HasYear(shape))
    && (g.year.Some? ==> YearText(g.year.value))
    && MonthDayText(g.month)
    && MonthDayText(g.day)
    && KindText(g.kind)
    && (g.dept.Some? <==> HasDept(shape))
    && (g.dept.Some? ==> DotPlus(g.dept.value))
  }

  /** The hyphen-free groups after the name, in order. */
  function Fields(g: Groups): seq<string> {
    (if g.year.Some? then [g.year.value] else []) + [g.month, g.day, g.kind]
  }

  function DeptSuffix(dept: Option<string>): string {
    if dept.Some? then "-" + dept.value else ""
  }

  /** The line the groups spell. */
  function Render(g: Groups): string {
    g.name + "-" + Join("-", Fields(g)) + DeptSuffix(g.dept)
  }

  /** The regular expression for `shape` matches `line` with these groups. */
  predicate Fits(shape: Shape, line: string, g: Groups) {
    Admits(shape, g) && Render(g) == line
  }

  // ---------------------------------------------------------------- splitting

  /** The index of the first hyphen of `r`, or `|r|`. */
  function FirstHyphen(r: string): (i: nat)
    ensures i <= |r|
    ensures forall j | 0 <= j < i :: r[j] != '-'
    ensures i < |r| ==> r[i] == '-'
  {
    if |r| == 0 || r[0] == '-' then 0 else 1 + FirstHyphen(r[1..])
  }

  lemma FirstHyphenAfter(f: string, tail: string)
    requires NoChar('-', f)
    requires |tail| > 0 ==> tail[0] == '-'
    ensures FirstHyphen(f + tail) == |f|
  {
    var r := f + tail;
    var i := FirstHyphen(r);
    assert forall j | 0 <= j < |f| :: r[j] == f[j];
    if |tail| > 0 {
      assert r[|f|] == '-';
    }
  }

  /**
   Cuts `k` hyphen-separated fields off the front of `r`. The second component is
   what follows the `k`-th field's hyphen, or `None` when the `k`-th field ends `r`.
   */
  function TakeFields(r: string, k: nat): (res: Option<(seq<string>, Option<string>)>)
    requires k >= 1
    ensures res.Some? ==> |res.value.0| == k
    ensures res.Some? ==> forall i | 0 <= i < k :: NoChar('-', res.value.0[i])
    ensures res.Some? ==> r == Join("-", res.value.0) + DeptSuffix(res.value.1)
    decreases k
  {
    var i := FirstHyphen(r);
    var head := r[..i];
    HeadHasNoHyphen(r);
    if k == 1 then
      LastCut(r, i);
      Some(([head], if i < |r| then Some(r[i + 1..]) else None))
    else if i == |r| then None
    else
      match TakeFields(r[i + 1..], k - 1)
      case None => None
      case Some(p) =>
        CutAtHyphen(r, i, p.0, p.1);
        Some(([head] + p.0, p.1))
  }

  lemma HeadHasNoHyphen(r: string)
    ensures NoChar('-', r[..FirstHyphen(r)])
  {
  }

  /** Everything after the first hyphen is the department text. */
  lemma LastCut(r: string, i: nat)
    requires i <= |r| && (i < |r| ==> r[i] == '-')
    ensures r == r[..i] + DeptSuffix(if i < |r| then Some(r[i + 1..]) else None)
  {
    if i < |r| {
      SplitAround(r, i, '-');
    } else {
      assert r[..i] == r;
    }
  }

  /** A field cut off at a hyphen goes in front of the fields cut from the rest. */
  lemma CutAtHyphen(r: string, i: nat, fs: seq<string>, rest: Option<string>)
    requires i < |r| && r[i] == '-' && |fs| >= 1
    requires r[i + 1..] == Join("-", fs) + DeptSuffix(rest)
    ensures r == Join("-", [r[..i]] + fs) + DeptSuffix(rest)
  {
    CutAt(r, i, '-', Join("-", fs), DeptSuffix(rest));
    JoinCons("-", r[..i], fs);
  }

  /** Cutting the fields off a rendered tail gives the fields back. */
  lemma {:induction false} TakeFieldsOfJoin(fs: seq<string>, rest: Option<string>)
    requires |fs| >= 1
    requires forall i | 0 <= i < |fs| :: NoChar('-', fs[i])
    ensures TakeFields(Join("-", fs) + DeptSuffix(rest), |fs|) == Some((fs, rest))
    decreases |fs|
  {
    if |fs| == 1 {
      TakeLastField(fs[0], rest);
      assert [fs[0]] == fs;
    } else {
      var tail := Join("-", fs[1..]) + DeptSuffix(rest);
      TakeFieldsOfJoin(fs[1..], rest);
      JoinFront("-", fs, DeptSuffix(rest));
      TakeOneField(fs[0], tail, |fs|);
      assert [fs[0]] + fs[1..] == fs;
    }
  }

  lemma TakeLastField(f: string, rest: Option<string>)
    requires NoChar('-', f)
    ensures TakeFields(f + DeptSuffix(rest), 1) == Some(([f], rest))
  {
    var r := f + DeptSuffix(rest);
    FirstHyphenAfter(f, DeptSuffix(rest));
    assert r[..|f|] == f;
    if rest.Some? {
      assert r[|f| + 1..] == rest.value;
    }
  }

  lemma TakeOneField(f: string, tail: string, k: nat)
    requires NoChar('-', f) && k >= 2
    ensures TakeFields(f + "-" + tail, k) ==
      match TakeFields(tail, k - 1)
      case None => None
      case Some(p) => Some(([f] + p.0, p.1))
  {
    var r := f + "-" + tail;
    assert r == f + ("-" + tail);
    FirstHyphenAfter(f, "-" + tail);
    assert r[..|f|] == f;
    assert r[|f| + 1..] == tail;
  }

  lemma FieldsHaveNoHyphen(shape: Shape, g: Groups)
    requires Admits(shape, g)
    ensures forall i | 0 <= i < |Fields(g)| :: NoChar('-', Fields(g)[i])
    ensures |Fields(g)| == (if HasYear(shape) then 4 else 3)
  {
  }

  // ---------------------------------------------------------------- searching

  /** Fills the groups of `shape` from a name, the cut-off fields and the text after them. */
  function Assemble(shape: Shape, name: string, fs: seq<string>, rest: Option<string>): (g: Groups)
    requires |fs| == (if HasYear(shape) then 4 else 3)
    ensures Fields(g) == fs && g.name == name && g.dept == rest
  {
    if HasYear(shape) then Groups(name, Some(fs[0]), fs[1], fs[2], fs[3], rest)
    else Groups(name, None, fs[0], fs[1], fs[2], rest)
  }

  /** The groups obtained when the name group ends just before position `p`. */
  function Candidate(shape: Shape, line: string, p: nat): (c: Option<Groups>)
    requires p < |line|
    ensures c.Some? ==> Fits(shape, line, c.value) && |c.value.name| == p
  {
    if line[p] != '-' || !DotPlus(line[..p]) then None
    else
      match TakeFields(line[p + 1..], if HasYear(shape) then 4 else 3)
      case None => None
      case Some(t) =>
        var g := Assemble(shape, line[..p], t.0, t.1);
        CandidateRenders(line, p, g);
        if Admits(shape, g) then Some(g) else None
  }

  lemma CandidateRenders(line: string, p: nat, g: Groups)
    requires p < |line| && line[p] == '-' && g.name == line[..p]
    requires line[p + 1..] == Join("-", Fields(g)) + DeptSuffix(g.dept)
    ensures Render(g) == line
  {
    assert line == line[..p] + "-" + line[p + 1..];
  }

  /** Every fitting set of groups is found by the candidate at its name length. */
  lemma CandidateComplete(shape: Shape, line: string, g: Groups)
    requires Fits(shape, line, g)
    ensures |g.name| < |line| && Candidate(shape, line, |g.name|) == Some(g)
  {
    var p := |g.name|;
    var tail := Join("-", Fields(g)) + DeptSuffix(g.dept);
    assert line == g.name + "-" + tail;
    assert line[..p] == g.name;
    assert line[p + 1..] == tail;
    FieldsHaveNoHyphen(shape, g);
    TakeFieldsOfJoin(Fields(g), g.dept);
  }

  /** The greatest position below `hi` that passes `ok`, if any: a search from the top down. */
  function LastBelow(ok: nat -> bool, hi: nat): (m: Option<nat>)
    ensures m.Some? ==> m.value < hi && ok(m.value)
    ensures m.Some? ==> forall p | m.value < p < hi :: !ok(p)
    ensures m.None? ==> forall p | 0 <= p < hi :: !ok(p)
    decreases hi
  {
    if hi == 0 then None
    else if ok(hi - 1) then Some(hi - 1)
    else LastBelow(ok, hi - 1)
  }

  /** The positions at which a name group can end. */
  function NameEnds(shape: Shape, line: string): nat -> bool {
    (p: nat) => p < |line| && Candidate(shape, line, p).Some?
  }

  /** Python's `re.match(pattern, line)` for the pattern of `shape`. */
  function Match(shape: Shape, line: string): (m: Option<Groups>)
    ensures m.Some? ==> Fits(shape, line, m.value) && ShapeOf(m.value) == shape
    ensures forall g | Fits(shape, line, g) :: m.Some? && |g.name| <= |m.value.name|
  {
    var found := LastBelow(NameEnds(shape, line), |line|);
    FitsEndNames(shape, line);
    if found.None? then None else Candidate(shape, line, found.value)
  }

  /** Every fit ends its name group at a position the search accepts. */
  lemma FitsEndNames(shape: Shape, line: string)
    ensures forall g | Fits(shape, line, g) :: |g.name| < |line| && NameEnds(shape, line)(|g.name|)
  {
    forall g | Fits(shape, line, g)
      ensures |g.name| < |line| && NameEnds(shape, line)(|g.name|)
    {
      CandidateComplete(shape, line, g);
    }
  }

  /** Two fits with names of the same length are the same fit. */
  lemma SameNameLengthSameFit(shape: Shape, line: string, g1: Groups, g2: Groups)
    requires Fits(shape, line, g1) && Fits(shape, line, g2)
    requires |g1.name| == |g2.name|
    ensures g1 == g2
  {
    CandidateComplete(shape, line, g1);
    CandidateComplete(shape, line, g2);
  }

  /** The hyphens after the name are those between the fields, plus the one before them. */
  lemma HyphensAfterName(shape: Shape, line: string, g: Groups)
    requires Fits(shape, line, g) && !HasDept(shape)
    ensures |g.name| < |line| && Count('-', line[|g.name|..]) == |Fields(g)|
  {
    FieldsHaveNoHyphen(shape, g);
    var j := Join("-", Fields(g));
    assert line == g.name + ("-" + j);
    assert line[|g.name|..] == "-" + j;
    CountJoin('-', Fields(g));
    CountAppend('-', "-", j);
    assert Count('-', "-") == 1 by {
      assert "-"[..0] == [];
    }
  }

  /** Without hyphens in the name, a line that fits a shape without department has one hyphen per field. */
  lemma HyphenFreeNameCount(shape: Shape, line: string, g: Groups)
    requires Fits(shape, line, g) && !HasDept(shape) && NoChar('-', g.name)
    ensures Count('-', line) == |Fields(g)|
  {
    HyphensAfterName(shape, line, g);
    assert line == line[..|g.name|] + line[|g.name|..];
    CountAppend('-', line[..|g.name|], line[|g.name|..]);
    assert line[..|g.name|] == g.name;
    CountAbsent('-', g.name);
  }

  /** A hyphen at `lo` is counted in every suffix from `lo` but not in the suffix from `hi`. */
  lemma HyphenCountDrops(line: string, lo: nat, hi: nat)
    requires lo < hi <= |line| && line[lo] == '-'
    ensures Count('-', line[lo..]) >= 1 + Count('-', line[hi..])
  {
    assert line[lo..] == ([line[lo]] + line[lo + 1..hi]) + line[hi..];
    CountAppend('-', [line[lo]] + line[lo + 1..hi], line[hi..]);
    CountAppend('-', [line[lo]], line[lo + 1..hi]);
    assert [line[lo]][..0] == [];
  }

  /** Without a department group a line fits a shape in at most one way. */
  lemma FitWithoutDeptIsUnique(shape: Shape, line: string, g1: Groups, g2: Groups)
    requires !HasDept(shape)
    requires Fits(shape, line, g1) && Fits(shape, line, g2)
    ensures g1 == g2
  {
    HyphensAfterName(shape, line, g1);
    HyphensAfterName(shape, line, g2);
    FieldsHaveNoHyphen(shape, g1);
    FieldsHaveNoHyphen(shape, g2);
    CandidateComplete(shape, line, g1);
    CandidateComplete(shape, line, g2);
    if |g1.name| < |g2.name| {
      HyphenCountDrops(line, |g1.name|, |g2.name|);
    } else if |g2.name| < |g1.name| {
      HyphenCountDrops(line, |g2.name|, |g1.name|);
    }
  }

  /**
   A line that fits a shape has a hyphen before each field after the name, and one
   more before a department: three at least, four with a year or a department, five with both.
   */
  lemma FitNeedsHyphens(shape: Shape, line: string, g: Groups)
    requires Fits(shape, line, g)
    ensures Count('-', line) >= 3 + (if HasYear(shape) then 1 else 0) + (if HasDept(shape) then 1 else 0)
  {
    FieldsHaveNoHyphen(shape, g);
    var head := g.name + "-";
    var j := Join("-", Fields(g));
    var suffix := DeptSuffix(g.dept);
    assert line == head + j + suffix;
    CountJoin('-', Fields(g));
    CountAppend('-', head + j, suffix);
    CountAppend('-', head, j);
    HyphenCounts(g.name);
    DeptSuffixHyphens(g.dept);
  }

  lemma HyphenCounts(name: string)
    ensures Count('-', name + "-") == Count('-', name) + 1
  {
    CountAppend('-', name, "-");
    assert "-"[..0] == [];
  }

  lemma DeptSuffixHyphens(dept: Option<string>)
    ensures Count('-', DeptSuffix(dept)) >= (if dept.Some? then 1 else 0)
  {
    if dept.Some? {
      CountAppend('-', "-", dept.value);
      assert "-"[..0] == [];
    }
  }

  /** A with-year shape minus its year. */
  function WithoutYear(shape: Shape): Shape {
    if HasDept(shape) then Dept else Bare
  }

  /**
   A line that fits a with-year shape also fits the same shape without the year,
   with the year folded into a longer name; only the order of the patterns keeps the year.
   */
  lemma YearFoldsIntoName(shape: Shape, g: Groups)
    requires HasYear(shape) && Admits(shape, g)
    ensures Fits(WithoutYear(shape), Render(g),
                 Groups(g.name + "-" + g.year.value, None, g.month, g.day, g.kind, g.dept))
  {
    var y := g.year.value;
    var folded := Groups(g.name + "-" + y, None, g.month, g.day, g.kind, g.dept);
    assert Fields(g) == [y] + Fields(folded);
    assert Join("-", Fields(g)) == y + "-" + Join("-", Fields(folded));
    assert Render(g) == Render(folded);
    assert NoChar('\n', folded.name) by {
      assert forall i | 0 <= i < |y| :: IsDigit(y[i]);
      assert forall i | 0 <= i < |folded.name| :: folded.name[i] == (if i < |g.name| then g.name[i] else if i == |g.name| then '-' else y[i - |g.name| - 1]);
    }
  }

  // ---------------------------------------------------------------- records

  /** The groups of some shape's match. */
  predicate Admissible(g: Groups) {
    Admits(ShapeOf(g), g)
  }

  /** The record the scripts build from a match: `int()` on the numeric groups. */
  function ToRecord(g: Groups): (r: BirthdayRecord)
    requires Admissible(g)
    ensures WellFormed(r)
    ensures r.name == g.name && r.department == g.dept
    ensures r.calendarType == 'a' || r.calendarType == 'b'
    ensures 0 <= r.month <= 99 && 0 <= r.day <= 99
    ensures r.year.Some? ==> 0 <= r.year.value <= 9999
    ensures r.year.Some? <==> g.year.Some?
    ensures g.year.Some? ==> r.year == Some(DigitsValue(g.year.value))
    ensures r.month == DigitsValue(g.month) && r.day == DigitsValue(g.day)
    ensures [r.calendarType] == g.kind
  {
    BirthdayRecord(
      g.name,
      if g.year.Some? then Some(DigitsValue(g.year.value)) else None,
      DigitsValue(g.month),
      DigitsValue(g.day),
      g.kind[0],
      g.dept,
      g.year.Some?,
      g.dept.Some?)
  }

  /** Numeric text without a leading zero: what `str()` writes. */
  predicate Canonical(s: string) {
    |s| >= 1 && AllDigits(s) && (|s| > 1 ==> s[0] != '0')
  }

  /**
   For groups written without leading zeros, writing the record's fields back gives
   the groups: the record keeps every field of the line.
   */
  lemma ToRecordRoundTrip(g: Groups)
    requires Admissible(g)
    requires Canonical(g.month) && Canonical(g.day)
    requires g.year.Some? ==> Canonical(g.year.value)
    ensures NatToDigits(ToRecord(g).month) == g.month
    ensures NatToDigits(ToRecord(g).day) == g.day
    ensures g.year.Some? ==> ToRecord(g).year.Some? && NatToDigits(ToRecord(g).year.value) == g.year.value
    ensures [ToRecord(g).calendarType] == g.kind
    ensures ToRecord(g).name == g.name && ToRecord(g).department == g.dept
  {
    CanonicalDigitsRoundTrip(g.month);
    CanonicalDigitsRoundTrip(g.day);
    if g.year.Some? {
      CanonicalDigitsRoundTrip(g.year.value);
    }
  }
}
