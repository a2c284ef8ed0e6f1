/**
 The parsed birthday record, the reader's diagnostics, and the pieces of the
 display label that both scripts build the same way.
 */
module Roster {
  import opened Options
  import opened Text

  /** One roster entry, with the scripts' stored `has_year` / `has_department` flags. */
  datatype BirthdayRecord = BirthdayRecord(
    name: string,
    year: Option<int>,
    month: int,
    day: int,
    calendarType: char,
    department: Option<string>,
    hasYear: bool,
    hasDepartment: bool)

  /** The stored flags agree with the optional fields. */
  predicate WellFormed(r: BirthdayRecord) {
    && (r.hasYear <==> r.year.Some?)
    && (r.hasDepartment <==> r.department.Some?)
  }

  /** What the readers print about a line they drop. */
  datatype Diagnostic = Malformed(line: string) | Duplicate(line: string)

  datatype Loaded = Loaded(records: seq<BirthdayRecord>, diagnostics: seq<Diagnostic>)

  /** The stripped lines that are not blank, in input order. */
  function NonBlank(lines: seq<string>): (xs: seq<string>)
    ensures |xs| <= |lines|
    ensures forall i | 0 <= i < |xs| :: xs[i] != []
  {
    if |lines| == 0 then []
    else
      var l := Strip(lines[|lines| - 1]);
      NonBlank(lines[..|lines| - 1]) + (if l == "" then [] else [l])
  }

  /** The calendar tag of a label: `a` is the solar calendar, anything else lunar. */
  function CalendarTag(calendarType: char): string {
    if calendarType == 'a' then "(公历)" else "(农历)"
  }

  /** The `，N岁` suffix of a label, empty when no age was computed. */
  function AgeInfo(age: Option<int>): string {
    match age
    case None => ""
    case Some(a) => "，" + IntToString(a) + "岁"
  }

  /** The number of ASCII digits at the end of `s`. */
  function TrailingDigits(s: string): (n: nat)
    ensures n <= |s|
    ensures forall i | |s| - n <= i < |s| :: IsDigit(s[i])
    ensures n < |s| ==> !IsDigit(s[|s| - n - 1])
  {
    if |s| == 0 || !IsDigit(s[|s| - 1]) then 0 else 1 + TrailingDigits(s[..|s| - 1])
  }

  /** Reads the age back from the end of a display label. */
  function AgeShown(display: string): Option<int> {
    if |display| == 0 || display[|display| - 1] != '岁' then None
    else SignedNumberAtEnd(display[..|display| - 1])
  }

  /** The integer written at the end of `s` right after a `，`, if there is one. */
  function SignedNumberAtEnd(s: string): Option<int> {
    var n := TrailingDigits(s);
    var p := s[..|s| - n];
    if n == 0 then None
    else
      assert AllDigits(s[|s| - n..]);
      var v: int := DigitsValue(s[|s| - n..]);
      if |p| >= 1 && p[|p| - 1] == '，' then Some(v)
      else if |p| >= 2 && p[|p| - 1] == '-' && p[|p| - 2] == '，' then Some(-v)
      else None
  }

  lemma TrailingDigitsOfAppend(x: string, d: string)
    requires AllDigits(d)
    requires |x| > 0 && !IsDigit(x[|x| - 1])
    ensures TrailingDigits(x + d) == |d|
  {
    assert forall i | 0 <= i < |d| :: (x + d)[|x| + i] == d[i];
    assert (x + d)[|x| - 1] == x[|x| - 1];
  }

  lemma NumberAtEnd(body: string, a: nat)
    requires |body| > 0 && !IsDigit(body[|body| - 1])
    ensures body[|body| - 1] == '，' ==> SignedNumberAtEnd(body + NatToDigits(a)) == Some(a)
    ensures |body| >= 2 && body[|body| - 1] == '-' && body[|body| - 2] == '，' ==>
      SignedNumberAtEnd(body + NatToDigits(a)) == Some(-(a as int))
  {
    var digits := NatToDigits(a);
    var s := body + digits;
    TrailingDigitsOfAppend(body, digits);
    assert s[|s| - |digits|..] == digits;
    assert s[..|s| - |digits|] == body;
    DigitsRoundTrip(a);
  }

  /** A label that ends in a calendar tag and an age suffix shows exactly that age. */
  lemma AgeShownRoundTrip(prefix: string, calendarType: char, age: Option<int>)
    ensures AgeShown(prefix + CalendarTag(calendarType) + AgeInfo(age)) == age
  {
    var x := prefix + CalendarTag(calendarType);
    assert x[|x| - 1] == ')';
    match age
    case None =>
    case Some(a) => AgeShownAfterParen(x, a);
  }

  lemma AgeShownAfterParen(x: string, a: int)
    requires |x| > 0 && x[|x| - 1] == ')'
    ensures AgeShown(x + AgeInfo(Some(a))) == Some(a)
  {
    var body := if a < 0 then x + "，" + "-" else x + "，";
    var digits := NatToDigits(if a < 0 then -a else a);
    AgeInfoParts(x, a);
    AgeMarkDropped(body + digits);
    NumberAtEnd(body, if a < 0 then -a else a);
  }

  /** The age suffix is a full-width comma, the sign, the digits and `岁`. */
  lemma AgeInfoParts(x: string, a: int)
    ensures x + AgeInfo(Some(a)) ==
      (if a < 0 then x + "，" + "-" else x + "，") + NatToDigits(if a < 0 then -a else a) + "岁"
  {
  }

  lemma AgeMarkDropped(s: string)
    ensures AgeShown(s + "岁") == SignedNumberAtEnd(s)
  {
    assert (s + "岁")[..|s|] == s;
  }

  /** The subject used whenever more than one person has a birthday today. */
  const MultiSubject: string := "生日提醒: 今天有多位成员的生日"

  /**
   The subject of the reminder: it names the one person whose birthday it is,
   or is the fixed multi-member subject.
   */
  function Subject(named: seq<string>): (s: string)
    requires |named| >= 1
    ensures |named| == 1 ==> s == "生日提醒: 今天是心助会-" + named[0] + "的生日"
    ensures s == MultiSubject <==> |named| >= 2
  {
    if |named| == 1 then
      var s := "生日提醒: 今天是心助会-" + named[0] + "的生日";
      assert s[8] != MultiSubject[8];
      s
    else MultiSubject
  }

  /** A message handed to the mail collaborator; the recipient may be unset. */
  datatype Email = Email(subject: string, body: string, to: Option<string>)

  /** Python's truth test on an address read from the environment: set and not empty. */
  predicate Configured(address: Option<string>) {
    address.Some? && address.value != ""
  }

  /** Records whose `has_year` flag is backed by a year, as both readers produce them. */
  predicate YearsPresent(records: seq<BirthdayRecord>) {
    forall i | 0 <= i < |records| :: records[i].hasYear ==> records[i].year.Some?
  }

  /** The records `keep` accepts, in roster order: the scripts' loop that collects today's birthdays. */
  function Select(records: seq<BirthdayRecord>, keep: BirthdayRecord -> bool): (kept: seq<BirthdayRecord>)
    ensures forall i | 0 <= i < |kept| :: keep(kept[i])
    ensures forall i | 0 <= i < |records| :: keep(records[i]) ==> records[i] in kept
    ensures multiset(kept) <= multiset(records)
    ensures YearsPresent(records) ==> YearsPresent(kept)
  {
    if |records| == 0 then []
    else
      var before := Select(records[..|records| - 1], keep);
      var r := records[|records| - 1];
      assert records == records[..|records| - 1] + [r];
      if keep(r) then before + [r] else before
  }

  /** Selecting from two stretches of records one after the other keeps the order of the selections. */
  lemma {:induction false} SelectAppend(a: seq<BirthdayRecord>, b: seq<BirthdayRecord>, keep: BirthdayRecord -> bool)
    ensures Select(a + b, keep) == Select(a, keep) + Select(b, keep)
    decreases |b|
  {
    if |b| == 0 {
      assert a + b == a;
    } else {
      var b' := b[..|b| - 1];
      assert (a + b)[..|a + b| - 1] == a + b';
      assert (a + b)[|a + b| - 1] == b[|b| - 1];
      SelectAppend(a, b', keep);
    }
  }

  /** Two tests that agree on every record select the same records. */
  lemma {:induction false} SelectAgrees(records: seq<BirthdayRecord>, keep: BirthdayRecord -> bool, other: BirthdayRecord -> bool)
    requires forall i | 0 <= i < |records| :: keep(records[i]) == other(records[i])
    ensures Select(records, keep) == Select(records, other)
    decreases |records|
  {
    if |records| > 0 {
      SelectAgrees(records[..|records| - 1], keep, other);
    }
  }
}
