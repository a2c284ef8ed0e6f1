/**
 The pure logic of the scheduled script: the de-duplicating two-pattern reader, the
 age and birthday rules with their explicit third calendar branch, the plain-text
 message, and the process exit status derived from the delivery results.
 */
module Reminder {
  import opened Options
  import opened Text
  import opened Calendar
  import opened Roster
  import opened Patterns

  // ---------------------------------------------------------------- reading

  /** The year pattern, then the pattern without a year; department shapes are not tried. */
  function MatchLine(line: string): (m: Option<Groups>)
    ensures m.Some? ==> Admissible(m.value) && Fits(ShapeOf(m.value), line, m.value)
    ensures m.Some? ==> ShapeOf(m.value) == Year || ShapeOf(m.value) == Bare
    ensures m.Some? && ShapeOf(m.value) == Bare ==> Match(Year, line).None?
    ensures m.Some? ==> forall g | Fits(ShapeOf(m.value), line, g) :: g == m.value
    ensures m.None? <==> forall g :: !Fits(Year, line, g) && !Fits(Bare, line, g)
  {
    var shape := if Match(Year, line).Some? then Year else Bare;
    var m := Match(shape, line);
    assert m.Some? ==> forall g | Fits(shape, line, g) :: g == m.value by {
      if m.Some? {
        forall g | Fits(shape, line, g)
          ensures g == m.value
        {
          FitWithoutDeptIsUnique(shape, line, g, m.value);
        }
      }
    }
    m
  }

  /** One line turned into a record without department, or `None` when neither pattern matches. */
  function ParseLine(line: string): (r: Option<BirthdayRecord>)
    ensures r.None? <==> forall g :: !Fits(Year, line, g) && !Fits(Bare, line, g)
    ensures r.Some? ==> WellFormed(r.value) && r.value.department.None?
    ensures r.Some? ==> r.value.calendarType == 'a' || r.value.calendarType == 'b'
    ensures r.Some? ==> MatchLine(line).Some? && r.value == ToRecord(MatchLine(line).value)
  {
    match MatchLine(line)
    case None => None
    case Some(g) => Some(ToRecord(g))
  }

  /** A line the year pattern accepts is read with its year, never with the year in the name. */
  lemma YearPatternWins(line: string, g: Groups)
    requires Fits(Year, line, g)
    ensures ParseLine(line) == Some(ToRecord(g))
    ensures ParseLine(line).value.year == Some(DigitsValue(g.year.value))
  {
  }

  /** The first occurrence of each line, in input order. */
  function Unique(xs: seq<string>): seq<string> {
    if |xs| == 0 then []
    else
      var before := xs[..|xs| - 1];
      Unique(before) + (if xs[|xs| - 1] in before then [] else [xs[|xs| - 1]])
  }

  /** `Unique` drops repeats and nothing else. */
  lemma {:induction false} UniqueFacts(xs: seq<string>)
    ensures forall i, j | 0 <= i < j < |Unique(xs)| :: Unique(xs)[i] != Unique(xs)[j]
    ensures forall x :: x in Unique(xs) <==> x in xs
  {
    if |xs| > 0 {
      var before := xs[..|xs| - 1];
      UniqueFacts(before);
      assert xs == before + [xs[|xs| - 1]];
    }
  }

  /** The records the patterns accept among `xs`, in order. */
  function ParseEach(xs: seq<string>): (rs: seq<BirthdayRecord>)
    ensures |rs| <= |xs|
  {
    if |xs| == 0 then []
    else
      var r := ParseLine(xs[|xs| - 1]);
      ParseEach(xs[..|xs| - 1]) + (if r.Some? then [r.value] else [])
  }

  /** The reader's state: records, printed diagnostics and the set of lines seen so far. */
  datatype ReadState = ReadState(records: seq<BirthdayRecord>, diagnostics: seq<Diagnostic>, seen: set<string>)

  /**
   One pass of the reader's loop: strip, skip a blank line, report a line seen before
   as a duplicate, otherwise remember it and parse it.
   */
  function ReadLine(st: ReadState, raw: string): ReadState {
    var line := Strip(raw);
    if line == "" then st
    else if line in st.seen then ReadState(st.records, st.diagnostics + [Duplicate(line)], st.seen)
    else
      match ParseLine(line)
      case Some(r) => ReadState(st.records + [r], st.diagnostics, st.seen + {line})
      case None => ReadState(st.records, st.diagnostics + [Malformed(line)], st.seen + {line})
  }

  /** The facts the reader keeps after reading lines whose non-blank stripped forms are `xs`. */
  predicate ReadInvariant(st: ReadState, xs: seq<string>) {
    && st.seen == (set x | x in xs)
    && st.records == ParseEach(Unique(xs))
    && |st.records| <= |st.seen|
    && |st.records| + |st.diagnostics| == |xs|
  }

  function Extend(xs: seq<string>, raw: string): seq<string> {
    if Strip(raw) == "" then xs else xs + [Strip(raw)]
  }

  lemma UniqueSnoc(xs: seq<string>, x: string)
    ensures Unique(xs + [x]) == Unique(xs) + (if x in xs then [] else [x])
  {
    assert (xs + [x])[..|xs|] == xs;
  }

  lemma ParseEachSnoc(xs: seq<string>, x: string)
    ensures ParseEach(xs + [x]) == ParseEach(xs) + (if ParseLine(x).Some? then [ParseLine(x).value] else [])
  {
    assert (xs + [x])[..|xs|] == xs;
  }

  lemma SetOfSnoc(xs: seq<string>, x: string)
    ensures (set y | y in xs + [x]) == (set y | y in xs) + {x}
  {
  }

  lemma DuplicateKeepsInvariant(st: ReadState, xs: seq<string>, line: string)
    requires ReadInvariant(st, xs) && line in st.seen
    ensures ReadInvariant(ReadState(st.records, st.diagnostics + [Duplicate(line)], st.seen), xs + [line])
  {
    assert line in xs;
    SetOfSnoc(xs, line);
    UniqueSnoc(xs, line);
    assert Unique(xs + [line]) == Unique(xs);
  }

  lemma FreshKeepsInvariant(st: ReadState, xs: seq<string>, line: string, added: seq<BirthdayRecord>, reported: seq<Diagnostic>)
    requires ReadInvariant(st, xs) && line !in st.seen
    requires added == (if ParseLine(line).Some? then [ParseLine(line).value] else [])
    requires |added| + |reported| == 1
    ensures ReadInvariant(ReadState(st.records + added, st.diagnostics + reported, st.seen + {line}), xs + [line])
  {
    SetOfSnoc(xs, line);
    UniqueSnoc(xs, line);
    ParseEachSnoc(Unique(xs), line);
    assert |st.seen + {line}| == |st.seen| + 1;
  }

  lemma ReadLineKeepsInvariant(st: ReadState, xs: seq<string>, raw: string)
    requires ReadInvariant(st, xs)
    ensures ReadInvariant(ReadLine(st, raw), Extend(xs, raw))
  {
    var line := Strip(raw);
    if line != "" {
      if line in st.seen {
        DuplicateKeepsInvariant(st, xs, line);
      } else if ParseLine(line).Some? {
        FreshKeepsInvariant(st, xs, line, [ParseLine(line).value], []);
      } else {
        FreshKeepsInvariant(st, xs, line, [], [Malformed(line)]);
      }
    }
  }

  /**
   The reader over all lines. Records are the parses of the first occurrences of the
   non-blank lines, so there are never more of them than distinct non-blank lines.
   */
  function ReadLines(lines: seq<string>): (st: ReadState)
    ensures st.seen == set x | x in NonBlank(lines)
    ensures st.records == ParseEach(Unique(NonBlank(lines)))
    ensures |st.records| <= |st.seen|
    ensures |st.records| + |st.diagnostics| == |NonBlank(lines)|
  {
    if |lines| == 0 then ReadState([], [], {})
    else
      var prefix := lines[..|lines| - 1];
      var st := ReadLines(prefix);
      ReadLineKeepsInvariant(st, NonBlank(prefix), lines[|lines| - 1]);
      assert Extend(NonBlank(prefix), lines[|lines| - 1]) == NonBlank(lines);
      ReadLine(st, lines[|lines| - 1])
  }

  /**
   A line whose stripped form was read before is reported as a duplicate before any
   pattern is tried, so a repeated malformed line is a duplicate, and it adds no record.
   */
  lemma RepeatIsDuplicate(lines: seq<string>, raw: string)
    requires Strip(raw) != "" && Strip(raw) in NonBlank(lines)
    ensures ReadLines(lines + [raw]).records == ReadLines(lines).records
    ensures ReadLines(lines + [raw]).diagnostics == ReadLines(lines).diagnostics + [Duplicate(Strip(raw))]
  {
    assert (lines + [raw])[..|lines|] == lines;
  }

  /** The script's `read_birthdays`: the records and the diagnostics of `ReadLines`. */
  function ReadBirthdays(lines: seq<string>): (out: Loaded)
    ensures forall i | 0 <= i < |out.records| ::
      WellFormed(out.records[i]) && out.records[i].department.None?
  {
    var st := ReadLines(lines);
    ParseEachIsSound(Unique(NonBlank(lines)));
    Loaded(st.records, st.diagnostics)
  }

  lemma {:induction false} ParseEachIsSound(xs: seq<string>)
    ensures forall i | 0 <= i < |ParseEach(xs)| ::
      WellFormed(ParseEach(xs)[i]) && ParseEach(xs)[i].department.None?
  {
    if |xs| > 0 {
      ParseEachIsSound(xs[..|xs| - 1]);
    }
  }

  // ---------------------------------------------------------------- dates

  /**
   The age rule with its three calendar branches: `a` directly, `b` through the
   converted solar birth date, and any other type gives no age.
   */
  function CalculateAge(r: BirthdayRecord, today: Date, toSolar: LunarToSolar): (age: Option<int>)
    requires r.hasYear ==> r.year.Some?
    ensures !r.hasYear ==> age.None?
    ensures r.calendarType != 'a' && r.calendarType != 'b' ==> age.None?
    ensures r.hasYear && r.calendarType == 'a' ==>
      age.Some? && forall n :: AnniversaryReached(today, Date(r.year.value, r.month, r.day), n) <==> n <= age.value
    ensures r.hasYear && r.calendarType == 'b' ==>
      (age.Some? <==> toSolar(r.year.value, r.month, r.day).Some?)
    ensures r.hasYear && r.calendarType == 'b' && age.Some? ==>
      forall n :: AnniversaryReached(today, toSolar(r.year.value, r.month, r.day).value, n) <==> n <= age.value
  {
    if !r.hasYear then None
    else if r.calendarType == 'a' then Some(YearsSince(today, Date(r.year.value, r.month, r.day)))
    else if r.calendarType == 'b' then
      match toSolar(r.year.value, r.month, r.day)
      case None => None
      case Some(born) => Some(YearsSince(today, born))
    else None
  }

  /** `a` compares with today's date, `b` with today's lunar date, any other type never matches. */
  function IsBirthdayToday(r: BirthdayRecord, clock: Clock): (b: bool)
    ensures b ==> r.calendarType == 'a' || r.calendarType == 'b'
  {
    if r.calendarType == 'a' then clock.today.month == r.month && clock.today.day == r.day
    else if r.calendarType == 'b' then clock.lunarToday.month == r.month && clock.lunarToday.day == r.day
    else false
  }

  /** What the script keeps of a matched record: name, calendar tag and age suffix. */
  datatype Entry = Entry(name: string, typeTag: string, ageInfo: string)

  /** `name (tag)` as in the single-match subject. */
  function NameWithType(e: Entry): string {
    e.name + " " + e.typeTag
  }

  /** `name (tag)，N岁` as in the message body. */
  function Label(e: Entry): string {
    NameWithType(e) + e.ageInfo
  }

  /** The entry of a matched record; its label shows exactly the age the rule computes. */
  function EntryOf(r: BirthdayRecord, today: Date, toSolar: LunarToSolar): (e: Entry)
    requires r.hasYear ==> r.year.Some?
    ensures e.name == r.name && e.typeTag == CalendarTag(r.calendarType)
    ensures AgeShown(Label(e)) == CalculateAge(r, today, toSolar)
  {
    var age := CalculateAge(r, today, toSolar);
    AgeShownRoundTrip(r.name + " ", r.calendarType, age);
    Entry(r.name, CalendarTag(r.calendarType), if r.hasYear then AgeInfo(age) else "")
  }

  /** The records whose birthday is today, in file order. */
  function Matched(records: seq<BirthdayRecord>, clock: Clock): (matched: seq<BirthdayRecord>)
    ensures forall i | 0 <= i < |matched| :: IsBirthdayToday(matched[i], clock)
    ensures forall i | 0 <= i < |records| :: IsBirthdayToday(records[i], clock) ==> records[i] in matched
    ensures multiset(matched) <= multiset(records)
    ensures YearsPresent(records) ==> YearsPresent(matched)
  {
    Select(records, r => IsBirthdayToday(r, clock))
  }

  /** One entry per matched record, in order. */
  function EntriesOf(matched: seq<BirthdayRecord>, today: Date, toSolar: LunarToSolar): (es: seq<Entry>)
    requires YearsPresent(matched)
    ensures |es| == |matched|
    ensures forall i | 0 <= i < |es| :: es[i] == EntryOf(matched[i], today, toSolar)
  {
    if |matched| == 0 then []
    else EntriesOf(matched[..|matched| - 1], today, toSolar) + [EntryOf(matched[|matched| - 1], today, toSolar)]
  }

  /**
   The script's loop over the records: one entry per record whose birthday is
   today, in file order, each naming that record and showing its computed age.
   */
  function TodaysEntries(records: seq<BirthdayRecord>, clock: Clock, toSolar: LunarToSolar): (es: seq<Entry>)
    requires YearsPresent(records)
    ensures |es| == |Matched(records, clock)|
    ensures forall i | 0 <= i < |es| ::
      es[i].name == Matched(records, clock)[i].name
      && AgeShown(Label(es[i])) == CalculateAge(Matched(records, clock)[i], clock.today, toSolar)
  {
    EntriesOf(Matched(records, clock), clock.today, toSolar)
  }

  /** Walking two stretches of records one after the other keeps the order of the matches. */
  lemma MatchedAppend(a: seq<BirthdayRecord>, b: seq<BirthdayRecord>, clock: Clock)
    ensures Matched(a + b, clock) == Matched(a, clock) + Matched(b, clock)
  {
    SelectAppend(a, b, r => IsBirthdayToday(r, clock));
  }

  // ---------------------------------------------------------------- message and exit status

  /** The label of each entry, in order: name, calendar tag and age suffix. */
  function Labels(entries: seq<Entry>): (ls: seq<string>)
    ensures |ls| == |entries| && forall i | 0 <= i < |ls| :: ls[i] == Label(entries[i])
  {
    if |entries| == 0 then [] else Labels(entries[..|entries| - 1]) + [Label(entries[|entries| - 1])]
  }

  /** The `name (tag)` of each entry, in order. */
  function NamesWithTypes(entries: seq<Entry>): (ns: seq<string>)
    ensures |ns| == |entries| && forall i | 0 <= i < |ns| :: ns[i] == NameWithType(entries[i])
  {
    if |entries| == 0 then [] else NamesWithTypes(entries[..|entries| - 1]) + [NameWithType(entries[|entries| - 1])]
  }

  /** The joined labels of one more match are those of the earlier matches, `、` and the new label. */
  lemma LabelsInMatchOrder(entries: seq<Entry>, e: Entry)
    requires |entries| >= 1
    ensures Join("、", Labels(entries + [e])) == Join("、", Labels(entries)) + "、" + Label(e)
  {
    assert (entries + [e])[..|entries|] == entries;
    JoinSnoc("、", Labels(entries), Label(e));
  }

  /** The plain-text message: every label, joined by `、` in match order, then the send time. */
  function Body(entries: seq<Entry>, sentAt: string): (b: string)
    requires |entries| >= 1
    ensures "今天是 " + Join("、", Labels(entries)) <= b
    ensures forall i | 0 <= i < |entries| :: IsInfix(Label(entries[i]), b)
  {
    var closing := if |entries| == 1 then " 的生日，请记得祝福 TA！" else " 的生日，请记得祝福他们！";
    var tail := closing + "\n\n邮件发送时间: " + sentAt + "\n\n来自github自动任务";
    var joined := Join("、", Labels(entries));
    JoinHasItems("、", Labels(entries));
    forall i | 0 <= i < |entries|
      ensures IsInfix(Label(entries[i]), "今天是 " + joined + tail)
    {
      InfixExtends(Label(entries[i]), "今天是 ", joined, tail);
    }
    "今天是 " + joined + tail
  }

  /** The message names the earlier matches before a later one, with `、` between them. */
  lemma BodyInMatchOrder(entries: seq<Entry>, e: Entry, sentAt: string)
    requires |entries| >= 1
    ensures "今天是 " + Join("、", Labels(entries)) + "、" + Label(e) <= Body(entries + [e], sentAt)
  {
    LabelsInMatchOrder(entries, e);
    Regroup("今天是 ", Join("、", Labels(entries)), "、", Label(e));
  }

  /**
   The deliveries the script attempts, in order: none without a birthday today;
   otherwise the member address, then the administrator when one is configured.
   */
  function Outbox(entries: seq<Entry>, sentAt: string, memberEmail: Option<string>, adminEmail: Option<string>): (out: seq<Email>)
    ensures |entries| == 0 ==> out == []
    ensures |entries| > 0 ==> |out| == (if Configured(adminEmail) then 2 else 1) && out[0].to == memberEmail
    ensures |out| == 2 ==> out[1].to == adminEmail
    ensures forall i | 0 <= i < |out| ::
      |entries| >= 1 && out[i].subject == Subject(NamesWithTypes(entries)) && out[i].body == Body(entries, sentAt)
  {
    if |entries| == 0 then []
    else
      var subject := Subject(NamesWithTypes(entries));
      var body := Body(entries, sentAt);
      [Email(subject, body, memberEmail)] + (if Configured(adminEmail) then [Email(subject, body, adminEmail)] else [])
  }

  /** The running exit status: it starts from `code` and turns to 1 at each failed delivery. */
  function ExitAfter(code: int, outcomes: seq<bool>): (status: int)
    requires code == 0 || code == 1
    ensures status == 0 || status == 1
    ensures status == 1 <==> code == 1 || exists i | 0 <= i < |outcomes| :: !outcomes[i]
    decreases |outcomes|
  {
    if |outcomes| == 0 then code
    else
      assert forall i | 1 <= i < |outcomes| :: outcomes[1..][i - 1] == outcomes[i];
      ExitAfter(if outcomes[0] then code else 1, outcomes[1..])
  }

  /**
   The process exit status of a run whose attempted deliveries reported `outcomes`
   (one per message of `Outbox`, in order): 1 exactly when some attempted delivery failed.
   */
  function ExitCode(entries: seq<Entry>, sentAt: string, memberEmail: Option<string>, adminEmail: Option<string>, outcomes: seq<bool>): (code: int)
    requires |outcomes| == |Outbox(entries, sentAt, memberEmail, adminEmail)|
    ensures code == 0 || code == 1
    ensures code == 1 <==> exists i | 0 <= i < |outcomes| :: !outcomes[i]
    ensures |entries| == 0 ==> code == 0
    ensures !Configured(adminEmail) ==> (code == 1 <==> |entries| > 0 && !outcomes[0])
  {
    ExitAfter(0, outcomes)
  }
}
