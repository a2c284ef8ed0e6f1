/**
 The pure logic of the locally deployed script: the four-pattern reader, the age and
 birthday rules, the display label and the one notification to the administrator.
 */
module LocalReminder {
  import opened Options
  import opened Text
  import opened Calendar
  import opened Roster
  import opened Patterns

  // ---------------------------------------------------------------- reading

  /** The position of each shape in this script's pattern list. */
  function Rank(shape: Shape): nat {
    match shape
    case YearDept => 0
    case Dept => 1
    case Year => 2
    case Bare => 3
  }

  /** The four patterns tried in order; the first one that matches supplies the groups. */
  function MatchLine(line: string): (m: Option<Groups>)
    ensures m.Some? ==> Admissible(m.value) && Fits(ShapeOf(m.value), line, m.value)
    ensures m.Some? ==> forall s | Rank(s) < Rank(ShapeOf(m.value)) :: Match(s, line).None?
    ensures m.Some? ==> forall g | Fits(ShapeOf(m.value), line, g) :: |g.name| <= |m.value.name|
    ensures m.None? <==> forall s, g :: !Fits(s, line, g)
  {
    var shape :=
      if Match(YearDept, line).Some? then YearDept
      else if Match(Dept, line).Some? then Dept
      else if Match(Year, line).Some? then Year
      else Bare;
    var m := Match(shape, line);
    if m.None? then NoShapeFits(line); m else m
  }

  lemma NoShapeFits(line: string)
    requires Match(YearDept, line).None? && Match(Dept, line).None?
    requires Match(Year, line).None? && Match(Bare, line).None?
    ensures forall s, g :: !Fits(s, line, g)
  {
    forall s, g ensures !Fits(s, line, g) {
      match s
      case YearDept =>
      case Dept =>
      case Year =>
      case Bare =>
    }
  }

  /** One stripped, non-blank line turned into a record, or `None` when no pattern matches. */
  function ParseLine(line: string): (r: Option<BirthdayRecord>)
    ensures r.None? <==> forall s, g :: !Fits(s, line, g)
    ensures r.Some? ==> WellFormed(r.value) && (r.value.calendarType == 'a' || r.value.calendarType == 'b')
    ensures r.Some? ==> r.value.name != ""
    ensures r.Some? ==> MatchLine(line).Some? && r.value == ToRecord(MatchLine(line).value)
  {
    match MatchLine(line)
    case None => None
    case Some(g) => Some(ToRecord(g))
  }

  /** One pass of the reader's loop: strip, skip a blank line, parse, report a line no pattern accepts. */
  function ReadLine(before: Loaded, raw: string): Loaded {
    var line := Strip(raw);
    if line == "" then before else Absorb(before, line, ParseLine(line))
  }

  /** Keeps the record parsed from `line`, or reports `line` when it did not parse. */
  function Absorb(before: Loaded, line: string, parsed: Option<BirthdayRecord>): Loaded {
    match parsed
    case Some(r) => Loaded(before.records + [r], before.diagnostics)
    case None => Loaded(before.records, before.diagnostics + [Malformed(line)])
  }

  /** What the reader promises of every record and every diagnostic it keeps. */
  predicate Sound(out: Loaded) {
    && (forall i | 0 <= i < |out.records| ::
          WellFormed(out.records[i]) && (out.records[i].calendarType == 'a' || out.records[i].calendarType == 'b'))
    && (forall i | 0 <= i < |out.diagnostics| ::
          out.diagnostics[i].Malformed? && out.diagnostics[i].line != "" && ParseLine(out.diagnostics[i].line).None?)
  }

  lemma ReadLineIsSound(before: Loaded, raw: string)
    requires Sound(before)
    ensures Sound(ReadLine(before, raw))
    ensures |ReadLine(before, raw).records| + |ReadLine(before, raw).diagnostics|
         == |before.records| + |before.diagnostics| + (if Strip(raw) == "" then 0 else 1)
  {
    var line := Strip(raw);
    if line != "" {
      AbsorbIsSound(before, line, ParseLine(line));
    }
  }

  /** The reader: every line through `ReadLine`, in order. */
  function ReadBirthdays(lines: seq<string>): (out: Loaded)
    ensures |out.records| + |out.diagnostics| == |NonBlank(lines)|
    ensures Sound(out)
  {
    if |lines| == 0 then Loaded([], [])
    else
      var before := ReadBirthdays(lines[..|lines| - 1]);
      ReadLineIsSound(before, lines[|lines| - 1]);
      ReadLine(before, lines[|lines| - 1])
  }

  function Concat(x: Loaded, y: Loaded): Loaded {
    Loaded(x.records + y.records, x.diagnostics + y.diagnostics)
  }

  lemma ReadLineAfter(x: Loaded, y: Loaded, raw: string)
    ensures ReadLine(Concat(x, y), raw) == Concat(x, ReadLine(y, raw))
  {
    var line := Strip(raw);
    if line != "" {
      AbsorbAfter(x, y, line, ParseLine(line));
    }
  }

  lemma AbsorbIsSound(before: Loaded, line: string, parsed: Option<BirthdayRecord>)
    requires Sound(before) && line != ""
    requires parsed.None? ==> ParseLine(line).None?
    requires parsed.Some? ==> WellFormed(parsed.value) && (parsed.value.calendarType == 'a' || parsed.value.calendarType == 'b')
    ensures Sound(Absorb(before, line, parsed))
    ensures |Absorb(before, line, parsed).records| + |Absorb(before, line, parsed).diagnostics|
         == |before.records| + |before.diagnostics| + 1
  {
    var after := Absorb(before, line, parsed);
    if parsed.Some? {
      assert forall i | 0 <= i < |before.records| :: after.records[i] == before.records[i];
    } else {
      assert forall i | 0 <= i < |before.diagnostics| :: after.diagnostics[i] == before.diagnostics[i];
    }
  }

  lemma AbsorbAfter(x: Loaded, y: Loaded, line: string, parsed: Option<BirthdayRecord>)
    ensures Absorb(Concat(x, y), line, parsed) == Concat(x, Absorb(y, line, parsed))
  {
    match parsed
    case Some(r) =>
      assert x.records + y.records + [r] == x.records + (y.records + [r]);
    case None =>
      var d := Malformed(line);
      assert x.diagnostics + y.diagnostics + [d] == x.diagnostics + (y.diagnostics + [d]);
  }

  /**
   Reading two stretches of lines one after the other gives the records and the
   diagnostics of the first followed by those of the second: a bad line never stops
   the reader, and records keep the order of the input.
   */
  lemma {:induction false} ReadBirthdaysAppend(a: seq<string>, b: seq<string>)
    ensures ReadBirthdays(a + b) == Concat(ReadBirthdays(a), ReadBirthdays(b))
    decreases |b|
  {
    if |b| == 0 {
      assert a + b == a;
    } else {
      var b' := b[..|b| - 1];
      assert (a + b)[..|a + b| - 1] == a + b';
      assert (a + b)[|a + b| - 1] == b[|b| - 1];
      ReadBirthdaysAppend(a, b');
      ReadLineAfter(ReadBirthdays(a), ReadBirthdays(b'), b[|b| - 1]);
    }
  }

  /**
   The effect of one more line: a blank line leaves no trace, a line no pattern
   accepts is reported and skipped, any other line adds its record at the end.
   */
  lemma ReadBirthdaysSnoc(lines: seq<string>, raw: string)
    ensures AllSpace(raw) ==> ReadBirthdays(lines + [raw]) == ReadBirthdays(lines)
    ensures !AllSpace(raw) && (forall s, g :: !Fits(s, Strip(raw), g)) ==>
      ReadBirthdays(lines + [raw]) ==
        Loaded(ReadBirthdays(lines).records, ReadBirthdays(lines).diagnostics + [Malformed(Strip(raw))])
    ensures !AllSpace(raw) && (exists s, g :: Fits(s, Strip(raw), g)) ==>
      ParseLine(Strip(raw)).Some?
      && ReadBirthdays(lines + [raw]) ==
        Loaded(ReadBirthdays(lines).records + [ParseLine(Strip(raw)).value], ReadBirthdays(lines).diagnostics)
  {
    assert (lines + [raw])[..|lines|] == lines;
  }

  /** A line with only three hyphens can fit nothing but the bare pattern, and is read by it. */
  lemma ThreeHyphensReadBare(line: string, g: Groups)
    requires Fits(Bare, line, g) && Count('-', line) == 3
    ensures ParseLine(line) == Some(ToRecord(g))
  {
    var m := MatchLine(line);
    assert m.Some?;
    FitNeedsHyphens(ShapeOf(m.value), line, m.value);
    FitWithoutDeptIsUnique(Bare, line, m.value, g);
  }

  // ---------------------------------------------------------------- dates

  /** The age rule: solar records directly, lunar ones through the converted birth date. */
  function CalculateAge(r: BirthdayRecord, today: Date, toSolarDate: LunarToSolar): (age: Option<int>)
    requires r.hasYear ==> r.year.Some?
    ensures !r.hasYear ==> age.None?
    ensures r.hasYear && r.calendarType == 'a' ==>
      age.Some? && forall n :: AnniversaryReached(today, Date(r.year.value, r.month, r.day), n) <==> n <= age.value
    ensures r.hasYear && r.calendarType != 'a' ==>
      (age.Some? <==> toSolarDate(r.year.value, r.month, r.day).Some?)
    ensures r.hasYear && r.calendarType != 'a' && age.Some? ==>
      forall n :: AnniversaryReached(today, toSolarDate(r.year.value, r.month, r.day).value, n) <==> n <= age.value
  {
    if !r.hasYear then None
    else if r.calendarType == 'a' then Some(YearsSince(today, Date(r.year.value, r.month, r.day)))
    else
      match toSolarDate(r.year.value, r.month, r.day)
      case None => None
      case Some(born) => Some(YearsSince(today, born))
  }

  /** Solar records compare with today's date, every other record with today's lunar date. */
  function IsBirthdayToday(r: BirthdayRecord, clock: Clock): (b: bool)
    ensures r.calendarType == 'a' ==> (b <==> clock.today.month == r.month && clock.today.day == r.day)
    ensures r.calendarType != 'a' ==> (b <==> clock.lunarToday.month == r.month && clock.lunarToday.day == r.day)
  {
    var ref := if r.calendarType == 'a' then clock.today else clock.lunarToday;
    ref.month == r.month && ref.day == r.day
  }

  /** On a solar record's birthday its age is exactly the difference of the years. */
  lemma SolarBirthdayAge(r: BirthdayRecord, clock: Clock, toSolarDate: LunarToSolar)
    requires r.hasYear && r.year.Some? && r.calendarType == 'a'
    requires IsBirthdayToday(r, clock)
    ensures CalculateAge(r, clock.today, toSolarDate) == Some(clock.today.year - r.year.value)
  {
  }

  /** The records whose birthday is today, in roster order. */
  function TodaysBirthdays(records: seq<BirthdayRecord>, clock: Clock): (matched: seq<BirthdayRecord>)
    ensures forall i | 0 <= i < |matched| :: IsBirthdayToday(matched[i], clock)
    ensures forall i | 0 <= i < |records| :: IsBirthdayToday(records[i], clock) ==> records[i] in matched
    ensures multiset(matched) <= multiset(records)
    ensures YearsPresent(records) ==> YearsPresent(matched)
  {
    Select(records, r => IsBirthdayToday(r, clock))
  }

  // ---------------------------------------------------------------- display

  /** The display label: optional `(department) `, the name, the calendar tag, optional age. */
  function FormatDisplay(r: BirthdayRecord, today: Date, toSolarDate: LunarToSolar): (display: string)
    requires r.hasYear ==> r.year.Some?
    ensures r.department.Some? && r.department.value != "" ==>
      display == "(" + r.department.value + ") " + r.name + " " + CalendarTag(r.calendarType) + AgeInfo(CalculateAge(r, today, toSolarDate))
    ensures !(r.department.Some? && r.department.value != "") ==>
      display == r.name + " " + CalendarTag(r.calendarType) + AgeInfo(CalculateAge(r, today, toSolarDate))
    ensures AgeShown(display) == CalculateAge(r, today, toSolarDate)
  {
    var age := CalculateAge(r, today, toSolarDate);
    var ageInfo := if r.hasYear then AgeInfo(age) else "";
    assert ageInfo == AgeInfo(age);
    if r.department.Some? && r.department.value != "" then
      AgeShownRoundTrip("(" + r.department.value + ") " + r.name + " ", r.calendarType, age);
      "(" + r.department.value + ") " + r.name + " " + CalendarTag(r.calendarType) + ageInfo
    else
      AgeShownRoundTrip(r.name + " ", r.calendarType, age);
      r.name + " " + CalendarTag(r.calendarType) + ageInfo
  }

  /**
   A line that fits the year-and-department pattern keeps its year, and so does a line
   that fits the year pattern when neither department pattern, tried before it, matches.
   */
  lemma YearShapesKeepYear(line: string, g: Groups)
    requires Fits(YearDept, line, g) || (Fits(Year, line, g) && Match(YearDept, line).None? && Match(Dept, line).None?)
    ensures ParseLine(line).Some? && ParseLine(line).value.year.Some?
    ensures Fits(Year, line, g) ==> ParseLine(line) == Some(ToRecord(g))
  {
    if Fits(Year, line, g) {
      FitWithoutDeptIsUnique(Year, line, g, Match(Year, line).value);
    }
  }

  /** Filtering two stretches of records one after the other keeps the order of the matches. */
  lemma TodaysBirthdaysAppend(a: seq<BirthdayRecord>, b: seq<BirthdayRecord>, clock: Clock)
    ensures TodaysBirthdays(a + b, clock) == TodaysBirthdays(a, clock) + TodaysBirthdays(b, clock)
  {
    SelectAppend(a, b, r => IsBirthdayToday(r, clock));
  }

  // ---------------------------------------------------------------- notification

  /** The display label of each matched record, in order. */
  function Displays(matched: seq<BirthdayRecord>, today: Date, toSolarDate: LunarToSolar): (ds: seq<string>)
    requires YearsPresent(matched)
    ensures |ds| == |matched|
    ensures forall i | 0 <= i < |ds| :: ds[i] == FormatDisplay(matched[i], today, toSolarDate)
  {
    if |matched| == 0 then []
    else Displays(matched[..|matched| - 1], today, toSolarDate) + [FormatDisplay(matched[|matched| - 1], today, toSolarDate)]
  }

  /** The opening paragraph of the multi-member message. */
  const ListHeading: string := "<p>今天有多名成员的生日：</p>"

  /** The HTML list of the multi-member message, one `<li>` per label in order. */
  function ListItems(displays: seq<string>): string {
    if |displays| == 0 then ""
    else ListItems(displays[..|displays| - 1]) + "<li>心助会- " + displays[|displays| - 1] + "</li>"
  }

  /** The list of a longer roster of matches is the list of its parts, one after the other. */
  lemma {:induction false} ListItemsAppend(a: seq<string>, b: seq<string>)
    ensures ListItems(a + b) == ListItems(a) + ListItems(b)
    decreases |b|
  {
    if |b| == 0 {
      assert a + b == a;
    } else {
      var b' := b[..|b| - 1];
      assert (a + b)[..|a + b| - 1] == a + b';
      assert (a + b)[|a + b| - 1] == b[|b| - 1];
      ListItemsAppend(a, b');
    }
  }

  /** Every label appears in the list. */
  lemma {:induction false} ListItemsHasItems(displays: seq<string>)
    ensures forall i | 0 <= i < |displays| :: IsInfix(displays[i], ListItems(displays))
    decreases |displays|
  {
    if |displays| > 0 {
      var prefix := displays[..|displays| - 1];
      var last := displays[|displays| - 1];
      ListItemsHasItems(prefix);
      assert ListItems(displays) == ListItems(prefix) + ("<li>心助会- " + last + "</li>");
      forall i | 0 <= i < |prefix|
        ensures IsInfix(displays[i], ListItems(displays))
      {
        assert prefix[i] == displays[i];
        InfixExtends(displays[i], "", ListItems(prefix), "<li>心助会- " + last + "</li>");
        assert "" + ListItems(prefix) + ("<li>心助会- " + last + "</li>") == ListItems(displays);
      }
      assert OccursAt(last, last, 0);
      InfixExtends(last, ListItems(prefix) + "<li>心助会- ", last, "</li>");
      assert ListItems(prefix) + "<li>心助会- " + last + "</li>" == ListItems(displays);
    }
  }

  /**
   The message content: the one highlighted label, or the numbered list of labels;
   either way every label appears, and only the list form has the list markup.
   */
  function Body(displays: seq<string>): (b: string)
    requires |displays| >= 1
    ensures forall i | 0 <= i < |displays| :: IsInfix(displays[i], b)
    ensures ListHeading <= b <==> |displays| >= 2
  {
    if |displays| == 1 then
      var opening := "<p>今天是心助会- <span class=\"highlight\">";
      var b := opening + displays[0] + "</span> 的生日，请记得祝福 TA！</p>";
      assert OccursAt(displays[0], b, |opening|);
      assert b[5] != ListHeading[5];
      b
    else
      var items := ListItems(displays);
      var b := ListHeading + "<ol class=\"birthday-list\">" + items + "</ol>";
      ListItemsHasItems(displays);
      forall i | 0 <= i < |displays|
        ensures IsInfix(displays[i], b)
      {
        InfixExtends(displays[i], ListHeading + "<ol class=\"birthday-list\">", items, "</ol>");
      }
      assert b[..|ListHeading|] == ListHeading;
      b
  }

  /** The list in the message shows the labels of earlier matches before those of later ones. */
  lemma BodyListsInOrder(a: seq<string>, b: seq<string>)
    requires |a + b| >= 2
    ensures IsInfix(ListItems(a) + ListItems(b), Body(a + b))
  {
    ListItemsAppend(a, b);
    var items := ListItems(a + b);
    assert OccursAt(items, items, 0);
    InfixExtends(items, ListHeading + "<ol class=\"birthday-list\">", items, "</ol>");
  }

  /**
   The run's one delivery: sent to the administrator only when records were read,
   someone has a birthday today and an administrator address is configured.
   */
  function Notification(records: seq<BirthdayRecord>, clock: Clock, toSolarDate: LunarToSolar, adminEmail: Option<string>): (e: Option<Email>)
    requires YearsPresent(records)
    ensures e.Some? <==> |TodaysBirthdays(records, clock)| > 0 && Configured(adminEmail)
    ensures e.Some? ==> e.value.to == adminEmail
    ensures e.Some? ==> (e.value.subject == MultiSubject <==> |TodaysBirthdays(records, clock)| >= 2)
    ensures e.Some? && |TodaysBirthdays(records, clock)| == 1 ==>
      e.value.subject == Subject([FormatDisplay(TodaysBirthdays(records, clock)[0], clock.today, toSolarDate)])
    ensures e.Some? ==> forall i | 0 <= i < |TodaysBirthdays(records, clock)| ::
      IsInfix(FormatDisplay(TodaysBirthdays(records, clock)[i], clock.today, toSolarDate), e.value.body)
  {
    var matched := TodaysBirthdays(records, clock);
    if |records| == 0 || |matched| == 0 || !Configured(adminEmail) then None
    else
      var displays := Displays(matched, clock.today, toSolarDate);
      Some(Email(Subject(displays), Body(displays), adminEmail))
  }
}
