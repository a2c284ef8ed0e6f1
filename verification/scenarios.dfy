/**
 Worked examples: concrete roster lines and dates, and what the two readers,
 the matcher and the age rule make of them.
 */
module Scenarios {
  import opened Options
  import opened Text
  import opened Calendar
  import opened Roster
  import opened Patterns
  import LocalReminder
  import Reminder

  /** A lunar converter that never succeeds. */
  function NoConversion(): LunarToSolar {
    (y: int, m: int, d: int) => None
  }

  function Bob(): BirthdayRecord {
    BirthdayRecord("Bob", Some(1990), 3, 15, 'a', None, true, false)
  }

  function BobGroups(): Groups {
    Groups("Bob", Some("1990"), "3", "15", "a", None)
  }

  lemma BobFits()
    ensures Fits(Year, "Bob-1990-3-15-a", BobGroups())
  {
    var xs := ["1990", "3", "15", "a"];
    assert xs[1..] == ["3", "15", "a"];
    assert xs[1..][1..] == ["15", "a"];
    assert Join("-", xs) == "1990-3-15-a";
  }

  lemma BobRecord()
    ensures ToRecord(BobGroups()) == Bob()
  {
    assert DigitsValue("1990") == 1990 by {
      assert "1990"[..3] == "199" && "199"[..2] == "19" && "19"[..1] == "1" && "1"[..0] == "";
    }
    assert DigitsValue("15") == 15 by {
      assert "15"[..1] == "1" && "1"[..0] == "";
    }
    assert DigitsValue("3") == 3 by {
      assert "3"[..0] == "";
    }
  }

  /** The main script reads a with-year line with its year, not with the year in the name. */
  lemma BobIsReadWithYear()
    ensures Reminder.ParseLine("Bob-1990-3-15-a") == Some(Bob())
  {
    BobFits();
    Reminder.YearPatternWins("Bob-1990-3-15-a", BobGroups());
    BobRecord();
  }

  /** Before the anniversary the age is one less than the difference of the years. */
  lemma AgeBeforeBirthday()
    ensures Reminder.CalculateAge(Bob(), Date(2024, 3, 1), NoConversion()) == Some(33)
    ensures LocalReminder.CalculateAge(Bob(), Date(2024, 3, 1), NoConversion()) == Some(33)
  {
  }

  /** From the anniversary on it is the difference of the years. */
  lemma AgeAfterBirthday()
    ensures Reminder.CalculateAge(Bob(), Date(2024, 3, 20), NoConversion()) == Some(34)
    ensures LocalReminder.CalculateAge(Bob(), Date(2024, 3, 20), NoConversion()) == Some(34)
  {
  }

  /** A lunar birth date the converter cannot place gives no age, and no failure. */
  lemma UnconvertibleLunarHasNoAge()
    ensures Reminder.CalculateAge(Bob().(calendarType := 'b'), Date(2024, 3, 20), NoConversion()).None?
    ensures LocalReminder.CalculateAge(Bob().(calendarType := 'b'), Date(2024, 3, 20), NoConversion()).None?
  {
  }

  function AliceGroups(day: string): Groups {
    Groups("Alice", None, "3", day, "a", None)
  }

  lemma AliceFits(line: string, day: string)
    requires day == "15" || day == "16"
    requires line == "Alice-3-" + day + "-a"
    ensures Fits(Bare, line, AliceGroups(day))
  {
    var xs := ["3", day, "a"];
    assert xs[1..] == [day, "a"];
    assert xs[1..][1..] == ["a"];
    assert Fields(AliceGroups(day)) == xs;
    assert Join("-", xs) == "3" + "-" + (day + "-" + "a");
    assert Render(AliceGroups(day)) == "Alice" + "-" + ("3" + "-" + (day + "-" + "a")) + "";
    assert "Alice" + "-" + ("3" + "-" + (day + "-" + "a")) + "" == "Alice-3-" + day + "-a";
  }

  lemma AliceRecord(day: string, d: int)
    requires (day == "15" && d == 15) || (day == "16" && d == 16)
    ensures ToRecord(AliceGroups(day)) == BirthdayRecord("Alice", None, 3, d, 'a', None, false, false)
  {
    assert DigitsValue(day) == d by {
      assert day[..1] == "1" && "1"[..0] == "";
    }
    assert DigitsValue("3") == 3 by {
      assert "3"[..0] == "";
    }
  }

  /** The local script reads `Alice-3-15-a` (or `-16-`) as a solar date without year or department. */
  lemma AliceIsReadBare(line: string, day: string, d: int)
    requires (day == "15" && d == 15) || (day == "16" && d == 16)
    requires line == "Alice-3-" + day + "-a"
    ensures LocalReminder.ParseLine(line) == Some(BirthdayRecord("Alice", None, 3, d, 'a', None, false, false))
  {
    AliceFits(line, day);
    HyphenFreeNameCount(Bare, line, AliceGroups(day));
    LocalReminder.ThreeHyphensReadBare(line, AliceGroups(day));
    AliceRecord(day, d);
  }

  /** On 15 March `Alice-3-15-a` matches and `Alice-3-16-a` does not. */
  lemma SolarMatchOnTheDay(line: string, day: string, d: int, lunarToday: Date)
    requires (day == "15" && d == 15) || (day == "16" && d == 16)
    requires line == "Alice-3-" + day + "-a"
    ensures LocalReminder.ParseLine(line).Some?
    ensures LocalReminder.IsBirthdayToday(LocalReminder.ParseLine(line).value, Clock(Date(2024, 3, 15), lunarToday))
        <==> day == "15"
  {
    AliceIsReadBare(line, day, d);
  }

  /** A lunar 9 January, without year or department. */
  function Li(): BirthdayRecord {
    BirthdayRecord("Li", None, 1, 9, 'b', None, false, false)
  }

  /** A lunar record matches exactly on its lunar day, whatever the solar date is, in both scripts. */
  lemma LunarMatchOnTheDay(today: Date, lunarToday: Date)
    ensures LocalReminder.IsBirthdayToday(Li(), Clock(today, lunarToday)) <==> lunarToday.month == 1 && lunarToday.day == 9
    ensures Reminder.IsBirthdayToday(Li(), Clock(today, lunarToday)) <==> lunarToday.month == 1 && lunarToday.day == 9
  {
  }

  /** A solar 9 January that is not lunar 9 January does not match the lunar record. */
  lemma SolarDayIsNotLunarDay()
    ensures !LocalReminder.IsBirthdayToday(Li(), Clock(Date(2024, 1, 9), Date(2023, 11, 28)))
    ensures !Reminder.IsBirthdayToday(Li(), Clock(Date(2024, 1, 9), Date(2023, 11, 28)))
  {
  }

  /** A line with fewer than three hyphens fits no pattern. */
  lemma FewHyphensNoFit(line: string)
    requires Count('-', line) < 3
    ensures Reminder.ParseLine(line).None?
  {
    forall shape: Shape, g: Groups
      ensures !Fits(shape, line, g)
    {
      if Fits(shape, line, g) {
        FitNeedsHyphens(shape, line, g);
      }
    }
  }

  /** Reading one more line is one more pass of the loop. */
  lemma ReadLinesSnoc(lines: seq<string>, raw: string)
    ensures Reminder.ReadLines(lines + [raw]) == Reminder.ReadLine(Reminder.ReadLines(lines), raw)
  {
    assert (lines + [raw])[..|lines|] == lines;
  }

  lemma MalformedFirstTime(line: string)
    requires Strip(line) == line && line != "" && Reminder.ParseLine(line).None?
    ensures Reminder.ReadLine(Reminder.ReadState([], [], {}), line) == Reminder.ReadState([], [Malformed(line)], {line})
  {
  }

  lemma ReadOneMalformed(line: string)
    requires Strip(line) == line && line != "" && Reminder.ParseLine(line).None?
    ensures Reminder.ReadLines([line]) == Reminder.ReadState([], [Malformed(line)], {line})
  {
    var empty: seq<string> := [];
    ReadLinesSnoc(empty, line);
    assert empty + [line] == [line];
    MalformedFirstTime(line);
  }

  lemma ReadTwoMalformed(line: string)
    requires Strip(line) == line && line != "" && Reminder.ParseLine(line).None?
    ensures Reminder.ReadLines([line, line]) == Reminder.ReadState([], [Malformed(line), Duplicate(line)], {line})
  {
    ReadOneMalformed(line);
    ReadSecondCopy(line, [Malformed(line)]);
  }

  /** Once a line has been read, reading it again only adds a duplicate report. */
  lemma ReadSecondCopy(line: string, diagnostics: seq<Diagnostic>)
    requires Strip(line) == line && line != ""
    requires Reminder.ReadLines([line]) == Reminder.ReadState([], diagnostics, {line})
    ensures Reminder.ReadLines([line, line]) == Reminder.ReadState([], diagnostics + [Duplicate(line)], {line})
  {
    var once: seq<string> := [line];
    var twice := once + [line];
    assert twice == [line, line];
    ReadLinesSnoc(once, line);
    ReadAgain(line, diagnostics);
  }

  lemma ReadAgain(line: string, diagnostics: seq<Diagnostic>)
    requires Strip(line) == line && line != ""
    ensures Reminder.ReadLine(Reminder.ReadState([], diagnostics, {line}), line)
         == Reminder.ReadState([], diagnostics + [Duplicate(line)], {line})
  {
  }

  lemma ReadBirthdaysOfReadLines(lines: seq<string>)
    ensures Reminder.ReadBirthdays(lines) == Loaded(Reminder.ReadLines(lines).records, Reminder.ReadLines(lines).diagnostics)
  {
  }

  /** A malformed line given twice is reported once as malformed and then as a duplicate. */
  lemma RepeatedMalformedLine(line: string)
    requires Strip(line) == line && line != "" && Count('-', line) < 3
    ensures Reminder.ReadBirthdays([line, line]) == Loaded([], [Malformed(line), Duplicate(line)])
  {
    FewHyphensNoFit(line);
    ReadTwoMalformed(line);
    ReadBirthdaysOfReadLines([line, line]);
  }

  lemma AliceNinetyNineFacts(line: string)
    requires line == "Alice-99"
    ensures Strip(line) == line && line != "" && Count('-', line) < 3
  {
    assert TextStart(line) == 0;
    assert TextEnd(line, 0, |line|) == |line|;
    assert line == "Alice" + "-" + "99";
    CountAppend('-', "Alice" + "-", "99");
    HyphenCounts("Alice");
    CountAbsent('-', "Alice");
    CountAbsent('-', "99");
  }

  /** `Alice-99` is such a line. */
  lemma AliceNinetyNine(line: string)
    requires line == "Alice-99"
    ensures Reminder.ReadBirthdays([line, line]) == Loaded([], [Malformed(line), Duplicate(line)])
  {
    AliceNinetyNineFacts(line);
    RepeatedMalformedLine(line);
  }
}
