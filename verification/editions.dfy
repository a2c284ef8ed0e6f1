/**
 How the local script and the scheduled script compare on the same records: they
 agree on every solar or lunar record, which is all either reader produces, and
 differ only on calendar types neither reader lets through.
 */
module Editions {
  import opened Options
  import opened Calendar
  import opened Roster
  import LocalReminder
  import Reminder

  /** On a solar or lunar record both scripts decide the same way whether today is the birthday. */
  lemma SameMatchRule(r: BirthdayRecord, clock: Clock)
    requires r.calendarType == 'a' || r.calendarType == 'b'
    ensures LocalReminder.IsBirthdayToday(r, clock) == Reminder.IsBirthdayToday(r, clock)
  {
  }

  /**
   Any other calendar type never matches in the scheduled script, while the local
   script treats it as lunar.
   */
  lemma OtherTypesDiffer(r: BirthdayRecord, clock: Clock)
    requires r.calendarType != 'a' && r.calendarType != 'b'
    ensures !Reminder.IsBirthdayToday(r, clock)
    ensures LocalReminder.IsBirthdayToday(r, clock) == LocalReminder.IsBirthdayToday(r.(calendarType := 'b'), clock)
  {
  }

  /**
   On a solar or lunar record both scripts compute the same age, provided the local
   script's `toSolarDate()` and the scheduled script's `toSolar()` place the lunar
   birth date on the same solar day.
   */
  lemma SameAge(r: BirthdayRecord, today: Date, toSolarDate: LunarToSolar, toSolar: LunarToSolar)
    requires r.hasYear ==> r.year.Some?
    requires r.calendarType == 'a' || r.calendarType == 'b'
    requires r.hasYear && r.calendarType == 'b' ==>
      toSolarDate(r.year.value, r.month, r.day) == toSolar(r.year.value, r.month, r.day)
    ensures LocalReminder.CalculateAge(r, today, toSolarDate) == Reminder.CalculateAge(r, today, toSolar)
  {
  }

  /**
   When the two conversion calls disagree the ages can differ: if only the local
   call places the date, only the local script shows an age.
   */
  lemma ConversionsCanDisagree(r: BirthdayRecord, today: Date)
    requires r.hasYear && r.year.Some? && r.calendarType == 'b'
    ensures LocalReminder.CalculateAge(r, today, (y, m, d) => Some(Date(y, m, d))).Some?
    ensures Reminder.CalculateAge(r, today, (y, m, d) => None).None?
  {
  }

  /** A solar record's age does not depend on either conversion call. */
  lemma SolarAgeNeedsNoConversion(r: BirthdayRecord, today: Date, toSolarDate: LunarToSolar, toSolar: LunarToSolar)
    requires r.hasYear ==> r.year.Some?
    requires r.calendarType == 'a'
    ensures LocalReminder.CalculateAge(r, today, toSolarDate) == Reminder.CalculateAge(r, today, toSolar)
  {
  }

  /** On solar and lunar records both scripts pick the same people, in the same order. */
  lemma SameMatches(records: seq<BirthdayRecord>, clock: Clock)
    requires forall i | 0 <= i < |records| :: records[i].calendarType == 'a' || records[i].calendarType == 'b'
    ensures LocalReminder.TodaysBirthdays(records, clock) == Reminder.Matched(records, clock)
  {
    forall i | 0 <= i < |records|
      ensures LocalReminder.IsBirthdayToday(records[i], clock) == Reminder.IsBirthdayToday(records[i], clock)
    {
      SameMatchRule(records[i], clock);
    }
    SelectAgrees(records, r => LocalReminder.IsBirthdayToday(r, clock), r => Reminder.IsBirthdayToday(r, clock));
  }

  /** Whatever roster the local reader produces, the scheduled script's matcher picks the same people from it. */
  lemma SameMatchesOnLocalRoster(lines: seq<string>, clock: Clock)
    ensures LocalReminder.TodaysBirthdays(LocalReminder.ReadBirthdays(lines).records, clock)
         == Reminder.Matched(LocalReminder.ReadBirthdays(lines).records, clock)
  {
    SameMatches(LocalReminder.ReadBirthdays(lines).records, clock);
  }
}
