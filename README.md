# Birthday tracker: the recurring-birthday date engine

This is a Dafny model of the date logic in the Wishes birthday-tracker Android app. Each stored
birthday has an id, a name, a month and day, an optional birth year and a category. The app asks
the same questions of every birthday:

- When does the birthday next fall, on or after today?
- How many days away is that?
- Is it today?
- How old is the person?

Four parts of the app answer those questions:

- **Notification helper.** Picks the birthdays to remind about: on the day, or a week before.
- **Notification worker.** A background job that runs the same scan and posts an Android
  notification for each birthday it picks, with a title such as "Ann's birthday is in 7 days!".
- **View model.** Holds the selected sort option and chooses the next upcoming birthday.
- **Two screens.**
  - The list screen searches by name, sorts by date, name or category in either direction, and
    highlights today's and the next birthday.
  - The calendar screen steps between months, draws a month grid with a coloured dot under each
    day that has birthdays, and lists the month's birthdays.

Module by module:

- `Calendar` holds the parts of java.time the app relies on: leap years, month lengths, date
  order, months, the epoch day and the day of the week.
- `Periods` holds `Period.between`.
- `Occurrence` holds the birthday record, the projection of a month and day onto a year, the
  next occurrence and the two day counts the app uses.
- The remaining modules follow the source files.

"Today" is always a parameter. So are the notification settings and the results of the database
reads. Nothing reads a clock.

The source computes two different day counts:

- The helper counts whole days to the next occurrence (`ChronoUnit.DAYS.between`). This is
  `TotalDaysUntil`, in 0..365.
- The worker and `getNextUpcomingBirthday` use `Period.between(today, upcoming).days`. This is
  only the days field of a years/months/days period: `PeriodDaysUntil`, in 0..30.

The two agree while the birthday is less than four weeks away (`DayCountsAgreeWithinFourWeeks`).
From four weeks on they can differ, for example when the birthday is a whole month away; see
Findings.

## Model

| member | source | states |
|---|---|---|
| Calendar.DaysInMonth | app/src/main/java/com/birthdaytracker/ui/screens/CalendarViewScreen.kt:40 | lengthOfMonth is 28..31, and 29 exactly for February of a leap year |
| Calendar.LengthOfMonth | app/src/main/java/com/birthdaytracker/ui/screens/CalendarViewScreen.kt:40 | lengthOfMonth of a year-month: the month's length in that year (properties stated by DaysInMonth) |
| Calendar.BeforeTrichotomy | app/src/main/java/com/birthdaytracker/notification/BirthdayNotificationHelper.kt:33 | the date comparison `thisYear >= today` is a strict total order |
| Calendar.FromProlepticMonth | app/src/main/java/com/birthdaytracker/ui/screens/CalendarViewScreen.kt:59 | recovers the year-month from a month count |
| Calendar.ProlepticMonthInjective | app/src/main/java/com/birthdaytracker/ui/screens/CalendarViewScreen.kt:59 | two year-months with the same month count are equal |
| Calendar.PlusMonths | app/src/main/java/com/birthdaytracker/ui/screens/CalendarViewScreen.kt:69 | plusMonths(n) moves the month count by exactly n |
| Calendar.NextMonthWraps | app/src/main/java/com/birthdaytracker/ui/screens/CalendarViewScreen.kt:69 | plusMonths(1) goes to the next month, and from December to January of the next year |
| Calendar.PreviousMonthWraps | app/src/main/java/com/birthdaytracker/ui/screens/CalendarViewScreen.kt:59 | minusMonths(1) goes to the previous month, and from January to December of the year before |
| Calendar.PreviousThenNext | app/src/main/java/com/birthdaytracker/ui/screens/CalendarViewScreen.kt:59-69 | the back and forward arrows undo each other in either order |
| Calendar.DayOfWeek | app/src/main/java/com/birthdaytracker/ui/screens/CalendarViewScreen.kt:42 | dayOfWeek.value lies in 1..7 |
| Calendar.EpochDay | app/src/main/java/com/birthdaytracker/ui/screens/ListViewScreen.kt:81 | toEpochDay: the day count from 1970-01-01 (properties stated by EpochDayOrder, EpochDayByYear, YearStartIsJavaFormula, EpochOrigin) |
| Calendar.MonthEnd | app/src/main/java/com/birthdaytracker/ui/screens/ListViewScreen.kt:81 | each month's days end where the next month's start, and December ends at the year's length |
| Calendar.DayOfYear | app/src/main/java/com/birthdaytracker/ui/screens/ListViewScreen.kt:81 | the day of the year lies in 1..length of the year |
| Calendar.MonthStartStep | app/src/main/java/com/birthdaytracker/ui/screens/ListViewScreen.kt:81 | the next month starts lengthOfMonth days after this month's start |
| Calendar.MonthStartGap | app/src/main/java/com/birthdaytracker/ui/screens/ListViewScreen.kt:81 | a later month starts after this month ends |
| Calendar.YearStartStep | app/src/main/java/com/birthdaytracker/ui/screens/ListViewScreen.kt:81 | consecutive years start a year's length apart |
| Calendar.EpochDayByYear | app/src/main/java/com/birthdaytracker/ui/screens/ListViewScreen.kt:81 | toEpochDay is the year's start plus the day of the year, less one |
| Calendar.EpochDayOrder | app/src/main/java/com/birthdaytracker/ui/screens/ListViewScreen.kt:81 | one date is before another exactly when its epoch day is smaller; equal dates have equal epoch days and conversely |
| Calendar.DaysBeforeYearStep | app/src/main/java/com/birthdaytracker/ui/screens/ListViewScreen.kt:81 | java's days-before-year formula grows by one year's length per year |
| Calendar.YearStartIsJavaFormula | app/src/main/java/com/birthdaytracker/ui/screens/ListViewScreen.kt:81 | the recursive year start equals java's closed form with floor division |
| Calendar.DaysBeforeMonthIsJavaFormula | app/src/main/java/com/birthdaytracker/ui/screens/ListViewScreen.kt:81 | the month table equals java's (367m-362)/12 formula with its leap correction |
| Calendar.EpochOrigin | app/src/main/java/com/birthdaytracker/ui/screens/ListViewScreen.kt:81 | 1970-01-01 is epoch day 0 and a Thursday |
| Periods.PlusMonthsToDate | app/src/main/java/com/birthdaytracker/viewmodel/BirthdayViewModel.kt:64 | plusMonths keeps the day of month unless the target month is shorter, then takes its last day |
| Periods.Between | app/src/main/java/com/birthdaytracker/viewmodel/BirthdayViewModel.kt:64 | Period.between as LocalDate.until: whole months first, borrowing one when the end's day is smaller, then years and months by truncating division (properties stated by BetweenForward and BetweenShortSpan) |
| Periods.PlusMonthsNotBefore | app/src/main/java/com/birthdaytracker/viewmodel/BirthdayViewModel.kt:64 | adding whole months never moves a date back |
| Periods.SplitMonths | app/src/main/java/com/birthdaytracker/viewmodel/BirthdayViewModel.kt:64 | a period's years and months split the total month count, with months in 0..11 |
| Periods.MonthsApartNonNegative | app/src/main/java/com/birthdaytracker/viewmodel/BirthdayViewModel.kt:64 | a start on or before the end is a non-negative number of calendar months before it, with no day excess when zero |
| Periods.BorrowedMonth | app/src/main/java/com/birthdaytracker/viewmodel/BirthdayViewModel.kt:64 | when the end's day is below the start's, the last whole month is borrowed and leaves at most 30 days |
| Periods.WholeMonths | app/src/main/java/com/birthdaytracker/viewmodel/BirthdayViewModel.kt:64 | otherwise the whole months plus the day difference reach the end exactly, and one more month overshoots |
| Periods.BetweenForward | app/src/main/java/com/birthdaytracker/viewmodel/BirthdayViewModel.kt:64 | Period.between of ordered dates has years >= 0, months 0..11 and days 0..30; years and months added to the start, plus days, give the end; one more month reaches or passes it |
| Periods.BetweenShortSpan | app/src/main/java/com/birthdaytracker/notification/BirthdayNotificationScheduler.kt:48 | under 28 days apart, the period is 0 years, 0 months and the whole day count |
| Periods.PlusMonthsAtLeast28 | app/src/main/java/com/birthdaytracker/notification/BirthdayNotificationScheduler.kt:48 | a month or more later is at least 28 days later |
| Periods.BetweenYearsCompleted | app/src/main/java/com/birthdaytracker/ui/screens/ListViewScreen.kt:254 | the years field counts the anniversaries reached |
| Occurrence.Project | app/src/main/java/com/birthdaytracker/notification/BirthdayNotificationHelper.kt:21-31 | atYear/withYear keep month and day, with the day capped at the month's length |
| Occurrence.ProjectKeepsMonthDay | app/src/main/java/com/birthdaytracker/notification/BirthdayNotificationHelper.kt:21-31 | only February 29 in a common year changes, and it becomes February 28 |
| Occurrence.NextOccurrence | app/src/main/java/com/birthdaytracker/notification/BirthdayNotificationHelper.kt:21-33 | the upcoming date is on or after today, falls this year or next, and is the projection of the birthday onto its year |
| Occurrence.NextOccurrenceIsEarliest | app/src/main/java/com/birthdaytracker/notification/BirthdayNotificationHelper.kt:33 | no projection on or after today comes earlier than the chosen one |
| Occurrence.NoConsecutiveLeapYears | app/src/main/java/com/birthdaytracker/notification/BirthdayNotificationHelper.kt:27-31 | two consecutive years are never both leap years |
| Occurrence.ProjectionShift | app/src/main/java/com/birthdaytracker/notification/BirthdayNotificationHelper.kt:27-31 | next year's projection falls at most 366 days after this year's |
| Occurrence.TotalDaysUntil | app/src/main/java/com/birthdaytracker/notification/BirthdayNotificationHelper.kt:34 | the day count is 0..365, and 0 exactly when the occurrence is today |
| Occurrence.TotalDaysUntilBound | app/src/main/java/com/birthdaytracker/notification/BirthdayNotificationHelper.kt:34 | the whole days to the next occurrence lie in 0..365 |
| Occurrence.PeriodDaysUntil | app/src/main/java/com/birthdaytracker/notification/BirthdayNotificationScheduler.kt:48 | Period.between(today, upcoming).days lies in 0..30 |
| Occurrence.DayCountsAgreeWithinFourWeeks | app/src/main/java/com/birthdaytracker/notification/BirthdayNotificationScheduler.kt:48 | below 28 days, the worker's count equals the helper's |
| Occurrence.IsToday | app/src/main/java/com/birthdaytracker/viewmodel/BirthdayViewModel.kt:68-72 | isToday compares month and day of month only (properties stated by IsTodayVersusZeroDays) |
| Occurrence.IsTodayVersusZeroDays | app/src/main/java/com/birthdaytracker/viewmodel/BirthdayViewModel.kt:68-72 | isToday gives a zero count; a zero count means isToday, except for February 29 seen on February 28 of a common year |
| Occurrence.CurrentAge | app/src/main/java/com/birthdaytracker/ui/screens/ListViewScreen.kt:252-257 | no birth year gives no age; an impossible birth date is an error; for a birth date on or before today the age is the completed years, and it is non-negative |
| Seqs.Filter | app/src/main/java/com/birthdaytracker/notification/BirthdayNotificationHelper.kt:20-40 | filter keeps exactly the matching elements, in order, and no others |
| Seqs.FilterSnoc | app/src/main/java/com/birthdaytracker/notification/BirthdayNotificationHelper.kt:38 | appending one element to the input appends it to the output exactly when it matches |
| Seqs.FilterAppend | app/src/main/java/com/birthdaytracker/ui/screens/ListViewScreen.kt:69 | filtering distributes over concatenation |
| Seqs.FilterKeepsAll | app/src/main/java/com/birthdaytracker/viewmodel/BirthdayViewModel.kt:54-59 | a filter that every element passes returns the list unchanged |
| Seqs.Reverse | app/src/main/java/com/birthdaytracker/ui/screens/ListViewScreen.kt:87 | reversed has the same elements, in mirrored positions |
| Seqs.ReverseAppend | app/src/main/java/com/birthdaytracker/ui/screens/ListViewScreen.kt:87 | reversing a concatenation swaps and reverses the parts |
| Seqs.FilterReverse | app/src/main/java/com/birthdaytracker/ui/screens/ListViewScreen.kt:87 | filtering commutes with reversing |
| Seqs.FirstMatch | app/src/main/java/com/birthdaytracker/ui/screens/ListViewScreen.kt:91 | firstOrNull is null exactly when nothing matches, otherwise the first match |
| Seqs.FirstMinIndex | app/src/main/java/com/birthdaytracker/viewmodel/BirthdayViewModel.kt:60-65 | the index minByOrNull settles on has the least key, and every earlier key is strictly larger |
| Seqs.MinByOrNull | app/src/main/java/com/birthdaytracker/viewmodel/BirthdayViewModel.kt:60-65 | minByOrNull is null exactly on the empty list, otherwise an element of it |
| Seqs.MinByOrNullSameKeys | app/src/main/java/com/birthdaytracker/viewmodel/BirthdayViewModel.kt:60-65 | two key functions that agree on the list choose the same element |
| NotificationHelper.DueOnMeansOccurrenceInWindow | app/src/main/java/com/birthdaytracker/notification/BirthdayNotificationHelper.kt:33-37 | a birthday is due exactly when reminders on the day are on and it falls today, or week-before reminders are on and it falls exactly 7 days from today |
| NotificationHelper.DueOn | app/src/main/java/com/birthdaytracker/notification/BirthdayNotificationHelper.kt:33-37 | the helper's decision: the total day count is 0 with day-of reminders on or 7 with week-before reminders on (stated in calendar terms by DueOnMeansOccurrenceInWindow) |
| NotificationHelper.Selected | app/src/main/java/com/birthdaytracker/notification/BirthdayNotificationHelper.kt:18-42 | the pairs the scan collects (characterised by SelectedIsFilter, SelectedPairs and SelectedMembership) |
| NotificationHelper.GetBirthdaysToNotify | app/src/main/java/com/birthdaytracker/notification/BirthdayNotificationHelper.kt:11-43 | the loop returns the selection; every reported count is 0 or 7 |
| NotificationHelper.Firsts | app/src/main/java/com/birthdaytracker/notification/BirthdayNotificationHelper.kt:38 | the birthdays of the result pairs, position by position |
| NotificationHelper.FirstsSnoc | app/src/main/java/com/birthdaytracker/notification/BirthdayNotificationHelper.kt:38 | adding a pair adds its birthday |
| NotificationHelper.SelectedIsFilter | app/src/main/java/com/birthdaytracker/notification/BirthdayNotificationHelper.kt:20-40 | the selected birthdays are the input filtered by dueness, in input order |
| NotificationHelper.SelectedPairs | app/src/main/java/com/birthdaytracker/notification/BirthdayNotificationHelper.kt:36-38 | every result pair holds an input birthday, its true day count, and that count is 0 or 7 |
| NotificationHelper.SelectedMembership | app/src/main/java/com/birthdaytracker/notification/BirthdayNotificationHelper.kt:20-40 | a birthday is in the result exactly when it is in the input and due; its count is its day count, 0 or 7 |
| NotificationHelper.NothingWhenDisabled | app/src/main/java/com/birthdaytracker/notification/BirthdayNotificationHelper.kt:36-37 | with both settings off nothing is selected |
| NotificationHelper.LeapDayBirthdayOnFebruary28 | app/src/main/java/com/birthdaytracker/notification/BirthdayNotificationHelper.kt:21-25 | a February 29 birthday is reported on February 28 of a common year |
| NotificationHelper.WeekBeforeExample | app/src/main/java/com/birthdaytracker/notification/BirthdayNotificationHelper.kt:36-37 | a birthday 7 days away is reported with count 7 only when week-before reminders are on |
| NotificationScheduler.NatToString | app/src/main/java/com/birthdaytracker/notification/BirthdayNotificationScheduler.kt:76 | decimal digits only, at least one, no leading zero |
| NotificationScheduler.DigitRoundTrip | app/src/main/java/com/birthdaytracker/notification/BirthdayNotificationScheduler.kt:76 | each digit character reads back as its digit |
| NotificationScheduler.DecimalRoundTrip | app/src/main/java/com/birthdaytracker/notification/BirthdayNotificationScheduler.kt:76 | reading the decimal text of n gives back n |
| NotificationScheduler.IntToString | app/src/main/java/com/birthdaytracker/notification/BirthdayNotificationScheduler.kt:76 | the text starts with '-' exactly for negative numbers |
| NotificationScheduler.NatToStringInjective | app/src/main/java/com/birthdaytracker/notification/BirthdayNotificationScheduler.kt:76 | different counts have different decimal texts |
| NotificationScheduler.IntToStringInjective | app/src/main/java/com/birthdaytracker/notification/BirthdayNotificationScheduler.kt:76 | different integers have different texts |
| NotificationScheduler.Title | app/src/main/java/com/birthdaytracker/notification/BirthdayNotificationScheduler.kt:73-77 | the title for a day count: "today!" for 0, "tomorrow!" for 1, otherwise "in N days!" (TitleDeterminesDays states it names the count) |
| NotificationScheduler.TitleDeterminesDays | app/src/main/java/com/birthdaytracker/notification/BirthdayNotificationScheduler.kt:73-77 | the title names the day count unambiguously: equal titles come from equal counts |
| NotificationScheduler.ToInt32 | app/src/main/java/com/birthdaytracker/notification/BirthdayNotificationScheduler.kt:68 | Long.toInt keeps the low 32 bits: the result is a 32-bit value congruent to the id, and equal to it when in range |
| NotificationScheduler.NotificationFor | app/src/main/java/com/birthdaytracker/notification/BirthdayNotificationScheduler.kt:57-88 | the notification and its pending intent use the id truncated to 32 bits, the title for the count, and the fixed reminder text |
| NotificationScheduler.ShouldNotify | app/src/main/java/com/birthdaytracker/notification/BirthdayNotificationScheduler.kt:44-53 | the worker's decision: the Period days field to the next occurrence is 0 with day-of reminders on or 7 with week-before reminders on |
| NotificationScheduler.Posted | app/src/main/java/com/birthdaytracker/notification/BirthdayNotificationScheduler.kt:43-54 | the notifications the scan posts, in input order (characterised by PostedIsFilterThenNotify and PostedMembership) |
| NotificationScheduler.RemindersFor | app/src/main/java/com/birthdaytracker/notification/BirthdayNotificationScheduler.kt:57-88 | the reminder each birthday would get, position by position |
| NotificationScheduler.CheckAndNotifyBirthdays | app/src/main/java/com/birthdaytracker/notification/BirthdayNotificationScheduler.kt:32-55 | the loop posts exactly the specified notifications in input order, at most one per birthday |
| NotificationScheduler.ScanTitle | app/src/main/java/com/birthdaytracker/notification/BirthdayNotificationScheduler.kt:73-77 | a birthday the worker picks gets the "today" or the "in 7 days" title under its own id |
| NotificationScheduler.PostedTitles | app/src/main/java/com/birthdaytracker/notification/BirthdayNotificationScheduler.kt:43-54 | every posted notification belongs to an input birthday and says "today" or "in 7 days" |
| NotificationScheduler.PostedIsFilterThenNotify | app/src/main/java/com/birthdaytracker/notification/BirthdayNotificationScheduler.kt:43-54 | the scan posts exactly the reminders of the birthdays the worker's rule picks, in input order |
| NotificationScheduler.PostedMembership | app/src/main/java/com/birthdaytracker/notification/BirthdayNotificationScheduler.kt:50-53 | a notification is posted exactly when it is the reminder of a scanned birthday whose Period days field is 0 with day-of reminders on, or 7 with week-before reminders on |
| NotificationScheduler.WorkerAgreesWithHelperWithinFourWeeks | app/src/main/java/com/birthdaytracker/notification/BirthdayNotificationScheduler.kt:48-53 | below 28 days, the worker's decision equals the helper's |
| NotificationScheduler.MonthAwayPostedAsToday | app/src/main/java/com/birthdaytracker/notification/BirthdayNotificationScheduler.kt:48-53 | a birthday exactly one month away has Period days 0 and is posted as "today" while the helper selects nothing (Findings) |
| NotificationScheduler.DoWork | app/src/main/java/com/birthdaytracker/notification/BirthdayNotificationScheduler.kt:23-30 | success exactly when all reads succeed, and then the scan's notifications are posted; a retry posts nothing |
| ViewModel.BirthdayViewModel.constructor | app/src/main/java/com/birthdaytracker/viewmodel/BirthdayViewModel.kt:22 | the sort option starts as DATE |
| ViewModel.BirthdayViewModel.SetSortOption | app/src/main/java/com/birthdaytracker/viewmodel/BirthdayViewModel.kt:25-27 | the sort option becomes the given one |
| ViewModel.Upcoming | app/src/main/java/com/birthdaytracker/viewmodel/BirthdayViewModel.kt:54-59 | the filter of getNextUpcomingBirthday: the next occurrence is on or after today, which NextOccurrence guarantees for every birthday |
| ViewModel.NextUpcomingBirthday | app/src/main/java/com/birthdaytracker/viewmodel/BirthdayViewModel.kt:51-66 | null exactly for an empty list; otherwise the first birthday with the least Period days field |
| ViewModel.NearestUpcoming | app/src/main/java/com/birthdaytracker/viewmodel/BirthdayViewModel.kt:51-66 | the corrected chooser: least whole days to the next occurrence, first on ties (stated by NearestUpcomingIsEarliest) |
| ViewModel.NearestUpcomingIsEarliest | app/src/main/java/com/birthdaytracker/viewmodel/BirthdayViewModel.kt:51-66 | the corrected chooser: null exactly for an empty list, else its next occurrence is on or before every other and strictly before those listed earlier |
| ViewModel.NextUpcomingIsNearestWithinFourWeeks | app/src/main/java/com/birthdaytracker/viewmodel/BirthdayViewModel.kt:60-65 | when every birthday is under four weeks away, the source's chooser and the corrected one agree |
| ViewModel.UniqueLeastKeyChosen | app/src/main/java/com/birthdaytracker/viewmodel/BirthdayViewModel.kt:60-65 | a birthday with a strictly least Period days field is chosen |
| ViewModel.NearestOfThreeExample | app/src/test/java/com/birthdaytracker/viewmodel/BirthdayViewModelTest.kt:119-130 | on June 12 of any year, birthdays 10 days, 5 days and one day before today away give the 5-day one |
| ViewModel.DayBeforeKey | app/src/main/java/com/birthdaytracker/viewmodel/BirthdayViewModel.kt:61-64 | on June 12 of any year, a June 11 birthday counts 30 Period days (its next occurrence is 11 months and 30 days away) |
| ViewModel.NextUpcomingPrefersMonthAway | app/src/main/java/com/birthdaytracker/viewmodel/BirthdayViewModel.kt:60-65 | a birthday one month away is chosen over one 5 days away; the corrected chooser picks the 5-day one (Findings) |
| Sorting.TextLeTotal | app/src/main/java/com/birthdaytracker/ui/screens/ListViewScreen.kt:84-85 | string order is total (TextLe, the character-by-character `String.compareTo` that sortedBy applies to names and categories, is covered by this row and the next two) |
| Sorting.TextLeAntisymmetric | app/src/main/java/com/birthdaytracker/ui/screens/ListViewScreen.kt:84-85 | string order is antisymmetric |
| Sorting.TextLeTransitive | app/src/main/java/com/birthdaytracker/ui/screens/ListViewScreen.kt:84-85 | string order is transitive |
| Sorting.KeyLeReflexive | app/src/main/java/com/birthdaytracker/ui/screens/ListViewScreen.kt:76-85 | sort keys compare equal to themselves |
| Sorting.KeyLeTotalOrder | app/src/main/java/com/birthdaytracker/ui/screens/ListViewScreen.kt:76-85 | the sort keys are totally ordered |
| Sorting.KeyOf | app/src/main/java/com/birthdaytracker/ui/screens/ListViewScreen.kt:76-85 | DATE sorts by the epoch day of the next occurrence on or after today, NAME by the name, CATEGORY by the category, and the calendar's list by day of month |
| Sorting.DateKeyNotBeforeToday | app/src/main/java/com/birthdaytracker/ui/screens/ListViewScreen.kt:76-82 | a DATE key is never before today |
| Sorting.SortByKey | app/src/main/java/com/birthdaytracker/ui/screens/ListViewScreen.kt:76-85 | sortedBy/sortedWith as a stable insertion sort (stated by SortByKeyPermutes, SortByKeySorted and SortByKeyStable) |
| Sorting.InsertPermutes | app/src/main/java/com/birthdaytracker/ui/screens/ListViewScreen.kt:76-85 | one insertion step adds exactly the inserted element |
| Sorting.SortByKeyPermutes | app/src/main/java/com/birthdaytracker/ui/screens/ListViewScreen.kt:76-85 | sorting rearranges the list without adding or dropping anything |
| Sorting.SortByKeySameElements | app/src/main/java/com/birthdaytracker/ui/screens/ListViewScreen.kt:76-85 | an element is in the sorted list exactly when it is in the input |
| Sorting.InsertAtLeast | app/src/main/java/com/birthdaytracker/ui/screens/ListViewScreen.kt:76-85 | inserting keeps a lower bound on the keys |
| Sorting.InsertSorted | app/src/main/java/com/birthdaytracker/ui/screens/ListViewScreen.kt:76-85 | inserting into a sorted list keeps it sorted |
| Sorting.SortByKeySorted | app/src/main/java/com/birthdaytracker/ui/screens/ListViewScreen.kt:76-85 | the result is sorted by key |
| Sorting.WithKey | app/src/main/java/com/birthdaytracker/ui/screens/ListViewScreen.kt:76-85 | the elements with one key, in list order |
| Sorting.InsertWithKey | app/src/main/java/com/birthdaytracker/ui/screens/ListViewScreen.kt:76-85 | insertion puts the new element before those with an equal key (first among equals), which is what lets SortByKeyStable keep input order |
| Sorting.SortByKeyStable | app/src/main/java/com/birthdaytracker/ui/screens/ListViewScreen.kt:76-85 | sortedBy is stable: elements with an equal key keep their input order |
| Sorting.ReverseSortedDescending | app/src/main/java/com/birthdaytracker/ui/screens/ListViewScreen.kt:87 | a sorted list reversed has non-increasing keys |
| ListView.ToUpperAscii | app/src/main/java/com/birthdaytracker/ui/screens/ListViewScreen.kt:69 | case folding maps a..z to A..Z and leaves everything else alone |
| ListView.IsBlank | app/src/main/java/com/birthdaytracker/ui/screens/ListViewScreen.kt:66 | isBlank: every character is whitespace, so the empty query is blank (the whitespace table IsWhitespace, standing for `Char.isWhitespace`, is covered by this row) |
| ListView.ContainsIgnoreCase | app/src/main/java/com/birthdaytracker/ui/screens/ListViewScreen.kt:69 | contains with ignoreCase holds exactly when the query matches the name at some position, letter case aside (the helpers RegionMatches and CharsEqualIgnoreCase, standing for `regionMatches(ignoreCase = true)` character by character, are covered by this row) |
| ListView.ContainsIgnoresQueryCase | app/src/main/java/com/birthdaytracker/ui/screens/ListViewScreen.kt:69 | the query's letter case does not matter |
| ListView.NameContainsItself | app/src/main/java/com/birthdaytracker/ui/screens/ListViewScreen.kt:69 | every name matches itself |
| ListView.SearchFilter | app/src/main/java/com/birthdaytracker/ui/screens/ListViewScreen.kt:65-71 | a blank query shows everything; otherwise the birthdays whose name contains the query, in list order, and no others |
| ListView.SpecFor | app/src/main/java/com/birthdaytracker/ui/screens/ListViewScreen.kt:75-86 | each sort option maps to its own key |
| ListView.SortedBirthdays | app/src/main/java/com/birthdaytracker/ui/screens/ListViewScreen.kt:74-88 | the shown list is a permutation of the filtered one |
| ListView.AscendingOrder | app/src/main/java/com/birthdaytracker/ui/screens/ListViewScreen.kt:74-86 | ascending: keys never decrease and equal keys keep input order |
| ListView.DescendingOrder | app/src/main/java/com/birthdaytracker/ui/screens/ListViewScreen.kt:87 | descending: the ascending list reversed, so keys never increase |
| ListView.DateKeysNotBeforeToday | app/src/main/java/com/birthdaytracker/ui/screens/ListViewScreen.kt:76-82 | under DATE every key is on or after today |
| ListView.DateSortFollowsNextOccurrence | app/src/main/java/com/birthdaytracker/ui/screens/ListViewScreen.kt:76-87 | under DATE, ascending, each birthday's next occurrence is on or before those after it; descending, on or after them |
| ListView.TodayBirthday | app/src/main/java/com/birthdaytracker/ui/screens/ListViewScreen.kt:91 | null exactly when no shown birthday is today; otherwise the first that is |
| ListView.RowHighlight | app/src/main/java/com/birthdaytracker/ui/screens/ListViewScreen.kt:188-192 | green exactly for today's birthday's id, orange for the next one's unless green, surface otherwise (a precedence statement; RowHighlights carries the consequences for the whole list) |
| ListView.RowColourAt | app/src/main/java/com/birthdaytracker/ui/screens/ListViewScreen.kt:188-192 | the colour of row i, from todayBirthday and nextUpcoming of the shown list (stated by RowHighlights) |
| ListView.RowHighlights | app/src/main/java/com/birthdaytracker/ui/screens/ListViewScreen.kt:188-192 | with distinct ids at most one row is green and at most one orange; a green row is today, and one exists exactly when some birthday is today |
| CalendarView.CalendarState.constructor | app/src/main/java/com/birthdaytracker/ui/screens/CalendarViewScreen.kt:37 | the screen opens on the given current month |
| CalendarView.CalendarState.ShowPrevious | app/src/main/java/com/birthdaytracker/ui/screens/CalendarViewScreen.kt:59 | the back arrow moves one month back, from January to December of the year before |
| CalendarView.CalendarState.ShowNext | app/src/main/java/com/birthdaytracker/ui/screens/CalendarViewScreen.kt:69 | the forward arrow moves one month on, from December to January of the next year |
| CalendarView.FirstOfMonth | app/src/main/java/com/birthdaytracker/ui/screens/CalendarViewScreen.kt:41 | atDay(1) of the displayed month |
| CalendarView.LeadingBlanks | app/src/main/java/com/birthdaytracker/ui/screens/CalendarViewScreen.kt:41-42 | the blank cells before day 1 number 0..6, and none exactly when the month starts on a Sunday |
| CalendarView.MonthDays | app/src/main/java/com/birthdaytracker/ui/screens/CalendarViewScreen.kt:44 | the month's day list has lengthOfMonth entries, entry i being day i+1 |
| CalendarView.DayOfMonth | app/src/main/java/com/birthdaytracker/ui/screens/CalendarViewScreen.kt:44 | atDay(k) is day k of that year and month |
| CalendarView.MonthDaysComplete | app/src/main/java/com/birthdaytracker/ui/screens/CalendarViewScreen.kt:40-44 | 28..31 days, 29 only in a leap February; every date of the month at its place; strictly increasing |
| CalendarView.WeekdayColumn | app/src/main/java/com/birthdaytracker/ui/screens/CalendarViewScreen.kt:115 | the blank-cell offset puts day k in its weekday's column (arithmetic step) |
| CalendarView.GridColumnIsWeekday | app/src/main/java/com/birthdaytracker/ui/screens/CalendarViewScreen.kt:115-122 | after the blanks, day k falls in the column of its own weekday, Sunday first |
| CalendarView.DayBirthdays | app/src/main/java/com/birthdaytracker/ui/screens/CalendarViewScreen.kt:123-126 | a cell holds exactly the birthdays with the cell's month and day |
| CalendarView.HoldsId | app/src/main/java/com/birthdaytracker/ui/screens/CalendarViewScreen.kt:129-130 | the any { who?.id == it.id } test of a cell |
| CalendarView.CellDot | app/src/main/java/com/birthdaytracker/ui/screens/CalendarViewScreen.kt:155-164 | no dot without birthdays; green exactly when one of them has today's birthday's id; orange exactly when not green and one has the next upcoming id; the primary colour exactly in the remaining case (a precedence statement; TodayCellIsGreen carries its consequence for today's cell) |
| CalendarView.CalendarTodayBirthday | app/src/main/java/com/birthdaytracker/ui/screens/CalendarViewScreen.kt:47 | firstOrNull of isToday over all birthdays (TodayCellIsGreen states its effect on today's cell) |
| CalendarView.TodayCellIsGreen | app/src/main/java/com/birthdaytracker/ui/screens/CalendarViewScreen.kt:128-130 | today's cell is green exactly when some birthday falls on today's month and day |
| CalendarView.ItemColourOf | app/src/main/java/com/birthdaytracker/ui/screens/CalendarViewScreen.kt:209-213 | a list item is green exactly when it is today, orange exactly when it is not today and is the next upcoming one |
| CalendarView.InMonth | app/src/main/java/com/birthdaytracker/ui/screens/CalendarViewScreen.kt:187 | the birthdays of the displayed month, in list order (a Filter) |
| CalendarView.MonthList | app/src/main/java/com/birthdaytracker/ui/screens/CalendarViewScreen.kt:186-188 | every listed birthday is one of the displayed month's, every birthday of that month is listed, and days never decrease |
| CalendarView.MonthListRearrangesStably | app/src/main/java/com/birthdaytracker/ui/screens/CalendarViewScreen.kt:186-188 | the list is a permutation of the month's birthdays, and birthdays on the same day keep their list order |
| CalendarView.ShowMonthSection | app/src/main/java/com/birthdaytracker/ui/screens/CalendarViewScreen.kt:175-177 | whether some day of the month matches some birthday's month and day (characterised by MonthSectionShown) |
| CalendarView.MonthSectionShown | app/src/main/java/com/birthdaytracker/ui/screens/CalendarViewScreen.kt:175-177 | the section shows exactly when a birthday of the month has a day that exists this year, and then the list is non-empty |
| CalendarView.LeapDayHiddenInCommonFebruary | app/src/main/java/com/birthdaytracker/ui/screens/CalendarViewScreen.kt:175-188 | a February 29 birthday in a common-year February is in the list, but the section holding the list stays hidden |

## Left out

- The user interface is not modelled: Compose layout, text colours, the date formatter, navigation and
  clicks. The model keeps the values the screens compute: filtered and sorted lists, highlight and
  dot colours, the day grid and the month section.
- Persistence and the Room DAO are not modelled. The list of birthdays is a parameter.
- The settings store is not modelled. The two notification switches are parameters.
- The view model's insert, update, delete and validate operations are not modelled. They are writes
  to the database and do no date logic.
- WorkManager scheduling, the notification channel and the PendingIntent are not modelled. A posted
  notification is a value holding its id, request code, title and text.
- The clock is not modelled. LocalDate.now() and YearMonth.now() are parameters.
- NotificationScheduler.DoWork: models failures of the three reads as error results. An exception
  thrown while a notification is posted halfway through the scan is not modelled.
- ListView.ToUpperAscii: folds case for ASCII letters only. Kotlin's ignoreCase folds every Unicode
  letter.
- ListView.IsWhitespace: uses a fixed list of whitespace code points rather than the full Unicode
  table behind isBlank.
- Sorting.TextLe: compares strings by character. Kotlin compares UTF-16 code units, which gives a
  different order only outside the Basic Multilingual Plane.
- ListView.SortedBirthdays: takes the ascending or descending direction as a parameter. The
  view-model state that holds it is not part of this model.
- The stored `birthDate` is split into a month and day plus an optional birth year. The year
  appears only in the age computation. The Birthday class in Birthday.kt holds a full birthDate.
  The screens and the helper also read `birthMonthDay` and `birthYear`, so the record carries
  those.
- Years are unbounded integers. java.time's year range of plus or minus 999,999,999 is not
  enforced. Among the integer widths, only Long.toInt of the id (ToInt32) is modelled.
- ViewModel.NearestOfThreeExample: the view-model test runs on any date; the lemma fixes the day to June 12
  (of any year). A general statement needs day arithmetic on dates, such as adding days or months across
  month ends, that the model does not provide.
- ViewModel.DayBeforeKey: fixed to June 12 (of any year). On other days a birthday yesterday can count
  fewer Period days, for example 29 on May 1 or 27 on March 1 of a common year.
- ViewModel.NearestUpcoming: has no contract of its own. Its properties are stated in
  NearestUpcomingIsEarliest and NextUpcomingIsNearestWithinFourWeeks.
- The DateTimeException catch blocks at BirthdayNotificationHelper.kt lines 23-24 and 29-30 are not
  modelled. They are unreachable: for a valid month and day, MonthDay.atYear never throws, because it
  turns February 29 into February 28 itself. Project models that clamping.
- Occurrence.CurrentAge: promises the completed years only for a birth date on or before today. For
  a birth date after today it returns the years field of Period.between, which is negative or zero,
  as the source does.

## Findings

| source | as written | input that shows it | evidently intended | confidence | as-written member | corrected member |
|---|---|---|---|---|---|---|
| app/src/main/java/com/birthdaytracker/notification/BirthdayNotificationScheduler.kt:48-53 | the worker tests `Period.between(today, upcoming).days`, which is only the days field after whole months are removed | today June 12, birthday July 12: the period is 1 month and 0 days, so the worker posts "…'s birthday is today!" a month early; likewise days 7 for a birthday 1 month and 7 days away | the whole number of days to the occurrence, as the notification helper computes at app/src/main/java/com/birthdaytracker/notification/BirthdayNotificationHelper.kt:34 | not executed | NotificationScheduler.MonthAwayPostedAsToday | NotificationHelper.DueOnMeansOccurrenceInWindow |
| app/src/main/java/com/birthdaytracker/viewmodel/BirthdayViewModel.kt:60-65 | getNextUpcomingBirthday minimises `Period.between(today, upcoming).days` | today June 12, birthdays June 17 and July 12: the days fields are 5 and 0, so July 12 is chosen over June 17 | the birthday whose next occurrence is soonest (least whole days) | not executed | ViewModel.NextUpcomingPrefersMonthAway | ViewModel.NearestUpcomingIsEarliest |
