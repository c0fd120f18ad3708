# lpsport school sports results, in Dafny

This project models the core of lpsport, a small school sports-day system. An
Express server keeps classes, students, sports and timed results in SQLite.
Two React pages read those results:

- the leaderboard, which can be filtered by sport and by class;
- a showcase that rotates through the sports one at a time.

The model covers the following:

- The **best-time recorder**, `POST /api/results`.
  - A submission is rejected unless both ids are truthy and both times are
    present.
  - The first result for a (student, sport) pair is inserted.
  - A later result replaces the stored one only when its total
    `min * 60 + sec` is strictly smaller.
  - Beside it are the unconditional overwrite, `PUT /api/results/:id`, and the
    delete.
- The **leaderboard query**:
  - the inner join of results, students, classes and sports;
  - the optional `sport_id` and `class_id` filters;
  - the `ORDER BY time_min, time_sec` sort.
- The **showcase query**: the sport-then-time stream, and the loop that
  groups it by sport id.
- The **CSV bulk import**:
  - line splitting, trimming and field cleaning;
  - all-or-nothing validation, with one error per bad line;
  - the insert loop, which looks each class up by name, creates it when it is
    missing, inserts the student, and counts rows processed and failed.
- The **administration handlers**: required-field validation for classes,
  sports and students, the student search, and what their inserts, updates
  and deletes do to the join.
- **`addDefaultData`**, which seeds each empty table with its defaults.
- The **pages**:
  - the time formatter `${min}:${sec.padStart(2,'0')}`;
  - rank, medal, top-five and photo rules;
  - the leaderboard's query string;
  - the showcase rotation `(i + 1) % n`, its ten-card slice, progress dots
    and counter.

The tables are one immutable value, `Tables.Tables`, with an AUTOINCREMENT
counter per table. The handlers that write are methods of the class
`Server.Database`, which holds the eight table fields. Each handler's
`ensures` ties its new state and reply to a function on `Tables` (`Record`,
`Overwrite`, `ImportAll`, `AddClass`, `Seed`, …). The properties are proved
as lemmas about those functions.

The model's conventions:

- A request arrives one at a time.
- A form field is an `Option`, `None` when absent.
- JavaScript truthiness is explicit: `Recorder.Given` for ids, `Admin.Truthy`
  for strings.
- `db.get` returns the row with the lowest id.
- Joins scan results in id order.
- SQL ties keep that scan order, because the model's sort is stable.

## Model

| member | source | states |
|---|---|---|
| Recorder.Record | backend/src/index.js:762-803 | After any submission the results table still holds at most one row per (student, sport). The reply is `Incomplete` exactly when an id is falsy or a time is absent, and then nothing changes. |
| Recorder.FindPair | backend/src/index.js:770 | The pair lookup finds the one row of that pair when the table has one, and none otherwise. |
| Recorder.RecordEffect | backend/src/index.js:770-802 | A complete submission leaves its pair holding the faster of the old and new rows; a tie keeps the old one. It inserts exactly when the pair had no row, and answers `updated: true` exactly when it was strictly faster. Every other pair keeps its row. |
| Recorder.BestTimeIsFirstMinimum | backend/src/index.js:762-803 | For any sequence of submissions, the stored row of a pair is the first row to reach the smallest total, among the starting row and that pair's complete submissions. There is a row exactly when one of them exists. |
| Recorder.StoredTotalIsMinimum | backend/src/index.js:776-781 | The stored total is at most every total submitted for the pair, and equals one of them. |
| Recorder.NeverTwoRowsPerPair | backend/src/index.js:118 | No sequence of submissions creates two rows for one pair, which is the `UNIQUE(student_id, sport_id)` constraint. |
| Recorder.ExampleSequence | backend/src/index.js:776-790 | 1:30 is inserted. 1:45 is then refused with `updated: false`. 1:10 then replaces it with `updated: true`. |
| Recorder.Overwrite | backend/src/index.js:806-832 | Rejected exactly when a time is absent, and then the store is unchanged. Otherwise the reply is success with the requested id, and the row with that id gets both times, and gets the new photo path only when a photo was sent. No other row changes. An absent id changes nothing and still succeeds. |
| Recorder.OverwriteCanRaiseStoredTime | backend/src/index.js:806-832 | Unlike the recorder, the overwrite can leave a pair with a slower time than one already recorded. |
| Recorder.Remove | backend/src/index.js:835-843 | The row with that id is gone and every other row is unchanged. |
| Tables.FindClass | backend/src/index.js:557-562 | The class lookup by name returns a class with that name, and returns none exactly when no class has the name. |
| Tables.AddClassFinds | backend/src/index.js:564-570 | After a class insert, a lookup of that name still finds an older class with the name, and otherwise finds the new id. Lookups of other names are unchanged. |
| Query.Join | backend/src/index.js:728-734 | The join holds exactly the results whose student, class and sport all exist, each built from those rows, in result-id order. |
| Query.Select | backend/src/index.js:737-748 | A row is kept exactly when it satisfies every filter that is present. Each kept row keeps its multiplicity. |
| Query.Sort | backend/src/index.js:751 | The output is sorted under the order and is a permutation of the input. |
| Query.Leaderboard | backend/src/index.js:726-759 | The leaderboard is sorted by `(time_min, time_sec)`. A row appears exactly when it is in the join and matches the filters, and it appears at most once. |
| Query.FiltersConjoin | backend/src/index.js:737-748 | Both filters together select exactly what each selects alone. |
| Query.UnfilteredIsWholeJoin | backend/src/index.js:746-751 | With no filter, the leaderboard is a permutation of the whole join. |
| Query.TimeOrderMatchesTotal | backend/src/index.js:751 | When seconds are in [0, 60), the `(min, sec)` order is the order of `min * 60 + sec`. |
| Query.TimeOrderDisagreesOutsideRange | backend/src/index.js:751 | 0:90 sorts before 1:00, although its total is larger. |
| Query.LeaderboardOrderedByTotal | backend/src/index.js:751 | When every listed time has seconds in range, the leaderboard is also ordered by total. |
| Query.ShowcaseStream | backend/src/index.js:847-854 | The showcase stream is sorted by sport and then time, and is a permutation of the join. |
| Grouping.GroupBySport | backend/src/index.js:862-874 | The `forEach` loop, using a sport-id-to-position dictionary, builds exactly `Groups(rows)`. |
| Grouping.EveryRowInItsGroup | backend/src/index.js:862-872 | Every row has a group of its sport and lies in that group only. Group sport ids are distinct. Every grouped row comes from the stream and has the group's sport. |
| Grouping.ConcatGroups | backend/src/index.js:862-874 | On a stream ordered by sport id, the groups laid end to end give back the stream. |
| Grouping.SportIdsAscend | backend/src/index.js:853 | On a stream ordered by sport id, the group order is strictly ascending sport id. |
| Grouping.GroupsOrderedByTime | backend/src/index.js:853 | On a sport-then-time stream, each group's results are ordered by time. |
| Grouping.ShowcasePartitionsJoin | backend/src/index.js:846-876 | The showcase groups partition the join. Their concatenation is the stream, a permutation of the join. Sport ids ascend. Each group is non-empty, holds one sport and is ordered by time. |
| CsvImport.NonBlank | backend/src/index.js:515 | Keeps exactly the pieces whose trimmed text is not empty. |
| CsvImport.NonBlankConcat | backend/src/index.js:515 | The filter keeps order and repeats. The filter of a concatenation is the concatenation of the filtered parts. A single piece is kept exactly when its trimmed text is not empty. |
| CsvImport.CleanField | backend/src/index.js:526 | A cleaned field contains no `"`. |
| CsvImport.CleanFieldContents | backend/src/index.js:526 | A cleaned field is the field cut to its white-space margins, with every `"` removed. |
| CsvImport.ParseFields | backend/src/index.js:528-540 | A line is a format error exactly when it does not have 4 fields. It is a student exactly when it has 4 non-empty fields, which keep their order. |
| CsvImport.ErrorFor | backend/src/index.js:528-538 | A line contributes an error exactly when it is not a student, and the error carries its 1-based line number. |
| CsvImport.Validate | backend/src/index.js:521-541 | The validation loop produces exactly `Students` and `Errors` of the parsed lines. |
| CsvImport.EveryLineAccounted | backend/src/index.js:524-541 | Each line yields one student or one error. Errors name strictly increasing lines, each error is the one its line calls for, and every invalid line has its error. |
| CsvImport.StudentsAreTheValidLines | backend/src/index.js:540 | The rows are exactly the valid lines' contents. When every line is valid there is one row per line. |
| CsvImport.StudentsConcat | backend/src/index.js:524-540 | Rows are pushed in line order. The rows of a concatenation of lines are the rows of the parts, in order. One line gives its row when it is valid and nothing otherwise. |
| CsvImport.NoErrorsIffAllValid | backend/src/index.js:543-547 | There are no errors exactly when every line is valid. |
| CsvImport.Prepare | backend/src/index.js:509-547 | No file gives `NoFile`. No non-blank line gives `EmptyFile`. Any bad line gives `Rejected` with every line error. Otherwise the result is `Accepted` with the parsed rows. |
| CsvImport.QuotedBlankIsFilled | backend/src/index.js:526 | `" "` cleans to a single blank, which passes the empty-field check, because quotes are removed after trimming. |
| BulkImport.ImportRow | backend/src/index.js:556-609 | One row succeeds unless a driver call it makes fails. It creates a class only when no class has the name, stores the student under a class of that name at the next id, and otherwise adds no student. |
| BulkImport.ImportAdds | backend/src/index.js:554-610 | Whatever fails, only classes and students are added. Students get consecutive ids, one per processed row. No name ever gets two created classes. |
| BulkImport.FaultFreeImport | backend/src/index.js:554-610 | With no failure every row is processed and none fails, and row `k` is the student at the k-th new id, filed under a class of its class name. |
| BulkImport.FailedInsertKeepsNewClass | backend/src/index.js:564-579 | A class created for a row whose student insert then fails stays in the table, and nothing is counted as processed. |
| BulkImport.FaultsFor | backend/src/index.js:555 | Row `k` meets `faults[k]`, or no failure past the end of `faults`. |
| Admin.Search | backend/src/index.js:396-421 | A missing or empty parameter gives `MissingKey`. No matching student gives `NotFound`. Otherwise the answer is the lowest-id student with that class and number. |
| Admin.SearchFindsAdded | backend/src/index.js:424-449 | A newly added student is found by class and number: it is the new row unless an older student already matched. |
| Admin.FormRow | backend/src/index.js:426 | A form that passes the guard gives a row with a non-zero class id and non-empty strings. |
| Admin.DroppedClassLeavesJoin | backend/src/index.js:336-357 | Deleting a class removes from the join exactly its students' results, and the leaderboard filtered on it becomes empty. |
| Admin.DroppedSportLeavesJoin | backend/src/index.js:702-723 | Deleting a sport removes exactly its results from the join. |
| Admin.DroppedStudentLeavesJoin | backend/src/index.js:484-505 | Deleting a student removes exactly that student's results from the join. |
| Admin.RenamedClassShowsNewName | backend/src/index.js:310-333 | Renaming a class renames it in every joined row of its students and leaves the other rows as they were. |
| Seeding.AddSeedStudents | backend/src/index.js:227-254 | The student loop changes only the students table and its counter. |
| Seeding.SeedStudentsStored | backend/src/index.js:227-254 | When every class name resolves, the default students are stored in order at consecutive ids, each under the class its name resolves to. |
| Seeding.UnresolvedStudentSkipped | backend/src/index.js:239 | A student whose class is missing is skipped and the loop goes on. |
| Seeding.SeedOnlyFillsEmptyTables | backend/src/index.js:150-212 | A table that already holds rows is never seeded, and results are never touched. |
| Seeding.SeedLeavesFilledDatabase | backend/src/index.js:150-212 | When all three tables hold rows, seeding changes nothing. |
| Seeding.SeedFreshDatabase | backend/src/index.js:136-260 | On a new database, classes 1-6 and sports 1-8 are the defaults in order. Students 1-10 are the default students in order, each under its class. |
| Seeding.SeedFreshTwice | backend/src/index.js:136-260 | Seeding a new database twice is the same as seeding it once. |
| Server.Database.constructor | backend/src/index.js:92-128 | A new database has empty tables with every counter at 1. |
| Server.Database.SubmitResult | backend/src/index.js:762-803 | The handler's new results table and reply are those of `Recorder.Record`. Every other table is unchanged. |
| Server.Database.CorrectResult | backend/src/index.js:806-832 | The new results table and reply are those of `Recorder.Overwrite`. |
| Server.Database.DeleteResult | backend/src/index.js:835-843 | The new results table is `Recorder.Remove` of the old one. |
| Server.Database.GetShowcase | backend/src/index.js:846-876 | The answer is `Grouping.Showcase` of the current tables. |
| Server.Database.ImportOne | backend/src/index.js:556-609 | One loop pass changes the tables as `BulkImport.ImportRow` does and reports its success. |
| Server.Database.ImportRows | backend/src/index.js:554-610 | The insert loop's tables and counters are those of `BulkImport.ImportAll`. |
| Server.Database.BulkImport | backend/src/index.js:508-628 | Refused exactly when there is no file, no non-blank line or a bad line, and then nothing is written. No file gives `NoFile`. No non-blank line gives `EmptyFile`. Any other refusal is `Rejected` with every line error. Otherwise the tables and counts are those of `ImportAll` over the valid rows. |
| Server.Database.CreateClass | backend/src/index.js:288-306 | An empty name gives 400 `班別名稱不能為空` and no change. Otherwise the class is inserted at the next id, which is answered. |
| Server.Database.UpdateClass | backend/src/index.js:310-333 | An empty name gives 400. Otherwise the class is renamed, and an absent id changes nothing and succeeds. |
| Server.Database.DeleteClass | backend/src/index.js:336-357 | The class row goes and the students keep their `class_id`. Always success. |
| Server.Database.CreateSport | backend/src/index.js:650-671 | An empty name gives 400 `運動名稱不能為空`. Otherwise the sport is inserted at the next id. |
| Server.Database.UpdateSport | backend/src/index.js:674-699 | An empty name gives 400. Otherwise the sport is renamed. |
| Server.Database.DeleteSport | backend/src/index.js:702-723 | The sport row goes. Always success. |
| Server.Database.CreateStudent | backend/src/index.js:424-449 | Any falsy field gives 400 `資料不完整`. Otherwise the student is inserted at the next id with no check of the class id. |
| Server.Database.UpdateStudent | backend/src/index.js:452-481 | Any falsy field gives 400. Otherwise the row is replaced, and an absent id changes nothing. |
| Server.Database.DeleteStudent | backend/src/index.js:484-505 | The student row goes. Always success. |
| Server.Database.Seed | backend/src/index.js:136-260 | The handle ends as `Seeding.Seed` of its old tables. |
| Server.Database.SeedStudents | backend/src/index.js:227-254 | The student loop, which inserts only when `if (classId)` holds, ends as `Seeding.AddSeedStudents`. |
| Display.FormatTimeRoundTrip | frontend/src/pages/Leaderboard.tsx:86-88 | The minutes and seconds can be read back from the formatted text, for every integer pair. |
| Display.FormatTimeInjective | frontend/src/pages/Showcase.tsx:62-64 | Different times never format alike. |
| Display.SingleDigitSecondsPadded | frontend/src/pages/Leaderboard.tsx:87 | Seconds 0-9 show as `0` followed by the digit. |
| Display.TwoDigitSecondsPlain | frontend/src/pages/Leaderboard.tsx:87 | Seconds 10-99 show as their two digits. |
| Display.MedalAt | frontend/src/pages/Leaderboard.tsx:152-154 | Gold exactly at index 0, silver exactly at 1, bronze exactly at 2, no medal from index 3 on. |
| JsString.Split | backend/src/index.js:515 | The pieces contain no separator, there is at least one, and they join back to the input. |
| JsString.SplitJoin | backend/src/index.js:526 | `Split` inverts `Join` when no part contains the separator. |
| JsString.Trim | backend/src/index.js:525 | The result is empty exactly when the input is all white space. Otherwise it starts and ends with non-space. |
| JsString.TrimMargins | backend/src/index.js:525 | The trimmed text is a slice of the input with only white space before and after it. |
| JsString.TrimIsTheOnlyTrim | backend/src/index.js:525 | Any slice with white-space margins and no white space at its ends is the trimmed text. |
| JsString.TrimIdempotent | backend/src/index.js:526 | Trimming twice removes nothing more. |
| JsString.RemoveAll | backend/src/index.js:526 | Every occurrence of the character is dropped and every other character keeps its count. |
| JsString.RemoveAllConcat | backend/src/index.js:526 | Removal works character by character and keeps order. A concatenation maps to the concatenation of the parts. The removed character becomes nothing, and any other character stays. |
| JsString.IntToStringRoundTrip | frontend/src/pages/Leaderboard.tsx:87 | `toString` of an integer reads back as that integer. |
| JsString.PadStart | frontend/src/pages/Leaderboard.tsx:87 | The length is the larger of the input length and the target. The input is a suffix and the rest is fill. |
| LeaderboardPage.QueryParams | frontend/src/pages/Leaderboard.tsx:74-76 | `sport_id` is present exactly when a sport is selected, and `class_id` exactly when a class is. Each carries its selection, and no key repeats. |
| LeaderboardPage.SelectionsReachServer | frontend/src/pages/Leaderboard.tsx:74-78 | The filter the server reads from the page's query string is the page's selection. |
| LeaderboardPage.Render | frontend/src/pages/Leaderboard.tsx:132-149 | `暫無成績記錄` shows exactly when there are no rows. Otherwise there is one table row per entry, in order. |
| LeaderboardPage.RowAt | frontend/src/pages/Leaderboard.tsx:149-157 | Rank is index + 1. There is a medal exactly in the top three. Top-five exactly when the index is below 5. There is a photo exactly when `photo_path` is non-empty and the index is below 5. |
| LeaderboardPage.RenderedRanks | frontend/src/pages/Leaderboard.tsx:148-157 | Ranks count 1, 2, 3 and so on. Each medal appears once, gold then silver then bronze. Only the first five rows can show a photo. |
| LeaderboardPage.GoldIsFastest | frontend/src/pages/Leaderboard.tsx:152 | On the server's leaderboard, every rank is at least as fast as those below it, and the gold row holds the listing's best time. |
| ShowcasePage.Step | frontend/src/pages/Showcase.tsx:32 | The next index is always a valid position. |
| ShowcasePage.TicksCount | frontend/src/pages/Showcase.tsx:29-36 | The first `n` ticks show the groups in order, starting from the first. |
| ShowcasePage.TicksPeriodic | frontend/src/pages/Showcase.tsx:29-36 | After `n` more ticks the same group shows again. |
| ShowcasePage.EveryGroupShown | frontend/src/pages/Showcase.tsx:29-36 | Every group is shown within `n` ticks, and the `n`-th tick returns to the first. |
| ShowcasePage.Rotator.Tick | frontend/src/pages/Showcase.tsx:31-33 | One interval firing moves the index to `(index + 1) % n` and keeps it in range. |
| ShowcasePage.CardAt | frontend/src/pages/Showcase.tsx:109-133 | Rank is index + 1. Podium and medal exactly in the top three. There is a photo exactly when the path is non-empty and the index is below 5. The time is `FormatTime`. |
| ShowcasePage.Cards | frontend/src/pages/Showcase.tsx:108 | Cards cover the first `min(10, n)` results, in order. |
| ShowcasePage.View | frontend/src/pages/Showcase.tsx:66-151 | `暫無數據` shows exactly when there are no groups. Otherwise the view shows: the current sport's name; `暫無成績` exactly when it has no results; one dot per group, with only the current one active; and the counter `index + 1 / n`. |
| ShowcasePage.RotatorShowsAGroup | frontend/src/pages/Showcase.tsx:77 | Whatever the number of ticks, the index names an existing group. |
| ShowcasePage.ServerShowcaseHasCards | frontend/src/pages/Showcase.tsx:104-108 | On the server's showcase, `暫無成績` never shows. The first card holds the group's best time, and the cards are ordered by time. |

## Left out

- Transport and I/O are left out: HTTP, multer, file reads and deletes, photo storage, the `created_at` clock, and the console logs.
- Concurrency is left out. Requests are handled one at a time, so the async interleavings of the callbacks are not modelled.
- The PostgreSQL branches of the admin handlers are not modelled, including their 404 answers for a missing id. Only the SQLite branch is modelled.
- Driver errors, which answer 500, are not modelled outside the bulk import. The seed's driver errors and its `catch` are left out too; inside the bulk import each row's failing call is an input.
- Form values are JSON-like `Option`s. Multipart bodies deliver strings, so `parseInt` and NaN on non-numeric times are left out, as is the string comparison SQLite would do.
- LeaderboardPage.ParamId: a non-empty query value that is not a numeral gives `None`. What SQLite would compare in that case is not modelled.
- URL percent-encoding of the query string is left out. Ids are numerals and need none.
- The bulk-import response's `students` list is left out. It carries `this.lastID` from the wrong scope.
- The GET list endpoints (`/api/classes`, `/api/students`, `/api/sports`) are plain scans and are not modelled.
- The showcase's fullscreen toggle, the 10-second clock and the fetches are left out. The rotator starts once the groups have arrived, as the page's effect does.
- The leaderboard's loading state and drop-down option lists are not modelled.
- The `admins` table is created but is never read or written by a handler.
- String handling is left out: no Unicode normalisation, and `trim` uses a fixed white-space set.
- Integers are unbounded. SQLite's 64-bit integers are not modelled.
