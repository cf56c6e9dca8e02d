# Class tracker, modelled in Dafny

This project models the core of a classroom tracker. The tracker is a Streamlit application over one SQLite database (`database/school.db`). Teachers log in and then work through these pages:

- classes and students (`pages/add_class.py`);
- homework status per student and date (`pages/homework_tracker.py`);
- weekly spelling scores (`pages/spelling_tests.py`);
- grammar errors (`pages/grammar_errors.py`);
- behaviour and academic comments (`pages/comments.py`);
- dictation tasks with automatic scoring (`pages/dictation.py`);
- essay marking against a rubric (`pages/essay_marking.py`);
- a personal to-do list (`pages/todo.py`);
- an admin panel (`pages/admin_panel.py`);
- a founder-only database browser (`pages/database_viewer.py`).

Three maintenance scripts also work directly on the users table: `create_admin.py`, `reset_passwords.py` and `cleanup_users.py`.

The files of the model:

- `tables.dfy` (module `Tables`): a SQLite table as a value. It is a map from row id to row, plus the AUTOINCREMENT counter. It defines INSERT, UPDATE … WHERE, DELETE … WHERE and the pages' select-then-update-or-insert ("upsert") pattern. The predicate `Lists` says that a SELECT's result lists exactly the rows its WHERE clause selects.
- `schema.dfy` (module `Schema`):
  - the row types and the CHECK constraints of `utils/database.py`;
  - the database as the class `SchoolDb`, with one table field per table;
  - `execute_query` as the class `Connection`.

  Page actions are methods that name in `modifies` exactly the tables they write. So "nothing else changes" is part of every contract.
- `auth.dfy` (module `Auth`): password hashing, login, user creation and role checks from `utils/auth.py`. The Streamlit session is the class `Session`.
- One module per page:
  - `add_class.dfy` (`AddClass`);
  - `homework.dfy` (`Homework`);
  - `spelling.dfy` (`Spelling`);
  - `grammar.dfy` (`Grammar`);
  - `comments.dfy` (`Comments`);
  - `dictation.dfy` (`Dictation`);
  - `essay.dfy` (`Essay`);
  - `todo.dfy` (`Todo`);
  - `admin.dfy` (`Admin`);
  - `viewer.dfy` (`Viewer`).

  Each pending result that a page keeps in `st.session_state` is a class with that field.
- `scripts.dfy` (module `Maintenance`): the three maintenance scripts.
- Shared helpers:
  - `text.dfy` (`Text`): Python's `strip`, `upper`, `lower`, `split` and `join`, with their laws;
  - `replies.dfy` (`Replies`): the code-fence cleaning applied to the model's JSON replies;
  - `numerals.dfy` (`Numerals`): integers as `json.dumps` writes them and `json.loads` reads them back;
  - `wrappers.dfy` (`Wrappers`): Option, Python's `None` or a value.

Where the code loops and updates variables, the model is a `method` with a loop. Each such method is specified by a function of the old state: importing students, saving homework and spelling forms, the founder-reset loop, the admin reset's DELETE loop, the viewer's row counts (the `COUNT(*)` of each table in the database) and grouping comments. The lemmas about those functions state what the page promises:

- every submitted entry is saved;
- other students' rows are untouched;
- a second save changes nothing;
- the counts shown add up.

## Model

Definitions without a contract of their own are described through the rows of the lemmas about them. Examples: Viewer.CustomQuery through Viewer.GuardMatchesDispatch and Viewer.GateIsJamesOnly, Viewer.RawDataTab through Viewer.RawDataNeverDisplayed and Viewer.RawDataFetchedShowsPage, Replies.StripFence through the Replies.StripFence* lemmas, Dictation.EnglishBand and Dictation.ChineseFeedback through Dictation.EnglishBandIsHighestMet and Dictation.ChineseMatchesEnglish, Admin.DeleteAll through Admin.DeleteAllEffect, Essay.EncodeBreakdown and Essay.DecodeBreakdown through Essay.BreakdownRoundTrip, and Schema.IsSelect through Schema.SelectInAnyCase and Schema.PragmaIsNotSelect.

| member | source | states |
|---|---|---|
| Auth.LookupAtMostOne | utils/auth.py:17-20 | with usernames unique, the login SELECT returns at most one row, and exactly the active row of that name when there is one |
| Auth.LoginUser | utils/auth.py:14-34 | a user record comes back exactly when the query does not raise and some active row of that username stores the password's hash; the record carries that row's id, username, full name, role and active flag |
| Auth.RolePredicates | utils/auth.py:53-66 | james is a founder; the founders are exactly james, joe and jake; nobody logged out is admin, founder or james |
| Auth.Session.constructor | utils/auth.py:49-51 | a fresh session has no user |
| Auth.Session.SubmitLogin | utils/auth.py:103-119 | an empty username or password is refused before any lookup and leaves the session; a failed login (unknown user or wrong password alike) reports invalid credentials and leaves the session; a successful one stores the login record and greets its full name |
| Auth.Session.Logout | utils/auth.py:72-76 | after logout nobody is logged in, so no role predicate holds |
| Auth.CreateUser | utils/auth.py:36-47 | a taken username makes the INSERT fail with None and no change; otherwise the row is added under the next AUTOINCREMENT id, active, storing the hash of the password, which then verifies |
| Admin.AddTeacher | pages/admin_panel.py:11-39 | anyone but james is stopped with no change; for james, create_user runs only when username, password and full name are all given; a taken username adds nothing and reports no success; otherwise the hashed, active row is added under the next id |
| Admin.Deactivate | pages/admin_panel.py:11-64 | anyone but james is stopped with no change; for james, the chosen id's row gets is_active = 0, usernames stay unique, and every other row is unchanged |
| Admin.DeactivateKeepsUsernames | pages/admin_panel.py:64 | deactivation changes no username, so the UNIQUE username constraint still holds |
| Admin.DeactivateEffect | pages/admin_panel.py:55-64 | the deactivated user leaves the deactivation choices (active, not 'admin') and can no longer pass the login lookup under any name; other rows are unchanged |
| Admin.DeactivateTeacherCount | pages/admin_panel.py:73 | the "Teachers" count (active teachers) drops by one when an active teacher is deactivated and is unchanged otherwise |
| Admin.NamedAtMostOne | pages/admin_panel.py:201 | with unique usernames the lookup of 'admin' returns at most one row, and that row when it exists |
| Admin.ChangeAdminPassword | pages/admin_panel.py:11-212 | anyone but james is stopped; an empty field is refused; a missing 'admin' row is reported (see Findings); the new hash is stored exactly when the current password verifies against the admin row and the new password equals its confirmation, and the admin row then accepts the new password; every refusal leaves the table unchanged |
| Admin.StoredAdminHash | pages/admin_panel.py:201 | the page's read of the stored hash: defined only when the lookup returned a row, and then it is the hash of a row named 'admin' |
| Admin.ChangeKeepsUsernames | pages/admin_panel.py:205 | setting a password hash changes no username, so usernames stay unique |
| Admin.ClearTable | pages/admin_panel.py:242 | DELETE FROM one table: the database afterwards is the old one with exactly that table deleted from (see Schema.DeleteEffect), so every other table is unchanged |
| Admin.ResetData | pages/admin_panel.py:11-243 | the reset runs exactly when james typed "DELETE ALL DATA" and pressed the button; it then leaves the database as the DELETE statements over the nine listed tables, in order, leave it; otherwise nothing changes |
| AddClass.CreateClass | pages/add_class.py:22-31 | an empty name submits nothing; a name already used by any class fails (UNIQUE) and changes nothing; otherwise the class is inserted for the current teacher under the next id |
| AddClass.CleanNames | pages/add_class.py:50 | the list comprehension keeps at most as many names as lines, each non-empty and with no surrounding whitespace |
| AddClass.CleanNamesKeeps | pages/add_class.py:50 | names that are already non-empty and stripped all come through, in order |
| AddClass.ParseTypedNames | pages/add_class.py:43-50 | typing non-empty, stripped names one per line gives back exactly those names in order |
| AddClass.BlankLinesDropped | pages/add_class.py:50 | a blank or whitespace-only line adds no name |
| AddClass.ImportAllEffect | pages/add_class.py:53-61 | after the loop every earlier student row is unchanged, the counter has grown by the number of successful inserts, and every new id up to it is in use |
| AddClass.ImportedAt | pages/add_class.py:53-61 | the i-th name, when its insert succeeds, is stored under the id right after those of the successes before it, so a failure skips only its own name |
| AddClass.ImportNext | pages/add_class.py:53-61 | trying one more name appends its insert unless it raises, in which case its name is appended to the reported failures |
| AddClass.Failed | pages/add_class.py:60-61 | the names reported with an error are exactly the names whose insert raised, and there are as many as the names minus the successful inserts |
| AddClass.ImportStudents | pages/add_class.py:49-64 | without text or class nothing happens; otherwise added_count is the number of inserts that succeed, the reported failures are exactly the names whose insert raised, in order, and the students table is the result of trying every name in order |
| AddClass.InsertNames | pages/add_class.py:51-61 | the loop's count equals the successful inserts, the names reported with an error are exactly the failing names in order, and the table ends as every name was tried in order |
| AddClass.TeacherListing | pages/add_class.py:71-83 | every class and student listed belongs to the current teacher, and a class's shown student count is the number of that teacher's students in the class |
| Comments.AddComment | pages/comments.py:40-48 | a submitted non-empty comment is inserted with its student, category and evidence (which may be empty); an empty comment inserts nothing |
| Comments.CategoryTextInjective | pages/comments.py:79-81 | the category filter compares stored texts, and two categories have the same text exactly when they are the same category |
| Comments.BuildFilter | pages/comments.py:67-83 | the WHERE clause starts with the class condition and gains one condition per active filter, always with as many parameters as placeholders, and it selects exactly the comments of the class, the chosen student and the chosen category |
| Comments.Bucket | pages/comments.py:123-130 | a category's bucket is never longer than the report's rows |
| Comments.BucketsPartition | pages/comments.py:123-130 | every report row lands in exactly one of the three buckets: their sizes add up to the number of rows |
| Comments.BucketSnoc | pages/comments.py:125-130 | one more row goes to its own category's bucket, at the end, and to no other |
| Comments.GroupByCategory | pages/comments.py:123-130 | the loop produces exactly the three category keys, each bucket holding that category's comments in query order |
| Comments.Sections | pages/comments.py:132-134 | the report shows a heading for every non-empty bucket, and only those, with the bucket's size |
| Comments.SectionsFollowCategories | pages/comments.py:132-133 | the headings appear in the order the categories are iterated, with empty ones left out |
| Comments.SectionsInCategories | pages/comments.py:132-133 | every heading is one of the iterated categories |
| Comments.SectionsDistinct | pages/comments.py:132-133 | when no category is iterated twice, no heading is printed twice |
| Comments.ReportHeadingOrder | pages/comments.py:122-133 | the report prints English, then UOI, then General Behaviour, each at most once, skipping empty ones |
| Comments.ReportCountsAll | pages/comments.py:119-134 | the counts in the report's headings add up to the number of the student's comments |
| Dictation.CreateTask | pages/dictation.py:185-198 | a task is inserted only when both name and transcript are given, with the audio path of the upload if any; otherwise nothing changes |
| Dictation.AudioPath | pages/dictation.py:186-191 | an upload gets a path under database/audio/ starting with the dictation name and an underscore; no upload, no path |
| Dictation.DropPunctuation | pages/dictation.py:101-102 | the substitution never lengthens a text and leaves only word characters and whitespace |
| Dictation.DropPunctuationAppend | pages/dictation.py:101-102 | the substitution works character by character, so it distributes over concatenation |
| Dictation.DropPunctuationKeepsClean | pages/dictation.py:101-102 | a text of word characters and whitespace only is left unchanged |
| Dictation.Normalize | pages/dictation.py:101-102 | the cleaned text is no longer than the input and holds no punctuation and no upper-case letter |
| Dictation.LowerIsLower | pages/dictation.py:101 | lower() leaves no upper-case ASCII letter |
| Dictation.DropLower | pages/dictation.py:101 | deleting punctuation brings no upper-case letter back |
| Dictation.SpaceBeforePunctuationSurvives | pages/dictation.py:101-102 | stripping happens before punctuation is deleted, so "Hi !" cleans to "hi " with a trailing space, and cleaning is not idempotent |
| Dictation.PunctuationLeavesSpace | pages/dictation.py:101 | "Hi !" cleans to "hi " |
| Dictation.TrailingSpaceTrimmed | pages/dictation.py:101 | "hi " cleans to "hi" |
| Dictation.EnglishBandIsHighestMet | pages/dictation.py:143-152 | the English feedback band is the highest of 90, 80, 70, 60 that the score meets, and a higher score never gets a worse band |
| Dictation.ChineseMatchesEnglish | pages/dictation.py:157-169 | the Chinese feedback always belongs to the same band as the English feedback |
| Dictation.BasicScore | pages/dictation.py:98-113 | the fallback score is the similarity ratio of the two cleaned texts times 100, so it lies in [0, 100]; its feedback is that score's band in both languages and it has no error list |
| Dictation.CalculateScore | pages/dictation.py:29-41 | the model's cleaned and decoded reply is used exactly when AI is on, a client exists, the call returns and the reply decodes; in every other case the basic score is used |
| Dictation.FallbackBounded | pages/dictation.py:32-41 | with AI off, no client or a raising call, the score lies in [0, 100] and has no error list |
| Dictation.DictationPage.constructor | pages/dictation.py:269 | no scored attempt is pending at first |
| Dictation.DictationPage.Calculate | pages/dictation.py:244-264 | only a non-empty attempt is scored; its result, text, student and task then replace the pending attempt |
| Dictation.DictationPage.Save | pages/dictation.py:318-329 | the stored row carries the teacher's final score from the 0-100 input with the pending attempt's student, task, text and feedback; the pending attempt is then cleared |
| Dictation.SaveKeepsScoresBounded | pages/dictation.py:320-326 | since the final score comes from a 0-100 input, every stored dictation score stays within [0, 100] |
| Essay.RubricChoice | pages/essay_marking.py:33-88 | opinion_argumentative gets the opinion rubric; every other type, creative_narrative included, gets the creative rubric |
| Essay.MarkEssay | pages/essay_marking.py:26-136 | no client or a raising call gives no result; a reply gives a result exactly when its cleaned text decodes, and then that decoded value; there is no fallback scorer |
| Essay.Expect | pages/essay_marking.py:318 | a literal prefix is accepted exactly when the text starts with it, and what remains is the rest of the text |
| Essay.ExpectPrefix | pages/essay_marking.py:318 | a text that starts with a literal prefix is accepted, leaving exactly the rest |
| Essay.FieldRoundTrip | pages/essay_marking.py:276-281 | a key and an integer as json.dumps writes them are read back to the same integer and the same rest |
| Essay.BreakdownRoundTrip | pages/essay_marking.py:276-281 | the criteria breakdown json.dumps writes on save is read back by json.loads to the same four scores |
| Essay.ShownBreakdown | pages/essay_marking.py:317-327 | an empty criteria_breakdown column shows no breakdown |
| Essay.EssayPage.constructor | pages/essay_marking.py:195 | no marked essay is pending at first |
| Essay.EssayPage.Submit | pages/essay_marking.py:179-192 | an essay is marked only with both a text and a title; a result replaces the pending submission with the result, student, title, type and text; no result leaves the pending one |
| Essay.EssayPage.Save | pages/essay_marking.py:270-290 | the stored row carries the teacher's final 0-100 score, the reply's feedback and the encoded four criterion scores; the pending submission is then cleared |
| Essay.SavedRowShowsCriteria | pages/essay_marking.py:276-327 | the history view of a saved row shows exactly the four criterion scores of the reply it was saved from |
| Numerals.DigitChar | pages/essay_marking.py:276-281 | each digit below ten has a digit character whose value is that digit |
| Numerals.NatToString | pages/essay_marking.py:276-281 | json.dumps writes a natural number as one or more digits with no leading zero |
| Numerals.NatRoundTrip | pages/essay_marking.py:276-281 | reading back the digits json.dumps writes gives the number |
| Numerals.DigitRun | pages/essay_marking.py:318 | the reader takes the longest run of digits at the start of the text |
| Numerals.DigitRunOf | pages/essay_marking.py:318 | a run of digits followed by a non-digit is read to its end |
| Numerals.ReadInt | pages/essay_marking.py:318 | reading a number always consumes at least one character |
| Numerals.ReadDigits | pages/essay_marking.py:276-318 | the digits of a number are read back whole and leave exactly what follows |
| Numerals.ReadIntRoundTrip | pages/essay_marking.py:276-318 | an integer as json.dumps writes it, negative or not, is read back to the same integer, leaving the text after it |
| Numerals.ReadNegative | pages/essay_marking.py:276-318 | a minus sign followed by digits is read back as the negative number |
| Numerals.ReadNonNegative | pages/essay_marking.py:276-318 | digits without a sign are read back as the number |
| Replies.Before | pages/dictation.py:87 | the first piece of a split is a prefix of the text, holds no separator, and is the whole text or ends where the first separator begins |
| Replies.SplitPieces | pages/dictation.py:87 | split()[0] is the text before the first separator, and split()[1] is the text between the first separator and the next |
| Replies.BetweenIs | pages/essay_marking.py:127-129 | the split expression keeps the text after the first opening marker, up to the next opening marker, cut at the first closing marker and trimmed |
| Replies.BeforeTwice | pages/dictation.py:89 | cutting twice at the same separator is the same as cutting once |
| Replies.StripFenceJson | pages/dictation.py:86-87 | with a "```json" marker, the cleaning keeps what follows it, up to the next "```json", cut at the first "```", and trimmed |
| Replies.StripFenceBare | pages/dictation.py:88-89 | with only plain "```" markers, the cleaning keeps the trimmed text between the first two |
| Replies.StripFenceNone | pages/dictation.py:86-91 | a reply without any fence goes to json.loads unchanged |
| Replies.JsonFenceIsFence | pages/dictation.py:86-88 | every "```json" is also a "```", so a reply with no "```" has no "```json" either |
| Replies.StrippedFree | pages/dictation.py:87 | strip() cannot create a separator that the text did not hold |
| Replies.OccursInSlice | pages/dictation.py:87 | an occurrence inside a slice is an occurrence in the whole text, shifted by the slice's start |
| Replies.BeforeFree | pages/dictation.py:87 | the text before the first separator contains no separator |
| Replies.CutClean | pages/dictation.py:87 | cutting at the first separator and trimming leaves a trimmed text without that separator |
| Replies.BetweenClean | pages/essay_marking.py:127-129 | the text between an opening marker and the next closing marker holds no closing marker and is trimmed |
| Replies.FencedResultClean | pages/essay_marking.py:126-129 | the cleaned text of a fenced reply contains no "```" and has no surrounding whitespace |
| Grammar.ErrorTypesComplete | pages/grammar_errors.py:34-42 | ERROR_TYPES lists each of the seven types exactly once, and the column's CHECK accepts every one of them |
| Grammar.RecordError | pages/grammar_errors.py:54-62 | an error is inserted only when the example is non-empty; otherwise nothing changes |
| Grammar.Count | pages/grammar_errors.py:81 | a type's count is at most the number of rows |
| Grammar.SumCountsStep | pages/grammar_errors.py:81 | dropping the first row takes one from its own type's count and leaves the other types' counts unchanged |
| Grammar.OnceEach | pages/grammar_errors.py:34-42 | each error type appears once in ERROR_TYPES |
| Grammar.SumCountsEmpty | pages/grammar_errors.py:81 | with no rows every count is zero |
| Grammar.CountsSum | pages/grammar_errors.py:81 | value_counts covers every row: the per-type counts add up to the number of rows |
| Grammar.StudentLines | pages/grammar_errors.py:100 | the student's rows all belong to that student and are no more than the class's rows |
| Grammar.StudentCountsBounded | pages/grammar_errors.py:100-104 | a student's count for a type never exceeds the class count for it |
| Grammar.StudentCountsSum | pages/grammar_errors.py:104-123 | the student's breakdown adds up to the student's "Total Errors Recorded" |
| Grammar.InsertByCount | pages/grammar_errors.py:81 | inserting a pair into a list sorted by descending count keeps it sorted, and the result holds the old pairs plus that pair, each as many times as before |
| Grammar.Pairs | pages/grammar_errors.py:81 | every pair carries a listed type with its true count, which is positive; every listed type that occurs has its pair; over a list of distinct types no type has two pairs |
| Grammar.SortByCount | pages/grammar_errors.py:81 | the sorted list is a permutation of the pairs, in descending order of count |
| Grammar.InsertKeepsDistinct | pages/grammar_errors.py:81 | inserting a pair of a type not yet listed keeps every type listed once |
| Grammar.SortKeepsDistinct | pages/grammar_errors.py:81 | sorting a list that names each type once names each type once |
| Grammar.ValueCounts | pages/grammar_errors.py:81 | value_counts holds one entry per type that occurs, with its true count, largest count first |
| Grammar.TopThree | pages/grammar_errors.py:119 | head(3) shows at most three types |
| Grammar.TopThreeIsTop | pages/grammar_errors.py:119-145 | the "Most Common Errors" list and the focus areas are sorted, show each type at most once with its true count, and no type left out has a larger count than a type shown |
| Grammar.LeftOutNotLarger | pages/grammar_errors.py:81-145 | a type missing from `head(3)` of value_counts occurs at most as often as any type shown |
| Grammar.MostCommonIsMax | pages/grammar_errors.py:204 | when there are rows, "Most Common Error" names a type whose count no other type exceeds |
| Grammar.Recommendation | pages/grammar_errors.py:134-145 | a key that names an error type gets that type's advice, and only an unknown key gets the fallback |
| Grammar.SetOfListBounded | pages/grammar_errors.py:196 | a set drawn from a list is no larger than the list |
| Grammar.StudentsWithErrorsBounded | pages/grammar_errors.py:196-200 | "Students with Errors" never exceeds the number of students in the class, which is positive on this page |
| Homework.CurrentStatus | pages/homework_tracker.py:47-51 | with no stored row for the student and date the form shows on_time; otherwise it shows the status of one of the stored rows |
| Homework.SaveOne | pages/homework_tracker.py:71-87 | one iteration of the save loop updates the rows of the (student, date) pair when any exist and inserts one otherwise, keeping the table well-formed |
| Homework.SaveAll | pages/homework_tracker.py:69-87 | the loop over the form's entries keeps the table well-formed |
| Homework.SaveHomework | pages/homework_tracker.py:66-89 | the submit handler leaves the table as the save loop over all entries, in order, leaves it |
| Homework.SaveOneOtherStudent | pages/homework_tracker.py:71-87 | saving one student's status leaves another student's rows for the date, their ids and their contents, as they were |
| Homework.SaveEffect | pages/homework_tracker.py:69-87 | after the save every submitted student has rows for the date, all with the submitted status; a pair that had rows keeps exactly those rows, and a pair that had none gains exactly one |
| Homework.SaveEffectAt | pages/homework_tracker.py:69-87 | the same for one entry of the form, whatever its position |
| Homework.SaveEffectLast | pages/homework_tracker.py:69-87 | the same for the entry saved last |
| Homework.SaveOther | pages/homework_tracker.py:69-87 | an entry already saved stays saved when a later entry for another student is saved |
| Homework.SaveLast | pages/homework_tracker.py:76-87 | saving an entry updates the pair's existing rows or adds one row for it, and every row of the pair then carries the entry's status |
| Homework.SaveOneOtherKeyFree | pages/homework_tracker.py:69-87 | entries for other students leave a student's rows for the date unchanged |
| Homework.SaveOneOnlyFormRows | pages/homework_tracker.py:71-87 | one more iteration changes and adds only rows of a submitted student and the date |
| Homework.SaveKeepsOthers | pages/homework_tracker.py:69-87 | rows for other dates and for students not in the form keep their ids and contents, and every new row belongs to a submitted student and the date |
| Homework.SaveAllFixed | pages/homework_tracker.py:69-87 | saving statuses that every pair already carries changes nothing |
| Homework.SaveIdempotent | pages/homework_tracker.py:66-89 | submitting the same form twice leaves the table as the first submission left it |
| Homework.PrefillAfterSave | pages/homework_tracker.py:47-87 | after a save, the form opened again for the date shows each submitted status |
| Homework.HistoryInRange | pages/homework_tracker.py:102-108 | the history lists every homework row of the class's students in the date range and no other, and its dates are in order |
| Homework.CountStatus | pages/homework_tracker.py:134-142 | a status's count is at most the number of lines, and it is zero exactly when no line has that status |
| Homework.StatusCountsSum | pages/homework_tracker.py:134-142 | the On Time, Late and Absent metrics add up to the number of history lines |
| Spelling.Percentage | pages/spelling_tests.py:55 | the percentage times max_score is the score times 100, so a score in (0, max_score] gives a percentage in (0, 100] and a full score gives exactly 100 |
| Spelling.SaveOne | pages/spelling_tests.py:53-74 | one iteration skips a zero score and otherwise updates or inserts the (student, week) row, keeping the table well-formed |
| Spelling.SaveAll | pages/spelling_tests.py:53-74 | the loop over the form's entries keeps the table well-formed |
| Spelling.SaveScores | pages/spelling_tests.py:50-76 | the submit handler leaves the table as the save loop over all entries, in order, leaves it |
| Spelling.SaveOneOtherStudent | pages/spelling_tests.py:53-74 | saving one entry leaves another student's rows for the week, their ids and contents, unchanged |
| Spelling.UntouchedTrans | pages/spelling_tests.py:53-74 | leaving a pair's rows unchanged over two steps leaves them unchanged over both |
| Spelling.SaveAllOtherStudents | pages/spelling_tests.py:53-74 | entries for other students leave a student's rows for the week unchanged |
| Spelling.SaveLast | pages/spelling_tests.py:54-74 | saving an entry gives its pair the entered score, max_score and percentage, on the existing rows or on exactly one new row, and a zero score leaves the pair unchanged |
| Spelling.SaveOther | pages/spelling_tests.py:53-74 | an entry already saved keeps its effect when a later entry for another student is saved |
| Spelling.SaveEffectLast | pages/spelling_tests.py:53-74 | the last entry of the form has its effect after the whole save |
| Spelling.SaveEffectAt | pages/spelling_tests.py:53-74 | every entry of the form, whatever its position, has its effect after the whole save |
| Spelling.SaveEffect | pages/spelling_tests.py:52-74 | after the save each non-zero entry's rows hold exactly its score, max_score and percentage, with no second row for a pair that had one; a zero entry leaves its pair's rows as they were |
| Spelling.SavedPercentages | pages/spelling_tests.py:35-74 | with the form's bounds, every stored percentage stays within (0, 100] |
| Spelling.ListingIsClassRows | pages/spelling_tests.py:82-88 | the analysis shows one line for each spelling row of the class's students, and no other |
| Spelling.LatestWeek | pages/spelling_tests.py:149 | the latest week is one of the listed weeks and no listed week is later |
| Spelling.CountAtLeast80 | pages/spelling_tests.py:168 | "Students ≥80%" never exceeds the number of lines of that week |
| Spelling.WeekCountPositive | pages/spelling_tests.py:150 | a week that some line has is counted at least once |
| Spelling.LatestWeekShown | pages/spelling_tests.py:149-152 | with any data at all the latest week has lines, so the `len(latest_week_data) > 0` guard at line 152 always passes (whether the page gets that far is under Left out) |
| Todo.Transitions | pages/todo.py:45-111 | the buttons form a state machine: pending goes to in_progress or done or is deleted; in_progress goes to done or back to pending and cannot be deleted; done goes back to pending or is deleted; no button keeps the status |
| Todo.AddTask | pages/todo.py:12-21 | a non-empty description becomes a new row with the column default status pending; an empty one adds nothing |
| Todo.Press | pages/todo.py:53-111 | a button changes only its own task: Delete removes it, any other button sets the button's status and the current time; no other row and no counter changes |
| Todo.MarkAllPendingDone | pages/todo.py:135-140 | every pending task becomes done with the current time, every other task is unchanged, and no task is left pending |
| Todo.DeleteAllCompleted | pages/todo.py:143-146 | exactly the done tasks are removed and the rest are unchanged |
| Todo.Group | pages/todo.py:41-43 | each group holds only tasks of its status and is no longer than the listing |
| Todo.GroupCounts | pages/todo.py:41-43 | the Pending, In Progress and Completed counts add up to "Total Tasks" |
| Todo.OrderedTail | pages/todo.py:27-37 | after the first task the listing is still in order, and no later task ranks before the first |
| Todo.GroupOfAbsent | pages/todo.py:41-43 | a status that no task has gives an empty group |
| Todo.GroupsFollowListing | pages/todo.py:27-43 | under the query's ORDER BY, the in-progress, pending and done groups, in that order, are the listing itself |
| Todo.ConsGroups | pages/todo.py:27-43 | the first task of an ordered listing goes to the front of its own group |
| Todo.Regroup | pages/todo.py:41-43 | putting a task in front of the first non-empty group puts it in front of the whole grouped listing |
| Todo.GroupBounded | pages/todo.py:36-43 | a bound on the creation times of a status's tasks also bounds its group |
| Todo.GroupNewestFirst | pages/todo.py:27-43 | within each group the to-do items are newest first |
| Todo.ConsNewest | pages/todo.py:36 | a task no older than every task of a newest-first group can go in front of it |
| Todo.TotalIsTableSize | pages/todo.py:27-37 | "Total Tasks" is the number of rows in the table |
| Viewer.GateIsJamesOnly | pages/database_viewer.py:16-19 | the raw-data tab is shown exactly when the logged-in user is named james, a founder; the custom-query tab stops exactly for anyone else |
| Viewer.TotalPagesIsCeiling | pages/database_viewer.py:202 | there is always at least one page, and for a non-empty table total_pages is the fewest pages that hold every row |
| Viewer.OffsetInside | pages/database_viewer.py:206-209 | on any page the number input allows, the offset points inside a non-empty table |
| Viewer.ViewInRange | pages/database_viewer.py:197-221 | for an offered page size and any page the input allows, the page of a non-empty table spans rows offset+1 to min(offset+page_size, total_rows), within the table and at most one page long, and an empty table has no data; this is the range the caption would show once the columns are known (see Findings) |
| Viewer.TableStats | pages/database_viewer.py:307-314 | anyone but james gets no statistics; for james, one entry per listed table in listing order, holding the table's name and its current number of rows |
| Viewer.GuardMatchesDispatch | pages/database_viewer.py:252-260 | blank text is refused exactly for james with an all-whitespace query; a query the guard runs is one execute_query fetches rows for, a refused non-blank query is one execute_query would have executed and committed, and james's SELECT always runs |
| Admin.DeleteAllEffect | pages/admin_panel.py:241-242 | after the DELETE loop over a list of tables, each listed table is empty, every counter is kept, and every other table is unchanged |
| Admin.ResetEffect | pages/admin_panel.py:233-243 | after the reset the nine listed tables are empty, every AUTOINCREMENT counter is kept so no id is reused, and the users and todos tables are unchanged |
| Schema.DeleteEffect | pages/admin_panel.py:242 | DELETE FROM t empties t and keeps its counter; every other table keeps its rows and counter, and an empty table stays empty |
| Schema.QueryAnswer | utils/database.py:157-164 | execute_query returns the fetched rows exactly for a SELECT and the cursor's lastrowid otherwise |
| Viewer.ColumnNames | pages/database_viewer.py:215 | a fetched PRAGMA listing gives one column name per row, in order; a lastrowid of None or 0 gives no names; any other lastrowid raises |
| Viewer.RawDataNeverDisplayed | pages/database_viewer.py:159-232 | with the PRAGMA sent through execute_query, the raw-data tab never displays a page, reports missing column information for every table with rows when lastrowid is None, and the schema tab never shows a sample (see Findings) |
| Viewer.RawDataFetchedShowsPage | pages/database_viewer.py:206-221 | with the column listing fetched, every page of a table with rows is displayed with the column names and the caption's range, and the schema tab shows the sample (see Findings) |
| Viewer.CountZeroIffEmpty | pages/database_viewer.py:313 | a table's COUNT(*) is zero exactly when it has no rows |
| Viewer.StatsAfterReset | pages/database_viewer.py:313 | after "Reset All Data" the row counts of the nine cleared tables are zero and those of users and todos are unchanged |
| Schema.ParseHomeworkStatus | utils/database.py:39 | the homework.status CHECK accepts exactly the texts of the three statuses |
| Schema.ParseCategory | utils/database.py:49 | the comments.category CHECK accepts exactly the texts of the three categories |
| Schema.ParseErrorType | utils/database.py:102-105 | the grammar_errors.error_type CHECK accepts exactly the texts of the seven error types |
| Schema.ParseTodoStatus | utils/database.py:117 | the todos.status CHECK accepts exactly the texts of the three statuses |
| Schema.ParseEssayType | utils/database.py:129 | the essay_marks.essay_type CHECK accepts exactly the texts of the two essay types |
| Schema.ParseRole | create_admin.py:52 | the users.role CHECK accepts exactly 'teacher' and 'admin' |
| Schema.InsertUser | utils/auth.py:40-43 | an INSERT into users fails exactly when the username is taken; otherwise it adds the row under the next id and usernames stay unique |
| Schema.InsertClass | utils/database.py:28 | an INSERT into classes fails exactly when the name is taken by any class; otherwise it adds the row under the next id and names stay unique |
| Schema.SchoolDb.constructor | utils/database.py:7-141 | a freshly initialised database has every table empty |
| Schema.Connection.constructor | utils/database.py:147-150 | execute_query opens a connection that has not committed |
| Schema.Connection.ExecuteQuery | utils/database.py:147-164 | a statement that starts with SELECT after strip() and upper() returns its fetched rows and is not committed; any other statement is committed and returns the cursor's lastrowid; the connection is closed either way |
| Schema.PragmaIsNotSelect | pages/database_viewer.py:159 | the table browser's PRAGMA is not a SELECT, so execute_query commits it and returns no rows |
| Schema.SelectInAnyCase | utils/database.py:157 | a SELECT in any letter case, after any leading whitespace, is taken as a SELECT |
| Schema.KeywordEnds | utils/database.py:157 | a spelling of SELECT has six letters and neither end is whitespace |
| Schema.TrimEndKeeps | utils/database.py:157 | rstrip() does not cut into a prefix that ends with a non-blank character |
| Schema.UpperPrefix | utils/database.py:157 | upper-casing a text that starts with p gives a text that starts with p upper-cased |
| Schema.TrimStartBlanks | utils/database.py:157 | blanks in front of a text that starts with a non-blank are all that lstrip() removes |
| Tables.Insert | utils/database.py:17 | an INSERT takes the next AUTOINCREMENT id, which is new, and keeps every earlier row |
| Tables.UpdateWhere | utils/database.py:147-164 | an UPDATE ... WHERE applies the SET clause to exactly the selected rows and keeps every id and the counter |
| Tables.UpdateNoMatch | pages/homework_tracker.py:76-81 | an UPDATE whose WHERE clause selects nothing leaves the table unchanged |
| Tables.UpdateId | pages/todo.py:54-57 | an UPDATE ... WHERE id = ? changes only that row, and a missing id changes nothing |
| Tables.DeleteWhere | pages/todo.py:144 | a DELETE ... WHERE removes exactly the selected rows and keeps the rest and the counter |
| Tables.DeleteId | pages/todo.py:90 | a DELETE ... WHERE id = ? removes only that row |
| Tables.Clear | pages/admin_panel.py:242 | a DELETE with no WHERE clause empties the table and keeps the AUTOINCREMENT counter |
| Tables.UpsertMatches | pages/homework_tracker.py:69-87 | the pages' select-then-update-or-insert keeps the matching ids if there were any and adds exactly one new id if there were none; each matching row is the updated old row or the inserted one |
| Tables.UpsertKeepsOthers | pages/homework_tracker.py:69-87 | an upsert leaves every row its key does not select where it was and as it was, and adds at most the next id |
| Tables.UpsertOtherKey | pages/spelling_tests.py:57-74 | an upsert on one key does not change the ids or rows of a disjoint key |
| Tables.UpsertFixed | pages/homework_tracker.py:69-87 | an upsert whose update leaves every matching row as it is changes nothing |
| Tables.DistinctCard | utils/database.py:17 | a listing of distinct ids has as many entries as its set of ids |
| Tables.ListsCount | utils/database.py:157-160 | a SELECT returns exactly as many rows as its WHERE clause selects |
| Maintenance.NamedSingleton | create_admin.py:49 | with the UNIQUE username constraint, a row is the only one its username selects |
| Maintenance.StoredAdminLogsIn | utils/auth.py:14-34 | a stored active admin row with the hash of a password lets its owner log in as an administrator with that full name |
| Maintenance.AdminUsername | create_admin.py:20-23 | the username is the stripped answer, or 'admin' when that is empty; it is never empty and never has blanks at its ends |
| Maintenance.AdminFullName | create_admin.py:30-33 | the full name is the stripped answer, or 'System Administrator' when that is empty; it is never empty and never has blanks at its ends |
| Maintenance.SetupAdmin | create_admin.py:58-71 | the UPDATE-then-INSERT keeps the users table well formed |
| Maintenance.SetupAdminEffect | create_admin.py:58-71 | whether the account existed or not, exactly one row carries the username afterwards and it is an active admin with the new hash and name; other usernames' rows are kept; an existing account keeps its id and a new one takes the next id; usernames stay unique |
| Maintenance.CreateAdmin | create_admin.py:15-87 | an empty stripped password aborts with the table unchanged; otherwise the administrator is created or promoted with the defaulted username and name and the stripped password's hash, and the outcome says updated exactly when the username existed |
| Maintenance.WriteAdmin | create_admin.py:60-71 | the UPDATE's rowcount is non-zero exactly when the username exists, and the INSERT runs only when it is zero; the table ends as the upsert on the username |
| Maintenance.InsertOrReplace | reset_passwords.py:38-41 | INSERT OR REPLACE keeps the users table well formed |
| Maintenance.InsertOrReplaceUnique | reset_passwords.py:38-41 | INSERT OR REPLACE keeps usernames unique |
| Maintenance.InsertOrReplaceHolds | reset_passwords.py:38-41 | after INSERT OR REPLACE the written row is the only one with its username |
| Maintenance.InsertOrReplaceKeeps | reset_passwords.py:38-41 | INSERT OR REPLACE keeps every row of another username, and adds only the written row under the next id |
| Maintenance.ReplaceAll | reset_passwords.py:34-41 | a run of INSERT OR REPLACE statements keeps the table well formed |
| Maintenance.UsernamesOf | reset_passwords.py:34 | the usernames of the rows, one per row in order |
| Maintenance.ReplaceAllUnique | reset_passwords.py:34-41 | the whole loop keeps usernames unique |
| Maintenance.ReplaceAllKeeps | reset_passwords.py:34-41 | the loop keeps every row whose username it does not write |
| Maintenance.ReplaceAllAddsOnly | reset_passwords.py:34-41 | every row after the loop is an old row kept as it was or carries a username the loop wrote |
| Maintenance.ReplaceAllHolds | reset_passwords.py:34-41 | with distinct usernames, each written row is afterwards the only row of its username |
| Maintenance.FounderAccountsNamed | reset_passwords.py:28-32 | the founders list has distinct usernames, exactly james, joe and jake, the founders the application recognises |
| Maintenance.AccountRows | reset_passwords.py:34-41 | one admin, active row per account, in list order, holding the hash of its password |
| Maintenance.ResetFounderPasswords | reset_passwords.py:15-46 | without the database file nothing changes; otherwise the table ends as the run of INSERT OR REPLACE statements over the founders |
| Maintenance.WriteAccounts | reset_passwords.py:34-45 | the loop leaves the table as the run of INSERT OR REPLACE statements over the accounts' rows |
| Maintenance.ResetEffect | reset_passwords.py:28-45 | after the reset each founder has exactly one row, an active admin with the hash of the fixed password; non-founder rows are kept; nothing else is added; usernames stay unique |
| Maintenance.FoundersLogIn | reset_passwords.py:28-45 | after the reset each founder logs in with the fixed password as an administrator and a founder |
| Maintenance.CleanupUsers | cleanup_users.py:9-47 | without the database file nothing changes and no count is reported; otherwise every non-founder row is deleted and the reported count is the number of rows the DELETE selected |
| Maintenance.CleanupKeepsFounders | cleanup_users.py:30-33 | after the cleanup only founders remain, and every founder row is kept with its id |
| Maintenance.CleanupCount | cleanup_users.py:35 | the reported rowcount is the number of rows that left the table |
| Maintenance.CleanupIdempotent | cleanup_users.py:30-33 | a second cleanup deletes nothing and changes nothing |
| Maintenance.CleanupRemovesAdmin | cleanup_users.py:30-33 | after the cleanup no 'admin' row exists, so a lookup of it finds nothing |
| AddClass.Successes | pages/add_class.py:53-64 | the count of successful inserts never exceeds the number of names tried |
| AddClass.ImportAll | pages/add_class.py:53-61 | trying the names one after another keeps the students table well formed |
| Text.TrimStart | utils/database.py:157 | lstrip() removes exactly the leading whitespace: the result is a suffix that does not start with a blank, and everything cut was blank |
| Text.TrimEnd | utils/database.py:157 | rstrip() removes exactly the trailing whitespace: the result is a prefix that does not end with a blank, and everything cut was blank |
| Text.StripEmpty | pages/database_viewer.py:253 | strip() gives the empty text exactly when every character is whitespace |
| Text.StripTrimmed | pages/add_class.py:50 | strip() leaves no blank at either end and changes nothing that has none |
| Text.Upper | utils/database.py:157 | upper() maps every character and keeps the length |
| Text.Lower | pages/dictation.py:101-102 | lower() maps every character and keeps the length |
| Text.UpperKeepsSpace | utils/database.py:157 | upper-casing a character keeps it blank exactly when it was blank |
| Text.StripUpperCommute | pages/database_viewer.py:256 | upper() then strip() is strip() then upper(), so the viewer's query_upper is the text execute_query tests |
| Text.TrimStartUpper | pages/database_viewer.py:256 | upper() and lstrip() commute |
| Text.TrimEndUpper | pages/database_viewer.py:256 | upper() and rstrip() commute |
| Text.OccursShift | pages/dictation.py:87-89 | an occurrence one place later in a text is an occurrence in its tail |
| Text.Find | pages/dictation.py:87-89 | the search returns the first place the separator occurs, or nothing when it occurs nowhere |
| Text.Split | pages/add_class.py:50 | split() gives at least one piece |
| Text.JoinSplit | pages/add_class.py:50 | joining the pieces of split() with the separator gives back the text |
| Text.SplitPiecesFree | pages/add_class.py:50 | no piece of split() contains the separator |
| Text.OccursInPrefix | pages/dictation.py:87-89 | an occurrence that ends inside a prefix is an occurrence in that prefix |
| Text.SplitJoin | pages/add_class.py:50 | splitting pieces that hold no separator, joined with it, gives back the pieces |

## Left out

- Text is ASCII only. Case mapping, whitespace and the `\w` class of `re.sub(r'[^\w\s]', '', …)` follow the ASCII rules. Every character above 127 counts as a word character. Python's Unicode case mapping and Unicode whitespace are not modelled.
- Several operations are parameters of the model. Apart from the similarity ratio, nothing is assumed about them beyond being functions:
  - SHA-256 (`hash_password`);
  - `difflib.SequenceMatcher.ratio()`, which Dictation.BasicScore and Dictation.CalculateScore require to lie in [0, 1], as difflib documents;
  - `json.loads` of a whole AI reply;
  - the OpenAI client and its calls;
  - `get_openai_client`'s secrets and text input (the `AiCall` value);
  - the current time;
  - the file-existence checks of the scripts;
  - the prompts' answers.
- Dictation.BasicScore: the English feedback sentence that quotes the word count is a rendering parameter. The score is a real number: float rounding is not modelled.
- Floating-point arithmetic in general is modelled on reals; the percentage in `pages/spelling_tests.py` is exact.
- Ordering is taken as given. The order that an SQL `ORDER BY` produces is a hypothesis of the listing predicates. The tie order of pandas `value_counts` is left open: any order with descending counts is accepted.
- Essay.BreakdownRoundTrip covers only the layout `json.dumps` produces for the four-criterion dictionary. Other JSON text is not parsed.
- An AI reply without the expected keys, which raises `KeyError` in the page, is not modelled: a decoded reply is a complete result. An AI score above 100, which makes `st.number_input` raise, is also not modelled; the model takes the final score as a value inside the input's 0-100 range.
- The queries in the pages reference a `teacher_id` column in `classes`, `students` and `dictation_tasks`, but `utils/database.py` does not create that column. The model takes the migrated schema that the pages assume.
- The `users` table is not created in `utils/database.py`. The model uses the table as `create_admin.py` creates it.
- Exceptions:
  - the generic exception and rollback path of `create_admin.py` cannot arise in the model;
  - an `IntegrityError` on INSERT is modelled wherever a UNIQUE constraint can fire.
- Display-only code is left out:
  - Streamlit layout, plots, CSV downloads and printing;
  - the console output of the scripts;
  - the listing that `cleanup_users.py` reads again only to print it;
  - the admin panel's "Teacher Activity" and export joins;
  - the database browser's teacher statistics, its schema tab and the output of `PRAGMA table_info`.
- The dictation page's `show_differences` (`difflib.unified_diff`) is display only and is not modelled.
- Viewer.TableStats: the listed tables are the model's eleven tables; `sqlite_sequence`, which `sqlite_master` also lists, is not a table of the model.
- The database browser's relationship tab, schema display (`if schema:` at `pages/database_viewer.py:160`) and "Recent User Activity" listing are display only and are not modelled, beyond the sample rows of the schema tab.
- Students are chosen by name on four pages: `pages/comments.py:30`, `pages/grammar_errors.py:31`, `pages/dictation.py:229` and `pages/essay_marking.py:157` each build a `{name: student_id}` dictionary, and `pages/dictation.py:207` builds one keyed by task name. Two students of a class with the same name therefore collapse to one id, and the other can receive no comment, grammar error, dictation score or essay mark. Importing the same list twice creates such a pair, since `pages/add_class.py:50-61` does not deduplicate. Two dictation tasks with the same name collapse the same way: under `ORDER BY created_at DESC` the oldest one wins, so a newer task of that name can be neither scored nor viewed. The model takes the chosen student id and task id as arguments and does not capture these collapses.
- Charts are not modelled, and neither is whether the code after them runs. `pages/spelling_tests.py:105` calls `update_yaxis` and `pages/grammar_errors.py:89` calls `update_xaxis`, and there are more such calls at spelling_tests.py:135, 182-183 and grammar_errors.py:167, 183. Plotly's `Figure` names these methods `update_yaxes` and `update_xaxes`, so with plotly's usual API each call raises `AttributeError`, and `app.py:109-120` then shows "Error loading … page". Plotly is not part of this model. If the calls raise, the spelling summary (Spelling.LatestWeekShown, Spelling.CountAtLeast80) and the grammar analysis (Grammar.TopThreeIsTop, Grammar.Recommendation, Grammar.MostCommonIsMax, Grammar.StudentsWithErrorsBounded) are never shown once data exists. Their lemmas state what those sections would show. The save and record forms run before the charts and are not affected.
- Homework.StatusCountsSum: the homework summary's `df.pivot` (`pages/homework_tracker.py:115`) raises when a (student name, date) pair occurs twice, for example for two students with the same name. The model does not capture that the summary is then never shown.
- Concurrency between sessions and SQLite locking are not modelled. Every page action is one atomic step.

## Findings

| source | as written | input that shows it | evidently intended | confidence | as-written member | corrected member |
|---|---|---|---|---|---|---|
| pages/database_viewer.py:214-217 | the raw-data tab asks for the column names with `execute_query("PRAGMA table_info(...)")`; execute_query fetches only statements that start with SELECT and returns `cursor.lastrowid` (None on its fresh cursor) for anything else, so `columns` is empty; the same happens to the schema tab's sample at lines 159-177 | open the Raw Data tab on any table with rows: it shows "Could not get column information for this table" and never the data or the "Showing rows" caption | fetch the PRAGMA's rows (for example through a cursor) and show the page with its caption | high; not executed | Viewer.RawDataNeverDisplayed (with Schema.PragmaIsNotSelect and Schema.QueryAnswer) | Viewer.RawDataFetchedShowsPage (with Viewer.View and Viewer.ViewInRange) |
| pages/admin_panel.py:201 | the stored admin hash is read as `execute_query(...)[0][0]`, which raises `IndexError` when no user is named 'admin' | run `cleanup_users.py` (which deletes 'admin', not a founder) or start from a database holding only the founders, then submit the "Change Admin Password" form with all three fields filled | report that no admin account exists and change nothing | medium; not executed | Admin.StoredAdminHash (defined only when the lookup found a row; Maintenance.CleanupRemovesAdmin proves the lookup finds none after the cleanup) | Admin.ChangeAdminPassword (returns NoAdminRow and leaves the table unchanged) |
