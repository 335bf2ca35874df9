# schedule-bot timetable sync, modelled in Dafny

This project models the core of schedule-bot, a Telegram bot that serves a
university timetable:

- **Fetching.** The HTTP client (`TimetableClient`) fetches the group catalogue and each group's timetable document, with retries and back-off.
- **Parsing.** The parsers turn a timetable document into lesson records. There are two of them: the current generation and the legacy one.
- **Syncing.** The workers reconcile faculties, groups and lessons in the database. They also rebuild the professor tables and delete what the service no longer lists.
- **Reading.** The read queries and the professor directory (a cache and a fuzzy-search front end) serve the stored timetable.
- **Rendering.** The formatter renders a schedule as MarkdownV2 messages of at most 4000 characters.
- **Week mark.** This is the plus/minus week of the academic calendar, and the auto-sync scheduler decides on which days a sync runs.
- **Administration and logging.** There is the administrator list, the two Telegram log handlers and the in-memory log buffer.

The database is a value `Models.Db`, with tables as sequences of rows and one key counter `nextId`. All tables share that counter, and it never hands out a key twice, even after a deletion. A `Store.Session` class holds two fields:

- `db`: what the session sees;
- `committed`: the last committed state.

Flush and commit refuse what the schema refuses: duplicate keys, the UNIQUE constraints (where NULLs are distinct), and a NULL in a NOT NULL column. Rollback returns to the committed state.

Every remote call is a parameter:

- `catalogue` is what `fetch_groups` returned or raised;
- `fetch` gives the timetable (or the error) for a group name;
- `usernameOf` is the Telegram lookup of a user name;
- `now` and `today` are the clock.

## Modules

| file | module | source |
|---|---|---|
| wrappers.dfy | Wrappers | `Option`, `Result` and the error kinds the source raises |
| seqs.dfy | Seqs | filters, stable sort by key, de-duplication, concatenation |
| text.dfy | Text | Python string operations: `split`, `strip`, `join`, `lower`, `str(int)`, UTF-8 |
| calendar.dfy | Calendar | proleptic Gregorian dates, ordinals and weekdays (`datetime`) |
| models.dfy | Models | app/database/models.py |
| store.dfy | Store | the SQLAlchemy session as the workers use it |
| timetable_json.dfy | TimetableJson | the JSON shapes of the timetable service |
| fetcher.dfy | Fetcher | app/utils/schedule/fetcher.py, app/utils/extracting_schedule/fetcher.py |
| parser.dfy | Parser | app/utils/schedule/parser.py (and the shared time map) |
| professor_names.dfy | ProfessorNames | `extract_professor_names` in app/utils/schedule/parser.py |
| legacy_parser.dfy | LegacyParser | app/extracting_schedule/parser.py |
| reconcile.dfy | Reconcile | get-or-create, delete and upsert of app/utils/schedule/worker.py |
| professor_index.dfy | ProfessorIndex | `upsert_lessons_for_professors` and the idle-professor clean-up |
| sync_steps.dfy | SyncSteps | the loops of the three sync entry points, as functions |
| sync.dfy | Sync | the three sync entry points on a session |
| queries.dfy | Queries | `get_schedule_for_group`, `get_lesson_for_professor` |
| legacy_worker.dfy | LegacyWorker | app/extracting_schedule/worker.py |
| search_professors.dfy | ProfessorSearch | app/utils/schedule/search_professors.py |
| formatter.dfy | Formatter | app/utils/schedule/schedule_formatter.py |
| week_mark.dfy | WeekMark | app/utils/week_mark/week_mark.py |
| auto_sync.dfy | AutoSync | app/utils/schedule/auto_sync.py |
| admin_list.dfy | AdminList | app/utils/admins/admin_list.py |
| telegram_log.dfy | TelegramLog | both `TelegramLogHandler.py` files |
| buffered_log.dfy | BufferedLog | app/utils/custom_logging/BufferedLogHandler.py |

Where the code and its documentation disagree, the model follows the code:

- **Final professor read.** After `run_full_sync`, the final `get_cached_professors()` reloads only a cache that is empty or stale. It does not force a reload.
- **Legacy time map.** The legacy `parse_lesson_time_data` numbers entries from 1. The current one numbers them from 0, although its docstring says 1.
- **Legacy upsert.** The legacy `upsert_lessons_for_group` says it inserts the records and returns their count. It passes `Lesson(...)` the keywords `date`, `start_time`, `end_time` and `raw_json`, which the `Lesson` class in app/database/models.py does not have. SQLAlchemy's declarative constructor raises a TypeError for the first of them, `date`. So a non-empty extraction deletes the group's lessons of its type and then raises. The legacy full sync rolls that iteration back and does not count it. The one-group sync passes the error on. Only a group whose timetable yields no record is ever committed, and then the count is 0.
- **Weekday filter.** `_filter_lessons_by_week` keeps every lesson for any week other than "plus" and "minus", not only for "full".

## Model

| member | source | states |
|---|---|---|
| Models.NewUser | app/database/models.py:121-124 | a new user row keeps the id and links it was given and has role 0, an ordinary user |
| Models.DeleteFacultyRowKeepsSchema | app/database/models.py:52-54 | deleting a faculty keeps every constraint and reference; no group points at it any more (SET NULL); no group and no lesson is lost |
| Models.DeleteGroupRowKeepsSchema | app/database/models.py:83-100 | deleting a group keeps every constraint and reference; exactly its lessons go (CASCADE); faculties and professors stay |
| Models.DeleteProfessorRowKeepsSchema | app/database/models.py:177-193 | deleting a professor keeps every constraint and reference; the remaining professors are exactly the other ones, and the remaining ProfessorLesson rows exactly those of other professors (CASCADE); every other table is unchanged |
| Store.Session.Flush | app/utils/schedule/worker.py:62-64 | the flush succeeds exactly when the session's rows meet every constraint, and otherwise raises an integrity error |
| Store.Session.Commit | app/utils/schedule/worker.py:286 | a commit succeeds exactly when the rows meet every constraint, and then they become the committed state; a refused commit changes nothing |
| Store.Session.Rollback | app/utils/schedule/worker.py:290 | the session's rows return to the last committed state |
| Fetcher.EffectiveRetries | app/utils/schedule/fetcher.py:87 | `max_retries or settings.MAX_RETRIES`: None and 0 both select the configured count, any other value is used as given |
| Fetcher.RequestWithRetry | app/utils/schedule/fetcher.py:87-124 | the attempt loop gives exactly the run the recursive specification `Retry` describes for the effective limit |
| Fetcher.RetryBounds | app/utils/schedule/fetcher.py:90-123 | never more attempts than the limit; the back-off exponents are 1, 2, … in order, at most one per attempt |
| Fetcher.NoAttempts | app/utils/schedule/fetcher.py:90-124 | a limit of 0 or less sends no request and raises the TypeError of `raise None` |
| Fetcher.DecisiveAttempt | app/utils/schedule/fetcher.py:95-117 | when attempts 1..k are retried and attempt k+1 decides (2xx with JSON, 404, another 4xx), the call ends there with that outcome after k back-offs |
| Fetcher.Exhausted | app/utils/schedule/fetcher.py:104-124 | when every allowed attempt is a 429, a 5xx, a transport failure or undecodable JSON, every attempt sleeps and the last error is raised |
| Fetcher.RetryOutcome | app/utils/schedule/fetcher.py:95-103 | a returned value is the JSON body of a 2xx reply, or the body of a 404 (or the synthetic "Not found"); every earlier attempt was retried |
| Fetcher.QuotePlus | app/utils/schedule/fetcher.py:150 | the encoded name uses only unreserved characters, `+` and `%` |
| Fetcher.QuotePlusRoundTrip | app/utils/schedule/fetcher.py:150-151 | decoding the encoded group name gives exactly its UTF-8 bytes |
| Fetcher.TimetableClient.constructor | app/utils/schedule/fetcher.py:43 | an empty or missing base URL falls back to the configured one |
| Fetcher.TimetableClient.FetchGroups | app/utils/schedule/fetcher.py:134-136 | one retrying GET of `<base>/groups` |
| Fetcher.TimetableClient.FetchTimetableForGroup | app/utils/schedule/fetcher.py:150-153 | one retrying GET of the timetable URL of that name and type |
| Fetcher.TimetableClient.TimetableUrlShape | app/utils/schedule/fetcher.py:150-151 | the encoded name cannot break out of its query parameter (no `&`, `=`, `?`, `#`) and decodes back to the name |
| Parser.TimeMap | app/utils/schedule/parser.py:81-90 | the map holds exactly the positions (counted from the start index) whose entry parses at both ends, with those times |
| Parser.ParseLessonTimeData | app/utils/schedule/parser.py:81-90 | the enumerate loop builds exactly that time map; a malformed entry is skipped |
| Parser.DocKind | app/utils/schedule/parser.py:152 | the first truthy of `types`, `type`, `typesName`, else "classes"; never empty |
| Parser.ExtractLessonsFromTimetableJson | app/utils/schedule/parser.py:139-197 | the loop over documents and containers with its `seen_lessons` set returns exactly the specified records |
| Parser.ExtractEmpty | app/utils/schedule/parser.py:140-141 | a falsy reply gives no records |
| Parser.ExtractSingle | app/utils/schedule/parser.py:143 | a single document is read exactly as a list holding it |
| Parser.ExtractGroupName | app/utils/schedule/parser.py:184-185 | every record carries the group name it was extracted for |
| Parser.ExtractCount | app/utils/schedule/parser.py:155-195 | at most one record per container |
| Parser.ExtractKeysDistinct | app/utils/schedule/parser.py:168-182 | no two records share the nine-field key; every container's key is kept once, first occurrence first, across all documents |
| Parser.ExtractFromContainers | app/utils/schedule/parser.py:155-193 | every record comes from one container: its subject, professors and rooms are `texts[1..3]` and its type is the document's type |
| Parser.TwoDocumentKeys | app/utils/schedule/parser.py:145-147 | the keys of two documents follow one another in order |
| Parser.TimesSplitStoredKey | app/utils/schedule/parser.py:168-178 | one container under two documents with different time tables gives two records equal in every stored column, which the lesson UNIQUE constraint refuses |
| ProfessorNames.RemoveParenGroups | app/utils/schedule/parser.py:42 | the result never grows and keeps only characters of the text; afterwards no `(` has a `)` after it; a text with no such pair, in particular one with no `(`, is left unchanged |
| ProfessorNames.RemoveParenGroupsIdempotent | app/utils/schedule/parser.py:42 | a second pass of the substitution changes nothing |
| ProfessorNames.RemoveUnbalancedBracketsLoop | app/utils/schedule/parser.py:20-39 | the stack loop and the deletion loop give exactly the specified text: a subsequence of the input with balanced brackets that differs from it only in brackets |
| ProfessorNames.RemoveUnbalancedBracketsSound | app/utils/schedule/parser.py:20-39 | the kept characters keep their order, only brackets are dropped, and every `)` is matched by an earlier `(`, every `(` by a later `)` |
| ProfessorNames.RemoveUnbalancedBracketsOpenOnly | app/utils/schedule/parser.py:20-46 | on a text where no `(` has a `)` after it, as the first substitution leaves it, the stack pass removes every bracket and nothing else |
| ProfessorNames.ExtractProfessorNames | app/utils/schedule/parser.py:17-52 | empty text gives no names; every name is non-empty, stripped, and holds no comma, no dot, no bracket and no doubled space |
| ProfessorNames.ExtractProfessorNamesPlain | app/utils/schedule/parser.py:40-52 | a text without brackets, dots, outer or doubled spaces gives exactly its stripped non-empty comma pieces |
| ProfessorNames.CleanedNames | app/utils/schedule/parser.py:42-50 | on a text with the cleaning's properties (stripped, single plain spaces, no dot or bracket), every non-empty stripped comma piece is a well-formed name |
| ProfessorNames.CleanedText | app/utils/schedule/parser.py:42-48 | the cleaned text is stripped and has no dot, no bracket and no doubled or non-plain space |
| ProfessorNames.CleanedPlain | app/utils/schedule/parser.py:42-48 | a text without brackets, dots, outer or doubled spaces passes the cleaning unchanged |
| Text.SquashSpacesTrimmed | app/utils/schedule/parser.py:48 | squashing the whitespace runs of a stripped text leaves it stripped |
| Text.SquashSpacesPlain | app/utils/schedule/parser.py:48 | a text whose whitespace is already single plain spaces is left unchanged |
| LegacyParser.ParseDate | app/extracting_schedule/parser.py:128-135 | whatever `%d.%m.%Y` accepts (a one- or two-digit or space-padded day, a one- or two-digit month, four year digits) is a real date of the years 1 to 9999 |
| LegacyParser.ParseFormatDate | app/extracting_schedule/parser.py:132 | every valid date written as dd.mm.yyyy reads back as itself |
| LegacyParser.ParseDateRefusesImpossibleDay | app/extracting_schedule/parser.py:131-135 | "31.02.2024" is refused rather than wrapped into March, and the empty text is refused |
| LegacyParser.ExtractLessonsFromTimetableJson | app/extracting_schedule/parser.py:99-160 | the loop with its `seen_lessons` set returns exactly the specified legacy records |
| LegacyParser.ExtractContainer | app/extracting_schedule/parser.py:115-158 | one container: its record is appended and its key remembered exactly when the key is new; otherwise nothing changes |
| LegacyParser.LegacyExtractShape | app/extracting_schedule/parser.py:100-103 | a falsy reply gives no records, and a single document is read as a list holding it |
| LegacyParser.LegacyKeysDistinct | app/extracting_schedule/parser.py:137-141 | no two records share the seven-field key; every container's key is kept once, in order |
| LegacyParser.LegacyRecordsFromRaw | app/extracting_schedule/parser.py:115-156 | every record carries its group name and its container as `raw`; its slot is `lessonNumber + 1`, and its date is the container's date, parsed |
| LegacyParser.LegacyTimesAgree | app/extracting_schedule/parser.py:37 | the time map starting at 1 and the slot shifted by 1 give a lesson the same start and end time as the current parser does |
| Reconcile.EnsureKeepsConstraints | app/utils/schedule/worker.py:39-72 | on a consistent database, get-or-create succeeds and keeps every constraint; the group returned is the only row of that name; lessons are untouched |
| Reconcile.EnsureExistingGroup | app/utils/schedule/worker.py:66-72 | an existing group is returned unchanged and the group table is not touched |
| Reconcile.EnsureNewGroupLink | app/utils/schedule/worker.py:57-71 | a new group is linked to the faculty of the given name, or to none when the name is falsy |
| Reconcile.EnsureFacultyAndGroup | app/utils/schedule/worker.py:39-72 | on a session, exactly the rows and the result the specification `Ensure` gives |
| Reconcile.EnsureFacultyRow | app/utils/schedule/worker.py:57-64 | a falsy name gives no faculty; an existing faculty is found; a new one is added and flushed, and a refused flush is an error; rows and result are the specification's faculty step |
| Reconcile.EnsureGroupRow | app/utils/schedule/worker.py:66-72 | an existing group is returned untouched; otherwise a new group linked to the faculty is added and flushed; rows and result are the specification's group step |
| Reconcile.DeleteGroupEffect | app/utils/schedule/worker.py:90-99 | deleting an existing group removes exactly that group and exactly its lessons, keeps every constraint, and leaves no group of that name |
| Reconcile.DeleteGroupIfExists | app/utils/schedule/worker.py:75-99 | an unknown name returns False and changes nothing; otherwise the group and its lessons are deleted and committed, and True is returned |
| Reconcile.NewLessons | app/utils/schedule/worker.py:133-145 | one row per record, in order, with consecutive fresh keys |
| Reconcile.InsertLessonsEffect | app/utils/schedule/worker.py:133-145 | inserting appends exactly those rows and advances the key counter by their number |
| Reconcile.UpsertedEffect | app/utils/schedule/worker.py:119-147 | no records change nothing; otherwise the group's lessons of the first record's type are gone, every other lesson stays in order, the new rows follow, other tables are untouched |
| Reconcile.UpsertLessonsForGroup | app/utils/schedule/worker.py:102-152 | returns the number of records with the upserted rows, 0 for no records, or rolls back and raises when the flush is refused |
| ProfessorIndex.RebuildKeysDistinct | app/utils/schedule/worker.py:201-211 | after a successful rebuild no two professor-lesson rows share the duplicate guard's key |
| ProfessorIndex.RebuildCovers | app/utils/schedule/worker.py:178-221 | every (lesson with professors, extracted name) pair has a professor of that name and a row for that professor and lesson |
| ProfessorIndex.RebuildProfessors | app/utils/schedule/worker.py:188-198 | the professor table is the old one followed only by professors named in some lesson; names stay unique; lessons, groups and faculties are unchanged |
| ProfessorIndex.RebuildNeedsSubjects | app/database/models.py:182 | because the subject column is NOT NULL, a successful rebuild implies that every lesson with professors has a subject |
| ProfessorIndex.FailureSpreads | app/utils/schedule/worker.py:226-229 | a refused flush anywhere in the loop fails the whole rebuild |
| ProfessorIndex.IndexPair | app/utils/schedule/worker.py:188-221 | one name of one lesson: the session ends in the state the specification step gives, or is rolled back when that step fails |
| ProfessorIndex.ResolveProfessor | app/utils/schedule/worker.py:189-198 | the id is that of the existing professor of that name (from the cache or the table), or of a new row added and flushed; the cache still maps only names to their rows' ids; a failed flush rolls the session back to its committed rows |
| ProfessorIndex.CreateProfessor | app/utils/schedule/worker.py:193-197 | a new professor row with the next id is added and flushed; a refused flush rolls back to the committed rows |
| ProfessorIndex.IndexLesson | app/utils/schedule/worker.py:183-221 | the inner loop over one lesson's names advances the specification fold by exactly that lesson's pairs |
| ProfessorIndex.UpsertLessonsForProfessors | app/utils/schedule/worker.py:155-229 | the session holds exactly the rebuilt tables, or is rolled back and the integrity error raised |
| ProfessorIndex.DeleteIdle | app/utils/schedule/worker.py:319-331 | deleting a professor without rows removes that professor only and keeps every constraint |
| ProfessorIndex.DeleteIdleProfessors | app/utils/schedule/worker.py:319-337 | exactly the professors with no row are deleted, the rest stay, and the result is committed |
| SyncSteps.Visited | app/utils/schedule/worker.py:261-263 | a truthy `limit_groups` caps the visited entries at that count; None or 0 visits them all |
| SyncSteps.GroupsOf | app/utils/schedule/worker.py:253 | an object gives its `groups` list, or none when the key is missing; a bare list is taken as it is |
| SyncSteps.SyncGroupEffect | app/utils/schedule/worker.py:261-292 | one iteration keeps the rows consistent and adds the name to `valid_groups` exactly when its timetable yields records |
| SyncSteps.SyncGroupsEffect | app/utils/schedule/worker.py:261-292 | after the loop `valid_groups` is exactly the truthy names of the visited entries whose timetable yields records |
| SyncSteps.DeleteStaleEffect | app/utils/schedule/worker.py:295-306 | the deletion removes exactly the groups whose names are not valid and exactly their lessons, and keeps every constraint |
| SyncSteps.FullSyncEffect | app/utils/schedule/worker.py:250-306 | from a consistent state, every remaining group has a valid name, the deleted groups' lessons are gone, and the commit is accepted |
| SyncSteps.FacultyEntries | app/utils/schedule/worker.py:393 | exactly the entries whose faculty name equals the given one, in order |
| SyncSteps.SyncFacultyGroupConsistent | app/utils/schedule/worker.py:401-433 | one faculty iteration keeps consistent rows consistent |
| SyncSteps.SyncFacultyGroupValid | app/utils/schedule/worker.py:418-423 | a faculty iteration adds at most its own name, and adds it even for an empty extraction |
| SyncSteps.FacultyFinishEffect | app/utils/schedule/worker.py:435-446 | with `faculty_obj` bound, exactly the faculty's groups that are not valid are deleted, constraints hold, and the number of valid names is returned |
| SyncSteps.FindEntry | app/utils/schedule/worker.py:487-490 | the first entry of that name, none when absent, or a KeyError when an earlier entry lacks `groupName` |
| SyncSteps.SyncOneGroupEffect | app/utils/schedule/worker.py:486-513 | a group missing from the catalogue, a "message" reply or an empty extraction leaves no group of that name and returns 0; a success returns the record count |
| Sync.SyncGroupStep | app/utils/schedule/worker.py:265-292 | one iteration on a session gives exactly what the specification `SyncGroup` gives |
| Sync.SyncAllGroups | app/utils/schedule/worker.py:259-292 | the loop gives exactly the specification fold over the visited entries |
| Sync.DeleteGroupsNotIn | app/utils/schedule/worker.py:297-304 | the session's rows become those the specification `DeleteStale` gives; nothing is committed yet |
| Sync.SyncFacultyGroupStep | app/utils/schedule/worker.py:405-433 | one faculty iteration on a session gives exactly the specification step |
| Sync.SyncFacultyGroupsLoop | app/utils/schedule/worker.py:400-433 | the faculty loop gives exactly the specification fold |
| Sync.SyncEngine.RebuildProfessorTables | app/utils/schedule/worker.py:312-345 | the cache gate is closed and then reopened whatever happens; on success the rebuilt tables without idle professors are committed; a failed rebuild is rolled back and reported as the NameError of the unbound `existing_profs` |
| Sync.SyncEngine.RunFullSync | app/utils/schedule/worker.py:232-360 | a failed catalogue fetch or an empty group list changes nothing; otherwise the groups are synced, stale groups deleted and professors rebuilt, and the directory is read once at the end |
| Sync.SyncEngine.SyncGroupsAndRebuild | app/utils/schedule/worker.py:251-345 | on a non-empty group list: commits what the specification fold over the visited groups and the stale-group deletion give, then the professor rebuild; the gate goes off and back on |
| Sync.SyncEngine.SyncAndPrune | app/utils/schedule/worker.py:259-306 | a new session ends committed on exactly the specification's synced rows with the stale groups deleted, and `valid_groups` is the fold's set |
| Sync.SyncEngine.RunFullSyncForFaculty | app/utils/schedule/worker.py:363-452 | commits and returns exactly what the specification `SyncFaculty` gives |
| Sync.SyncEngine.RunFullSyncForGroup | app/utils/schedule/worker.py:455-516 | commits and returns exactly what the specification `SyncOneGroup` gives |
| Sync.SyncEngine.SyncEnsuredGroup | app/utils/schedule/worker.py:499-513 | once the group row exists: a failed fetch, a "message" reply, an empty extraction or an upsert commit give exactly what the specification `GroupSync` gives |
| Sync.SyncEngine.DeleteAndReport | app/utils/schedule/worker.py:491-493 | `delete_group_if_exists` then return 0, leaving the committed rows behind |
| Queries.WeekMarkRank | app/utils/schedule/worker.py:550-555 | each rank from 1 to 4 holds exactly for its mark: every 1, plus 2, minus 3, anything else (None included) 4 |
| Queries.ScheduleForGroupOrdered | app/utils/schedule/worker.py:544-564 | an unknown group gives no lessons; otherwise exactly the group's lessons, as often as stored, in ascending week-mark rank |
| Queries.NameMatchesLiteral | app/utils/schedule/worker.py:571 | a query without `%` or `_` matches exactly the names that contain it, ignoring ASCII case |
| Queries.NameMatchesBasics | app/utils/schedule/worker.py:571 | the empty query matches every name, and a name without wildcards matches itself |
| Queries.UnderscoreMatchesAny | app/utils/schedule/worker.py:571 | a `_` typed in the query is a wildcard: it matches every non-empty name |
| Queries.SlotLeTotal | app/utils/schedule/worker.py:583 | the (weekday, lesson number) order with NULL first is total and transitive |
| Queries.LessonsForProfessorSound | app/utils/schedule/worker.py:567-587 | no match or several: every match, in table order, and no lessons; one match: that professor and exactly their rows, ordered by weekday and slot |
| LegacyWorker.EnsureIdempotent | app/extracting_schedule/worker.py:30-63 | a second get-or-create with the same names returns the same group and changes nothing |
| LegacyWorker.EnsureGroupsGrow | app/extracting_schedule/worker.py:57-63 | get-or-create never removes or reorders a group and leaves lessons alone |
| LegacyWorker.CoerceWeekMark | app/extracting_schedule/worker.py:97-99 | the coerced week mark is always allowed; an allowed mark is kept; anything else, the empty text included, becomes None |
| LegacyWorker.FirstRejected | app/extracting_schedule/worker.py:101-114 | the declarative constructor's check: None exactly when every keyword is an attribute, otherwise the position of the first keyword that is not |
| LegacyWorker.LegacyKeywordsRejected | app/extracting_schedule/worker.py:101-114 | the keywords the legacy loop passes are refused, and the first refused one is `date` (app/database/models.py:83-92 has no such column) |
| LegacyWorker.LegacyUpsertEffect | app/extracting_schedule/worker.py:83-117 | no records: 0 and no change; otherwise the call fails having deleted exactly the group's lessons of the first record's type and inserted none, and once the flush passes the error is the TypeError naming `date` |
| LegacyWorker.LegacyUpsertRaises | app/extracting_schedule/worker.py:88-114 | on a consistent database every non-empty upsert raises that TypeError |
| LegacyWorker.LegacyUpsertLessonsForGroup | app/extracting_schedule/worker.py:66-117 | the delete, the flush and the first `Lesson(...)` of the insert loop leave the session's rows and the result exactly as `LegacyUpsert` says |
| LegacyWorker.LegacyCommitEffect | app/extracting_schedule/worker.py:174-180 | with no records the iteration commits the session's rows and counts one; with any record it rolls back and counts nothing |
| LegacyWorker.LegacyGroupStepEffect | app/extracting_schedule/worker.py:159-180 | one iteration keeps the rows consistent and never drops a committed group; the counter grows, and the group of that name is committed, exactly when the entry is named, fetched, message-free and yields no record; a timetable that yields a record is rolled back |
| LegacyWorker.LegacyGroupStepsEffect | app/extracting_schedule/worker.py:156-180 | over the loop consistency and every committed group are kept, and the counter grows by exactly the number of counted entries |
| LegacyWorker.LegacyFullSyncEffect | app/extracting_schedule/worker.py:145-184 | the legacy full sync keeps a consistent database consistent, never deletes a group, and reports the number of visited entries whose timetable yields no record |
| LegacyWorker.LegacySyncGroupStep | app/extracting_schedule/worker.py:159-180 | one iteration on a session gives exactly the specification step |
| LegacyWorker.LegacyRunFullSync | app/extracting_schedule/worker.py:120-184 | the run commits and reports exactly what the specification `LegacyFullSync` gives |
| LegacyWorker.LegacySyncOneGroupKeeps | app/extracting_schedule/worker.py:214-229 | the one-group sync keeps the database consistent and never deletes a group |
| LegacyWorker.LegacySyncOneGroupEffect | app/extracting_schedule/worker.py:217-227 | a failed fetch changes nothing; a "message" reply returns 0 without committing the new group; a timetable that yields a record raises the TypeError and commits nothing; one that yields none commits the group of that name and returns 0 |
| LegacyWorker.LegacyRunFullSyncForGroup | app/extracting_schedule/worker.py:186-229 | commits and returns exactly what the specification `LegacySyncOneGroup` gives |
| LegacyWorker.LegacyScheduleForGroupLessons | app/extracting_schedule/worker.py:256-264 | an unknown group gives no lessons; a known one exactly its lessons, in table order |
| ProfessorSearch.NormalizeNameNormal | app/utils/schedule/search_professors.py:117-124 | a normalised name is lower case, without dots or 'ё', stripped and with single spaces; the empty name stays empty |
| ProfessorSearch.NormalizeNameIdempotent | app/utils/schedule/search_professors.py:117-124 | normalising a normalised name changes nothing |
| ProfessorSearch.NormalizedWellFormed | app/utils/schedule/search_professors.py:72-75 | a loaded cache holds every stored professor, in table order, beside its normalised name |
| ProfessorSearch.ReadWellFormed | app/utils/schedule/search_professors.py:58-79 | a read keeps every cached name the normalised form of its professor |
| ProfessorSearch.ReadTwice | app/utils/schedule/search_professors.py:58-79 | a second read at the same moment against the same table changes nothing more |
| ProfessorSearch.InvalidateForcesReload | app/utils/schedule/search_professors.py:95-98 | after an invalidation the next enabled read loads the table, whatever the time |
| ProfessorSearch.FreshCacheServed | app/utils/schedule/search_professors.py:64-67 | a non-empty cache is served unchanged until its 300 seconds have passed |
| ProfessorSearch.ProfessorDirectory.GetCachedProfessors | app/utils/schedule/search_professors.py:39-79 | with the gate closed the cache is returned as it is; otherwise an empty or stale cache is reloaded and stamped; the result is the new cache |
| ProfessorSearch.ProfessorDirectory.InvalidateProfessorsCache | app/utils/schedule/search_professors.py:81-98 | the cache is emptied and its time stamp reset |
| ProfessorSearch.FirstNamed | app/utils/schedule/search_professors.py:159-163 | the first cached professor with that normalised name, none when there is none |
| ProfessorSearch.MatchExact | app/utils/schedule/search_professors.py:155-167 | the exact match is a cached professor named like the query, present exactly when the matcher returned the query |
| ProfessorSearch.MatchSimilar | app/utils/schedule/search_professors.py:158-169 | every similar professor is cached under a name other than the query |
| ProfessorSearch.MatchDisjoint | app/utils/schedule/search_professors.py:165-169 | the exact match is never listed as similar too |
| ProfessorSearch.SearchSound | app/utils/schedule/search_professors.py:140-171 | an empty cache gives no result; otherwise the guarantees above hold for the normalised query |
| ProfessorSearch.SearchProfessorsFuzzy | app/utils/schedule/search_professors.py:142-143 | an empty cache gives no exact match and no similar names |
| Formatter.EscapeMdV2 | app/utils/schedule/schedule_formatter.py:44-45 | the length grows by one per special character |
| Formatter.EscapeRoundTrip | app/utils/schedule/schedule_formatter.py:44-45 | removing the escapes gives the original text back |
| Formatter.EscapePlain | app/utils/schedule/schedule_formatter.py:44-45 | a text without special characters is left unchanged |
| Formatter.LessonTime | app/utils/schedule/schedule_formatter.py:58-62 | slots 0 to 6 get the bell table's times, anything else question marks |
| Formatter.SlotTimesOrdered | app/utils/schedule/schedule_formatter.py:21-29 | every lesson ends after it starts and before the next one starts |
| Formatter.WeekdayName | app/utils/schedule/schedule_formatter.py:11-19 | days 1 to 7 have a name, any other key has none |
| Formatter.FilterByWeekEffect | app/utils/schedule/schedule_formatter.py:76-81 | the filter keeps order and keeps exactly the week's rows, the every-week rows and the unmarked ones; any other week keeps all |
| Formatter.GroupByDayEffect | app/utils/schedule/schedule_formatter.py:94-98 | the keys are exactly the weekdays present; each day holds exactly its rows in input order; rows without a weekday are dropped |
| Formatter.CreateLessonsByDay | app/utils/schedule/schedule_formatter.py:84-98 | the grouping loop builds exactly that map |
| Formatter.Ascending | app/utils/schedule/schedule_formatter.py:114 | the days in strictly ascending order, each exactly once |
| Formatter.DayBlockOrder | app/utils/schedule/schedule_formatter.py:115 | a day's lessons are sorted by slot (none as 0) and keep input order within a slot |
| Formatter.BlockFor | app/utils/schedule/schedule_formatter.py:116-118 | a day gets a block exactly when it is a weekday 1 to 7, the keys of `weekday_names` |
| Formatter.DayBlocks | app/utils/schedule/schedule_formatter.py:113-118 | one block per day on success; the only failure is the KeyError of a day without a name |
| Formatter.DayBlocksFailure | app/utils/schedule/schedule_formatter.py:116 | the block loop raises KeyError exactly when one of the days has no name |
| Formatter.PackEffect | app/utils/schedule/schedule_formatter.py:120-131 | the messages concatenate to the header and every block in order; a message over the limit is a single piece |
| Formatter.DayTexts | app/utils/schedule/schedule_formatter.py:113-118 | the block loop gives exactly the specified blocks, or KeyError |
| Formatter.BuildScheduleMessages | app/utils/schedule/schedule_formatter.py:101-131 | the two loops give exactly the specified messages |
| Formatter.PackMessages | app/utils/schedule/schedule_formatter.py:120-129 | the greedy packing loop returns exactly the specified `Pack` of the header and the day texts |
| Formatter.HeaderMarker | app/utils/schedule/schedule_formatter.py:145-150 | the plus and minus headers are the plain header with the week's sign before the blank line |
| Formatter.Header | app/utils/schedule/schedule_formatter.py:134-150 | the header opens in bold and ends with a blank line |
| Formatter.WeekSign | app/utils/schedule/schedule_formatter.py:180 | plus and minus get their sign; every week, no mark and anything unknown get none |
| Formatter.AscendingDays | app/utils/schedule/schedule_formatter.py:114 | every weekday present gets exactly one block, in ascending order |
| Formatter.FormatScheduleEffect | app/utils/schedule/schedule_formatter.py:197-213 | nothing after the filter gives no messages; otherwise failure exactly when a weekday has no name, and on success the messages are the header and one block per day, within the limit unless a single piece is longer |
| Formatter.FormatScheduleStudents | app/utils/schedule/schedule_formatter.py:185-213 | the students' schedule is the specified rendering with the student line format |
| Formatter.FormatScheduleProfessor | app/utils/schedule/schedule_formatter.py:216-242 | the professor's schedule is the specified rendering with the professor line format |
| WeekMark.MondayOf | app/utils/week_mark/week_mark.py:13-16 | a Monday at most six days before the date, and not after it |
| WeekMark.FirstMonday | app/utils/week_mark/week_mark.py:40-43 | a Monday within the seven days from 1 September, that day itself when it is a Monday |
| WeekMark.CountingMonday | app/utils/week_mark/week_mark.py:39-50 | the Monday the week count starts from is a Monday |
| WeekMark.CountingMondayNotAhead | app/utils/week_mark/week_mark.py:35-50 | the counting Monday is never after the current week's Monday; before September it is the previous academic year's first Monday |
| WeekMark.GetWeekMark | app/utils/week_mark/week_mark.py:59-61 | an even week is marked minus, an odd week plus |
| WeekMark.FirstWeekIsEven | app/utils/week_mark/week_mark.py:53-56 | the week starting on the first Monday counts as even (minus) |
| WeekMark.ConsecutiveWeeksAlternate | app/utils/week_mark/week_mark.py:53-56 | two consecutive weeks of one academic year have opposite parity |
| WeekMark.NextMondayMidnight | app/utils/week_mark/week_mark.py:75-82 | the next wake-up is strictly later, at most seven days ahead, and is midnight of a Monday |
| WeekMark.WeekMarkGlobals.Init | app/utils/week_mark/week_mark.py:88-92 | both globals hold the mark of the given day |
| WeekMark.WeekMarkGlobals.UpdateRounds | app/utils/week_mark/week_mark.py:64-85 | each round sets the globals and sleeps until the next Monday midnight; the first failed notice ends the task after its round has set the globals and before it sleeps; otherwise the globals end with the last round's mark |
| AutoSync.ShouldRunToday | app/utils/schedule/auto_sync.py:29-50 | every day in September and October; in other months exactly on the month's last day |
| AutoSync.NextTarget | app/utils/schedule/auto_sync.py:62-69 | the wake-up is strictly later, at most a day ahead, at 03:00 |
| AutoSync.SchedulerRounds | app/utils/schedule/auto_sync.py:53-80 | each round's target is the next 03:00 after the time the round started; the round syncs exactly when `_should_run_today` allows the day it woke on; failed syncs are counted and the loop goes on |
| AdminList.CollectAdmins | app/utils/admins/admin_list.py:121-132 | after a refresh the keys are exactly the ids of administrators in the table, each with the name Telegram gives |
| AdminList.AdminUsername | app/utils/admins/admin_list.py:202-214 | a listed id gives exactly its stored name (which may be None); an id that is not listed gives None |
| AdminList.AddRemove | app/utils/admins/admin_list.py:141-185 | adding lists the id with its name; removing unlists it; other ids are untouched; removing what was added equals removing at once |
| AdminList.CreateFirstAdminEffect | app/utils/admins/admin_list.py:14-40 | the insert keeps constraints, is rolled back exactly when the id exists, and otherwise the new administrator appears in the next refresh |
| AdminList.Admins.Refresh | app/utils/admins/admin_list.py:102-138 | a query error leaves the list empty; otherwise the list is exactly the collected administrators |
| AdminList.Admins.Add | app/utils/admins/admin_list.py:141-160 | the id is listed with the name Telegram gives, the rest unchanged |
| AdminList.Admins.Remove | app/utils/admins/admin_list.py:163-185 | the id is unlisted; a missing id changes nothing |
| AdminList.Admins.CheckAdminsStart | app/utils/admins/admin_list.py:43-73 | with administrators listed nothing happens; otherwise the first administrator is inserted and the list refreshed |
| TelegramLog.ChunksSound | app/utils/custom_logging/TelegramLogHandler.py:124-143 | the chunks concatenate back to the message; each holds 1 to 4000 characters; all but the last hold exactly 4000; their number is the length divided by 4000, rounded up |
| TelegramLog.ChunksShort | app/utils/custom_logging/TelegramLogHandler.py:137-143 | an empty text has no chunks; a non-empty one within the limit is its own only chunk |
| TelegramLog.ChunksLong | app/utils/custom_logging/TelegramLogHandler.py:117-120 | an entry over the limit is cut into at least two chunks, so it is numbered |
| TelegramLog.SplitMessage | app/utils/custom_logging/TelegramLogHandler.py:137-143 | the while loop produces exactly the specified chunks |
| TelegramLog.LabelParts | app/utils/custom_logging/TelegramLogHandler.py:119 | a label "[i/n] " reads back as its index and total |
| TelegramLog.QueuedSound | app/utils/custom_logging/TelegramLogHandler.py:114-120 | an empty entry queues nothing; a short one is queued unchanged; a long one as at least two messages "[i/n] " + chunk i, whose chunks give back the entry |
| TelegramLog.TelegramLogHandler.Emit | app/utils/custom_logging/TelegramLogHandler.py:108-122 | a formatting error goes to the error handler and queues nothing; otherwise exactly the entry's messages join the end of the queue |
| TelegramLog.LegacySentAgrees | app/custom_logging/TelegramLogHandler.py:27-41 | the legacy handler sends what the current one queues, except an empty entry, which it sends as an empty message |
| TelegramLog.LegacyTelegramLogHandler.Emit | app/custom_logging/TelegramLogHandler.py:27-41 | a formatting error or no running event loop goes to the error handler and sends nothing; otherwise exactly the entry's messages are sent, in order |
| BufferedLog.LastNAppend | app/utils/custom_logging/BufferedLogHandler.py:21-25 | appending to a bounded deque that holds the last N records gives the last N of the longer history |
| BufferedLog.LastNSound | app/utils/custom_logging/BufferedLogHandler.py:21 | the buffer holds min(N, emitted) records and is a suffix of the history |
| BufferedLog.BufferedLogHandler.Emit | app/utils/custom_logging/BufferedLogHandler.py:23-25 | the buffer stays the last `capacity` records: a full buffer loses exactly its oldest record, capacity 0 keeps nothing |
| BufferedLog.AppendBlock | app/utils/custom_logging/BufferedLogHandler.py:39-45 | the `Formatter.format` step for a traceback or stack: a falsy block adds nothing; a truthy one keeps the text as a prefix, adds a line break and ends the result |
| BufferedLog.DefaultFormatBlocks | app/utils/custom_logging/BufferedLogHandler.py:39-45 | a record without traceback or stack prints as the format string; a record with either (as `logger.exception` logs) starts with it, spans several lines, and ends with the stack or else the traceback |
| BufferedLog.LogsTextLines | app/utils/custom_logging/BufferedLogHandler.py:39-45 | an empty buffer gives empty text; otherwise, when every formatted record is a single line, cutting at newlines gives the formatted records back in order, with no trailing newline. Records with a traceback or stack are never single lines (`DefaultFormatBlocks`), so they fall outside this clause |
| BufferedLog.BufferedLogHandler.GetLogsAsFile | app/utils/custom_logging/BufferedLogHandler.py:47-62 | a new file holding the UTF-8 text, positioned at its start |
| BufferedLog.BytesIO.Write | app/utils/custom_logging/BufferedLogHandler.py:60 | the bytes overwrite from the position, padding with zeros past the end, and the position moves past them |
| BufferedLog.BytesIO.Seek | app/utils/custom_logging/BufferedLogHandler.py:61 | only the position changes |

## Left out

- **HTTP transport.** httpx, the request semaphore, the polite delay, the timeouts and the headers are left out. The server is a scripted sequence of replies per URL.
- **Back-off time.** The back-off wait is a float power of the configured factor. The model records only its exponent, the attempt number.
- **Legacy fetcher.** The legacy worker imports `app.extracting_schedule.fetcher`, which is not part of this model; its replies are the `fetch` and `catalogue` parameters. The older client in app/utils/extracting_schedule/fetcher.py is the same retry loop as the current one and is modelled by `Fetcher.RequestWithRetry`. Its 429 warning passes fewer arguments than its format asks for. The logging module reports that as a logging error and does not raise, so the retry behaviour is unchanged.
- **Time values.**
  - `time.fromisoformat` is not modelled: a time entry arrives already parsed or not.
  - `datetime.strptime` is modelled for the format `%d.%m.%Y` only.
- **Case folding.** `str.lower` covers Latin and basic Cyrillic letters only. SQLite's `lower` and `ilike` fold ASCII letters only.
- **Fuzzy matching.** The RapidFuzz scoring is left out. The search takes the names the matcher returned as an input.
- **Schema enforcement.** Foreign-key cascades are the schema's declared rules. The SQLite connection does not turn foreign-key enforcement on.
- **Key allocation.** The primary keys in app/database/models.py are plain integer keys without AUTOINCREMENT. SQLite gives each table its own largest key plus one, so the key of a deleted last row is handed out again. The model's single shared counter never reuses a key, so it does not capture two consequences:
  - A deleted group's users keep their dangling `group_id`, because foreign-key enforcement is off. The model clears that link instead, by the declared SET NULL rule.
  - A group created later can take the deleted group's key, and then silently inherits those users.
- **Keyboards and summary lines.** `refresh_all_keyboards`, the log summary lines and all logging calls are left out. When they return, their only effect is on messages and menus. In app/utils/schedule/worker.py:360, 450 and 512, `refresh_all_keyboards` runs after the commit with no `try`. If it raises, the caller gets that exception even though the sync stays committed. Sync.SyncEngine.RunFullSync, Sync.SyncEngine.RunFullSyncForFaculty and Sync.SyncEngine.RunFullSyncForGroup always return normally, so the model does not capture this.
- **Concurrency.** The asyncio locks and task interleavings are not modelled. Each call runs to completion on its own.
- **Legacy one-group sync.** The legacy `run_full_sync_for_group` returns 0 on a "message" reply without committing. The group it created in the session is discarded when the session closes.
- ProfessorIndex.DeleteIdleProfessors: the failure branch is left out. In the model every deletion of a professor without rows keeps the constraints, so the commit cannot be refused.
- Formatter.PackEffect: states the weaker "within the limit, or a single piece" rather than an exact length bound. A single header or day block longer than 4000 characters is sent as it is.
- Queries.ScheduleForGroupOrdered: promises no order among lessons of equal week-mark rank, because the query gives none.
- Formatter.FormatScheduleStudents: the URL pattern `https?://\S+` is not modelled. Rewriting links in the rooms text is an input function.
- Formatter.FormatScheduleProfessor: the same URL pattern is an input predicate.
- **Log-sending worker.** The current Telegram handler's `_worker` send loop, with its retry pause and rate limit, is left out. `send_chat_info_log` appears only as the per-round outcome of WeekMark.WeekMarkGlobals.UpdateRounds. The handler's constructor starts that worker; the model starts with an empty queue.
- AdminList.Admins.Refresh: `get_username_from_tg` is the parameter `usernameOf`, because the Telegram API is not modelled.
- AdminList.Admins.CheckAdminsStart: the id typed at the console is the parameter `adminId`, because console input is not modelled.
- **Handler errors.** `handleError` is modelled as an error counter. A log record's formatting is an input: the formatted text, or the error formatting raised.
- TelegramLog.LegacyTelegramLogHandler.Emit: the legacy `_split_message` is the shared `TelegramLog.SplitMessage`, because the two loops are identical.
- BufferedLog.BufferedLogHandler.constructor: capacity is a natural number. A negative capacity, which `deque` refuses, is not modelled.
- WeekMark.WeekMarkGlobals.UpdateRounds: the clock readings are inputs, and so is whether each round's `send_chat_info_log` returns. `days_difference` is unused by the core and is left out.
- AutoSync.SchedulerRounds: runs a finite number of rounds of the endless loop. The day each round wakes on and its sync outcome are inputs, so the contract does not state that a round wakes at its target: `asyncio.sleep` and the clock are not modelled.
