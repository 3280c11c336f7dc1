# Task manager store, modelled in Dafny

This project models the core of a small command-line task manager written in Java
(`src/taskmanager/Task.java` and `src/taskmanager/TaskManager.java`).

- A **task** has an int id, a trimmed title, a priority `LOW < MEDIUM < HIGH`, an
  optional due date and a completed flag. It is stored as one line of five
  `|`-separated fields. `toCsv` writes that line and `fromCsv` reads it back.
- The **task store** keeps an insertion-ordered list of mutable `Task` objects and a
  `nextId` allocator. Its operations are:
  - `addTask`, `deleteTask`, `findById`, `markCompleted` and `getCount`;
  - two stable sorted listings and a case-insensitive title search;
  - `load`, which reads the file's lines one by one, and `save`, which writes one line per task.

Modules, one file each:

| file | module | models |
|---|---|---|
| `wrappers.dfy` | `Wrappers` | `Option` (Java `null`, `Optional`, a thrown exception) and `Result` |
| `strings.dfy` | `Strings` | `String.trim`, ASCII `toLowerCase`, `contains`, one-character `replace`, `split("\\|", -1)` and its inverse join |
| `java_int.dfy` | `JavaInt` | 32-bit int range and wrap-around, `%d` formatting, `Integer.parseInt` |
| `dates.dfy` | `Dates` | `LocalDate` as year/month/day with calendar validity and order; `ISO_LOCAL_DATE` format and parse |
| `task.dfy` | `Tasks` | `Task.Priority`, the line format (`toCsv`/`fromCsv`), and the `Task` class with its constructor, setters and `equals` |
| `task_views.dfy` | `TaskViews` | lookup and removal by id, the title filter, the two comparators and a reference stable sort |
| `task_file.dfy` | `TaskFile` | `load` and `save` as functions on lines: the per-line step, the fold over all lines, the lines `save` writes and what reloading them gives |
| `task_store.dfy` | `TaskStore` | the `TaskManager` class: its fields, every operation as a method or function, and client methods that chain operations |

`Task` and `TaskManager` are classes because the Java code changes their fields in
place. `findById` returns a handle to a stored task that `markCompleted` then changes.
`Task.Value()` takes a `TaskRecord` snapshot of a task's fields. The pure line-format
functions work on these snapshots. `TaskManager.Records()` is the list of snapshots,
in order. `load` and `save` are `while`/`for` loops proved against the functions of
`TaskFile`.

The file system is replaced by parameters and results:
- `Load` receives `None` when the storage file does not exist, or else the file's lines.
- `Save` returns the lines it would write.

The model keeps what the code accepts, including these cases:
- `fromCsv` accepts any id `Integer.parseInt` accepts. That includes negative ids,
  a leading `+` and leading zeros.
- `fromCsv` accepts an empty title field.
- `load` accepts two lines with the same id, so ids in the store need not be
  unique. `TaskManager.Valid()` therefore promises distinct handles and ids below
  `nextId`, but not distinct ids.

## Model

| member | source | states |
|---|---|---|
| Strings.Trim | src/taskmanager/Task.java:23 | trim's result has no trim character (code at most U+0020) at either end and is no longer than its input |
| Strings.TrimInfix | src/taskmanager/Task.java:23 | trim's result is the infix of the input that a run of trim characters precedes and a run follows |
| Strings.TrimKeepsAbsent | src/taskmanager/Task.java:23 | trimming cannot introduce a character the input lacks |
| Strings.TrimOfTrimmed | src/taskmanager/Task.java:23 | trim leaves an already trimmed string unchanged |
| Strings.TrimIdempotent | src/taskmanager/Task.java:74-76 | trimming twice is the same as trimming once, so setTitle of a stored title keeps it |
| Strings.Lower | src/taskmanager/TaskManager.java:95-96 | lower-casing keeps the length and maps each character separately, 'A'..'Z' to 'a'..'z' |
| Strings.Contains | src/taskmanager/TaskManager.java:96 | contains is true exactly when the needle occurs at some position of the text |
| Strings.ContainsEmpty | src/taskmanager/TaskManager.java:96 | every text contains the empty string |
| Strings.ReplaceChar | src/taskmanager/Task.java:48 | replace keeps the length, puts the new character exactly where the old one was, and leaves no old character behind |
| Strings.ReplaceAbsent | src/taskmanager/Task.java:48 | replacing a character the text lacks changes nothing |
| Strings.Split | src/taskmanager/Task.java:30 | split yields at least one field and no field contains the delimiter |
| Strings.SplitCons | src/taskmanager/Task.java:30 | a delimiter after a delimiter-free prefix ends the first field |
| Strings.SplitJoin | src/taskmanager/Task.java:30 | splitting fields joined by the delimiter gives the fields back, empty ones included |
| Strings.Join | src/taskmanager/Task.java:46 | the joined text starts with the first field, and when no field holds the delimiter, the delimiter occurs in it exactly when there are two fields or more |
| Strings.EqualsIgnoreCase | src/taskmanager/Task.java:38 | two texts are equal ignoring case exactly when they have the same length and agree character by character after ASCII lower-casing |
| Strings.JoinLast | src/taskmanager/Task.java:46 | joined fields end with the last field's last character |
| JavaInt.Wrap | src/taskmanager/TaskManager.java:35 | int addition wraps: the result is in the int range, congruent to the sum modulo 2^32, and equal to the sum when that fits |
| JavaInt.WrapMaxPlusOne | src/taskmanager/TaskManager.java:35 | Integer.MAX_VALUE + 1 is Integer.MIN_VALUE |
| JavaInt.FormatInt | src/taskmanager/Task.java:46-47 | %d writes an optional '-' and then digits only |
| JavaInt.ParseInt | src/taskmanager/Task.java:34 | parseInt succeeds exactly on an optional '+' or '-' followed by one or more digits whose signed value is in the int range. The digits are then the magnitude of the result, zero-padded to their own width, and the sign matches: a negative result has '-', a positive one does not |
| JavaInt.ParsePadded | src/taskmanager/Task.java:34 | parseInt reads back every int from its digits zero-padded to any width, after '-' when negative and after an optional '+' otherwise ("007" is 7, "+5" is 5) |
| JavaInt.ParseFormatInt | src/taskmanager/Task.java:34 | parseInt reads back every int that %d writes |
| JavaInt.PadRoundTrip | src/taskmanager/Task.java:50 | a zero-padded number reads back as its value |
| JavaInt.PadOfValue | src/taskmanager/Task.java:37 | a fixed-width digit string is the zero-padded form of its value |
| Dates.DaysInMonth | src/taskmanager/Task.java:37 | a month has 28 to 31 days, and February has 29 exactly in a leap year |
| Dates.CompareDates | src/taskmanager/TaskManager.java:81 | date comparison is 0 exactly for equal dates and negative exactly for an earlier day (year, then month, then day) |
| Dates.CompareDatesAntisymmetric | src/taskmanager/TaskManager.java:81 | swapping the arguments negates the comparison |
| Dates.CompareDatesTransitive | src/taskmanager/TaskManager.java:81 | the date order is transitive |
| Dates.FormatDate | src/taskmanager/Task.java:50 | ISO_LOCAL_DATE writes ten characters: year in 4 digits, '-', month in 2, '-', day in 2 |
| Dates.ParseFormatDate | src/taskmanager/Task.java:37 | every formatted date parses back to itself |
| Dates.FormattedByFields | src/taskmanager/Task.java:50 | a ten-character text with '-' at positions 4 and 7 and a date's padded fields between them is that date's formatted form |
| Dates.ParseDate | src/taskmanager/Task.java:37 | a text that LocalDate.parse accepts is exactly the ISO_LOCAL_DATE form of the date it yields |
| Dates.ParseDateExactlyFormatted | src/taskmanager/Task.java:37 | a text parses to date d if and only if it is d's formatted form |
| Tasks.Priority.Ordinal | src/taskmanager/Task.java:9-11 | an ordinal is at most 2, the number of constants less one |
| Tasks.OrdinalInjective | src/taskmanager/Task.java:9-11 | two priorities have the same ordinal exactly when they are the same |
| Tasks.Priority.Name | src/taskmanager/Task.java:49 | no priority name contains the delimiter |
| Tasks.ParsePriority | src/taskmanager/Task.java:36 | valueOf succeeds exactly on "LOW", "MEDIUM" and "HIGH" (case-sensitive) and yields the constant with that name |
| Tasks.ParsePriorityName | src/taskmanager/Task.java:36 | valueOf of a priority's name is that priority |
| Tasks.FormatBoolean | src/taskmanager/Task.java:51 | the completed field has no delimiter and ends in 'e' |
| Tasks.ParseBoolean | src/taskmanager/Task.java:38 | parseBoolean is true exactly for a four-letter text that lower-cases to "true", and never fails |
| Tasks.ParseFormatBoolean | src/taskmanager/Task.java:38 | parseBoolean reads back what toString wrote |
| Tasks.SanitizedTitle | src/taskmanager/Task.java:23 | a title read back from its line is trimmed and has no '|'; a trimmed title without '|' comes back unchanged |
| Tasks.CleanTitleUnchanged | src/taskmanager/Task.java:48 | replacing '|' and trimming leave a trimmed '|'-free title as it was |
| Tasks.DateField | src/taskmanager/Task.java:50 | the date field never contains the delimiter |
| Tasks.CsvFields | src/taskmanager/Task.java:45-52 | toCsv has five fields and none of them contains the delimiter |
| Tasks.ToCsv | src/taskmanager/Task.java:45-52 | the written line splits on '\|' into exactly its five fields |
| Tasks.ToCsvIsTrimmed | src/taskmanager/Task.java:45-52 | a written line is non-empty and trim leaves it whole, so load does not skip it |
| Tasks.FromCsv | src/taskmanager/Task.java:29-43 | a parsed task has an id in the int range and a trimmed title |
| Tasks.FromCsvFields | src/taskmanager/Task.java:29-43 | fromCsv succeeds iff there are exactly five fields, an int id, a priority name and an empty or ISO date. It then returns those values, the trimmed second field, and completed iff the last field is "true" ignoring case. Any other field count fails with that count |
| Tasks.CsvRoundTrip | src/taskmanager/Task.java:29-52 | fromCsv(toCsv(t)) has t's id, priority, due date and completed flag, and the title trim(replace(title, '\|', ' ')) |
| Tasks.CsvRoundTripExact | src/taskmanager/Task.java:29-52 | a task with a trimmed title free of '\|' survives the round trip unchanged |
| Tasks.Task.constructor | src/taskmanager/Task.java:21-27 | the new task holds the given fields with the title trimmed |
| Tasks.Task.SetTitle | src/taskmanager/Task.java:74-76 | setTitle stores the trimmed title, keeps the title trimmed and changes no other field |
| Tasks.Task.SetPriority | src/taskmanager/Task.java:78-80 | setPriority changes the priority and nothing else |
| Tasks.Task.SetDueDate | src/taskmanager/Task.java:82-84 | setDueDate changes the due date and nothing else |
| Tasks.Task.SetCompleted | src/taskmanager/Task.java:86-88 | setCompleted changes the completed flag and nothing else |
| Tasks.Task.Equals | src/taskmanager/Task.java:97-105 | equals holds exactly for a non-null task with the same id |
| Tasks.EqualsById | src/taskmanager/Task.java:97-105 | equals is reflexive, symmetric and transitive |
| TaskViews.FirstIndexWithId | src/taskmanager/TaskManager.java:68 | the position found holds the id and no earlier task has it; none is found exactly when no task has the id |
| TaskViews.WithoutId | src/taskmanager/TaskManager.java:64 | removeIf leaves a subsequence of the list holding exactly the tasks whose id differs |
| TaskViews.WithoutIdUnchanged | src/taskmanager/TaskManager.java:64 | removeIf shortens the list exactly when some task has the id; otherwise the list is unchanged |
| TaskViews.WithoutIdDistinct | src/taskmanager/TaskManager.java:64 | removing tasks keeps the handles distinct |
| TaskViews.Matching | src/taskmanager/TaskManager.java:96 | the filter yields a subsequence holding exactly the tasks whose lower-cased title contains the keyword |
| TaskViews.MatchingEmptyKeyword | src/taskmanager/TaskManager.java:94-97 | an empty keyword keeps every task |
| TaskViews.ComparePriorities | src/taskmanager/TaskManager.java:82 | priorities compare in declaration order LOW < MEDIUM < HIGH |
| TaskViews.CompareDueDates | src/taskmanager/TaskManager.java:81 | nullsLast: dates compare as dates, and a missing date sorts after every date, whichever side it is on |
| TaskViews.CompareKeys | src/taskmanager/TaskManager.java:80-82 | each listing's comparator is 0 exactly on equal (due date, priority) keys |
| TaskViews.CompareKeysAntisymmetric | src/taskmanager/TaskManager.java:89-90 | both comparators negate when the arguments are swapped |
| TaskViews.CompareKeysTransitive | src/taskmanager/TaskManager.java:89-90 | both comparators are transitive |
| TaskViews.Insert | src/taskmanager/TaskManager.java:80 | inserting into a sorted list keeps it a sorted permutation, ahead of equal keys |
| TaskViews.Sort | src/taskmanager/TaskManager.java:79-83 | the sort returns a permutation, sorted by the comparator, in which tasks with equal keys keep their order |
| TaskFile.Max | src/taskmanager/TaskManager.java:35 | Math.max is one of its arguments and at least both |
| TaskFile.ParseLine | src/taskmanager/TaskManager.java:29-33 | a line blank after trim yields nothing; a parsed task has an int id and a trimmed title |
| TaskFile.LoadLinesSnoc | src/taskmanager/TaskManager.java:28 | no lines leave the state as it was; one more line is one more pass of the loop |
| TaskFile.Accept | src/taskmanager/TaskManager.java:34-35 | taking in a parsed task appends it and leaves nextId above its id; nextId never decreases and changes only to the id plus one; no task leaves the state unchanged; ids below nextId stay below it |
| TaskFile.LoadLine | src/taskmanager/TaskManager.java:29-38 | one pass of the loop keeps the earlier tasks, appends at most one, with its id below the new nextId; nextId never decreases; ids below nextId stay below it; a line blank after trim changes nothing |
| TaskFile.LoadRejectedLine | src/taskmanager/TaskManager.java:36-38 | load skips a line that fromCsv rejects |
| TaskFile.LoadAcceptedLine | src/taskmanager/TaskManager.java:33-35 | load appends a parsed task and sets nextId to max(nextId, id + 1) |
| TaskFile.AcceptAllKeepsIdsBelow | src/taskmanager/TaskManager.java:28-35 | accepting parsed tasks keeps earlier tasks, adds at most one per parse, never lowers nextId, and keeps every id below nextId |
| TaskFile.LoadLines | src/taskmanager/TaskManager.java:28-39 | the loop over all lines keeps the earlier tasks, adds at most one task per line, never lowers nextId, and keeps every id below nextId |
| TaskFile.SaveLines | src/taskmanager/TaskManager.java:48-50 | save writes one toCsv line per task, in list order |
| TaskFile.NextIdAfter | src/taskmanager/TaskManager.java:35 | the allocator after reading tasks back is not lower and lies above every id read |
| TaskFile.NextIdAfterBelow | src/taskmanager/TaskManager.java:35 | reading back ids already below the allocator leaves it unchanged |
| TaskFile.SanitizedAll | src/taskmanager/Task.java:48 | sanitising a list changes each task's title separately |
| TaskFile.SanitizedAllClean | src/taskmanager/Task.java:48 | tasks with clean titles are not changed by sanitising |
| TaskFile.NextIdAfterSanitized | src/taskmanager/Task.java:48 | sanitising titles does not affect the allocator |
| TaskFile.ParseSavedLine | src/taskmanager/TaskManager.java:29-33 | a written line survives load's trim and parses to the sanitised task |
| TaskFile.AcceptAllParsed | src/taskmanager/TaskManager.java:34-35 | accepting only parsed tasks appends them all in order and moves the allocator past each id |
| TaskFile.LoadSavedLines | src/taskmanager/TaskManager.java:46-51 | loading the lines save wrote gives back every task in order, with only its title sanitised, and moves the allocator past every id |
| TaskFile.LoadSavedLinesExact | src/taskmanager/TaskManager.java:46-51 | with trimmed '\|'-free titles, load after save gives the tasks back exactly |
| TaskFile.LoadLineAsWritten | src/taskmanager/TaskManager.java:29-38 | with the Java int sum, one pass of the loop loads the same tasks as the model's step and keeps nextId in the int range; it agrees with the model's step whenever the loaded id is below Integer.MAX_VALUE |
| TaskFile.AsWrittenMaxIdNotBelowNextId | src/taskmanager/TaskManager.java:35 | with the Java int arithmetic, a loaded id of Integer.MAX_VALUE leaves nextId at 1, not above the id |
| TaskFile.MaxIdBelowNextId | src/taskmanager/TaskManager.java:35 | the model's load step puts nextId above a loaded Integer.MAX_VALUE |
| TaskStore.MarkFirstCompleted | src/taskmanager/TaskManager.java:72-76 | marking keeps the number of tasks |
| TaskStore.MarkFirstCompletedAt | src/taskmanager/TaskManager.java:73-74 | only the first task with the id changes, and only its completed flag |
| TaskStore.MarkFirstCompletedAbsent | src/taskmanager/TaskManager.java:73-75 | with no task of that id nothing changes |
| TaskStore.MarkFirstCompletedIdempotent | src/taskmanager/TaskManager.java:72-76 | marking the same id twice is marking it once |
| TaskStore.TaskManager.constructor | src/taskmanager/TaskManager.java:13-19 | a new store is empty with nextId 1 and keeps its storage path |
| TaskStore.TaskManager.Load | src/taskmanager/TaskManager.java:22-39 | load clears the list. A missing file leaves it empty with nextId unchanged. Otherwise the list and nextId are what the line fold gives from an empty list and the old nextId. The tasks are new objects, the invariant holds, and nextId never decreases |
| TaskStore.TaskManager.LoadOneLine | src/taskmanager/TaskManager.java:29-38 | one pass of the loop changes the list and nextId as one fold step on that line's parse, keeping the invariant |
| TaskStore.TaskManager.AddLoaded | src/taskmanager/TaskManager.java:33-35 | a loaded task is appended as a new object and nextId moves past its id |
| TaskStore.TaskManager.Save | src/taskmanager/TaskManager.java:46-51 | save returns the toCsv line of every task, in list order |
| TaskStore.TaskManager.AddTask | src/taskmanager/TaskManager.java:57-61 | addTask appends one new task with id = old nextId, the trimmed title and completed = false; it increments nextId and leaves earlier tasks unchanged. Every earlier id is below the new one |
| TaskStore.TaskManager.DeleteTask | src/taskmanager/TaskManager.java:63-65 | deleteTask leaves the old list filtered to other ids, in order. It returns true iff some task had the id, iff the count dropped. A missing id leaves the list unchanged |
| TaskStore.TaskManager.FindById | src/taskmanager/TaskManager.java:67-69 | findById gives the first stored task with the id, and nothing exactly when no task has it |
| TaskStore.TaskManager.MarkCompleted | src/taskmanager/TaskManager.java:72-76 | markCompleted returns whether the id is present and sets only the first such task's completed flag |
| TaskStore.TaskManager.ListAllSortedByDueDate | src/taskmanager/TaskManager.java:78-84 | a stable permutation of the list sorted by due date (no date last), then priority LOW to HIGH |
| TaskStore.TaskManager.ListAllSortedByPriority | src/taskmanager/TaskManager.java:86-92 | a stable permutation of the list sorted by priority HIGH to LOW, then due date (no date last) |
| TaskStore.TaskManager.SearchByTitle | src/taskmanager/TaskManager.java:94-97 | exactly the tasks whose lower-cased title contains the lower-cased keyword, in list order |
| TaskStore.SaveAndReload | src/taskmanager/TaskManager.java:22-51 | save then load gives back every task in order with its title sanitised, and nextId unchanged |
| TaskStore.AddTwo | src/taskmanager/TaskManager.java:57-61 | two successive addTask calls give different tasks with increasing ids, both below nextId |
| TaskStore.MarkCompletedTwice | src/taskmanager/TaskManager.java:72-76 | a second markCompleted on the same id reports the same and changes nothing more |

## Left out

- File input and output: `Files.exists`, the reader and writer streams, `IOException` and the `System.err` messages are not modelled. `Load` receives the file's lines, or `None` for a missing file. `Save` returns the lines it would write.
- `Main.java`, the interactive menu, is not part of this model.
- `toString` and `hashCode` of `Task` are not modelled; they only produce display text and hash codes.
- `toLowerCase` is modelled for ASCII letters only. Java's version is locale- and Unicode-dependent.
- `%d` and `Integer.parseInt` are modelled for the ASCII digits '0' to '9' only. Java's `parseInt` reads a digit with `Character.digit`, which accepts every Unicode decimal digit (so `١|x|LOW||false`, with U+0661, loads with id 1). `%d` writes the default locale's digits.
- Dates are `LocalDate` values with four-digit years (0 to 9999). ISO_LOCAL_DATE's signed years beyond four digits are not modelled.
- `BufferedReader.readLine` line splitting is not modelled. The lines arrive already split, so a title holding a line break is out of scope.
- TaskStore.TaskManager.AddTask: `nextId++` is unbounded here. Java wraps it past Integer.MAX_VALUE only after about two billion additions.
- TaskStore.TaskManager.Count: `getCount` is `|tasks|` and has no contract of its own.
- `storagePath` is only kept by the constructor, since the file it names is not modelled.
- Java's sort is TimSort. Here it is replaced by an insertion sort with the same promised properties: a permutation, sorted by the comparator, and stable. The model does not prove that these properties fix a single order.

## Findings

| source | as written | input that shows it | evidently intended | confidence | as-written member | corrected member |
|---|---|---|---|---|---|---|
| src/taskmanager/TaskManager.java:35 | `nextId = Math.max(nextId, t.getId() + 1)` in int arithmetic | a file line `2147483647\|x\|LOW\|\|false` loaded with nextId 1: `t.getId() + 1` wraps to Integer.MIN_VALUE, so nextId stays 1 and the loaded id is not below it; later addTask ids can then run into it | after load every id is below nextId | not executed | TaskFile.LoadLineAsWritten, TaskFile.AsWrittenMaxIdNotBelowNextId | TaskFile.LoadLine, TaskFile.MaxIdBelowNextId |
