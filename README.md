# Watson time tracker: a verified model of its core

Watson is a command-line time tracker. A **frame** is one tracked interval:
a start, a stop, a project, a list of tags, an id and the time it was last
updated. This project models the following parts of Watson in Dafny and
proves properties of the model:

- the frame store (`Frames`);
- the `Watson` session object: the running frame, `start`, `stop`,
  `cancel`, `add`, renames, `merge_report` and `report`;
- the command-level logic of the CLI: project names from arguments, the
  exclusive-option check, the start/restart/log guards, the merge command
  with its conflict loop, and the days that `aggregate` reports on;
- `format_timedelta`;
- the configuration wrapper;
- shell completion;
- the frames-file conversion script;
- the Markdown help formatter of the documentation generator;
- the requirements parser of the setup script.

Modules, one file each:

| file | module | models |
|---|---|---|
| `wrappers.dfy` | `Wrappers` | `Option`, `Result`, `Outcome` and the exception kinds raised |
| `text.dfy` | `Text` | the string operations used: `strip`, `split`, `join`, `lower`, `startswith`, sorting and deduplication |
| `frames.dfy` | `Frames` | `Frame`, `Span` and the `Frames` store (class `FrameStore`) |
| `config.dfy` | `Config` | `ConfigParser` (class) and the conversions of `getint`, `getboolean` and `getlist` |
| `timedelta.dfy` | `Timedelta` | `format_timedelta`, with a reader that reads its output back |
| `report.dfy` | `Reports` | what `report` computes from the filtered frames |
| `session.dfy` | `Session` | the `Watson` class, `merge_report`'s classification and the rename loop |
| `commands.dfy` | `Commands` | the CLI commands' checks, `merge` and `aggregate` |
| `completion.dfy` | `Completion` | the completion functions |
| `conv_frames.dfy` | `ConvFrames` | the frames-file layout conversion |
| `cli_docs.dfy` | `CliDocs` | `MarkdownFormatter` (class) |
| `requirements.dfy` | `Requirements` | `parse_requirements` |

The model makes these conventions:

- **Time.** Instants are integer seconds. A day is 86400 seconds, shifted
  by the configured `hour_shift`. Arrow's "end of day" (`.999999`) becomes
  the last whole second of the day.
- **Outside the model.** The clock, fresh UUIDs, the user's answers to
  prompts, `shlex.split` and `parse_tags` become parameters.
- **Failures.** Python exceptions become `Err`/`Fail` values.
- **State changes.** Where the source updates an object in place, the model
  is a class with `modifies` clauses: the frame store, the session, the
  configuration parser and the help formatter. Most loops in the source are
  `while` loops in the model. Two are recursive functions instead: the
  generator loop of `Frames.filter` (`Frames.Filter`) and the loop of
  `merge_report` (`Session.WithVerdict`).

Where the code and the general description of Watson differ, the model
follows the code:

- `merge` adds only the incoming frames that are missing locally. It does
  not add local frames to the incoming side. So merging two stores with
  disjoint ids merges `|incoming|` frames (`Session.MergeDisjoint`), not
  the sum of both sizes.
- A frame counts as conflicting when its id is found locally by *prefix*
  (`frames[id]`) and the local frame differs in any field, including
  `updated_at`.
- `--force` skips only the confirmation. Every conflict is still answered
  by the user.
- No validation step runs before the merged store is saved.
- The conflict loop (`Commands.ResolveOne`, `Commands.ResolveConflicts`,
  `Commands.Merge`) takes a flag `asWritten`. With `true` it runs the loop
  as the code does: the highlighted tags reach the stored frame (see
  "## Findings"). With `false` it runs the corrected loop, which stores the
  incoming frame as received.

## Model

| member | source | states |
|---|---|---|
| Frames.LoadRows | watson/frames.py:91-98 | every file row becomes one frame, in order |
| Frames.DumpRows | watson/frames.py:162-163 | every frame becomes one row, in order |
| Frames.LoadDumpRoundTrip | watson/frames.py:24-58 | loading the dump of frames gives back the same frames, when no stop is 0 (which the loader reads as missing) |
| Frames.LoadDefaults | watson/frames.py:24-51 | missing tags load as `[]`; a missing `updated_at` loads as now; a missing stop dumps as missing |
| Frames.MakeFrame | watson/frames.py:24-51 | a frame built from the six fields keeps start, stop, project and id; missing tags become `[]` and a missing `updated_at` becomes now |
| Frames.LoadRow | watson/frames.py:24-51 | a file row keeps its start, project and id; its stop is missing exactly when the row has none or 0, and is the row's otherwise |
| Frames.DumpFrame | watson/frames.py:53-58 | the dump always carries tags and `updated_at`, and a frame whose stop is not 0 loads back from its dump unchanged, whatever the clock |
| Frames.DumpLoadDumpStable | watson/frames.py:24-58 | dump, load, dump again is stable for any frames, stops of 0 included |
| Frames.DayFloor | watson/frames.py:16-17 | the start of the shifted day holding `t`: at most `t`, less than a day before it, and aligned to the shifted day |
| Frames.DayCeil | watson/frames.py:20-21 | the last second of the shifted day holding `t` |
| Frames.FrameDay | watson/frames.py:60-62 | the first second of the hour-shifted day the frame starts in: at or before the start, less than a day before it, on a day boundary |
| Frames.OrderingIsNotEquality | watson/frames.py:64-74 | `<` and `>` compare starts only (`StartsBefore`), as do the methods `__lte__` and `__gte__` (`StartsNotAfter`), which Python never calls for `<=` and `>=`: two different frames can have neither start before the other |
| Frames.MakeSpan | watson/frames.py:77-81 | a span covers whole shifted days and contains both given instants |
| Frames.Clip | watson/frames.py:196-198 | the clipped frame keeps every field except start and stop, which are cut to the span |
| Frames.ClipInsideAndShorter | watson/frames.py:188-198 | a frame that overlaps a span is clipped into the span and gets no longer |
| Frames.FilterConcat | watson/frames.py:165-198 | filtering two runs of rows gives the two results concatenated |
| Frames.FilterFrom | watson/frames.py:165-198 | every yielded frame is a row, or that row clipped, chosen by the name and span tests |
| Frames.FilterSound | watson/frames.py:165-198 | every yielded frame passes the project and tag tests and lies inside the span |
| Frames.FilterWithoutSpan | watson/frames.py:175-186 | without a span, exactly the rows passing the name tests are yielded, in order |
| Frames.InSpan | watson/frames.py:86-87 | a frame inside the span, with its start not after its stop, also overlaps it |
| Frames.Overlaps | watson/frames.py:83-84 | for a frame and a span each in order, overlapping means the later of the two starts is not after the earlier of the two stops |
| Frames.Filter | watson/frames.py:165-198 | yields at most as many frames as it is given, each passing the project and tag tests |
| Frames.SelectWithSpan | watson/frames.py:188-198 | a frame inside the span is kept whole; an overlapping one is clipped when partial frames are wanted and dropped otherwise |
| Frames.FindId | watson/frames.py:136-142 | the first row whose id starts with the key, or none exactly when no id does |
| Frames.LookupKey | watson/frames.py:103-109 | a column name gives that column of every row; any other key gives the first row whose id starts with it, or KeyError exactly when there is none |
| Frames.NewFrame | watson/frames.py:155-160 | a fresh id is used exactly when no non-empty id is given |
| Frames.UpsertRowsSpec | watson/frames.py:111-126 | assigning by id replaces the first row the key finds, in place, or appends; the stored frame takes the key as its id, no other row changes, and the key then finds it |
| Frames.UpsertRows | watson/frames.py:111-126 | the rows grow by one exactly when the key finds no row; the frame, with the key as its id, is stored; the rows the key does not find are unchanged |
| Frames.RemoveAt | watson/frames.py:128-134 | deleting a row keeps the others in order, and the multiset loses exactly that row |
| Frames.FrameStore.constructor | watson/frames.py:91-98 | a new store holds the loaded rows and is unchanged |
| Frames.FrameStore.GetAt | watson/frames.py:103-109 | Python list indexing, negative indices included; IndexError exactly when out of range |
| Frames.FrameStore.GetByString | watson/frames.py:103-109 | a column name gives the whole column, one value per row; any other key gives the first row whose id starts with it, or KeyError when none does |
| Frames.FrameStore.Add | watson/frames.py:149-153 | one new frame is appended, the earlier rows are untouched, and the store is marked changed |
| Frames.FrameStore.SetAt | watson/frames.py:111-126 | replaces the indexed row, or IndexError without change; marks the store changed either way |
| Frames.FrameStore.SetById | watson/frames.py:111-126 | the rows after an assignment by id, as `UpsertRows` |
| Frames.FrameStore.DelAt | watson/frames.py:128-134 | removes the indexed row, or IndexError with the rows unchanged; marks the store changed either way |
| Frames.FrameStore.DelById | watson/frames.py:128-134 | removes the first row whose id starts with the key, or KeyError with the rows unchanged; marks the store changed either way |
| Frames.FrameStore.Dump | watson/frames.py:162-163 | one row per frame, which loads back to the same frames when no stop is 0 |
| Config.LookupAfterStore | watson/config.py:102-112 | after `set`, `get` of that option in any letter case gives the new value; every other option keeps its value |
| Config.Lookup | watson/config.py:17-25 | a value only from a stored option; on well-formed sections an option is found exactly when some stored name matches it in any letter case |
| Config.Stored | watson/config.py:102-112 | after storing, that option in any letter case reads the new value, and every other option reads as before |
| Config.StoredWellFormed | watson/config.py:109-112 | `set` keeps the sections well-formed: option names lower-cased and no reserved section |
| Config.FormatIntRoundTrip | watson/config.py:36-37 | an integer written as text reads back as the same integer |
| Config.ParseIntRejects | watson/config.py:36-37 | the empty value and a word are ValueErrors |
| Config.ParseInt | watson/config.py:36-37 | blank text is a ValueError; a negative result comes from a leading `-`; after the first character only digits and underscores are accepted |
| Config.Truth | watson/config.py:62-63 | a missing or empty value gives the default |
| Config.TruthCaseInsensitive | watson/config.py:62-63 | the result ignores letter case; `on`, `True` and `1` read as true; `false` and `0` read as false |
| Config.SplitLines | watson/config.py:97-98 | the model's own line splitter (on the characters Python treats as line boundaries): at least one piece, and no piece holds a line break |
| Config.NonBlankStripped | watson/config.py:97-98 | the kept list items are non-empty and already stripped |
| Config.ListOf | watson/config.py:96-100 | a value with a newline gives non-empty, stripped, single-line items; blank pieces are dropped, so this filtered result is the same as with Python's `splitlines` |
| Config.ListOfLinesRoundTrip | watson/config.py:96-98 | a list written one item per line reads back as the same list |
| Config.ConfigParser.constructor | watson/config.py:14-15 | the parser holds the given sections |
| Config.ConfigParser.Get | watson/config.py:24-25 | the stored value when the option is set, the default otherwise |
| Config.ConfigParser.GetInt | watson/config.py:36-37 | the unconverted default when unset; otherwise the integer, or ValueError when the value is not an integer written with ASCII digits |
| Config.ConfigParser.GetBoolean | watson/config.py:62-63 | the default for a missing or empty value; otherwise true exactly for `1`, `on`, `true` or `yes` in any letter case |
| Config.ConfigParser.GetList | watson/config.py:91-100 | `[]` or the given default when unset; otherwise the stored value split into items |
| Config.ConfigParser.Set | watson/config.py:109-112 | the option is stored and the parser stays well-formed; the reserved default section is refused with ValueError and no change |
| Timedelta.Truncate | watson/utils.py:5 | the seconds of the duration truncated toward zero, for negative durations as well, as `int(total_seconds())` does while its floating-point quotient is exact |
| Timedelta.Breakdown | watson/utils.py:6-21 | the shown parts add up to the seconds; the hours part exists exactly above 3600, the minutes part exactly when more than 60 remain |
| Timedelta.FormatTimedelta | watson/utils.py:1-23 | the text is right-justified to at least 12 characters |
| Timedelta.FormatReadBack | watson/utils.py:1-23 | reading the text back gives exactly the truncated number of seconds, sign included |
| Timedelta.ShownValue | watson/utils.py:10-23 | the sign and the compact stems denote the signed number of seconds |
| Timedelta.MinusIffNegative | watson/utils.py:6-23 | a `-` appears in the text exactly when the truncated seconds are negative |
| Timedelta.Boundaries | watson/utils.py:10-21 | exactly an hour is shown as `60m 00s`, exactly a minute as `60s`, and 3660 seconds with no minutes stem |
| Timedelta.JoinStems | watson/utils.py:23 | the stems joined by spaces: each stem but the last is followed by a space |
| Reports.OfProject | watson/watson.py:490-498 | exactly the frames of one project, in order |
| Reports.WithTag | watson/watson.py:536-546 | exactly the frames carrying one tag, in order |
| Reports.AllTags | watson/watson.py:528-534 | exactly the tags of all frames |
| Reports.TagsToPrint | watson/watson.py:528-534 | sorted, each once: the tags used, restricted to the wanted ones when some are wanted |
| Reports.Kept | watson/watson.py:528-534 | a tag is kept exactly when it is wanted or no tag is wanted |
| Reports.ProjectNames | watson/watson.py:490-498 | the project names, sorted and each once |
| Reports.TagReports | watson/watson.py:536-546 | one entry per tag, holding the total time of that tag's frames |
| Reports.ProjectReports | watson/watson.py:503-551 | one entry per project, in order |
| Reports.PartitionTotal | watson/watson.py:503-551 | splitting frames by project and adding up the parts gives the total |
| Reports.SumTimesProjects | watson/watson.py:503-551 | the project entries' times add up to the time of their projects' frames |
| Reports.ReportTotal | watson/watson.py:503-551 | the report's time is the total of all reported frames, and so the sum of the project times |
| Reports.ReportOrder | watson/watson.py:490-551 | projects come in name order, each once, exactly those of the frames; each project's tags are sorted |
| Reports.ReportOf | watson/watson.py:490-551 | the report covers the span, has one entry per reported project and totals the time of all reported frames |
| Reports.WithTagBounded | watson/watson.py:536-546 | with no negative duration, a tag's time is between zero and the total |
| Reports.TagTimeAtMostProjectTime | watson/watson.py:536-546 | with no negative duration, every tag's time is at most its project's time |
| Session.RunningFrom | watson/watson.py:190-212 | no value or no project means nothing runs; a missing start is now and missing tags are `[]` |
| Session.StartResult | watson/watson.py:250-281 | refuses a second start, a start before the last stop and a start in the future; the new frame's tags are the given and default tags without repeats; without a gap it starts at the last stop, and fails with IndexError when nothing was tracked |
| Session.StartAfterOpenFrame | watson/watson.py:265-280 | after a frame with no stop, a given start fails on the comparison with TypeError, and a start without a gap fails with ValueError when the missing start is converted; without any frame, no gap is an IndexError |
| Session.StopAt | watson/watson.py:283-306 | the stop instant, or the error: nothing started, stop before start, stop in the future |
| Session.AddCheck | watson/watson.py:238-248 | passes exactly when a project is given and the frame does not end before it starts |
| Session.Classify | watson/watson.py:437-456 | merging exactly when no local id starts with the frame's id; identical exactly when the first such local frame equals it; conflicting otherwise, and always for a column name |
| Session.WithVerdict | watson/watson.py:437-456 | exactly the incoming frames with one verdict, in order |
| Session.VerdictsFit | watson/watson.py:437-456 | the conflicting and merging lists together are no longer than the incoming frames |
| Session.MergeSplit | watson/watson.py:437-456 | the two lists are ordered sublists of the incoming frames, classified as Classify says, and disjoint |
| Session.WithVerdictAll | watson/watson.py:437-456 | frames that all get one verdict are all kept, in order |
| Session.WithVerdictNone | watson/watson.py:437-456 | frames of which none gets a verdict leave nothing under it |
| Session.MergeWithItself | watson/watson.py:437-456 | merging a store into itself finds nothing to merge or resolve, when ids are prefix-free |
| Session.MergeDisjoint | watson/watson.py:437-456 | incoming frames with unknown ids are all merged and none conflicts |
| Session.ReplaceTag | watson/watson.py:570-585 | every occurrence of the old tag is replaced, and nothing else changes |
| Session.Renamed | watson/watson.py:553-585 | a frame is rewritten exactly when it carries the old name, and it keeps its id |
| Session.RenamedFields | watson/watson.py:553-585 | a rename writes the new name and the new `updated_at`, and keeps start, stop and the other fields |
| Session.RenameStep | watson/watson.py:553-585 | one turn of the rename loop keeps the number of rows |
| Session.RenameUpTo | watson/watson.py:553-585 | the rename loop keeps the number of rows |
| Session.RenameEach | watson/watson.py:553-585 | every row carrying the old name renamed, and every other row as it was |
| Session.RenameStepAt | watson/watson.py:553-585 | a turn on a row that no earlier id prefixes rewrites that row in place |
| Session.RenameUpToRows | watson/watson.py:553-585 | with prefix-free ids, the visited rows are renamed and the rest are untouched |
| Session.RenameChangesOnlyCarriers | watson/watson.py:553-585 | with prefix-free ids, a rename changes exactly the rows carrying the old name |
| Session.ValidateReportOptions | watson/watson.py:458-460 | false exactly when both lists are given and share a name |
| Session.LastGiven | watson/watson.py:466-468 | the last shortcut given wins; with none given, `from` is kept |
| Session.ReportStart | watson/watson.py:466-468 | the shortcut loop computes the last shortcut given |
| Session.CurrentFrame | watson/watson.py:480-486 | the temporary frame has id `current`, the running project and start, and stops now |
| Session.CurrentFrameRemoved | watson/watson.py:500-501 | deleting `current` removes exactly the temporary frame when no stored id starts with `current` |
| Session.WithoutCurrent | watson/watson.py:500-501 | when no id starts with `current` nothing is removed; otherwise exactly the one row it finds goes |
| Session.SumDurations | watson/watson.py:503-551 | the loop computes the total time of the frames |
| Session.TagTime | watson/watson.py:536-546 | the loop computes the total time of one tag's frames |
| Session.ProjectEntry | watson/watson.py:503-551 | the loops compute one project's report entry |
| Session.ProjectReportsSnoc | watson/watson.py:503-551 | the report entries of one more project extend the list by that project's entry |
| Session.BuildReport | watson/watson.py:503-551 | the loop over projects computes the report |
| Session.Watson.constructor | watson/watson.py:190-212 | the session holds the given store and configuration, and the running frame from the saved state |
| Session.Watson.SetCurrent | watson/watson.py:190-212 | the running frame after an assignment to `current` |
| Session.Watson.Start | watson/watson.py:250-281 | on success the new frame runs; on failure nothing changes |
| Text.Dedupe | watson/watson.py:275 | the tags of a new frame: each once, the same set of tags, and a list without repeats unchanged |
| Session.Watson.IsStarted | watson/watson.py:234-235 | true exactly when a frame is running |
| Session.Watson.DefaultTags | watson/watson.py:259 | the project's entry in the `default_tags` section read as a list, `[]` when there is none |
| Session.Watson.UseCurrent | watson/watson.py:480-481 | the argument when given; otherwise true exactly when `options.report_current` holds one of the true words, in any letter case |
| Session.Watson.MergeReportOf | watson/watson.py:437-456 | from the file's frames, in order: merging those that are not column names and whose id no local id starts with; conflicting those found with different content; none in both |
| Session.Watson.Stop | watson/watson.py:283-306 | on success the running frame is stored with its stop and nothing runs; on failure nothing changes |
| Session.Watson.Cancel | watson/watson.py:308-314 | returns the running frame and forgets it, or an error when nothing runs; the frames are untouched |
| Session.Watson.Add | watson/watson.py:238-248 | appends one stopped frame with the given and default tags, or fails without change |
| Session.Watson.Projects | watson/watson.py:316-321 | every project used by a frame, sorted, each once |
| Session.Watson.Tags | watson/watson.py:323-328 | every tag used by a frame, sorted, each once |
| Session.Watson.Report | watson/watson.py:462-551 | the error for each failed check of the options; otherwise the report of the filtered frames, with the temporary frame removed again |
| Session.Watson.ReportRows | watson/watson.py:480-551 | the report of the filtered rows, and the rows left afterwards |
| Session.Watson.ApplyRename | watson/watson.py:553-585 | the rows after the rename loop, with the store marked changed |
| Session.Watson.RenameProject | watson/watson.py:553-568 | an unknown project is an error without change; otherwise the rename loop runs |
| Session.Watson.RenameTag | watson/watson.py:570-585 | an unknown tag is an error without change; otherwise the rename loop runs |
| Session.Watson.FramesToWrite | watson/watson.py:154-156 | the frames are written exactly when the store changed, and, when no stop is 0, what is written loads back as the frames |
| Commands.LeadingWords | watson/cli.py:246-248 | the longest prefix of the arguments in which no word starts with `+` |
| Commands.ProjectName | watson/cli.py:246-250 | the error when no project is given |
| Commands.ProjectNameWords | watson/cli.py:246-250 | refused exactly when no word, or only an empty word, comes before the first tag; otherwise the words joined by spaces |
| Commands.StripDashes | watson/cli.py:61 | the flag with the runs of `-` at both ends cut off: a slice whose prefix and suffix are all `-` and which neither starts nor ends with `-` |
| Commands.DistinctValues | watson/cli.py:52-53 | the set of values has more than one element exactly when two values differ |
| Commands.HandleParseResult | watson/cli.py:48-67 | fails exactly when a given option meets an excluded one or a repeated option has two values; the error names the excluded options and the flag |
| Commands.StartGuard | watson/cli.py:246-279 | no project, or a started project with no gap allowed, is an error; otherwise stop first exactly when something runs and `stop_on_start` is set |
| Commands.RestartGuard | watson/cli.py:361-391 | an error when nothing was ever tracked; with a project running, an error unless a gap is allowed and stopping is asked for, by flag or by `stop_on_restart`; the result says whether to stop first |
| Commands.LogGuard | watson/cli.py:1039-1053 | an error when the start is after the end or when filter and ignore lists clash; otherwise the start |
| Commands.Highlight | watson/cli.py:1659-1661 | the tags the local frame lacks are wrapped in `**` |
| Commands.StoredAsWritten | watson/cli.py:1643-1678 | as written, the stored frame carries the highlighted tags, and differs from the incoming frame whenever a tag was highlighted |
| Commands.ResolveStep | watson/cli.py:1628-1678 | one turn of the conflict loop keeps the number of rows |
| Commands.ResolveUpTo | watson/cli.py:1628-1678 | the conflict loop keeps the number of rows |
| Commands.FailureStops | watson/cli.py:1628-1678 | once a lookup fails, later turns change nothing |
| Commands.KeepingLocalChangesNothing | watson/cli.py:1676-1678 | keeping every local frame leaves the rows as they were |
| Commands.StoresIncomingFrame | watson/cli.py:1676-1678 | choosing the incoming frame replaces exactly the row its id finds with the incoming frame |
| Commands.HighlightLeaksIntoStore | watson/cli.py:1643-1678 | as written, answering `r` for a frame with a new tag stores the tag as `**y**`; the corrected loop stores the incoming frame |
| Commands.Readded | watson/cli.py:1681-1684 | a frame added back through its dump is the same frame, with a fresh id when its id is empty |
| Commands.ReaddedAll | watson/cli.py:1681-1684 | every merging frame added back, in order |
| Commands.ResolveOne | watson/cli.py:1628-1678 | one turn of the conflict loop on the store, as the code runs it (`asWritten`) or corrected; the store is marked changed exactly when the incoming frame is taken |
| Commands.ResolveConflicts | watson/cli.py:1628-1678 | the whole conflict loop on the store, as the code runs it (`asWritten`) or corrected, stopping at the first failed lookup |
| Commands.AddMerging | watson/cli.py:1681-1684 | the merging frames are appended, in order |
| Commands.Merge | watson/cli.py:1601-1688 | stops with no change when there is nothing to do or the user declines; otherwise resolves (with the code's loop or the corrected one, by `asWritten`), adds, and marks the store changed |
| Commands.AggregateDays | watson/cli.py:872-882 | the days from `from`, one per day, up to `to` and no further |
| Completion.FrameIds | watson/autocompletion.py:105-109 | the ids of the frames, in order |
| Completion.GetProjects | watson/autocompletion.py:55-60 | the session's projects that start with the typed text, sorted and each once |
| Completion.GetTags | watson/autocompletion.py:90-95 | the session's tags that start with the typed text, sorted and each once |
| Completion.GetFrames | watson/autocompletion.py:98-109 | the frame ids that start with the typed text, in frame order |
| Completion.GetRenameTypes | watson/autocompletion.py:83-87 | at most two: `project` and `tag`, each exactly when it starts with the typed text |
| Completion.FixBrokenTagParsing | watson/autocompletion.py:19-27 | the typed tag with every space removed |
| Completion.GetProjectOrTaskCompletion | watson/autocompletion.py:7-52 | before any `+` token, the matching projects; after one, each suggestion is `+` followed by a session tag |
| Completion.ProjectsAndTagsOffered | watson/autocompletion.py:55-95 | projects and tags are offered sorted, each once, exactly those starting with the typed text |
| Completion.FramesOffered | watson/autocompletion.py:98-109 | frame ids are offered in frame order, exactly those starting with the typed text, all when nothing is typed |
| Completion.RenameTypesOffered | watson/autocompletion.py:83-87 | `project` and then `tag`, each when it starts with the typed text |
| Completion.GetRenameName | watson/autocompletion.py:63-80 | projects for a project rename, tags for a tag rename, nothing otherwise |
| Completion.AnyTagToken | watson/autocompletion.py:44-45 | true exactly when some token starts with `+` |
| Completion.GetIncompleteTag | watson/autocompletion.py:13-17 | the last tag found on the command line, or the empty text |
| Completion.JoinSplitRemoves | watson/autocompletion.py:27 | joining the pieces of a split with nothing between them removes the separator |
| Completion.FixRemovesSpaces | watson/autocompletion.py:19-27 | the fix removes every space and keeps every other character |
| Completion.PrependPlus | watson/autocompletion.py:29-42 | each suggestion gets a `+` in front, in order |
| Completion.CompletionModes | watson/autocompletion.py:7-52 | tag mode exactly when a token starts with `+`, offering `+tag` for each matching tag; otherwise the matching projects |
| ConvFrames.ToNew | scripts/conv_frames.py:24-25 | the fields reordered into the new layout |
| ConvFrames.ToOld | scripts/conv_frames.py:28-29 | the fields reordered into the old layout |
| ConvFrames.ConversionsInverse | scripts/conv_frames.py:24-29 | the two reorderings undo each other |
| ConvFrames.DirectionOf | scripts/conv_frames.py:22 | the new layout exactly when the first two fields are integers; IndexError when a field that is read is missing |
| ConvFrames.ConvertRows | scripts/conv_frames.py:24-29 | every row reordered one way; IndexError exactly when some row has fewer than six fields |
| ConvFrames.Convert | scripts/conv_frames.py:21-29 | nothing to do for no frames; otherwise one converted row per frame |
| ConvFrames.ConvertKeepsTail | scripts/conv_frames.py:24-29 | tags and `updated_at` are carried over; start and stop move from the front to the middle |
| ConvFrames.ConvertTwice | scripts/conv_frames.py:21-29 | running the script twice restores six-field rows whose layout is recognisable both ways |
| Requirements.AfterEgg | setup.py:31 | the text after the first `#egg=`, up to any next one |
| Requirements.Requirement | setup.py:27-32 | a line contributes nothing exactly when its stripped form is a comment or an option |
| Requirements.RequirementValue | setup.py:27-32 | a contributed name is the stripped line, or the stripped text after `#egg=`, and has no surrounding whitespace |
| Requirements.Contributions | setup.py:26-32 | what each line contributes, in order |
| Requirements.CollectedMembers | setup.py:25-35 | the result holds exactly the contributed names that are not ignored |
| Requirements.CollectedSnoc | setup.py:26-34 | reading one more line adds what it contributes |
| Requirements.ParseRequirements | setup.py:18-35 | the loop computes the collected names |
| Requirements.IgnoredAndSkipped | setup.py:28-34 | no ignored name is collected, and a comment or option line adds nothing |
| Requirements.BlankLineContributesEmpty | setup.py:27-34 | a blank line contributes the empty name |
| Requirements.EggLineContributesName | setup.py:30-32 | a line `<url>#egg=<name>` contributes its name |
| CliDocs.Heading | scripts/gen-cli-docs.py:14-16 | `### `, the heading, a newline |
| CliDocs.Usage | scripts/gen-cli-docs.py:18-24 | a fenced `bash` block holding the prefix, the program and the arguments, separated by spaces |
| CliDocs.Reindent | scripts/gen-cli-docs.py:33-44 | one kept row per line |
| CliDocs.IndentBeforeStep | scripts/gen-cli-docs.py:30-44 | the first row is not indented; each row hands the indenting switch on |
| CliDocs.ReindentedAt | scripts/gen-cli-docs.py:33-46 | as many rows as lines; each is read with the switch the rows before it leave |
| CliDocs.IndentedKeeps | scripts/gen-cli-docs.py:35-42 | indenting changes neither whether a row holds a backspace nor whether it is blank |
| CliDocs.IndentAfterOriginal | scripts/gen-cli-docs.py:35-42 | the switch can be read on the row as given |
| CliDocs.IndentIff | scripts/gen-cli-docs.py:33-44 | a row is indented exactly when an earlier row holds a backspace and no blank row comes after it |
| CliDocs.OpenedStep | scripts/gen-cli-docs.py:38-42 | a row that is neither blank nor holds a backspace passes the state on |
| CliDocs.RemoveFirstAfterIndent | scripts/gen-cli-docs.py:35-39 | removing the first backspace of an indented row removes the row's own |
| CliDocs.RowShape | scripts/gen-cli-docs.py:33-44 | each kept row is the line with its first backspace removed, behind four spaces when indented; the first row never is |
| CliDocs.PlainTextUnchanged | scripts/gen-cli-docs.py:26-46 | text without a backspace is written unchanged, plus a final newline |
| CliDocs.DlLineParts | scripts/gen-cli-docs.py:60 | where the term and the help sit in a table line |
| CliDocs.DlLines | scripts/gen-cli-docs.py:59-60 | one table line per row, in order |
| CliDocs.DlLineInjective | scripts/gen-cli-docs.py:60 | a line gives back its term and help when the term holds no backtick |
| CliDocs.DlInjective | scripts/gen-cli-docs.py:48-61 | two tables of backtick-free terms are written the same only for the same rows |
| CliDocs.ReindentRow | scripts/gen-cli-docs.py:34-44 | one turn of the loop: the kept row and the next switch |
| CliDocs.ReindentRows | scripts/gen-cli-docs.py:30-44 | the loop computes the re-indented rows |
| CliDocs.MarkdownFormatter.constructor | scripts/gen-cli-docs.py:12 | the buffer starts empty |
| CliDocs.MarkdownFormatter.Write | scripts/gen-cli-docs.py:12 | one piece appended to the buffer |
| CliDocs.MarkdownFormatter.WriteHeading | scripts/gen-cli-docs.py:14-16 | the heading text appended |
| CliDocs.MarkdownFormatter.WriteUsage | scripts/gen-cli-docs.py:18-24 | the usage block appended |
| CliDocs.MarkdownFormatter.WriteText | scripts/gen-cli-docs.py:26-46 | the re-indented text appended |
| CliDocs.MarkdownFormatter.WriteDl | scripts/gen-cli-docs.py:48-61 | a blank line, the table header, one line per row and a blank line appended |

## Left out

- File I/O is not modelled. This covers:
  - `Watson.save`, `_load_json_file` and `safe_save`;
  - reading and writing the frames, state and config files;
  - the conversion script's backup and rename steps;
  - the documentation generator's `main`;
  - the setup script's reading of its files.

  Each model starts from the content already read and ends with what
  would be written.
- Network sync (`push`, `pull`, `sync`) is not modelled. Only the merge
  algorithm it feeds is.
- Terminal output, styling, pagers and the `click` prompt machinery are
  not modelled. A user's answers (confirm, left/right) are parameters.
- Time zones and Arrow are not modelled. Instants are integer seconds, and
  the clock (`now`) and `hour_shift` are parameters.
- Fresh UUIDs are parameters.
- `shlex.split` and `parse_tags` are function parameters, not models.
- `deduplicate` is modelled as keeping each tag's first occurrence in
  order.
- `ConfigParser.getfloat` is left out, because floating-point parsing is
  out of scope.
- Parts of `RawConfigParser` are not modelled:
  - the `DEFAULT` section is refused by `set` and never consulted by reads;
  - `set` with the empty section name: `RawConfigParser` adds an empty
    section `""` but writes the option into the defaults, which reads of
    every section consult. The model stores it in a section named `""`,
    which only reads of that section see;
  - option names are lower-cased with ASCII `lower`;
  - reading the configuration file is not modelled.
- Config.ConfigParser.GetInt / Config.ParseInt: ASCII digits only. Python's
  `int()` also accepts the other Unicode decimal digits (category Nd), which
  the model rejects as a ValueError.
- Config.SplitLines: differs from Python's `str.splitlines` in three ways.
  `""` gives `[""]` instead of `[]`; a trailing line break gives a final
  empty piece; and `\r\n` counts as two breaks, leaving an empty piece
  between them. `Config.ListOf` drops blank pieces, so its result is the
  one `getlist` computes.
- Frames.OrderingIsNotEquality: the `<=` and `>=` operators on frames are not
  modelled. Python does not map them to the methods `__lte__` and `__gte__`,
  so on the named tuple they compare all six fields in tuple order, and they
  raise TypeError when one stop is missing and the other is not.
  `Frames.StartsNotAfter` models only the two methods.
- Timedelta.Truncate: exact truncation toward zero. Python's
  `total_seconds()` divides the microsecond count by 10**6 in floating point.
  From about 2**34 seconds up, with a non-zero microsecond part, that
  quotient can round to the next whole second away from zero, and `int` then
  gives a value one further from zero than the model does.
- `Commands.HandleParseResult` returns the excluded option names as a set.
  The order in which Python's set prints them in the message is not
  modelled.
- `Commands.RestartGuard` leaves out the styled rendering of the tags in
  the restart error.
- `Commands.AggregateDays` models which days `aggregate` reports on. The
  report invoked for each day is `Session.Watson.Report`.
- `Requirements.ParseRequirements` returns a set, because `tuple(set)` has
  no defined order.
- `ConvFrames.Convert`: a first row that is not a list (a JSON string or
  number) is not modelled. Rows are lists of JSON values.
- `CliDocs.MarkdownFormatter.WriteDl` takes rows of exactly two items. The
  script's `format(*row)` would accept longer rows too.
- `CliDocs.DlLineInjective`: the property is limited to terms without a
  backtick, because in general a table line does not determine its row.
- Frames.LoadRows: a stop of 0 read from the file is loaded as missing.
  Python's `Frame.__new__` keeps it as the integer 0, because its `if stop`
  only skips the conversion. Only `dump` then writes that stop as missing.
  The main round trip therefore requires that no stop is 0. What Python
  does with the kept 0 elsewhere is not modelled:
  - `start` without a gap after such a frame starts at the epoch; the model
    reports a frame with no stop;
  - a duration `stop - start` of such a frame (in `report` and `aggregate`)
    raises TypeError; the model counts the frame as having no stop.
- The `rename` CLI command's dispatch and every other CLI command not named
  above (edit, remove, status, config, help output) are not modelled.

## Findings

| source | as written | input that shows it | evidently intended | confidence | as-written member | corrected member |
|---|---|---|---|---|---|---|
| watson/cli.py:1643-1678 | `conflict_frame._replace()` copies the tuple but shares its tags list, so the highlighting loop writes `**tag**` into the incoming frame's own tags, and answering `r` stores those | local frame with tags `["x"]`, incoming frame with the same id and tags `["y"]`, answer `r`: the stored frame has tags `["**y**"]` | the incoming frame is stored as received; the highlighting only affects what is displayed | not executed | Commands.HighlightLeaksIntoStore | Commands.StoresIncomingFrame |
