# rename-cansti-channels, modelled in Dafny

`rename-cansti-channels` renames the channels of a Discord server so that they
match a *theme*. A theme is a text file of lines `<channel id> <name>`.
`#` starts a comment. A name in matching single or double quotes is kept
verbatim. Any other name is lower-cased, and each run of whitespace in it
becomes `-`. The tool reads one or more such files and merges them, with the
last file winning per id. It then walks the merged theme in order. A channel
that is missing, already has its target name, or that the bot may not manage
is skipped. Every other channel is renamed, or only reported in dry-run mode.
At the end the tool prints a table of the old and new names, with the old
names padded to a common width.

The project has these modules:

- `Text` (`text.dfy`): the Python string operations the parser uses. These are
  `str.isspace`, which is exactly the set `\s` matches; `str.find`,
  `str.strip` and `str.lower`; and `re.sub(r"\s+", "-", s)`.
- `OrderedDict` (`ordered_dict.dfy`): Python's insertion-ordered `dict`.
  - `d[k] = v` is `Assign`. An existing id keeps its position and a new id is
    appended.
  - `d.update(u)` is `Update`.
- `LineParser` (`line_parser.dfy`): the parser for one line and the
  specification functions `ParseLines` and `ParseFiles`. The readers are
  proved equal to these functions. `ReadLine` is the body of the line loop
  that both readers share. The type `ParsedLine` records that a line which
  yields an entry always yields a non-empty name.
- `ChannelList` (`channel_list.dfy`) and `ThemeFile` (`theme.dfy`): the
  readers' loops. They are written as methods over a file's lines. The two
  modules implement the same format, and both readers are proved equal to
  `ParseLines`, so `read_theme` and `read_channel_list` agree on every input.
- `Reconcile` (`reconcile.dfy`): the renaming loop. The guild is a `Guild`
  object. It holds a map from channel id to the channel's name and whether
  the bot may manage it. It also holds the ids whose edit the server
  rejects, and the list of edit calls made so far. The loop is proved equal
  to the fold `Run`.
- `Summary` (`summary.dfy`): the report at the end.

Channel ids are unbounded natural numbers. The code converts the digits with
`int()` and has no range check of its own.

## Model

| member | source | states |
|---|---|---|
| Text.Find | channel_list.py:25 | `str.find`. The result is -1 exactly when the character is absent. Otherwise it is an index holding the character, with no earlier occurrence. |
| Text.Lower | channel_list.py:48 | `str.lower` keeps the length, lower-cases each ASCII capital and leaves every other character alone. |
| Text.Strip | channel_list.py:29 | `str.strip`. The result is empty exactly when the line is all whitespace. Otherwise it starts and ends with non-whitespace, and it is the middle of the line between two all-whitespace margins. |
| Text.StripFramed | channel_list.py:29 | Stripping a whitespace-framed string gives back its middle. |
| Text.CollapseSpaces | channel_list.py:48 | `re.sub(r"\s+", "-", s)`. The result contains no whitespace, is empty only for empty input, is no longer than the input, and keeps a non-space first character. Every character is `-` or comes from the input. |
| Text.CollapseNoSpace | channel_list.py:48 | A string without whitespace is left unchanged. |
| Text.CollapseLastChar | channel_list.py:48 | A string ending in non-whitespace keeps its last character. |
| Text.CollapseSplit | channel_list.py:48 | A maximal whitespace run between two pieces becomes exactly one `-`, and the pieces on either side are collapsed independently. |
| Text.SpaceClass | channel_list.py:34 | `\s` and `str.isspace` take in ASCII and Unicode spaces and line breaks, but not `#`, quotes, `-`, U+0001, the zero-width space or any digit. |
| OrderedDict.Get | __main__.py:59 | The value `items()` pairs with a key: there is one exactly when the key is present, and it is the value stored with that key. |
| OrderedDict.Assign | channel_list.py:46-49 | `resp[channel_id] = name`. An existing key keeps its position. A new key is appended. |
| OrderedDict.AssignDistinct | channel_list.py:46-49 | Assignment never duplicates a key. |
| OrderedDict.AssignGet | channel_list.py:46-49 | After an assignment, the assigned key holds the new value and every other key is unchanged. |
| OrderedDict.Update | channel_list.py:60 | `resp.update(...)` keeps keys distinct. The keys of the old dict remain a prefix, in their order. |
| OrderedDict.UpdateGet | channel_list.py:60 | After an update, a key holds its last value in the new dict, or else its old value. |
| OrderedDict.UpdateKeys | channel_list.py:60 | The keys after an update are those of either dict and no others. |
| OrderedDict.LastValueOfDistinct | channel_list.py:60 | In a dict, the last value of a key is its only value. |
| OrderedDict.UpdateEmpty | channel_list.py:58-60 | Updating an empty dict with a dict gives that dict back, order included. So starting from the first file's dict is the same as updating `{}` with it. |
| OrderedDict.UpdateOnto | channel_list.py:60 | Updating with entirely new keys appends them in order. |
| LineParser.CutAt | channel_list.py:25-27 | Cutting at a character, as the comment cut does with `#` and `.+` does with a line feed. The result holds no such character. It is a prefix of the line, and it is followed by the line's first such character if there is one. |
| LineParser.CutCommentOf | channel_list.py:25-27 | A `#`-free body followed by a comment is cut back to exactly that body. |
| LineParser.Value | channel_list.py:38 | `int()` of a digit run of length n is below 10^n, and at least 10^(n-1) when the run does not start with `0`. |
| LineParser.Decimal | channel_list.py:38 | `str(n)`, which the code never calls: it is the witness for `ValueOfDecimal`. Every id has a non-empty spelling made only of digits. |
| LineParser.ValueOfDecimal | channel_list.py:38 | `int()` of an id's decimal spelling is the id. |
| LineParser.ValueLeadingZero | channel_list.py:38 | A leading zero does not change the id. |
| LineParser.LeadingDigits | channel_list.py:34 | The length of the leading run of digits: every character before it is a digit, and the next one is not. |
| LineParser.MatchLine | channel_list.py:34 | On a match, the id group is a non-empty digit run. The name group is non-empty, starts with non-whitespace and holds no line feed. |
| LineParser.MatchLineIff | channel_list.py:34-36 | `MatchLine` succeeds exactly on the lines of the form digits, whitespace, then at least one more character other than a line feed. |
| LineParser.QuotedExamples | channel_list.py:6 | Matching quotes of either kind are accepted and may enclose the other kind. Mismatched quotes, an empty interior, a lone quote, an unquoted name and an interior holding U+0001 are not. |
| LineParser.QuotedForm | channel_list.py:43-46 | Any non-empty text free of U+0001 between two equal quotes counts as quoted, and its interior is what is stored. |
| LineParser.Normalize | channel_list.py:48 | An unquoted name becomes a name without whitespace that `lower()` leaves unchanged. It is empty only for empty input. |
| LineParser.NormalizeSplit | channel_list.py:48 | Normalising works word by word: each maximal whitespace run becomes one `-`, and the pieces on either side are normalised on their own. |
| LineParser.NormalizeWord | channel_list.py:48 | A name without whitespace is only lower-cased. |
| LineParser.NormalizeTwoWords | channel_list.py:48 | Two words around a whitespace run become the lower-cased words joined by one `-`. |
| LineParser.NormalizeExample | channel_list.py:48 | `Hello   World` is stored as `hello-world`. |
| LineParser.NormalizeIdempotent | channel_list.py:48 | Normalising an already normalised name changes nothing. |
| LineParser.NormalizeEnds | channel_list.py:48 | A stripped name keeps its first and last character, lower-cased. So the result has no leading or trailing `-` unless the name itself had one. |
| LineParser.ChannelName | channel_list.py:43-49 | The stored name is never empty. A fully quoted name is stored as its exact interior. Any other name is stored with no whitespace and in lower case. |
| LineParser.ParseLine | channel_list.py:25-49 | One line: blank, malformed or an (id, name) entry with a non-empty name. A malformed line's error text is non-empty and starts and ends with non-whitespace. |
| LineParser.ReadLine | channel_list.py:23-49 | The body of the reading loop, statement for statement. It classifies a raw line exactly as `ParseLine` does: blank, malformed with the stripped text, or an (id, name) entry. |
| LineParser.ParseLineCases | channel_list.py:25-36 | A line is blank exactly when it is all whitespace up to its first `#`. It is malformed exactly when it is not blank and the stripped text fails the line pattern. The error carries that stripped text. |
| LineParser.CommentIgnored | channel_list.py:25-27 | A line gives the same result as the line cut at its first `#`, even when the `#` sits inside quotes. |
| LineParser.LineShape | channel_list.py:23-49 | A line made of optional indentation, digits, whitespace, a name, optional whitespace and an optional comment yields exactly the id's value and the stored form of that name. |
| LineParser.NoHashIn | channel_list.py:25-34 | A well-formed line without a comment holds no `#`. |
| LineParser.MatchFramed | channel_list.py:34 | Such a line splits into exactly its digits and its name. |
| LineParser.QuotedLine | channel_list.py:43-46 | `42 "Hello World"` stores `Hello World` verbatim under 42, case and spacing included. |
| LineParser.UnquotedLine | channel_list.py:48-49 | Any other name is stored in normalised form under the id's value. |
| LineParser.AssignKeepsNames | channel_list.py:46-49 | Assigning a non-empty name keeps every stored name non-empty. |
| LineParser.UpdateKeepsNames | channel_list.py:60 | `dict.update` with a dict of non-empty names keeps every name non-empty. |
| LineParser.Classify | channel_list.py:22-49 | One classified result per line of the file. |
| LineParser.ClassifySplit | channel_list.py:22 | Classifying a file in two parts gives the two parts' results one after the other. |
| LineParser.Apply | channel_list.py:22-51 | Reading results into a dict keeps ids distinct and names non-empty. |
| LineParser.ApplyStep | channel_list.py:28-49 | One turn of the loop: a blank line adds nothing, a malformed line stops reading with the error, and an entry is assigned into the dict. |
| LineParser.ParseLines | channel_list.py:21-51 | A successful read has distinct ids and non-empty names. |
| LineParser.FirstMalformed | channel_list.py:34-36 | The index of the first malformed line. No earlier line is malformed. |
| LineParser.ApplyFails | channel_list.py:34-36 | Reading fails exactly when some result is malformed. The error is the first malformed line's. |
| LineParser.ParseLinesFails | channel_list.py:22-36 | A file fails to read exactly when one of its lines is malformed. The error carries the first such line's stripped text, and no earlier line is malformed. |
| LineParser.ApplyIsUpdate | channel_list.py:21-51 | A successful read equals `dict.update` with the file's entries in file order. |
| LineParser.ApplySplit | channel_list.py:22-51 | Reading a file in two parts gives the same result as reading it whole. |
| LineParser.LastLineWins | theme.py:50-53 | Within one file, an id takes the name of its last line. It keeps the position of its first appearance, because later lines never move earlier ids. |
| LineParser.ReadEach | channel_list.py:58-60 | One read result per file, in argument order. |
| LineParser.Merge | channel_list.py:58-60 | Merging further files keeps ids distinct and, when every dict has non-empty names, keeps names non-empty. The keys read so far remain a prefix. |
| LineParser.ParseFiles | channel_list.py:54-61 | No files give an empty dict. A successful merge has distinct ids and non-empty names. |
| LineParser.ReadEachDistinct | channel_list.py:58-60 | Every file that reads successfully has distinct ids. |
| LineParser.ReadEachNamed | channel_list.py:58-60 | Every file that reads successfully has non-empty names. |
| LineParser.MergeLastWins | channel_list.py:58-60 | Merging is last-write-wins per id across the dicts in order. Ids that only the starting dict defines are kept. |
| LineParser.FilesLastWins | channel_list.py:54-61 | Each id ends with the name that the last file defining it gives. |
| LineParser.MergeFails | channel_list.py:58-60 | Merging fails exactly when one of the dicts failed. |
| LineParser.ParseFilesFails | channel_list.py:58-60 | Reading several files fails exactly when one of them has a malformed line. |
| LineParser.MergeFirstError | channel_list.py:58-60 | When dicts fail, the merge returns the error of the first failing one; later files are never consulted. |
| LineParser.ParseFilesFirstError | channel_list.py:58-60 | Reading several files returns the error of the first failing file in argument order, which carries that file's first malformed line. The same holds for themes. |
| ChannelList.ReadChannelList | channel_list.py:13-51 | The line loop returns `ParseLines` of the file. |
| ChannelList.ReadChannelLists | channel_list.py:54-61 | The merge returns `ParseFiles` of the files. It returns `{}` when there are no paths, and fails exactly when some file fails. |
| ThemeFile.ReadTheme | theme.py:17-55 | The line loop returns `ParseLines` of the file, the same as `read_channel_list`. |
| ThemeFile.ReadThemes | theme.py:58-65 | The loop returns `ParseFiles` of the files, starting from `{}`. It fails exactly when some file fails. |
| Reconcile.Guild.Lookup | __main__.py:60 | `get_channel_or_thread` finds a channel exactly when the id is present, and returns that channel. |
| Reconcile.Guild.Edit | __main__.py:80 | `channel.edit` is called and recorded. It succeeds exactly when the server accepts the edit, and only then renames that one channel. |
| Reconcile.Run | __main__.py:58-83 | Each theme entry logs exactly one outcome, after all earlier outcomes. |
| Reconcile.Reconcile | __main__.py:58-83 | The loop leaves the guild, `channel_updates` and the outcome log as `Run` describes. |
| Reconcile.ExpectedAll | __main__.py:59 | One expected outcome per theme entry. |
| Reconcile.ExpectedAllAt | __main__.py:59-72 | The i-th expected outcome is that of the i-th theme entry. |
| Reconcile.Check | __main__.py:63-72 | The checks in the loop's order. Only a channel that is present, named differently and manageable reaches the edit, as an update from its current name. A missing channel is reported as such. A channel already carrying its target name is skipped as such, even without permission. |
| Reconcile.ExpectedFromCheck | __main__.py:60-83 | The reference outcome of an entry is the loop's checks, with a rejected edit turning the update into an edit failure. |
| Reconcile.StepEffects | __main__.py:60-83 | One turn of the loop logs the entry's reference outcome. A skipped entry changes nothing except the log. Dry-run mode never edits or renames. A failed edit records nothing. The entry's own channel is renamed exactly when it comes out updated outside dry-run mode, and no other channel changes. |
| Reconcile.RunRecords | __main__.py:77-81 | `channel_updates` holds exactly the (old name, target) pairs of the renamed entries, or of the would-be-renamed entries in dry-run mode, in theme order. |
| Reconcile.RunEdits | __main__.py:78-83 | Outside dry-run mode, `edit` is called exactly for the entries that passed the checks, in order, whether or not the call succeeds. In dry-run mode it is never called. |
| Reconcile.DryRunLeavesGuild | __main__.py:79-81 | Dry-run mode renames nothing and calls `edit` for nothing. |
| Reconcile.ExpectedAllFrame | __main__.py:60-67 | Outcomes depend only on the channels the theme names. |
| Reconcile.RunLog | __main__.py:59-83 | Each entry's outcome is the one its channel's state before the loop dictates: not found, same name, no permission, edit failed, or updated from the old name. A failure affects only its own entry, and later entries are still processed. |
| Reconcile.RunChannels | __main__.py:77-81 | A named channel ends with its target name exactly when it was updated outside dry-run mode. Every other channel keeps its state, and no channel appears or disappears. |
| Reconcile.RunOthers | __main__.py:59-83 | The loop renames no channel the theme does not name, and adds or drops none. |
| Reconcile.RerunEntry | __main__.py:60-83 | One entry on a second run, each run with its own rejected edits: an entry the first run renamed comes out with the same name, an entry the checks skipped is skipped the same way, and an entry whose edit failed is retried, succeeding exactly when the server now accepts it. |
| Reconcile.RerunOnlyRetries | __main__.py:58-83 | Running the loop a second time outside dry-run mode: each entry the first run renamed comes out with the same name. The second run calls `edit` exactly for the entries whose first-run edit failed, with the same reason. By `RerunEntry`, such an entry comes out updated, and is recorded, exactly when the server now accepts the edit. |
| Reconcile.RerunAfterCleanRun | __main__.py:58-83 | After a run in which no edit failed, a second run records no update and calls `edit` for nothing. |
| Reconcile.AttemptsFrom | __main__.py:78-83 | Every edit call goes back to an updated or failed entry with the same id and name. |
| Reconcile.AttemptsReason | __main__.py:80 | Every edit call carries the run's reason. |
| Reconcile.NoUpdatesRecorded | __main__.py:81 | A log without updates records nothing. |
| Reconcile.NoAttempts | __main__.py:80 | A log without updates or edit failures made no edit call. |
| Summary.LeftJustify | __main__.py:90 | `str.ljust` returns the name, then spaces up to the width, and never shortens the name. |
| Summary.MaxOldLength | __main__.py:88 | The width is an upper bound on every old name's length, and some old name has exactly that length. |
| Summary.SummaryLines | __main__.py:85-91 | One line per recorded update, none when there is none. No line is shorter than the prefix, old name, separator and new name together, so nothing is truncated. |
| Summary.Summarize | __main__.py:85-91 | The report loop produces exactly `SummaryLines` of the updates. |
| Summary.SummaryLayout | __main__.py:85-91 | No updates give no lines. Otherwise there is one line per update, in order. Each line is the prefix, then the old name padded with spaces to the longest old name, then ` │ `, then the new name. So the separator stands in the same column on every line. |
| Summary.LineLayout | __main__.py:89-91 | One report line splits into its prefix, padded old name, separator and new name. |

## Left out

- Reading files and standard input (channel_list.py:15-19, theme.py:19-23) is not modelled. A file is given as its sequence of lines.
- `ParserError` keeps only the offending line. The two modules word the message differently, and that text is not modelled.
- `\d`, `int()` and `str.lower()` are restricted to ASCII. Non-ASCII decimal digits and letters are treated as ordinary characters.
- LineParser.MatchLine: requires a line with no trailing whitespace. The reader only ever matches stripped lines. On other strings, the regular expression's backtracking into the whitespace run is not modelled.
- auth.py is not part of this model: environment lookup, login and the client task. The same goes for argument parsing, logging setup, waiting for the client, and the guild and member lookups with their `RuntimeError`s (__main__.py:15-56).
- Log severities and message texts are not modelled. Each theme entry yields one `Outcome` tag. The summary returns its lines instead of logging them.
- Reconcile.Guild.Edit: within one run the server is a fixed set of ids whose edit raises. The lemmas about a second run give it a set of its own, since a rejection may be transient. The network call, its asynchrony, and any other way an edit can fail or partly succeed are not modelled.
- Reconcile.Guild.Edit: a successful edit is assumed to store the name exactly as sent. A server that rewrites names (Discord lower-cases and hyphenates text-channel names) is not modelled. Reconcile.RerunEntry, Reconcile.RerunOnlyRetries and Reconcile.RerunAfterCleanRun hold only under that assumption: otherwise a second run finds a name that differs from the target and edits again.
- LineParser.Value: `int()`'s default limit of 4300 digits is not modelled. Beyond it `int()` raises `ValueError`, an exception other than `ParserError` that aborts the program, while the model yields an entry for such a line.
- `get_channel_or_thread` also finds threads. The model has a single map of renameable channels.
- Reconcile.RunLog, Reconcile.RunChannels, Reconcile.RerunOnlyRetries and Reconcile.RerunAfterCleanRun assume that the theme names each id once. This holds for every dict the readers produce, because `ParseFiles` has distinct keys.
