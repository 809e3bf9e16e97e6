# okta-cli: the update payload builders and the bulk update loop

okta-cli is a command-line client for the Okta user directory. Most of its
commands are thin wrappers around remote calls. This project models the
logic in `oktacli/cli.py` that sits between the user's input and those
calls, and proves properties of it:

- **`k=v` assignments** (`--set`, `--match`). A list of `key=value` strings
  becomes a dictionary. An item that does not split on `=` into exactly
  two parts is an error, and a later item overrides an earlier one with
  the same key. With `users update --context c`, every key is prefixed
  with `c.` (module `Assignments`).
- **`_dict_flat_to_nested`**. A flat dictionary with dotted keys
  (`one.two.three`) becomes a nested object. Defaults are written first
  and the record's own keys after them, so the record wins at a shared
  path (module `Nested`). The original writes into a third-party
  dotted-path dictionary. Here the container is an explicit tree of leaves
  and nodes. A write that would turn a leaf into a node, or a node into a
  leaf, is an explicit `PathConflict` failure.
- **`_prepare_okta_filter_string`**. The substitution of `FILTER_PATTERN`
  that puts double quotes around the bare value after `eq`, `sw`, `gt`,
  `ge`, `lt` or `le`. It is modelled as a left-to-right scanner (module
  `FilterQuote`).
- **`_okta_get_groups_by_name`**. On an already-fetched group list, it
  keeps the groups whose lowercased name contains the lowercased query. It
  can also demand exactly one match (module `Groups`).
- **`users update`** and **`users update-csv`** (`users_bulk_update`), in
  module `Commands`:
  - `users update` builds a payload from the assignments.
  - `users update-csv` is a loop over CSV rows that are already parsed.
    Each row is an ordered dictionary from column to string. The loop
    resumes by index (`--jump-to-index`) or by login (`--jump-to-user`).
  - It stops at a limit, takes the login out of each row, and merges the
    rest over the `--set` defaults.
  - It records HTTP errors per row under the index
    `counter + jump_to_index` and continues.

Python dictionaries are association lists with distinct keys (module
`Dicts`). `str.split` is `SplitOn`: it always yields at least one part and
keeps empty parts. The remote update call is an oracle `Client`: given
the call number, the login and the payload, it returns the updated user,
an HTTP error (caught) or any other error (not caught).

The bulk loop is the method `Commands.UsersBulkUpdate`, written as in the
source:

- a skipping loop for `jump_to_index`;
- a `for row in dr` loop that keeps `counter`, `rv`, `errors` and the
  `jump_to_user` cursor as mutable state.

Its contract ties its result to the recursive definition
`Commands.BulkUpdate`. `Commands.BulkUpdateIsStaged` then proves that this
definition equals a staged description with three stages:

1. parse the defaults;
2. select the rows: skip, seek the login, then cut by the limit;
3. process the selected rows.

All the properties of resumption, limit and reporting are proved on the
staged form.

Behaviour reproduced as the code has it:

- The row whose login equals `--jump-to-user` is itself processed. Rows
  passed over while seeking it do not advance `counter`.
- The limit test `counter > limit` comes before a row is processed. So
  `--limit L` with `L > 0` processes up to `L + 1` rows, although the
  option's help text reads "Stop after NUM updates". A negative limit
  stops at the first row. `0` means no limit.
- The merge of a row happens outside the `try`, so a merge conflict ends
  the whole command. Only the HTTP error of the update call is caught.
  Any other exception ends the command.
- A negative `--jump-to-index` skips nothing but still shifts the
  recorded error indices.
- Skipping past the end of the file is an error (`InputExhausted`).
- An empty context and an empty `--jump-to-user` count as absent.

## Model

| member | source | states |
|---|---|---|
| Assignments.ParseAssignments | oktacli/cli.py:390 | the dict comprehension over `k=v` items; specified by `ParseAssignmentsSpec` (success iff every item parses, first error reported, later items win) |
| Assignments.ParseInto | oktacli/cli.py:390 | the comprehension from a partial dictionary; specified by `ParseIntoOutcome` and `ParseIntoValues` |
| Assignments.WithContext | oktacli/cli.py:391-392 | the `if context:` rewrite of every key; specified by `ContextSpec`, and an absent or empty context leaves the dictionary as it is |
| Dicts.Get | oktacli/cli.py:431 | a key has a value exactly when some entry has that key, and the value returned is that entry's |
| Dicts.Put | oktacli/cli.py:390 | after storing `k -> v`, `k` reads `v` and every other key reads as before; keys stay distinct; the length grows only for a new key |
| Dicts.Remove | oktacli/cli.py:435 | after `pop`, the key has no value and every other key reads as before; keys stay distinct |
| Dicts.SplitOn | oktacli/cli.py:390 | `str.split` yields at least one part, and no part contains the separator |
| Dicts.JoinSplit | oktacli/cli.py:390 | joining the parts of a split with the separator gives back the string |
| Dicts.SplitJoin | oktacli/cli.py:47-50 | splitting a join of separator-free parts gives back the parts |
| Dicts.SplitInjective | oktacli/cli.py:47-50 | two keys with the same dotted path are the same key |
| Dicts.SplitCount | oktacli/cli.py:390 | the number of parts is one more than the number of separators |
| Dicts.SplitConcat | oktacli/cli.py:391-392 | splitting `a.b` gives the parts of `a` followed by the parts of `b` |
| Assignments.ParseItem | oktacli/cli.py:390 | a parsed item is `key=value` with no `=` in key or value; a failure reports the item and a part count other than two |
| Assignments.ParseItemExact | oktacli/cli.py:390 | an item parses exactly when it holds one `=`; `k=v` with `=`-free `k`, `v` parses back to `(k, v)` |
| Assignments.ParseIntoOutcome | oktacli/cli.py:390 | the comprehension succeeds iff every item parses, and otherwise fails with the first malformed item's error |
| Assignments.ParseIntoValues | oktacli/cli.py:390 | each key maps to the value of the last item assigning it, else to what it had before |
| Assignments.ParseAssignmentsSpec | oktacli/cli.py:390 | success iff every item parses; failure carries the first malformed item's error; on success keys are distinct and each key maps to its last assignment (later wins) |
| Assignments.Prefixed | oktacli/cli.py:391-392 | entry `i` of the result is entry `i` of the input with its key rewritten to `c.k`, so the number of entries is kept; `PrefixedGet` states the lookups |
| Assignments.PrefixedGet | oktacli/cli.py:391-392 | a key reads a value after prefixing exactly when it is `c.` followed by a key that has that value before |
| Assignments.PrefixedDistinct | oktacli/cli.py:391-392 | prefixing keeps keys distinct |
| Assignments.ContextSpec | oktacli/cli.py:391-392 | with context `c`, key `c.k` holds what `k` held, a key without the `c.` prefix holds nothing, keys stay distinct, and the path of `c.k` is the path of `c` followed by the path of `k` |
| Nested.SetPath | oktacli/cli.py:59-65 | the dotted write `tmp[key] = val`; specified by `SetPathLookup`, `SetPathSucceeds`, `SetPathNodes` and `SetPathShaped` |
| Nested.MergeInto | oktacli/cli.py:60-65 | one write loop over a dictionary; specified by `MergeIntoLookup`, `MergeIntoClash` and `MergeIntoConcat` |
| Nested.Nest | oktacli/cli.py:46-66 | `_dict_flat_to_nested`: the defaults, then the record; specified by `NestLookup`, `NestKey` and `NestConflict` |
| Nested.SetPathLookup | oktacli/cli.py:59-65 | after a successful write of `v` at path `p`, `p` holds `v` and every other path reads as before |
| Nested.SetPathSucceeds | oktacli/cli.py:59-65 | a write succeeds exactly when no leaf lies on a strict prefix of the path and no node sits at the path |
| Nested.SetPathNodes | oktacli/cli.py:59-65 | after a write, the nodes are the old nodes plus the strict prefixes of the path |
| Nested.FlatToNested | oktacli/cli.py:46-66 | the two write loops (defaults, then the record) compute the merge `Nest(flat, defaults)` |
| Nested.PathOfKey | oktacli/cli.py:47-50 | a dotted key's path is a key path, and a key path is the path of exactly the key it joins to |
| Nested.MergeIntoLookup | oktacli/cli.py:62-65 | after merging a dictionary into a tree, each key's path holds the key's value, and every other path reads as in the tree |
| Nested.NestLookup | oktacli/cli.py:47-50 | in the merged object, a path holds the record's value for its key when the record has it, else the default's, and no non-key path holds a leaf |
| Nested.NestKey | oktacli/cli.py:56-66 | the path of a key holds the record's value when the record sets it, and otherwise the default's |
| Nested.SetPathShaped | oktacli/cli.py:59-65 | on a conflict-free tree, a write fails exactly when the new path conflicts with one already written, and success keeps the tree shaped by the written paths |
| Nested.MergeIntoClash | oktacli/cli.py:59-65 | merging fails exactly when the written paths and the new ones include a path that is a strict prefix of another |
| Nested.MergeIntoConcat | oktacli/cli.py:56-66 | merging a concatenation is merging the parts one after the other |
| Nested.ClashGrows | oktacli/cli.py:56-66 | a conflict among paths stays a conflict when paths are added |
| Nested.NestConflict | oktacli/cli.py:46-66 | the merge fails exactly when some path among the defaults' and the record's keys is a strict prefix of another |
| FilterQuote.PrepareFilter | oktacli/cli.py:69-70 | `_prepare_okta_filter_string`; specified by `PrepareFilterLeftmost`, `PrepareFilterIdentity`, `PrepareFilterAddsQuotes`, `PrepareFilterNoMatch` and `PrepareFilterIdempotent` |
| FilterQuote.TokenEnd | oktacli/cli.py:21 | the greedy `[^ )"]+` stops at the first character outside the class, or at the end |
| FilterQuote.PrepareFilterAddsQuotes | oktacli/cli.py:69-70 | removing double quotes from the output gives the input with its double quotes removed; the output is the input plus two characters per match |
| FilterQuote.PrepareFilterKeepsHead | oktacli/cli.py:69-70 | the output is never shorter, its first three characters are the input's, and a string shorter than four is unchanged |
| FilterQuote.PrepareFilterCopies | oktacli/cli.py:69-70 | before the first match, the substitution copies the text unchanged |
| FilterQuote.ReplacementShift | oktacli/cli.py:21 | a match, its token and its replacement do not depend on the text before the match |
| FilterQuote.PrepareFilterLeftmost | oktacli/cli.py:69-70 | at the leftmost match, the output is the text before it, the match quoted, then the rewriting of the rest after the token (leftmost, non-overlapping `re.sub`) |
| FilterQuote.PrepareFilterIdentity | oktacli/cli.py:21-22 | quoting leaves a string unchanged exactly when the pattern matches nowhere in it |
| FilterQuote.ReplacementNoMatch | oktacli/cli.py:21 | no match starts inside a quoted replacement |
| FilterQuote.PrepareFilterNoMatch | oktacli/cli.py:69-70 | the pattern matches nowhere in the output |
| FilterQuote.PrepareFilterIdempotent | oktacli/cli.py:69-70 | quoting twice is quoting once |
| FilterQuote.NoWordBoundary | oktacli/cli.py:21 | the pattern has no word boundary: `freq 5` becomes `freq "5"` |
| FilterQuote.QuotedValueKept | oktacli/cli.py:21 | a value already in double quotes is left alone: `name eq "x"` is unchanged |
| Groups.Lower | oktacli/cli.py:76 | `str.lower()` on ASCII; specified by `LowerTwice` and `IgnoresCase` |
| Groups.Matching | oktacli/cli.py:75-77 | `list(filter(...))` over the groups; specified by `MatchingMembers`, `MatchingConcat` and `EmptyQueryMatchesAll` |
| Groups.Find | oktacli/cli.py:76 | `find` returns -1 exactly when the needle never occurs, and otherwise returns the first occurrence |
| Groups.GroupsByName | oktacli/cli.py:73-81 | the result is the matching groups; it fails exactly when `unique` is set and the count is not one, reporting that count |
| Groups.NameMatchesSpec | oktacli/cli.py:76 | a name matches exactly when the lowered query occurs in the lowered name |
| Groups.MatchingMembers | oktacli/cli.py:75-77 | a group is returned exactly when it is in the list and its name matches |
| Groups.MatchingConcat | oktacli/cli.py:75-77 | filtering keeps the list order |
| Groups.EmptyQueryMatchesAll | oktacli/cli.py:76 | an empty query returns every group |
| Groups.IgnoresCase | oktacli/cli.py:76 | lowering the query or a name does not change whether it matches |
| Groups.LowerTwice | oktacli/cli.py:76 | lowering is idempotent |
| Commands.UpdatePayload | oktacli/cli.py:390-393 | the payload `users update` sends; specified by `UpdatePayloadSpec` (each scoped key's leaf), `UpdatePayloadLeaves` (no other leaf), `UpdatePayloadFails` (when it fails) and `UpdatePayloadContext` (the `-c` equivalence) |
| Commands.UpdatePayloadSpec | oktacli/cli.py:390-393 | the `users update` payload holds, at the path of `context.k`, the last value assigned to `k`; the path is the context's path followed by the key's |
| Commands.UpdatePayloadLeaves | oktacli/cli.py:390-393 | every leaf of the payload lies at the scoped path of a key some item assigns, so the payload holds nothing else |
| Commands.UpdatePayloadFails | oktacli/cli.py:390-393 | the command fails exactly when an item is malformed (with the first such item's error) or, the items being well formed, two scoped keys' paths clash |
| Commands.UpdatePayloadContext | oktacli/cli.py:364-368 | for a non-empty context `c` without `=`, `-s c.k=v ...` parses alike to `-c c -s k=v ...` and sends the same payload |
| Assignments.ParseIntoPrefixed | oktacli/cli.py:390-392 | parsing items prefixed with `c.` succeeds exactly when parsing the items does, and gives the prefixed dictionary |
| Assignments.ParseItemPrefixed | oktacli/cli.py:390 | with no `=` in `c`, `c.k=v` parses to `(c.k, v)` exactly when `k=v` parses to `(k, v)` |
| Assignments.PrefixedPut | oktacli/cli.py:390-392 | writing `c.k` into a prefixed dictionary is prefixing after writing `k` |
| Dicts.SplitPrefix | oktacli/cli.py:390 | text free of the separator in front of a string joins that string's first piece |
| Commands.Attempt | oktacli/cli.py:435-438 | a processed row up to the remote call: the login popped, the rest merged over the defaults, the call made; specified by `LoginIsTarget` and, over a batch, `Attempts` |
| Commands.Record | oktacli/cli.py:437-441 | the `try`/`except` around the call; specified, over any run of outcomes, by `RecordAllSucceeds`, `RecordAllCounts`, `RecordAllErrorSources`, `RecordAllErrorOrder`, `RecordAllErrorsComplete` and `RecordAllContents` |
| Commands.ProcessRow | oktacli/cli.py:435-441 | a processed row, recorded under `counter + jump_to_index`; `UpdateRow` computes it and `ProcessRecords` ties a batch of them to the `RecordAll` lemmas |
| Commands.RunRows | oktacli/cli.py:425-441 | the `for row in dr` loop from a given state; specified by `RunRowsWithoutCursor` and `RunRowsWithCursor` |
| Commands.BulkUpdate | oktacli/cli.py:412-443 | `users_bulk_update` on rows already read; `UsersBulkUpdate` computes it and `BulkUpdateIsStaged` relates it to the staged form |
| Commands.Selected | oktacli/cli.py:422-434 | the rows the loop processes: skip, seek the login, cut by the limit; specified by `SelectedByUser`, `ResumeByIndex`, `ResumeByUser` and `LimitBound` |
| Commands.UsersBulkUpdate | oktacli/cli.py:412-443 | the loop, with its mutable `counter`, `rv`, `errors` and cursor, computes `BulkUpdate` |
| Commands.SkipRows | oktacli/cli.py:422-423 | skipping `jump_to_index` rows reaches that position (none when negative), and fails with the row count exactly when there are fewer rows |
| Commands.UpdateRow | oktacli/cli.py:435-441 | the body for a processed row computes the row's effect on the report: the login popped, the rest merged over the defaults, the answer appended to `done` or `errors` |
| Commands.SeekLogin | oktacli/cli.py:430-434 | the search returns the first row whose login is the cursor, every earlier row having a different login; a row without a login before that is a `KeyError` |
| Commands.SeekLoginFinds | oktacli/cli.py:430-434 | when row `m` is the first with the login, the search returns `m` |
| Commands.RunRowsWithoutCursor | oktacli/cli.py:425-441 | without a cursor, the loop processes the rows the limit lets through |
| Commands.RunRowsWithCursor | oktacli/cli.py:430-434 | with a cursor, the loop seeks its row and continues from that row on, without a cursor and with the same counter |
| Commands.BulkUpdateIsStaged | oktacli/cli.py:412-443 | the loop is the three stages: parse the defaults, select the rows, process them |
| Commands.Attempts | oktacli/cli.py:435-438 | the outcomes of a batch: one per row, the `p`-th being the `p`-th row's attempt as call `counter + p` |
| Commands.ProcessRecords | oktacli/cli.py:435-441 | processing a batch records the outcomes of its rows, the `p`-th processed row making call `counter + p` |
| Commands.RecordAllSucceeds | oktacli/cli.py:437-441 | recording fails exactly when some outcome is a missing login, a merge conflict or a non-HTTP exception; HTTP errors never stop it |
| Commands.RecordAllCounts | oktacli/cli.py:437-441 | each outcome adds exactly one entry to `done` or `errors`, and earlier entries are kept |
| Commands.RecordAllErrorSources | oktacli/cli.py:439-440 | each new error entry's index names the outcome it records, which is an HTTP error with that payload and message |
| Commands.RecordAllErrorOrder | oktacli/cli.py:439-441 | error entries come in increasing index order |
| Commands.RecordAllErrorsComplete | oktacli/cli.py:439-440 | every HTTP error outcome has its error entry |
| Commands.RecordAllContents | oktacli/cli.py:437-443 | when every outcome goes through, `done` gains the returned users and `errors` the HTTP error entries, each in row order |
| Commands.LoginIsTarget | oktacli/cli.py:435-438 | the login is popped before the merge: the payload holds at `profile.login` only the default's value, and the login is the call's target |
| Commands.RecordHead | oktacli/cli.py:437-440 | recording the first outcome puts its user or its error entry in front of those of the rest |
| Commands.BulkSelected | oktacli/cli.py:412-434 | a completed run had parsable defaults and a successful row selection |
| Commands.BulkRecorded | oktacli/cli.py:412-443 | once defaults and selection succeed, the run records the outcomes of the selected rows, the `p`-th sent as call `p` |
| Commands.BulkCounts | oktacli/cli.py:437-443 | a completed run has one entry in `done` or `errors` per selected row |
| Commands.BulkSucceeds | oktacli/cli.py:435-443 | once the defaults parse and the rows are selected, the command completes exactly when every selected row goes through |
| Commands.BulkContents | oktacli/cli.py:437-443 | a completed run reports the users returned and the HTTP error entries, in the order of the selected rows |
| Commands.ResumeByIndex | oktacli/cli.py:422-423 | without cursor or limit, exactly the rows from `jump_to_index` on are processed, starting at call 0; more rows to skip than exist is an error |
| Commands.SelectedByUser | oktacli/cli.py:430-434 | without a limit, the rows selected with a cursor are those from the first row with its login on |
| Commands.ResumeByUser | oktacli/cli.py:430-434 | the rows before the first row with the login are passed over without counting; that row is processed first, as call 0 |
| Commands.LimitBound | oktacli/cli.py:428-429 | with `limit = L > 0` at most `L + 1` rows are processed, and exactly `L + 1` without a cursor when enough rows remain; a negative limit processes nothing |

## Left out

- Command-line wiring is not modelled: click groups, options and help text, and `_command_wrapper` (the global manager, JSON printing, exit codes).
- Remote calls are not modelled. In `users update-csv` the update call is the `Client` oracle; `users update` stops at the payload it would send.
- Reading the CSV file is not modelled: opening it, dialect sniffing and `DictReader`. Rows arrive already parsed, so short rows (missing values) and long rows (extra values under a `None` key) are not represented.
- Progress output on standard error and the `input()` confirmation prompts are not modelled.
- Configuration profiles are not modelled, and neither is `filter_users` (used by `users list --match`). `oktacli/api.py`, where both live, is not part of this model. The `--match` items are parsed by the same `ParseAssignments`.
- User-supplied regular expressions used to filter applications are not modelled: they are arbitrary Python regexes.
- The dotted-path dictionary library is not modelled itself. It is replaced by an explicit tree, so its own handling of numeric segments and collisions is not claimed. A collision is a `PathConflict` failure in both directions.
- Nested.FlatToNested: empty path segments (keys such as `a..b` or `.a`) are kept as ordinary segment names; the library's treatment of them is unknown.
- Groups.GroupsByName: `Lower` folds ASCII letters only, where Python's `str.lower` also lowers other scripts; and a group always has a name here, so the `KeyError` of `x["profile"]["name"]` (oktacli/cli.py:76) on a record without one cannot be represented.
- `users add` is not modelled: its flags and its CSV loop repeat `ParseAssignments` and `Nest` without any logic of their own.
- Commands.UsersBulkUpdate: `row.pop` is modelled on a copy of the row (`Remove`), so the aliasing of the reader's row object is not represented.
