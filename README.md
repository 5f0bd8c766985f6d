# upadup text-patch engine, in Dafny

upadup updates the version pins (`name==version`) that a `.pre-commit-config.yaml`
lists under a hook's `additional_dependencies`. It rewrites only the pins and
leaves every other byte of the file alone.

This project models the core of `src/upadup/main.py`:

- **Pins** (`pins.dfy`): `update_dependency`. It decides whether a dependency
  string is a pin by partitioning at the first `==`. It looks the package up
  in the version map: an unknown package is the `KeyError`, modelled as
  `Err(PackageNotFound)`. It proposes `name==new` only when the version changes.
- **Planner** (`planner.dfy`):
  - `build_updated_dependency_map`, as a loop filling a dict keyed by the
    dependency string;
  - the repo-key normalisation of `main`: casefold, restricted to ASCII, then
    the `.git` strip;
  - the nested loops of `main` that collect `all_updates` from the hooks the
    upadup configuration selects. These are modelled as written: each selected
    hook contributes the entries of its dict (`Keying.ByString`). A second
    keying, `ByToken`, gives every stale dependency token its own edit; it is
    the corrected behaviour of the finding below. The collection lemmas are
    stated for both.
- **Ordering** (`ordering.dfy`): `_sort_updates_key` and the stable `sorted`
  call. It is modelled by an insertion sort and proved equal to the one stable
  sort by `(line, col)`.
- **Patcher** (`patcher.dfy`): the splice loop of `create_new_content`.
  - One shared `line_offsets` map tracks, per line, how much earlier
    replacements changed the length. A later edit on the same line still
    lands on its original span.
  - Python slices clamp out-of-range bounds and count negative ones from the
    end. An edit naming a line past the file raises `IndexError`, modelled as
    `Err(LineOutOfRange)`.
  - The loop is a method. It is proved against a whole-file fold (`Patch`),
    and the fold against a reference meaning (`Replaced`): the original line
    with each edit's span `[col, col + len(old))` replaced.
- **Writer** (`writer.dfy`): the newline policy of `apply_updates`, and how a
  text-mode file translates `"\n"` on writing and line endings on reading.
- **Upadup** (`upadup.dfy`): `main` from the collection on. With no edits it
  does nothing. With `--check` it shows the diff and exits with 1. Otherwise
  it writes the patched text.

The file's lines, the parsed pre-commit configuration (with each dependency
token's line and column), the upadup configuration (repo key to hook ids) and
the version map are all inputs.

The model follows the code in two places where a reader might expect otherwise:

- In check mode the exit status follows `if all_updates:` (line 154), not
  whether the diff is non-empty.
- With several kinds of line ending, `apply_updates` takes the first element
  of the reader's `newlines` tuple (line 118). It does not take the first
  ending met in the file. CPython's reader reports the kinds in the fixed
  order `"\r"`, `"\n"`, `"\r\n"`, and `Writer.Observed` models that order.

## Model

| member | source | states |
|---|---|---|
| Pins.FirstSep | src/upadup/main.py:27 | None exactly when `==` does not occur; otherwise the index of the first `==`, with none before it |
| Pins.ParsePin | src/upadup/main.py:30 | `partition("==")`: nothing exactly when there is no separator; otherwise `name + "==" + version` is the input, and the name holds no `==` and does not end in `=` |
| Pins.ParsePinRoundTrip | src/upadup/main.py:30-36 | rendering a pin and partitioning it again gives the pin back iff its name is one partition can produce |
| Pins.UpdateDependency | src/upadup/main.py:24-36 | no `==` gives no update and no error; the lookup fails exactly for an unknown name, reporting that name; no update exactly when the pinned version is current; an update is `name==new`, keeps the name and differs from the input |
| Pins.ReplanIsNoOp | src/upadup/main.py:32-36 | the rewritten pin is itself up to date: planning it again gives no update |
| Pins.UpdatedPinParses | src/upadup/main.py:36 | the rewritten pin parses to the same name and the version the map gives |
| Patcher.Splice | src/upadup/main.py:89 | definition: `old_line[:begin] + new + old_line[end:]`, with Python's slice bounds; `SpliceHitsOriginalSpan` shows where it lands |
| Patcher.Turn | src/upadup/main.py:82-89 | definition: one turn of the loop, for an edit on an existing line, on the lines and the offsets |
| Patcher.Patch | src/upadup/main.py:80-89 | definition: the loop as a fold of `Turn` from an empty offset map read as zeros, stopping with `LineOutOfRange` at an edit past the last line |
| Patcher.NewContent | src/upadup/main.py:73-91 | definition: the lines `Patch` leaves, or its error |
| Patcher.PyBound | src/upadup/main.py:89 | a slice bound never exceeds the line length |
| Patcher.PyBoundResolves | src/upadup/main.py:89 | a bound inside the line is used as given; a negative bound counts from the end |
| Patcher.OffsetIsHeadGrowth | src/upadup/main.py:84-86 | after a line's edits, its offset is how much the rewritten part of the line grew compared with the original text it covers |
| Patcher.LineApplyIsReplaced | src/upadup/main.py:81-89 | the offset-tracked splices of one line's fitting edits give the original line with each span replaced and all other text kept |
| Patcher.SpliceHitsOriginalSpan | src/upadup/main.py:84-85 | each splice's `[begin, end)` in the current text is inside it and holds exactly the edit's old value, when that value occurs at its column |
| Patcher.ReplacedLength | src/upadup/main.py:86 | a line's length changes by the sum of `len(new) - len(old)` over its edits |
| Patcher.OnLineMembers | src/upadup/main.py:81-82 | the edits applied to line l are exactly the updates naming line l |
| Patcher.OnLineFits | src/upadup/main.py:81-89 | updates that occur at their places and are in patch order fit every line: each line's spans are inside it and do not overlap |
| Patcher.PatchOutcome | src/upadup/main.py:81-89 | the loop succeeds iff every update names an existing line; on success the line count is unchanged; on failure the error names the first update past the file |
| Patcher.PatchPerLine | src/upadup/main.py:80-89 | each final line and its final offset are those produced by that line's own updates, applied in order |
| Patcher.PatchedUntouched | src/upadup/main.py:81-89 | a line that no update names keeps its text |
| Patcher.PatchedIsReplaced | src/upadup/main.py:81-89 | on well-formed input each patched line is its original with exactly its edits' spans replaced, and its length moves by their deltas |
| Patcher.CreateNewContent | src/upadup/main.py:73-91 | the loop's result is the fold `Patch`; it fails iff some update names a line past the file; on success the line count is kept and line l is that line's own edits applied in order |
| Ordering.SortKey | src/upadup/main.py:51-53 | definition: `_sort_updates_key`, the old token's `(line, col)` |
| Ordering.Insert | src/upadup/main.py:152 | inserting an edit adds exactly that edit |
| Ordering.InsertSorted | src/upadup/main.py:152 | inserting into a sorted list keeps it sorted by `(line, col)` |
| Ordering.SortUpdates | src/upadup/main.py:152 | the sorted list is a permutation of the collected updates |
| Ordering.SortUpdatesSorted | src/upadup/main.py:51-53 | the sorted list is in non-decreasing `(line, col)` order |
| Ordering.SortIsStable | src/upadup/main.py:152 | for each key, the edits with that key keep their collected order |
| Ordering.StableSortUnique | src/upadup/main.py:152 | two sorted lists that agree on every key's edits, in order, are equal |
| Ordering.SortUpdatesIsStableSort | src/upadup/main.py:152 | any sorted list keeping each key's collected edits in order is exactly the model's result, so the model is Python's stable `sorted` |
| Ordering.WithKeyUnique | src/upadup/main.py:51-53 | with distinct positions, a sort key selects at most one edit |
| Ordering.SortForgetsCollectionOrder | src/upadup/main.py:139-152 | two collections of the same edits at distinct positions sort to the same list |
| Ordering.SortKeepsApart | src/upadup/main.py:152 | sorting keeps edits non-overlapping |
| Ordering.SortUpdatesInPatchOrder | src/upadup/main.py:84-86 | sorted, non-overlapping, non-empty old values are in patch order: on each line an edit starts at or after the end of the one before |
| Planner.DictAssign | src/upadup/main.py:47 | `new_deps[current] = new`: existing keys keep their tokens (and so their locations); a new entry is added exactly when no key has the same string, and it is `current` mapped to `new` |
| Planner.DictAssignUpdates | src/upadup/main.py:47 | on a dict with distinct key strings, the keys stay distinct and only the value under `current`'s string changes |
| Planner.UpdatedDependenciesOutcome | src/upadup/main.py:43-44 | the loop succeeds iff every dependency's lookup succeeds; otherwise it reports the error of the first failing dependency |
| Planner.UpdatedDependenciesMeaning | src/upadup/main.py:42-48 | the dict has one entry per distinct dependency string that `update_dependency` rewrites, keyed by the first token with that string and mapped to the rewritten pin; no dependencies give no entries |
| Planner.BuildUpdatedDependencyMap | src/upadup/main.py:39-48 | the loop, with its early exit on an unknown package, computes that dict |
| Planner.DuplicatePinKeepsOneEdit | src/upadup/main.py:47 | a hook listing the same stale pin twice gets one entry, at the first occurrence |
| Planner.PinEditsMeaning | src/upadup/main.py:42-48 | the per-token edits: an edit exists exactly for each dependency token `update_dependency` rewrites, with that rewrite; errors are those of the dict |
| Planner.PinEditsAgreeOnDistinct | src/upadup/main.py:42-48 | when no two dependencies of a hook are the same string, the per-token edits are the dict's entries, in the same order |
| Planner.UpdatedDependencies | src/upadup/main.py:42-48 | definition: the dict after the loop, as a fold of `AssignUpdate`; its meaning is `UpdatedDependenciesOutcome` and `UpdatedDependenciesMeaning` |
| Planner.AssignUpdate | src/upadup/main.py:44-47 | definition: one turn of that loop (skip on no update, stop on `KeyError`, else `DictAssign`) |
| Planner.PinEdits | src/upadup/main.py:42-48 | definition: one edit per stale dependency token, in order; its meaning is `PinEditsMeaning` |
| Planner.GenerateUpdates | src/upadup/main.py:56-70 | definition: the pairs `generate_updates` yields for a hook, keyed by string (the dict's entries) or by token |
| Planner.GenerateUpdatesGenuine | src/upadup/main.py:63-68 | under either keying, every yielded pair rewrites one of the hook's own dependencies into the pin `update_dependency` gives |
| Planner.GenerateUpdatesComplete | src/upadup/main.py:63-68 | every stale dependency string of the hook is rewritten by some yielded pair; the pair sits at that very token when keyed by token, or when the hook lists no pin string twice |
| Planner.AsciiCasefold | src/upadup/main.py:141 | same length, no ASCII upper-case letter left, each character folded on its own |
| Planner.CasefoldIdempotent | src/upadup/main.py:141 | folding twice is folding once |
| Planner.StripGitSuffixMeaning | src/upadup/main.py:143-144 | exactly a trailing `.git` is removed; any other string is unchanged |
| Planner.StripGitSuffix | src/upadup/main.py:143-144 | definition: `repo_str[:-4]` when the string ends with `.git`; its meaning is `StripGitSuffixMeaning` |
| Planner.RepoKey | src/upadup/main.py:141-144 | definition: the casefolded repo URL without its `.git` suffix |
| Planner.Selected | src/upadup/main.py:145-149 | definition: the repo key is configured and the hook id is among its hook ids |
| Planner.HookEdits | src/upadup/main.py:147-150 | definition: the inner loop as a fold, extending with `GenerateUpdates` for each selected hook |
| Planner.PlannedEdits | src/upadup/main.py:139-150 | definition: the outer loop as a fold over the repositories; `ByString` is `all_updates` as main builds it |
| Planner.PlannedEditsGenuine | src/upadup/main.py:139-150 | under either keying, every collected edit rewrites a dependency of a hook the upadup configuration selects, into the pin `update_dependency` gives |
| Planner.PlannedEditsComplete | src/upadup/main.py:139-150 | under either keying, every stale dependency string of every selected hook is rewritten by some collected edit; as main collects, the edit sits at the dependency itself when its hook lists no pin string twice; keyed by token, it always does |
| Planner.PlannedEditsAgreeOnDistinct | src/upadup/main.py:139-150 | when no hook lists the same pin string twice, main's collection equals the one keyed by token |
| Planner.UpToDatePlansNothing | src/upadup/main.py:139-150 | under either keying, when every selected dependency is up to date, nothing is collected |
| Planner.DuplicatePinPlannedOnce | src/upadup/main.py:139-150 | one selected hook listing `a==1` twice: main collects one edit, at the first occurrence; keyed by token both are edited |
| Planner.CollectRepoEdits | src/upadup/main.py:141-150 | the inner loop, calling `BuildUpdatedDependencyMap` for each selected hook, collects that repository's dict entries in order and stops at the first unknown package |
| Planner.CollectEdits | src/upadup/main.py:139-150 | the nested loops collect `all_updates` as main does: the fold `PlannedEdits` keyed by string |
| Writer.ChooseNewline | src/upadup/main.py:113-118 | no line ending seen gives the platform default; a single reported ending is used unchanged; a tuple gives its first element; an empty tuple is the only failure |
| Writer.Encode | src/upadup/main.py:120-121 | definition: a text-mode write with `newline=nl` turns each `"\n"` into `nl`, and `""` translates nothing; its properties are the `Encode*` lemmas and `DecodeEncode` |
| Writer.Decode | src/upadup/main.py:76-77 | definition: a universal-newline read turns `"\r\n"` and a lone `"\r"` into `"\n"`; `DecodeEncode` shows it undoes `Encode` |
| Writer.KindsIn | src/upadup/main.py:20-21 | definition: which kinds of line ending occur in the file's text |
| Writer.Observed | src/upadup/main.py:20-21 | definition: the reader's `newlines` (None, one string, or a tuple in the order `"\r"`, `"\n"`, `"\r\n"`); `SingleStyleRoundTrip` relates it to `Encode` |
| Writer.EncodeAppend | src/upadup/main.py:120-121 | writing translates each piece of the text on its own |
| Writer.EncodeNoBreak | src/upadup/main.py:120-121 | text without line breaks is written as it is |
| Writer.EncodeLinefeed | src/upadup/main.py:120-121 | with newline `"\n"` or `""` the text is written unchanged |
| Writer.DecodeEncode | src/upadup/main.py:76-77 | reading back text written with a line ending gives the text back |
| Writer.KindsOfEncode | src/upadup/main.py:20-21 | text written with one line ending holds only that kind, and holds it iff the text has a line break |
| Writer.SingleStyleRoundTrip | src/upadup/main.py:20-21 | a file written with one line ending is read back as its text, and the reader reports that line ending, or none for a file without breaks |
| Writer.SingleStyleKept | src/upadup/main.py:113-121 | such a file is written back with its own line ending |
| Upadup.Join | src/upadup/main.py:121 | definition: `"".join(file_content)` |
| Upadup.Decide | src/upadup/main.py:154-173 | definition: main from `if all_updates:` on, over the sorted edits |
| Upadup.Run | src/upadup/main.py:139-173 | definition: collect, sort, then `Decide`; keyed by string it is main |
| Upadup.RunUpadup | src/upadup/main.py:139-173 | the run is `Run` keyed by string, collecting through `CollectEdits`; `--check` never writes; the exit status is non-zero iff `--check` is given and edits were collected |
| Upadup.UpToDateRunDoesNothing | src/upadup/main.py:139-173 | under either keying, when every selected pin is current, both modes succeed, exit 0 and write nothing |
| Upadup.RunIgnoresCollectionOrder | src/upadup/main.py:139-152 | two configurations collecting the same edits, at distinct positions, produce the same run |
| Upadup.RunAgreesOnDistinctPins | src/upadup/main.py:139-173 | when no hook lists the same pin string twice, main's run equals the run keyed by token |
| Upadup.PlannedOldValuesNonEmpty | src/upadup/main.py:27-30 | every collected edit's old value is a pin, so it is never empty |
| Upadup.ApplyRewritesExactlyTheSpans | src/upadup/main.py:105-121 | on a file where the collected pins sit at their recorded places without overlapping, each line is its original with exactly its edits' spans replaced, and the result is written with the chosen line ending |
| Upadup.TwoPinsOnOneLine | src/upadup/main.py:81-89 | `[a==1.0.0, b==2.0]` with both pins rewritten becomes `[a==1.2.0, b==2.0.1]` |

## Left out

- Reading and writing the config file. This is file I/O, so the lines are an input and the written text an output. `load_precommit_config` and the YAML parser are outside the model too. Each dependency token comes with the line and column the parser attached.
- That the parser's tokens occur at their recorded places and do not overlap (`EditsOccur`, `PairwiseApart`, `DistinctPositions`). The lemmas that need these facts take them as preconditions, because the parser is not part of this model.
- The `VersionMap` implementation and `config.load_upadup_config`. They may use the network or files. The model takes them as a map from package to version and a map from repo key to hook ids. `generate_updates` builds a fresh `VersionMap` per hook (line 59); the model uses one map for all hooks.
- `difflib.unified_diff`. It is a library algorithm, so check mode records the pair of line sequences the diff is computed from.
- `argparse`, the `print` output of `generate_updates` and `main`, and `sys.exit`. These are CLI plumbing; the exit status is a field of `Outcome`.
- Planner.AsciiCasefold: folds only ASCII letters, because Unicode case folding is library data.
- Writer.Decode, Writer.KindsIn: the reader's chunked decoding is not modelled. They describe the whole file at once.
- Stability across a whole second run. It needs the patched file parsed again, and the parser is not part of this model. The per-pin form is `Pins.ReplanIsNoOp`.

## Findings

| source | as written | input that shows it | evidently intended | confidence | as-written member | corrected member |
|---|---|---|---|---|---|---|
| src/upadup/main.py:47 | `new_deps` is keyed by the dependency string, so a repeated pin keeps its first token as key and only that occurrence is edited | a selected hook with `additional_dependencies: [a==1, a==1]` and `a` at version `2` gives one edit, for the first `a==1` | every stale pin is rewritten, so a second run finds nothing to do | medium; not executed; assumes the YAML string type keeps `str` equality and hashing | Planner.DuplicatePinPlannedOnce | Planner.PinEditsMeaning |

`Planner.DuplicatePinKeepsOneEdit` shows the same for one hook's dict. `Upadup.RunUpadup` and `Planner.CollectEdits` model main as written, keyed by string. The corrected collection is keyed by token: `Planner.PinEdits`, with `Planner.PlannedEditsComplete` proving that every stale pin gets its own edit. Every lemma about the collection and the run holds under both keyings. `Planner.PlannedEditsAgreeOnDistinct` and `Upadup.RunAgreesOnDistinctPins` show the two agree whenever no hook lists the same pin string twice.
