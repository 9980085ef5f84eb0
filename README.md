# auto-coder: edit-block merging and suffix-project source selection, in Dafny

This project models two parts of auto-coder and proves properties about them.

**Edit-block merger** (`code_auto_merge_editblock.py`). This is the part that turns a language
model's reply into file changes. It has three stages.

- `parse_whole_text` cuts the reply into (path, content) entries. It is a state machine over the
  lines with two counters: `start_marker_count` and `inline_start_marker_count`.
- `get_edits` splits each entry into a (path, head, update) triple. It uses the `<<<<<<< SEARCH`,
  `=======` and `>>>>>>> REPLACE` markers and the flags `in_head` and `in_updated`.
- The planning loop of `merge_code` folds the triples over `file_content_mapping` and fills in
  `changes_to_make`, `unmerged_blocks` and `changes_made`.

**Suffix project** (`suffixproject/__init__.py`). This is the part that picks the source files.

- Normalisation of the `project_type` suffix list.
- `is_suffix_file`.
- `parse_exclude_files`, with its `regex://` and `human://` dispatch and its two `ValueError`s.
- `should_exclude`.
- The pruning of `default_exclude_dirs` during `os.walk`.
- The selection in `get_source_codes`.
- The nested-dict tree and its `generate_tree` rendering in `get_tree_like_directory_structure`.

Most loops of the source are a Dafny `method` with a `while` or `for` loop. The method is proved
equal to a specification function: a left fold over the input, one step per iteration. The
properties are then proved as lemmas about that fold. Three loops are rendered by recursion
instead, each as a recursive function:

- the loop of `should_exclude` over the patterns is `ShouldExclude`;
- the inner `for part in parts` loop that walks `current_level` down the nested dict is `Insert`;
- the loop of `generate_tree` over the keys is `RenderFrom`.

The modules are:

- `Results` (Option/Result)
- `Seqs` (list-comprehension map and filter)
- `Strings` (Python's `split`, `join`, `strip`, `splitlines`, `find` and `replace(…, 1)`)
- `EditBlockParser`
- `EditExtraction`
- `MergePlanning`
- `SuffixFilter`
- `SourceWalk`
- `DirectoryTree`

The outside world is passed in as parameters:

- The files on disk are a map `disk` from path to content. `os.path.exists` is `path in disk`,
  and the first `open(...).read()` of a path is `disk[path]`.
- Reading a selected source file is a function `read`.
- The language model behind `human://` entries is a function `generate` that returns no pattern
  when the model gives a falsy answer.
- `pattern.search` is a predicate `search`.
- The optional `file_filter` is an `Option` of a predicate.
- The directory tree that `os.walk` lists is a value of type `Dir`.
- The fences `fence_0` and `fence_1` are parameters. The round-trip theorems are stated for the
  default fence "```".

## Model

| member | source | states |
|---|---|---|
| Strings.Trim | src/autocoder/common/code_auto_merge_editblock.py:68 | `str.strip()`: the result has no whitespace at either end, is no longer than the input, and keeps a non-space first character. `TrimStrips` and `TrimUnique` fix it completely |
| Strings.TrimStrips | src/autocoder/common/code_auto_merge_editblock.py:68 | the stripped string is an infix of the input, and everything before and after it is whitespace |
| Strings.TrimUnique | src/autocoder/common/code_auto_merge_editblock.py:68 | any infix with no whitespace at either end and only whitespace around it is the stripped string, so `strip` is the longest such infix |
| Strings.TrimOfTrimmed | src/autocoder/common/code_auto_merge_editblock.py:68 | stripping a string with no surrounding whitespace leaves it unchanged |
| Strings.Split | src/autocoder/common/code_auto_merge_editblock.py:30 | `text.split("\n")` has at least one piece, and no piece holds the separator |
| Strings.JoinSplit | src/autocoder/common/code_auto_merge_editblock.py:69 | joining the pieces of a split with the separator gives back the original text |
| Strings.SplitJoin | src/autocoder/common/code_auto_merge_editblock.py:69 | splitting a join of separator-free pieces gives back the pieces |
| Strings.Join | src/autocoder/common/code_auto_merge_editblock.py:69 | `"\n".join(parts)`: its contract is given by `JoinSplit` and `SplitJoin`, which make it the inverse of `Split` |
| Strings.SplitLines | src/autocoder/common/code_auto_merge_editblock.py:108 | `splitlines()` for "\n"-terminated text: no line holds a newline, there are no lines iff the text is empty, and the lines joined with "\n", plus a final "\n" when the text ends with one, are the text |
| Strings.SplitLinesJoin | src/autocoder/common/code_auto_merge_editblock.py:108 | `splitlines` of lines joined with "\n" gives the lines back when the last one is not empty |
| Strings.FindFrom | src/autocoder/common/code_auto_merge_editblock.py:151 | `find`: the first position at or after `from` where the pattern occurs, or none when it occurs nowhere there |
| Strings.ReplaceFirst | src/autocoder/common/code_auto_merge_editblock.py:151 | `replace(head, update, 1)`: its contract is given by `ReplaceFirstChanges` (the text changes iff the pattern occurs and differs from the replacement) and `ApplyChanges` |
| Strings.ReplaceFirstChanges | src/autocoder/common/code_auto_merge_editblock.py:151 | `replace(head, update, 1)` changes the text iff head occurs in it and differs from update |
| EditBlockParser.AfterFirstColon | src/autocoder/common/code_auto_merge_editblock.py:68 | `split(":", 1)[1]` exists iff the line holds a ':' |
| EditBlockParser.HeaderColon | src/autocoder/common/code_auto_merge_editblock.py:68 | on a `##File:` line, the text after the first ':' is everything after `##File:` |
| EditBlockParser.EntryOf | src/autocoder/common/code_auto_merge_editblock.py:66-71 | for a block headed by `##File:`, the entry's path is the stripped text after the header |
| EditBlockParser.StartMarker | src/autocoder/common/code_auto_merge_editblock.py:40-45 | `start_marker`. Its contract is given by `MarkFacts` (a start marker is always followed by a `##File:` line) and `MarkBlock` (the opening fence of a written block, followed by its header, is one, and the header and content lines are not) |
| EditBlockParser.InlineStartMarker | src/autocoder/common/code_auto_merge_editblock.py:47-48 | `inline_start_marker`. Its contract is given by `MarkBlock` (a bare fence, a `##File:` header and fence-free content lines are not inline starts) and `NestedMarksKept` (inside a block an inline start is kept verbatim) |
| EditBlockParser.EndMarker | src/autocoder/common/code_auto_merge_editblock.py:50-51 | `end_marker`. Its contract is given by `MarkBlock` (a bare fence line is an end marker, a `##File:` header and fence-free content lines are not) |
| EditBlockParser.Step | src/autocoder/common/code_auto_merge_editblock.py:53-76 | one iteration of the loop, with its branches in the source's order. Its contract is given by `StepKeepsGood` (the counters stay in range and an open block stays headed by its `##File:` line) and `StepOutsideBlock` (outside a block a line opens a block iff it is a start marker, and nothing is collected) |
| EditBlockParser.Run | src/autocoder/common/code_auto_merge_editblock.py:53-76 | the loop over the marked lines. Its contract is given by `RunKeepsGood`, `RunConcat`, `EntriesOnlyGrow`, `RunUnmarked`, `NestedMarksKept` and `OpenBlockNoEntry` |
| EditBlockParser.Parse | src/autocoder/common/code_auto_merge_editblock.py:29-78 | `parse_whole_text` as a function. Its contract is given by `ParseEmpty`, `ParsedPathsFromHeaders` and the round trip `ParseReply` |
| EditBlockParser.ParseWholeText | src/autocoder/common/code_auto_merge_editblock.py:29-78 | the loop returns the entries of the fold `Parse` over the marked lines |
| EditBlockParser.ReadLine | src/autocoder/common/code_auto_merge_editblock.py:53-76 | the loop body takes the counters, the block and the list from the state after `index` lines to the state after `index + 1` lines |
| EditBlockParser.MarkFacts | src/autocoder/common/code_auto_merge_editblock.py:40-45 | a start marker is always followed by a line starting with `##File:`, and marking keeps every line's text |
| EditBlockParser.StepKeepsGood | src/autocoder/common/code_auto_merge_editblock.py:54-74 | one iteration keeps the counters in range and keeps an open block headed by its `##File:` line |
| EditBlockParser.RunKeepsGood | src/autocoder/common/code_auto_merge_editblock.py:54-74 | at every line `start_marker_count` is 0 or 1 and `inline_start_marker_count` is non-negative. The latter is positive only while `start_marker_count` is 1. Nothing is collected outside a block |
| EditBlockParser.BlockStartsWithHeader | src/autocoder/common/code_auto_merge_editblock.py:66-68 | a non-empty block always starts with its `##File:` line, so `split(":", 1)[1]` never raises IndexError |
| EditBlockParser.RunConcat | src/autocoder/common/code_auto_merge_editblock.py:53-76 | reading lines x and then lines y is the same as reading x + y |
| EditBlockParser.EntriesOnlyGrow | src/autocoder/common/code_auto_merge_editblock.py:71 | entries are only ever appended, so they come in the order their closing fences are read |
| EditBlockParser.StepOutsideBlock | src/autocoder/common/code_auto_merge_editblock.py:54-76 | outside a block nothing is collected or emitted, and a block opens iff the line is a start marker |
| EditBlockParser.RunUnmarked | src/autocoder/common/code_auto_merge_editblock.py:75-76 | inside a block, lines that are not markers are appended verbatim |
| EditBlockParser.NestedMarks | src/autocoder/common/code_auto_merge_editblock.py:47-51 | how the lines of a nested fence are marked: the opening line as an inline start, the plain lines as nothing, the bare fence as an end |
| EditBlockParser.NestedMarksKept | src/autocoder/common/code_auto_merge_editblock.py:56-74 | inside a block, a nested fence, its plain lines and its closing fence are kept verbatim, and the nesting count returns to its value before |
| EditBlockParser.NestedFenceKept | src/autocoder/common/code_auto_merge_editblock.py:47-74 | inside an open block, a fence with trailing text (such as "```python"), plain lines and a bare closing fence all go into the block verbatim without closing it |
| EditBlockParser.NoCloseNoEntry | src/autocoder/common/code_auto_merge_editblock.py:61-71 | lines none of which is an end marker emit no entry |
| EditBlockParser.OpenBlockNoEntry | src/autocoder/common/code_auto_merge_editblock.py:53-78 | while `start_marker_count` stays 1 no entry is emitted, whatever nested fence pairs the block holds, so a block still open at the end yields nothing |
| EditBlockParser.HeadersComeFromReply | src/autocoder/common/code_auto_merge_editblock.py:53-71 | every open or closed block starts with a `##File:` line of the reply |
| EditBlockParser.ParsedPathsFromHeaders | src/autocoder/common/code_auto_merge_editblock.py:40-71 | every returned path is the stripped text after `##File:` on some line of the reply |
| EditBlockParser.MarkConcat | src/autocoder/common/code_auto_merge_editblock.py:37-45 | marking works line by line, except that a start marker looks at the next line |
| EditBlockParser.MarkBlock | src/autocoder/common/code_auto_merge_editblock.py:37-51 | the lines of a written block are marked as open fence, header, plain lines and close fence |
| EditBlockParser.MarkReply | src/autocoder/common/code_auto_merge_editblock.py:37-51 | a reply of written blocks is marked block by block |
| EditBlockParser.EntryOfWritten | src/autocoder/common/code_auto_merge_editblock.py:66-71 | a `##File: path` header with content lines gives back the entry (path, content) |
| EditBlockParser.RunBlock | src/autocoder/common/code_auto_merge_editblock.py:54-71 | reading one written block from a closed state closes exactly that block and leaves the state closed |
| EditBlockParser.RunReply | src/autocoder/common/code_auto_merge_editblock.py:53-76 | reading a written reply closes one block per entry, in order |
| EditBlockParser.EntriesWritten | src/autocoder/common/code_auto_merge_editblock.py:66-71 | the entries of the written blocks are the original entries |
| EditBlockParser.ParseEmpty | src/autocoder/common/code_auto_merge_editblock.py:30-78 | an empty reply yields no entries |
| EditBlockParser.ParseReply | src/autocoder/common/code_auto_merge_editblock.py:29-78 | parsing a reply written from well-formed entries gives back exactly those entries, in order |
| EditExtraction.RoleOf | src/autocoder/common/code_auto_merge_editblock.py:109-119 | a line is text iff its stripped form is none of the three markers, and a text role carries the line unchanged |
| EditExtraction.RoleOfTrimmed | src/autocoder/common/code_auto_merge_editblock.py:109-119 | a line with no surrounding whitespace is a marker exactly when it equals that marker |
| EditExtraction.ScanStep | src/autocoder/common/code_auto_merge_editblock.py:109-123 | one iteration of the inner loop. Its contract is given by `ScanText`, `ScanSection` and `CollectedLinesAreText` |
| EditExtraction.ScanAll | src/autocoder/common/code_auto_merge_editblock.py:108-123 | the inner loop over the lines of an entry. Its contract is given by `ScanConcat`, `ScanSection` and `HeadsAndUpdatesFromContent` |
| EditExtraction.EditOf | src/autocoder/common/code_auto_merge_editblock.py:103-124 | the triple of one entry. Its contract is given by `EditOfSection` (the round trip for one SEARCH/REPLACE section) and `HeadsAndUpdatesFromContent` |
| EditExtraction.ExtractEdit | src/autocoder/common/code_auto_merge_editblock.py:103-124 | the inner loop returns the triple of the fold over the entry's lines |
| EditExtraction.GetEdits | src/autocoder/common/code_auto_merge_editblock.py:96-125 | `get_edits` returns the triples of the parsed entries, one per entry |
| EditExtraction.EditsFollowEntries | src/autocoder/common/code_auto_merge_editblock.py:101-125 | there is exactly one triple per parsed entry, in the same order and with the same path |
| EditExtraction.ScanConcat | src/autocoder/common/code_auto_merge_editblock.py:108-123 | scanning x and then y is scanning x + y, so several sections in one entry are concatenated |
| EditExtraction.CollectedLinesAreText | src/autocoder/common/code_auto_merge_editblock.py:108-123 | only text lines are collected into heads and updates |
| EditExtraction.HeadsAndUpdatesFromContent | src/autocoder/common/code_auto_merge_editblock.py:108-123 | every head and update line is a line of the content whose stripped form is no marker |
| EditExtraction.ScanText | src/autocoder/common/code_auto_merge_editblock.py:120-123 | text lines go to the head while `in_head` is set and to the update while `in_updated` is set, and the flags stay as they are |
| EditExtraction.RolesOfSection | src/autocoder/common/code_auto_merge_editblock.py:109-119 | the lines of a SEARCH/REPLACE section are classified as marker, text, marker, text, marker |
| EditExtraction.ScanSection | src/autocoder/common/code_auto_merge_editblock.py:109-123 | a closed section appends its SEARCH lines to the head and its REPLACE lines to the update, and leaves both flags off |
| EditExtraction.SectionSplits | src/autocoder/common/code_auto_merge_editblock.py:108 | the written section text splits back into its marker and text lines |
| EditExtraction.EditOfSection | src/autocoder/common/code_auto_merge_editblock.py:103-124 | extracting from the section written for an edit gives back that edit |
| EditExtraction.EntryForWritable | src/autocoder/common/code_auto_merge_editblock.py:40-51 | the entry written for a well-formed edit contains no line that could be taken for a fence |
| EditExtraction.GetEditsRoundTrip | src/autocoder/common/code_auto_merge_editblock.py:96-125 | a reply with one fenced `##File:` block per edit, each holding one SEARCH/REPLACE section, gives back exactly those edits, in order |
| MergePlanning.PlanMerge | src/autocoder/common/code_auto_merge_editblock.py:132-157 | the planning loop ends with the map, changes, unmerged blocks and flag of the fold `PlanOf` |
| MergePlanning.PlanEdit | src/autocoder/common/code_auto_merge_editblock.py:140-157 | one iteration of the loop is one step of the fold |
| MergePlanning.Apply | src/autocoder/common/code_auto_merge_editblock.py:151 | the new content of an existing file. Its contract is given by `ApplyChanges` (the content changes iff the head is empty, or the head occurs and differs from the update) |
| MergePlanning.PlanStep | src/autocoder/common/code_auto_merge_editblock.py:140-157 | one iteration of the planning loop. Its contract is given by `StepDecision`, `StepConsistent` and `StepKeys` |
| MergePlanning.PlanAll | src/autocoder/common/code_auto_merge_editblock.py:138-157 | the planning loop over all edits. Its contract is given by `PlanConsistent`, `PlanPartition` and `PlanKeys` |
| MergePlanning.ApplyChanges | src/autocoder/common/code_auto_merge_editblock.py:151-152 | an edit changes the content iff its head is empty, or the head occurs and differs from the update |
| MergePlanning.StepDecision | src/autocoder/common/code_auto_merge_editblock.py:140-157 | a missing file always becomes a change to `update`, mapped to `update`. An edit to an existing file is unmerged iff its head is non-empty and either equals the update or does not occur in the current content; then it is appended to `unmerged_blocks` and nothing else changes. Otherwise the change from the current content to the replaced or appended content is recorded, the map holds the new content and `changes_made` is set. No other path's content moves |
| MergePlanning.CurrentContent | src/autocoder/common/code_auto_merge_editblock.py:146-150 | the content an edit starts from is the latest one produced by earlier changes, else the file on disk |
| MergePlanning.NoChangeKeepsDisk | src/autocoder/common/code_auto_merge_editblock.py:146-149 | a path no change has touched still reads from disk |
| MergePlanning.AppendConsistent | src/autocoder/common/code_auto_merge_editblock.py:142-155 | recording a change that starts from the path's latest content keeps the bookkeeping |
| MergePlanning.LoadConsistent | src/autocoder/common/code_auto_merge_editblock.py:146-157 | loading a file into the map, or setting an edit aside, keeps the bookkeeping |
| MergePlanning.StepConsistent | src/autocoder/common/code_auto_merge_editblock.py:140-157 | every iteration keeps the bookkeeping |
| MergePlanning.PlanConsistent | src/autocoder/common/code_auto_merge_editblock.py:138-157 | each mapped path holds the content its last change produced. Later edits of an existing file start from what earlier ones produced, while each edit of a missing file creates it again from its own update. Every change changes something, and `changes_made` holds iff `changes_to_make` is non-empty |
| MergePlanning.PlanPartition | src/autocoder/common/code_auto_merge_editblock.py:139-157 | every edit lands in exactly one of `changes_to_make` and `unmerged_blocks`, and unmerged edits are input edits to existing files |
| MergePlanning.StepKeys | src/autocoder/common/code_auto_merge_editblock.py:141-154 | each edit leaves its path mapped and adds no other key |
| MergePlanning.PlanKeys | src/autocoder/common/code_auto_merge_editblock.py:138-154 | `file_content_mapping` ends with exactly one key per path named by some edit |
| SuffixFilter.BlankIsStripEmpty | src/autocoder/suffixproject/__init__.py:25 | an item is dropped iff `item.strip() == ""` |
| SuffixFilter.Dotted | src/autocoder/suffixproject/__init__.py:25 | the result starts with '.'; a dotted item is kept as it is, any other item gets a '.' in front |
| SuffixFilter.NormalizeItems | src/autocoder/suffixproject/__init__.py:25 | there are no more suffixes than items, and every suffix starts with '.' |
| SuffixFilter.Suffixes | src/autocoder/suffixproject/__init__.py:25 | the suffix list of a `project_type`. Its contract is given by `ProjectTypeRoundTrip` and `SuffixFileOfProjectType` |
| SuffixFilter.NormalizeMembers | src/autocoder/suffixproject/__init__.py:25 | the suffixes are exactly the non-blank items, dotted |
| SuffixFilter.NormalizeAppend | src/autocoder/suffixproject/__init__.py:25 | normalisation works item by item, keeping the order of the items |
| SuffixFilter.DottedNotBlank | src/autocoder/suffixproject/__init__.py:25 | an item starting with '.' is never dropped |
| SuffixFilter.KeepDotted | src/autocoder/suffixproject/__init__.py:25 | a list of dotted items is left unchanged |
| SuffixFilter.NormalizeIdempotent | src/autocoder/suffixproject/__init__.py:25 | normalising twice is normalising once |
| SuffixFilter.ProjectTypeRoundTrip | src/autocoder/suffixproject/__init__.py:25 | a `project_type` written as a comma-separated list of dotted suffixes gives that list back |
| SuffixFilter.IsSuffixFile | src/autocoder/suffixproject/__init__.py:74-75 | true iff the path ends with some suffix, and always false with no suffixes |
| SuffixFilter.SuffixFileOfProjectType | src/autocoder/suffixproject/__init__.py:74-75 | with the suffixes of a `project_type`, a path is a source file iff it ends with some non-blank item of it, dotted |
| SuffixFilter.EntriesOf | src/autocoder/suffixproject/__init__.py:42-46 | a falsy input gives no entries, a single string is a one-element list, and a list is taken as it is |
| SuffixFilter.PatternOf | src/autocoder/suffixproject/__init__.py:50-61 | `regex://` gives the rest of the entry as pattern. `human://` gives the generated pattern, or "Fail to generate regex pattern, try again." when there is none. Any other entry gives the invalid-format error |
| SuffixFilter.ParseExcludeFiles | src/autocoder/suffixproject/__init__.py:41-62 | Ok iff every entry yields a pattern, and then there is one pattern per entry, in order. Otherwise the error is that of the first failing entry |
| SuffixFilter.FirstError | src/autocoder/suffixproject/__init__.py:48-61 | an entry that fails after entries that all succeeded is the first failure, and the whole parse fails |
| SuffixFilter.ShouldExclude | src/autocoder/suffixproject/__init__.py:64-69 | true iff some pattern matches the path, and always false with no patterns |
| SuffixFilter.ShouldExcludeAppend | src/autocoder/suffixproject/__init__.py:65-68 | excluding by a concatenation of pattern lists is excluding by either list |
| SourceWalk.Prune | src/autocoder/suffixproject/__init__.py:88 | the kept names are exactly the listed names that are not in `default_exclude_dirs`, and there are no more of them |
| SourceWalk.PruneAppend | src/autocoder/suffixproject/__init__.py:88 | pruning keeps the remaining names in their order |
| SourceWalk.PruneKeepsOthers | src/autocoder/suffixproject/__init__.py:88 | a listing with no excluded name is kept whole |
| SourceWalk.Walk | src/autocoder/suffixproject/__init__.py:87-88 | `os.walk` with the pruning of `default_exclude_dirs`. Its contract is given by `WalkVisitsReachable` and `WalkOnlyReachable` (its triples are exactly the listings of the directories reachable through kept names) and `WalkAvoidsExcluded` |
| SourceWalk.WalkSubdirs | src/autocoder/suffixproject/__init__.py:87-88 | the walk into the subdirectories that survive the pruning. Its contract is given by `WalkSubdirsHas` (the whole walk of each kept subdirectory is part of it) and `WalkSubdirsOnlyReachable` (each of its triples is the listing of a directory reached through a kept subdirectory) |
| SourceWalk.WalkVisitsReachable | src/autocoder/suffixproject/__init__.py:87-88 | every directory reached from the top through subdirectories none of which is an excluded directory is visited, with its own listing |
| SourceWalk.WalkOnlyReachable | src/autocoder/suffixproject/__init__.py:87-88 | every triple of the walk is the listing of a directory reached from the top through kept subdirectories |
| SourceWalk.WalkSubdirsHas | src/autocoder/suffixproject/__init__.py:87-88 | the whole walk below a kept subdirectory is part of the walk of its parent |
| SourceWalk.WalkSubdirsOnlyReachable | src/autocoder/suffixproject/__init__.py:87-88 | each triple of the walk of the subdirectories is the listing of a directory reached through a kept subdirectory |
| SourceWalk.WalkAvoidsExcluded | src/autocoder/suffixproject/__init__.py:87-88 | every directory the walk visits lies below the top, reached through kept directories only |
| SourceWalk.PathJoin | src/autocoder/suffixproject/__init__.py:90 | `os.path.join(root, file)` starts with the root and ends with the file name |
| SourceWalk.Candidates | src/autocoder/suffixproject/__init__.py:87-90 | every `os.path.join(root, file)` the walk yields, in walk order. Its contract is given by `GetSourceCodes` and `SourceCodesSelected` |
| SourceWalk.Chosen | src/autocoder/suffixproject/__init__.py:91-94 | a candidate is chosen iff it has a suffix, matches no exclude pattern and passes the filter when there is one |
| SourceWalk.ChosenAppend | src/autocoder/suffixproject/__init__.py:89-97 | files are selected one at a time, so the yielded files keep the walk's order |
| SourceWalk.GetSourceCodes | src/autocoder/suffixproject/__init__.py:86-97 | the generator yields the source codes of the chosen files among the walk's candidates, in walk order |
| SourceWalk.SourceCodesSelected | src/autocoder/suffixproject/__init__.py:89-97 | a file's source code is yielded iff the walk visits the file and it passes all three conditions |
| DirectoryTree.IndexOf | src/autocoder/suffixproject/__init__.py:167 | `part in current_level`: the position of the key when present and the first one with that name, nothing when absent |
| DirectoryTree.Insert | src/autocoder/suffixproject/__init__.py:164-169 | one relative path walked into the dict, key by key. Its contract is given by `InsertKeys`, `InsertUnique` and `InsertSubtree` |
| DirectoryTree.BuildAll | src/autocoder/suffixproject/__init__.py:164-169 | the dict after all paths. Its contract is given by `BuildContents` |
| DirectoryTree.BuildTree | src/autocoder/suffixproject/__init__.py:161-169 | the loop builds the nested dict of the fold `BuildAll` over the paths |
| DirectoryTree.InsertKeys | src/autocoder/suffixproject/__init__.py:166-168 | a path adds its first component at the end of the keys only when it is new |
| DirectoryTree.InsertUnique | src/autocoder/suffixproject/__init__.py:166-168 | adding a path never gives a dict a duplicate key |
| DirectoryTree.InsertSubtree | src/autocoder/suffixproject/__init__.py:164-169 | after a path is added, the key chains present are the earlier ones plus the prefixes of the path, so shared prefixes share nodes |
| DirectoryTree.BuildContents | src/autocoder/suffixproject/__init__.py:161-169 | the tree holds every prefix of the paths and nothing else, with unique keys at every level |
| DirectoryTree.Indent | src/autocoder/suffixproject/__init__.py:176 | the indentation at a depth is four spaces per level |
| DirectoryTree.Render | src/autocoder/suffixproject/__init__.py:171-179 | `generate_tree(d, indent)`. Its contract is given by `RenderNodes` and `RenderedPaths` |
| DirectoryTree.RenderFrom | src/autocoder/suffixproject/__init__.py:173-178 | the loop of `generate_tree` from the i-th key on. Its contract is given by `RenderFromNodes`, through `RenderNodes` |
| DirectoryTree.LineOfChild | src/autocoder/suffixproject/__init__.py:176 | below a key, a node's line is its line in the key's own dict, indented four more spaces |
| DirectoryTree.KeyLine | src/autocoder/suffixproject/__init__.py:174-178 | a key's line is the indent and the key, followed by "/" exactly when the key has children |
| DirectoryTree.RenderNodes | src/autocoder/suffixproject/__init__.py:171-179 | the rendering has one line per node in depth-first order: the key indented four spaces per level, with "/" iff the node has children |
| DirectoryTree.NodesPresent | src/autocoder/suffixproject/__init__.py:173-178 | the nodes listed are exactly the key chains present in the tree |
| DirectoryTree.NodesDistinct | src/autocoder/suffixproject/__init__.py:164-178 | in a dict without duplicate keys at any level, no key chain is listed twice |
| DirectoryTree.RenderedPaths | src/autocoder/suffixproject/__init__.py:161-180 | the rendered structure has one line per distinct non-empty prefix of the relative paths, each prefix exactly once, and no other |

## Left out

- Git (`commit_changes`, `clone_repository`, `Repo.clone_from`): external processes.
- The write-back and reporting half of `merge_code` (lines 159-198): md5, logging, printing and
  the writing of files.
- Reading `args.file` at the start of `merge_code`: it feeds the md5 and the commit message, and
  it raises when that file is missing, before any edit is planned. The model starts at the
  planning and does not model that failure.
- File I/O. `os.path.exists` and the first read of each path are the map `disk`. Reading a source
  file is the function `read`, which gives one text per path.
- `os.walk`: the directory tree is the value `Dir`. Its listing order is whatever order `Dir`
  holds.
- SourceWalk.WalkSubdirs: the visiting order (each directory before those below it, and the kept
  subdirectories in listing order) is given by the definition of `Walk` and `WalkSubdirs` only.
  The lemmas state which directories are visited and with what listing, not in which order.
- `os.walk`'s in-place `dirs[:]` assignment: the pruning is modelled inside `Walk`, which goes on
  only into the subdirectories that survive `Prune`. The aliasing of the list is not modelled.
- `os.path.relpath` and `os.path.split` in the tree builder: `BuildTree` takes each relative path
  already split into its components.
- The `current_level` reference into the nested dict: insertion is the function `Insert` on values.
  The outer loop over the paths is the method `BuildTree`.
- `generate_regex_pattern` (the language model): the parameter `generate`. Only a falsy answer is
  distinguished, as `None`.
- `re.compile` and `pattern.search`: a pattern is the text it was compiled from, and matching is
  the parameter `search`. The `re.error` that `re.compile` raises on a malformed regex is not
  modelled.
- `parse_exclude_files` runs inside `__init__`. The model takes its input directly.
- The `Excluding file` and `Generated regex pattern` log lines.
- `source_code is not None` in `get_source_codes` always holds, since `convert_to_source_code`
  always returns an object. The test is left out.
- `get_simple_directory_structure`, `get_rest_source_codes`, `get_rag_source_codes`,
  `get_search_source_codes`, `run` and `output`: glue over external services and I/O.
- Strings.Trim: strips only the ASCII characters `str.strip` removes (space, "\t", "\n", "\x0b",
  "\x0c", "\r" and "\x1c" to "\x1f"). The non-ASCII spaces it also removes, such as U+0085 and
  U+00A0, are kept.
- Strings.SplitLines: splits on "\n" only. Python's `splitlines` also breaks at "\r", "\r\n" and
  other terminators.
- Text is `seq<char>`: no encoding and no `str` subclass behaviour.
- DirectoryTree.Structure: the final `"\n".join` of the rendered lines has no contract of its own.
  What it joins is described by `RenderNodes` and `RenderedPaths`.
- EditBlockParser.ParseReply and EditExtraction.GetEditsRoundTrip: proved for the default fence
  "```" only. The parser itself takes both fences as parameters.
- Loop bodies as methods: the body of the line loop of `parse_whole_text` is the method `ReadLine`,
  the inner loop of `get_edits` is the method `ExtractEdit`,
  and the body of the planning loop is the method `PlanEdit`. Each is called once per iteration
  and proved against one step of the fold.
