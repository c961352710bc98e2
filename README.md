# CodeConcat core in Dafny

CodeConcat walks a source directory and picks files. It writes every picked file into one text
stream, either stdout or a destination file. Each file becomes a record:

- a `File: <relative path>` header;
- the file's content between two `""""""` delimiter lines;
- two newlines (two blank lines) after the closing delimiter.

This project models the core of that program and proves properties of the model.

## Modules

- `config.dfy` (`Config`) models `codeconcat/config.py`: its constants and `load_config`.
  - `load_config` turns a JSON file into the `exclude` and `whitelist` string lists.
  - A missing file, an unreadable file, non-JSON text or a non-object value all leave the defaults.
- `gitignore.dfy` (`Gitignore`) models `load_gitignore_patterns`.
  - It reads the `.gitignore` of the source directory and of every ancestor, and keeps the non-blank, non-comment lines.
  - An undecodable file escapes as an error. An unreadable file is skipped.
- `selection.dfy` (`FileSelection`) holds the selection rules of `generate_directory_tree`.
  - Pattern compilation.
  - Directory pruning: an exclude regex, or a gitignore match of the path with a trailing `/`.
  - The per-file chain: exclude regexes, then gitignore, then the whitelist if it is non-empty, else the MIME/extension default rule.
  - A recursive specification of the top-down walk.
- `selection_facts.dfy` (`SelectionFacts`) characterises the selection without the walk.
  - A file is selected exactly when it exists, no ancestor directory was pruned, and the chain accepts it.
  - It also proves the consequences of that.
- `walker.dfy` (`Walker`) models `generate_directory_tree` as an imperative worklist walk.
  - The walk is proved equal to the specification, followed by a sort.
  - It also proves the properties of the returned list: sorted, duplicate-free, exactly the absolute paths of the selected files.
- `output.dfy` (`Output`) models `create_output` over a `Stream` class, for stdout or a file.
  - It also defines a parser for one record and proves that a record parses back to its header and text.
- `driver.dfy` (`Driver`) models `main` in `codeconcat/main.py`, lines 77-183:
  - setting precedence;
  - the output-target check;
  - the self-exclusion of the destination file;
  - coercion of the pattern values to lists;
  - the walk, and the write when the walk found files.
- `paths.dfy`, `strings.dfy`, `pyvalues.dfy`, `sorting.dfy` and `wrappers.dfy` hold the lexical `pathlib`, the `str` methods, the Python values that reach the core, string ordering with a sort, and `Option`/`Result`.

## Oracles and inputs

Foreign code is modelled as total functions passed in as parameters:

- `re.compile(p).search(s)` and "`re.compile(p)` does not raise";
- pathspec's `match_file` and "pathspec compiles these lines";
- libmagic's answer for each file, stored with the file as a `Probe`;
- what reading each file yields (`ReadOutcome`);
- what each `.gitignore` holds (`IgnoreFile`);
- `Path.resolve`.

The merged configuration mapping and the `DEFAULT_CONFIG` values are inputs to `Driver`. The functions that build them are not part of this model.

## Behaviour worth knowing

- Exclude and whitelist patterns are Python regular expressions. Each one is applied with `re.search` to the relative path string.
  - `main`'s own help text says "Regex pattern" (codeconcat/main.py:38 and 44-47).
  - The help text in `codeconcat/cli.py` calls them glob patterns, with examples such as `'*.log'` and `'dist/'` (codeconcat/cli.py:32-36). Searched as a regex, `*.log` raises `re.error`, and the run exits with status 1.
  - `DEFAULT_EXCLUDE_PATTERNS` in `config.py` is written in glob style too.
- `main` never reads the `DEFAULT_EXCLUDE_PATTERNS` constant itself. It reads the configuration keys `exclude_patterns`, `whitelist_patterns` and `use_gitignore`, with `DEFAULT_CONFIG` as the fallback.
- `load_config` produces the keys `exclude` and `whitelist`, which `main` does not read.
- `.gitignore` files are collected upward, from the source directory to the filesystem root, as the docstring of `load_gitignore_patterns` says ("walking upwards"). A `.gitignore` in a subdirectory of the source is never read.
- Self-exclusion of the destination happens only when the resolved exclude value is a list, or becomes one.
  - A `None`, boolean or number value makes the `in` test raise TypeError. The error is swallowed and the value is then coerced to `[]`, so the destination is not excluded: `Driver.SelfExclusionLostForScalar`.
  - A string value is split into one-character patterns, followed by the destination's pattern. If the string already contains that pattern, the value is coerced to `[]` instead: `Driver.StringExcludeValue`.
  - A tuple value is copied into a list with the destination's pattern appended. If the tuple already holds that pattern, it stays a tuple and is coerced to `[]`, which drops every exclude pattern: `Driver.TupleExcludeValue`.
- `main` exits with status 1 in these cases:
  - no output target, or two targets;
  - a bad regex;
  - an undecodable `.gitignore`;
  - a truthy exclude or whitelist entry that is not a string, which makes `re.compile` raise TypeError.

  Otherwise it exits with status 0, and it reports no counts of written or skipped files.
- With an empty file list, `main` does not call `create_output`, so no output file is created. `create_output` itself would create the file before finding the list empty.

## Model

| member | source | states |
|---|---|---|
| `Config.LoadConfig` | codeconcat/config.py:151-180 | The result always has exactly the keys "exclude" and "whitelist". A key is replaced only when the decoded file is an object whose value there is a list, and it keeps only that list's string elements. Every failure path leaves both lists empty. |
| `Config.StringsOnlyMembers` | codeconcat/config.py:160-167 | A string is in the filtered list exactly when it was an element of the loaded list. |
| `Config.StringsOnlyAppend` | codeconcat/config.py:161-166 | Filtering keeps each element on its own merits and keeps the original order. |
| `Config.OtherKeysIgnored` | codeconcat/config.py:158-159 | Two objects that agree on "exclude" and "whitelist" load the same configuration, whatever their other keys. |
| `Gitignore.KeepLineIff` | codeconcat/file_utils.py:96-98 | A line is kept exactly when it has a non-white-space character and the first one is not `#`. |
| `Gitignore.ValidPatternsMembers` | codeconcat/file_utils.py:96-98 | The kept lines are exactly the lines that pass that test, unstripped. |
| `Gitignore.ValidPatternsAppend` | codeconcat/file_utils.py:96-98 | Filtering goes line by line and keeps file order. |
| `Gitignore.LoadGitignorePatterns` | codeconcat/file_utils.py:84-121 | The upward loop gives the specified result. A returned spec has non-empty lines that compile. |
| `Gitignore.ReadsOnlyAncestors` | codeconcat/file_utils.py:89-110 | Only the `.gitignore` files of the start directory and its ancestors affect the patterns. |
| `Gitignore.UpwardMembers` | codeconcat/file_utils.py:89-110 | A pattern is collected exactly when some ancestor's (or the start directory's) `.gitignore` holds it as a kept line. |
| `Gitignore.UpwardFailsIff` | codeconcat/file_utils.py:91-104 | Loading fails exactly when one of those `.gitignore` files cannot be decoded. |
| `FileSelection.Compiled` | codeconcat/file_utils.py:143-144 | Compilation fails exactly when some truthy pattern is not a valid regex string. On success the compiled patterns are exactly the non-empty strings given, and each is a valid regex. |
| `FileSelection.ClassifierFallbackExcludes` | codeconcat/file_utils.py:238-251 | With libmagic missing, a file without a listed ending and not named "LICENSE" is not taken. |
| `SelectionFacts.SelectionIff` | codeconcat/file_utils.py:151-260 | A relative path is selected exactly when these all hold: a file exists there; no directory on the way down was pruned; the exclude/gitignore/whitelist/default chain accepts it. |
| `SelectionFacts.WalkDirIff` | codeconcat/file_utils.py:151-182 | The same characterisation for any subtree. |
| `SelectionFacts.SelectFilesIff` | codeconcat/file_utils.py:185-260 | A directory's own files are selected exactly when the chain accepts them. |
| `SelectionFacts.WalkSubdirsIff` | codeconcat/file_utils.py:157-182 | Only subdirectories that are not pruned contribute. |
| `SelectionFacts.ExcludeAndIgnoreWin` | codeconcat/file_utils.py:197-205 | A path that an exclude regex or the gitignore spec matches is never selected, whatever the whitelist says. |
| `SelectionFacts.PrunedSubtreeSkipped` | codeconcat/file_utils.py:168-180 | Nothing beneath a pruned directory is selected. |
| `SelectionFacts.WhitelistDecides` | codeconcat/file_utils.py:207-220 | With a whitelist, a file that survives exclusion is selected exactly when a whitelist regex finds its path. |
| `SelectionFacts.DefaultDecides` | codeconcat/file_utils.py:222-260 | Without a whitelist, a surviving file is selected exactly when the MIME/extension rule takes it. |
| `SelectionFacts.HasFileUnique` | codeconcat/file_utils.py:151 | In a tree with distinct names per directory, a relative path names at most one entry, and its parts are valid. |
| `SelectionFacts.SelectionDistinct` | codeconcat/file_utils.py:151-260 | The walk never selects the same path twice. |
| `SelectionFacts.GitignoreUnusedWhenDisabled` | codeconcat/file_utils.py:174-178 | With `use_gitignore` off, the gitignore spec and matcher have no effect on the selection. |
| `Walker.PruneDirs` | codeconcat/file_utils.py:155-182 | The kept subdirectories are exactly those the exclude regexes and the gitignore spec do not prune, in listing order. |
| `Walker.TakeFile` | codeconcat/file_utils.py:197-260 | The per-file steps take a file exactly when the decision chain includes it. |
| `Walker.FilterFiles` | codeconcat/file_utils.py:185-260 | The tree grows by the absolute paths of exactly the selected files of the directory, in order. |
| `Walker.GenerateDirectoryTree` | codeconcat/file_utils.py:124-268 | The worklist walk returns the sorted absolute paths of the selection, or the error the source raises. |
| `Walker.WalkSubdirsAsPending` | codeconcat/file_utils.py:182 | Visiting the kept directories as a worklist yields what the recursive walk yields. |
| `Walker.ConfigureFailsIff` | codeconcat/file_utils.py:140-144 | The tree fails exactly in three cases: gitignore use is on and a `.gitignore` on the way up is undecodable; an exclude pattern is bad; a whitelist pattern is bad. |
| `Walker.TreeIgnoresGitignoreWhenDisabled` | codeconcat/file_utils.py:140 | With `use_gitignore` off, no `.gitignore` is read: the tree does not depend on them. |
| `Walker.TreeSorted` | codeconcat/file_utils.py:266-268 | The returned list is sorted. |
| `Walker.TreeMembers` | codeconcat/file_utils.py:192 | A string is in the tree exactly when it is the absolute path of a selected file. |
| `Walker.TreeDistinct` | codeconcat/file_utils.py:124-268 | The returned list has no duplicates. |
| `Sorting.Sort` | codeconcat/file_utils.py:267 | The result is sorted by code-point order and is a permutation of the input. |
| `Sorting.SortDeterministic` | codeconcat/file_utils.py:267 | Lists with the same elements sort to the same list. |
| `Output.Stream.Close` | codeconcat/output.py:72-74 | Closing marks the stream closed and leaves its text unchanged. |
| `Output.Stream.Write` | codeconcat/output.py:56-63 | Appends the text to the stream. |
| `Output.WriteRecord` | codeconcat/output.py:56-63 | Writes one record: header line, delimiter, newline-terminated content, delimiter, then two newlines (two blank lines). |
| `Output.WriteFile` | codeconcat/output.py:35-63 | A readable file adds its record. A file whose read fails adds nothing. |
| `Output.WriteRecords` | codeconcat/output.py:35-63 | After the loop the stream holds the rendering of the whole tree, in order. |
| `Output.CreateOutput` | codeconcat/output.py:11-74 | Stdout gets the rendering when asked. Otherwise a new file named by the path gets it and is closed. With no usable target, or when opening fails, nothing is written. Stdout is never closed. |
| `Output.TerminatedFacts` | codeconcat/output.py:58-61 | The written content ends with a newline, extends the content by at most that newline, and equals it exactly when it already ended with one. |
| `Output.RecordRoundTrip` | codeconcat/output.py:56-63 | A record parses back to its header and the newline-terminated content. |
| `Output.ParsedIsRecord` | codeconcat/output.py:56-63 | Anything that parses as a record with newline-terminated text is that record, and its header has no newline. |
| `Output.RecordLosesMissingNewline` | codeconcat/output.py:60-61 | Content with and without its final newline gives the same record. |
| `Output.SkipsUnreadable` | codeconcat/output.py:40-48 | An unreadable file contributes nothing wherever it stands in the tree. |
| `Output.RenderAppend` | codeconcat/output.py:35 | The rendering of two lists is the concatenation of their renderings. |
| `Output.HeaderOfWalkedPath` | codeconcat/output.py:50-56 | For a file under the source, the header is its relative path joined with `/`. |
| `Output.HeaderOutsideSource` | codeconcat/output.py:52-53 | A file outside the source keeps its own path as the header. |
| `Paths.RelativeTo` | codeconcat/output.py:51 | Defined exactly when the base is a prefix with the same anchoring. Base plus result gives the path back. |
| `Paths.AbsStrInjective` | codeconcat/file_utils.py:192 | Distinct valid part lists have distinct absolute strings. |
| `Driver.Run` | codeconcat/main.py:77-183 | The exit status is 0 exactly when the outcome is a file list. The output is written only for a non-empty list, to stdout or to a new closed file. |
| `Driver.CommandLineWins` | codeconcat/main.py:86-95 | A command-line list, even an empty one, replaces the configured value and the default. |
| `Driver.LookupFirst` | codeconcat/main.py:79-95 | A configuration lookup yields the value of the first entry with the key, whatever its type, and the default only when the key is absent. |
| `Driver.ConfigOverDefault` | codeconcat/main.py:86-95 | Without the flag, the pattern list is the configured value of any type: the first entry with the key. The default does not matter then, and is used only when the key is absent. |
| `Driver.NoGitignoreWins` | codeconcat/main.py:77-81 | `--no-gitignore` turns gitignore filtering off whatever the configuration says. Without it, `use_gitignore` is the configured value when the key is present, else the default. |
| `Driver.TargetCheckIff` | codeconcat/main.py:98-103 | The run fails on its target exactly when there is not exactly one of a destination and `--stdout`. |
| `Driver.UnescapeEscape` | codeconcat/main.py:117 | `re.escape` loses nothing: removing the escapes gives the path back. |
| `Driver.ExcludeDestination` | codeconcat/main.py:106-140 | The in-place self-exclusion step gives the value the self-exclusion rule defines. |
| `Driver.SelfExclusionOnList` | codeconcat/main.py:106-124 | For a list value and a destination under the source, the destination's anchored pattern ends up in the list. It is appended only if it was absent, and nothing else changes. |
| `Driver.SelfExclusionOutside` | codeconcat/main.py:112-128 | A destination outside the source leaves the exclude value unchanged. |
| `Driver.SelfExclusionLostForScalar` | codeconcat/main.py:118-146 | A None, boolean, integer or float exclude value ends as the empty list, so there is no self-exclusion. |
| `Driver.TupleExcludeValue` | codeconcat/main.py:118-146 | A tuple exclude value becomes a list of its elements plus the pattern, or the empty list when it already holds the pattern. |
| `Driver.StringExcludeValue` | codeconcat/main.py:118-146 | A string exclude value becomes its characters plus the pattern, or the empty list when it already contains the pattern. |
| `Driver.DestinationNeverWritten` | codeconcat/main.py:106-169 | Given three conditions, the destination file is never in the written list: it lies under the source, the exclude setting is a list, and the regex engine finds the anchored escaped pattern in the path it was built from. |

## Left out

- Symbolic links and `Path.resolve` are an input function. So is the `ValueError` path of `relative_to` inside the walk, which cannot arise for paths built under the source.
- `os.walk` error callbacks, and directories that vanish during the walk, are not modelled.
- `str.lower` is modelled for ASCII letters only. No Unicode case mapping is done.
- `splitlines` is not modelled: a readable `.gitignore` is given as its lines.
- Regex matching, regex validity, pathspec matching and compilation, and libmagic are oracles, not implementations.
- `FileSelection.Compiled`: a non-string truthy pattern is reported as a bad pattern, like an invalid regex. Python raises TypeError for it rather than `re.error`. Both end the run with status 1.
- Write errors in the middle of the output (`OSError` while writing) are not modelled. Neither is the partial output they leave. Opening failure is a boolean input.
- `mkdir` of the destination's parent directories is part of "can open" and is not modelled separately.
- Logging, and the log text of every branch, are not modelled.
- `get_config`, `DEFAULT_CONFIG`, argument parsing and `codeconcat/cli.py` are not part of this model. The merged configuration and the defaults are inputs.
- Aliasing of the configured exclude list is not modelled. `main` appends the self-exclusion pattern to that same list object, which may be shared with the configuration. The model builds a new value.
- `Driver.DestinationNeverWritten` relies on a stated property of the regex oracle, because regex semantics are not modelled.
- `Output.CreateOutput`: the `errors="replace"` decoding is part of `ReadOutcome`. The undecodable case is kept, because the source handles it.
- Decoded JSON objects are assumed to have distinct keys. `PyValues.Get` returns the first entry with a key, whereas `json.load` keeps the last value of a repeated key.
