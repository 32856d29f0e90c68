# regex-copy-plugin, modelled in Dafny

The Maven plugin regex-copy copies or moves the files of a project whose
relative paths match a regular expression. Each destination name is built from
a template in which `{i}` stands for capture group `i`. This project models the
plugin's two pieces of logic and proves what they do.

**The scanner** is `RegexFileScanner`.
- It walks the source tree depth-first, in pre-order.
- It runs the filter in *find* mode on the path, relative to the root, of every entry it visits. The root itself is a candidate too, with the empty path `""`.
- A matching entry is recorded. When the entry is a directory, its subtree is skipped.
- A matching file may also receive content groups. That happens only when a content filter is configured, the file is smaller than 16 MiB, and the content filter finds a match in the file's text.
- Results are collected in an insertion-ordered set keyed by path.

**The destination mapper** is `AbstractRegexMojo.mapResultToDestination`.
- It rewrites the template once per present filename group, in increasing index.
- It then does the same for each present content group, with index offset by the number of filename groups.
- It resolves the resulting text against the destination directory.

Modules, one per file:

- `Base` (`base.dfy`): `Option` and `Outcome`, an error-carrying result.
- `Paths` (`paths.dfy`): paths as sequences of names. `Join` gives their "/"-separated text, `Components` parses a text back, and `Resolve` is `Path.resolve`.
- `Regex` (`regex.dfy`): the regular-expression engine as an oracle. A `Pattern` has a group count and a `find` function that answers with a match state. `GetGroups` is `getGroups`.
- `FileTree` (`tree.dfy`): the directory tree. A `File` has a name, a size and a content; a `Dir` has ordered children. `Entries` is the tree's full pre-order listing.
- `ScanResults` (`results.dfy`): `Result` and the ordered, path-keyed `ResultSet` with `Add` and `AddAll`. `Dedup` is an independent first-wins reference.
- `Scanner` (`scanner.dfy`): `addResultIfMatch`, the visitor's walk, and `scan`.
- `ScanTheorems` (`scan_theorems.dfy`): the scan equals a reference that lists every entry, keeps the reportable ones, and deduplicates.
  - An entry is reportable when it matches and no ancestor does.
  - Pruning, soundness, completeness, the root case and content gating follow from this.
- `Template` (`template.dfy`): the `{i}` placeholders, a literal `ReplaceAll`, the substitution passes and `MapToDestination`.
- `TemplateTheorems` (`template_theorems.dfy`): what the passes do to the tokens of a template.
- `JavaReplacement` (`java_replacement.dfy`): the mapping exactly as written. There, `String.replaceAll` reads the group text as a replacement string (see Findings).
- `Scenarios` (`scenarios.dfy`): typical configurations, computed on the model.

## Model

| member | source | states |
|---|---|---|
| Scanner.ContentGroups | src/main/java/net/ggtools/maven/RegexFileScanner.java:126-135 | content groups are present exactly when a content filter is configured, the entry is a file, its size is strictly below the limit, and the content filter finds a match in its text; when present they are that match's groups |
| Regex.GetGroups | src/main/java/net/ggtools/maven/RegexFileScanner.java:143-148 | the group array has groupCount + 1 entries, entry i being group i of the match (absent when the group did not participate) |
| Regex.Search | src/main/java/net/ggtools/maven/RegexFileScanner.java:123-125 | groups are produced exactly when `find` succeeds, and then they are the groupCount + 1 groups of that match |
| Scanner.Record | src/main/java/net/ggtools/maven/RegexFileScanner.java:125-137 | a recorded result carries the absolute path (base + relative path) and one filename group per capture group of the filter, group 0 included, each being what that group captured in the relative path text; it has content groups exactly when a content filter is set, the entry is a file under the size limit and the content filter finds a match in its text, and then one per capture group of the content filter, each being what that group captured |
| Scanner.Matches | src/main/java/net/ggtools/maven/RegexFileScanner.java:123-124 | an entry matches exactly when a groups array is produced for the text of its relative path |
| Scanner.AddResultIfMatch | src/main/java/net/ggtools/maven/RegexFileScanner.java:121-141 | answers true exactly when the filter finds a match on the relative path; then the path is in the set afterwards, appended with its record when new and the set unchanged when already present; on no match the set is unchanged |
| Scanner.Walk | src/main/java/net/ggtools/maven/RegexFileScanner.java:108-119 | visiting a subtree keeps the set consistent (no path twice) and only appends: everything collected earlier stays, in order |
| Scanner.Scan | src/main/java/net/ggtools/maven/RegexFileScanner.java:30-34 | the returned list never holds two results with the same path |
| FileTree.Entries | src/main/java/net/ggtools/maven/RegexFileScanner.java:32 | the walk's listing starts with the subtree's own entry and every later entry lies strictly below it |
| ScanResults.Add | src/main/java/net/ggtools/maven/RegexFileScanner.java:59-70 | insertion keyed by path alone: a new path is appended, an existing path leaves the set as it was (the first result wins) |
| ScanResults.AddAll | src/main/java/net/ggtools/maven/RegexFileScanner.java:96 | inserting a sequence keeps the set consistent and never reorders or removes earlier entries |
| ScanResults.AddAllPaths | src/main/java/net/ggtools/maven/RegexFileScanner.java:96 | after inserting a sequence the set holds exactly the earlier paths and the paths of the sequence |
| ScanResults.AddAllIsDedup | src/main/java/net/ggtools/maven/RegexFileScanner.java:96 | inserting a sequence appends the first-wins deduplication of its results whose paths were not present yet |
| ScanResults.CollectIsDedup | src/main/java/net/ggtools/maven/RegexFileScanner.java:33 | collecting into an empty set and listing it gives the reference deduplication: first result per path, first-insertion order |
| ScanResults.DedupDistinct | src/main/java/net/ggtools/maven/RegexFileScanner.java:60-65 | the deduplication has no path twice and loses no path |
| ScanResults.DedupKeepsFirst | src/main/java/net/ggtools/maven/RegexFileScanner.java:96 | a result that no earlier result shares a path with survives deduplication |
| ScanResults.AddAllConcat | src/main/java/net/ggtools/maven/RegexFileScanner.java:137 | inserting a concatenation is inserting its parts in turn |
| ScanTheorems.WalkIsReference | src/main/java/net/ggtools/maven/RegexFileScanner.java:109-119 | below non-matching ancestors, visiting a subtree inserts exactly the reportable entries of its pre-order listing |
| ScanTheorems.ScanIsPrunedPreOrder | src/main/java/net/ggtools/maven/RegexFileScanner.java:30-34 | a scan returns the records of the reportable entries (matching, with no matching ancestor) in pre-order, first result per path |
| ScanTheorems.ScanSound | src/main/java/net/ggtools/maven/RegexFileScanner.java:121-137 | every result comes from an entry of the tree whose relative path matches while no ancestor's does, and carries that entry's path, filename groups and content groups |
| ScanTheorems.ScanComplete | src/main/java/net/ggtools/maven/RegexFileScanner.java:109-112 | the walk descends through non-matching directories: every matching entry without a matching ancestor is recorded |
| ScanTheorems.ScanPrunes | src/main/java/net/ggtools/maven/RegexFileScanner.java:112 | once a directory matches, nothing strictly below it is recorded, whatever it would match |
| ScanTheorems.ScanSkipsNonMatching | src/main/java/net/ggtools/maven/RegexFileScanner.java:124-140 | an entry whose relative path does not match (a directory included) is never recorded |
| ScanTheorems.ScanRootMatch | src/main/java/net/ggtools/maven/RegexFileScanner.java:109-122 | when the filter finds a match in the root's empty relative path, the root is the single result |
| ScanTheorems.ContentNeverFilters | src/main/java/net/ggtools/maven/RegexFileScanner.java:128-138 | content matching only adds groups: with content groups erased, a scan with a content filter equals the scan without one |
| ScanTheorems.NoContentFilterNoContentGroups | src/main/java/net/ggtools/maven/RegexFileScanner.java:26-28 | without a content filter no result has content groups |
| Template.DecimalRoundTrip | src/main/java/net/ggtools/maven/AbstractRegexMojo.java:78 | the decimal text of the index in a placeholder reads back as that index |
| Template.DecimalInjective | src/main/java/net/ggtools/maven/AbstractRegexMojo.java:85 | distinct indices have distinct decimal texts, so the placeholders `{i}` of distinct groups differ |
| Template.ReplaceAbsent | src/main/java/net/ggtools/maven/AbstractRegexMojo.java:78 | a text in which the token does not occur is left unchanged |
| Template.ReplaceSplits | src/main/java/net/ggtools/maven/AbstractRegexMojo.java:76-78 | every occurrence of the placeholder is replaced by the group text, the text on either side being processed on its own |
| Template.ReplaceKeepsOtherToken | src/main/java/net/ggtools/maven/AbstractRegexMojo.java:75-80 | replacing one placeholder never destroys an occurrence of a different one |
| Template.ReplaceAll | src/main/java/net/ggtools/maven/AbstractRegexMojo.java:78 | replacing a placeholder by its own text leaves any text unchanged; `ReplaceSplits` and `ReplaceAbsent` together fix the function: every occurrence is replaced, the text around it is processed on its own, and a text without the placeholder is unchanged |
| Template.Substitute | src/main/java/net/ggtools/maven/AbstractRegexMojo.java:74-80 | a template without '{', or a group list with no present group, comes out unchanged; `SubstituteConcat`, `AbsentGroupTokenSurvives` and `TemplateWithoutTokensUnchanged` state what the passes do to placeholders |
| Template.SubstituteGroups | src/main/java/net/ggtools/maven/AbstractRegexMojo.java:73-88 | a template without '{' comes out unchanged; `TwoPassesAreOnePass` shows the two loops are one ordered pass over filename then content groups |
| Template.ReplacePassesPrefix | src/main/java/net/ggtools/maven/AbstractRegexMojo.java:78 | text that cannot start the token passes through replacement unchanged |
| Template.MapToDestination | src/main/java/net/ggtools/maven/AbstractRegexMojo.java:89 | a relative substituted text lands under the destination directory, the names after it being the components of that text |
| TemplateTheorems.SubstituteConcat | src/main/java/net/ggtools/maven/AbstractRegexMojo.java:81-88 | substituting two group lists in a row equals substituting their concatenation, the second list's indices continuing after the first's |
| TemplateTheorems.TwoPassesAreOnePass | src/main/java/net/ggtools/maven/AbstractRegexMojo.java:73-88 | the filename pass then the content pass is one ordered pass over filename groups followed by content groups, content group j standing for `{j + groups.length}` |
| TemplateTheorems.AbsentGroupTokenSurvives | src/main/java/net/ggtools/maven/AbstractRegexMojo.java:75-87 | a placeholder whose group is absent or beyond the available groups stays in the output |
| TemplateTheorems.TemplateWithoutTokensUnchanged | src/main/java/net/ggtools/maven/AbstractRegexMojo.java:74-88 | a template holding no placeholder of a substituted group comes out unchanged |
| Paths.Join | src/main/java/net/ggtools/maven/RegexFileScanner.java:122-123 | the text of a path of valid names is empty exactly for the root's empty path and otherwise starts with the first name; `ComponentsOfJoin` shows `Components` reads the path back |
| Paths.Resolve | src/main/java/net/ggtools/maven/AbstractRegexMojo.java:89 | a relative text lands under the directory, which stays a prefix, and valid names stay valid; an absolute text gives a path of valid names; `ResolveJoin` shows resolving a joined path appends exactly its names |
| Paths.ComponentsOfJoin | src/main/java/net/ggtools/maven/RegexFileScanner.java:122-123 | parsing the text of a relative path gives back that path |
| Paths.ResolveJoin | src/main/java/net/ggtools/maven/AbstractRegexMojo.java:89 | resolving the text of a relative path appends exactly its names to the destination; the empty text of the empty path resolves to the destination itself |
| Scenarios.WorkedExample | src/main/java/net/ggtools/maven/AbstractRegexMojo.java:75-80 | "out/{1}/{0}" with groups ["report_2024.log", "2024"] gives "out/2024/report_2024.log" under the destination |
| Scenarios.ContentGroupOffset | src/main/java/net/ggtools/maven/AbstractRegexMojo.java:81-88 | with two filename groups, content group 0 answers "{2}" |
| Scenarios.LaterPassRewritesInsertedText | src/main/java/net/ggtools/maven/AbstractRegexMojo.java:74-80 | group 0's text "{1}" is itself rewritten by the pass for group 1 |
| Scenarios.AbsentGroupPassesThrough | src/main/java/net/ggtools/maven/AbstractRegexMojo.java:77 | an absent group leaves "{1}" in the output |
| Scenarios.EndToEndScan | src/main/java/net/ggtools/maven/RegexFileScanner.java:121-141 | scanning proj/a/{report_2024.log, notes.txt} gives one result, for report_2024.log, with its filename and content groups |
| Scenarios.EndToEndDestination | src/main/java/net/ggtools/maven/AbstractRegexMojo.java:72-89 | that result mapped with "{1}-{2}.log" is named "2024-status: WARN.log" |
| JavaReplacement.Expand | src/main/java/net/ggtools/maven/AbstractRegexMojo.java:78 | expanding a replacement string fails only when it holds '$' or '\\' |
| JavaReplacement.JavaReplaceAll | src/main/java/net/ggtools/maven/AbstractRegexMojo.java:78 | a text without the placeholder's first character comes out unchanged, whatever the replacement string |
| JavaReplacement.JavaReplaceAllFails | src/main/java/net/ggtools/maven/AbstractRegexMojo.java:78 | the only error `replaceAll` raises is the one expanding the replacement string raises |
| JavaReplacement.JavaSubstitute | src/main/java/net/ggtools/maven/AbstractRegexMojo.java:74-88 | a substitution loop fails only when some present group text holds '$' or '\\', and leaves a text without '{' unchanged |
| JavaReplacement.JavaMapToDestination | src/main/java/net/ggtools/maven/AbstractRegexMojo.java:72-89 | the mapping as written fails only when some filename or content group text holds '$' or '\\'; a template without '{' is resolved as it is, whatever the groups |
| JavaReplacement.JavaReplaceAllIsLiteral | src/main/java/net/ggtools/maven/AbstractRegexMojo.java:78 | when the group text expands without error, `replaceAll` is the literal replacement by its expansion |
| JavaReplacement.ExpandPlain | src/main/java/net/ggtools/maven/AbstractRegexMojo.java:78 | group text with neither '$' nor '\\' expands to itself |
| JavaReplacement.ReferenceAfterPlain | src/main/java/net/ggtools/maven/AbstractRegexMojo.java:78 | a reference `$1` to `$9` in group text, after any plain start and whatever follows it, makes the expansion fail with the missing group's number |
| JavaReplacement.AsWrittenAgreesOnPlainGroups | src/main/java/net/ggtools/maven/AbstractRegexMojo.java:72-89 | when no group text holds '$' or '\\', the mapping as written succeeds and equals the literal mapping |
| Scenarios.DollarFileIsRecorded | src/main/java/net/ggtools/maven/RegexFileScanner.java:121-141 | with filter "(.+)", which does not match the root's empty path, a file "cost$1.txt" directly under the root is the single result, with groups ["cost$1.txt", "cost$1.txt"] |
| JavaReplacement.DollarInGroupTextThrows | src/main/java/net/ggtools/maven/AbstractRegexMojo.java:78 | group text "cost$1.txt" makes the mapping as written fail with a reference to a missing group, where the literal mapping gives "cost$1.txt" |
| JavaReplacement.BackslashInGroupTextIsDropped | src/main/java/net/ggtools/maven/AbstractRegexMojo.java:85 | content group text "a\\b", answering "{1}" after one filename group, is written as "ab" by the mapping as written, where the literal mapping keeps "a\\b" |

## Behaviour a reader might not expect

- **The root is a candidate.** One might expect only the entries below the root to be tested. But `Files.walkFileTree` pre-visits the root too, and its relative path is `""` (RegexFileScanner.java:32, 109-112, 122). A filter that finds a match in `""` records the root and prunes everything beneath it. The model follows the code, and `ScanTheorems.ScanRootMatch` states this.
- **Substitution is sequential.** One might expect group text to be inserted verbatim and never substituted again. In the code, every pass rewrites the text produced by the passes before it (AbstractRegexMojo.java:74-88). Both the main model and the as-written model follow this, and `Scenarios.LaterPassRewritesInsertedText` shows it.
- **Group text is a replacement string.** In the code, `replaceAll` reads `$` and `\` in the group text. Here only `JavaReplacement` follows the code. `Template.ReplaceAll`, on which `Template.MapToDestination`, `TemplateTheorems` and `Scenarios` rest, inserts the group text literally, as the corrected behaviour (see Findings).
- **`{2}` after two filename groups is the whole content match.** With filter `report_(\d+)\.log$` and content filter `status: (\w+)`, one might expect `{1}-{2}.log` to name the copy `2024-WARN.log`. But `{2}` is content group 0, the whole content match `status: WARN`, so the name is `2024-status: WARN.log`. `Scenarios.EndToEndDestination` proves the code's value.

## Left out

- The regular-expression engine (`Pattern.compile`, `Matcher.find`) is an oracle. A `Pattern` carries its group count and a `find` function from text to an optional match state. Compile errors are configuration failures and are not modelled.
- The file system is an immutable tree.
  - `Files.walkFileTree`, `Files.isDirectory`, `Files.size` and `Files.readAllBytes` become fields of the nodes.
  - File content is given as already-decoded text, with no platform charset.
  - Sibling order is the order of the children sequence.
  - Symbolic links, I/O errors and `IOException` propagation are not modelled.
- Paths are sequences of names.
  - `relativize`/`toString` is `Join`, always with '/', never the Windows separator.
  - `toAbsolutePath` is prefixing the configured base path, which is taken to be absolute.
  - `Path.resolve` is `Resolve`: empty names from repeated separators are dropped, and "." and ".." are kept as names.
- `Result.toString`, the getters, and the `groups`/`contentGroups` arrays are not separate members. A `String[]` with `null` entries is a `seq<Option<string>>`, and a `null` array is `None`.
- `execute`, `copyResult` (the regular-file check, parent-directory creation, logging), Maven parameter binding, and the `RegexCopyMojo`/`RegexMoveMojo` wrappers around `Files.copy`/`Files.move` are orchestration and I/O. RegexCopyMojo.java and RegexMoveMojo.java are not part of this model.
- `Path.resolve` throws `InvalidPathException` on a text holding a NUL character, which content-group text read from a file can hold; `Resolve` never fails, as names are any strings here.
- Template.MapToDestination: the ensures speak only of a relative substituted text. An absolute one is described by `Paths.Resolve` (the text's own components) rather than by this member's contract.

## Findings

| source | as written | input that shows it | evidently intended | confidence | as-written member | corrected member |
|---|---|---|---|---|---|---|
| src/main/java/net/ggtools/maven/AbstractRegexMojo.java:78 | the group text is passed to `replaceAll` as a replacement string, so `$1` in it is read as a reference to group 1 of the `\{i\}` pattern, which has none; the same applies to content groups at line 85 | filter `(.+)`, which does not match the root's empty path, matching the file `cost$1.txt` directly under the root (its groups are `["cost$1.txt", "cost$1.txt"]`), template `{1}`; `Scenarios.DollarFileIsRecorded` proves the scan records exactly this result | the file is copied to `cost$1.txt` under the destination | not executed | JavaReplacement.DollarInGroupTextThrows | Template.MapToDestination |
| src/main/java/net/ggtools/maven/AbstractRegexMojo.java:85 | a `\` in the group text escapes the next character and is dropped (line 78 likewise) | a file `x` matched whole by a filter without capture groups, content matched as `a\b` by a content filter without capture groups, template `{1}` | the destination name `a\b` | not executed | JavaReplacement.BackslashInGroupTextIsDropped | Template.MapToDestination |

The corrected mapping uses literal replacement: `Template.ReplaceAll` with the group text inserted as it is. The rest of the model is built on it.
- `JavaReplacement.AsWrittenAgreesOnPlainGroups` proves the two mappings agree whenever no group text holds `$` or `\`.
- The second `ensures` of each counterexample lemma proves the corrected value on the offending input.
- In Java, quoting the group text with `Matcher.quoteReplacement` gives the corrected behaviour.
