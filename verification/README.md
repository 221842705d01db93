# purescript-dependency-graph, modelled in Dafny

The extension draws a Mermaid flowchart of the module dependencies of a
PureScript project. All of its logic lives in `src/extension.ts`:

- **Module-name walk.** `inDirModules` walks the sources directory and lists
  every declared module name.
- **Tree walk.** `makeModuleTree` walks the directory again and builds a
  `ModuleTree`. There is one node per segment of a dotted module name. Each
  selected module's node carries its filtered, de-duplicated imports.
- **Rendering.** `makeGraph` renders the tree: boxes and subgraphs first,
  then one `-->` edge per dependency.

Both walks read a file the same way at first:

1. strip `{- -}` and `--` comments with two regular-expression replacements
   (lines 65 and 85);
2. take a token of the line after the first `module ` as the module name.
   `inDirModules` splits that line at spaces only (line 67), `makeModuleTree`
   at space, `|` and `(` (line 87).

Only `makeModuleTree` goes on to read imports: it takes the token after the
first `import ` of each line (line 93). `inDirModules` never looks at them.

The model is pure Dafny over `string` (`seq<char>`), in six modules:

| file | module | models |
|---|---|---|
| `strings.dfy` | `Strings` | first occurrence, line ends, `split` with a one-character class, `join('.')` |
| `sanitizer.dfy` | `Sanitizer` | the two comment-stripping `replace` calls (lines 65 and 85) |
| `extract.dfy` | `Extract` | `match(/module .*?…/g)?.[0].split(…)[1]`, `match(/import .*?…/g)?.map(…)`, `Array.from(new Set(…))` |
| `trees.dfy` | `Trees` | the `ModuleTree` class, as an immutable tree |
| `render.dfy` | `Render` | `makeGraph`, as a list of output lines and their text |
| `pipeline.dfy` | `Pipeline` | `inDirModules`, `makeModuleTree` and the `drawGraph` handler, over the files' contents |

**Regular expressions become character scans.**

- A global match or replace runs left to right over the original text, and
  its matches do not overlap.
- JavaScript's `.` matches no line terminator, and `$` (without the `m`
  flag) is the end of the text. So a match of `<keyword>.*?($|(?=\n|\r))`
  runs from the keyword to the first `\n` or `\r`, or to the end of the
  text.
- `{-.*?-}` only removes a comment that closes on the line it opens.

**The code reads less than a full PureScript reader would, and the model
reads what the code reads:**

- Only one-line comments are removed. String literals and parentheses are
  left alone.
- `module ` and `import ` are found anywhere in the text, not only at the
  start of a line, and the first `module ` wins.
- A name is token 1 of the matched line, split at every separator
  character. Empty tokens are kept, so `module  A` declares the empty name.

## Model

| member | source | states |
|---|---|---|
| Strings.FindFrom | src/extension.ts:67 | the result is an occurrence of the keyword and no earlier position is one; `None` means it occurs nowhere from `from` on |
| Strings.LineEnd | src/extension.ts:65 | where a lazy `.*?` followed by `$` or a line-break lookahead stops: the first `\n`/`\r` at or after `from`, or the end of the text |
| Strings.TakeUntilIs | src/extension.ts:87 | a separator-free prefix followed by a separator, or by the end of the text, is exactly the token `split(...)[1]` picks out |
| Strings.Split | src/extension.ts:87 | `split` with a one-character class: at least one piece, no piece holds a separator, and the first piece runs up to the first separator |
| Strings.SplitAfterSeparator | src/extension.ts:87 | a separator ends the first piece, and the rest of the text is split on its own |
| Strings.JoinSplitDots | src/extension.ts:91 | joining the pieces of `moduleName.split('.')` with dots gives the name back |
| Strings.SplitDotsInjective | src/extension.ts:91 | two different module names never share a tree path |
| Sanitizer.BlockClose | src/extension.ts:65 | the lazy `.*?-}` after `{-` ends at the first `-}` on the same line, and fails if there is none before the line break |
| Sanitizer.StripBlockComments | src/extension.ts:65 | removing `{- -}` comments never lengthens the text and keeps every line terminator, in order |
| Sanitizer.StripLineComments | src/extension.ts:65 | removing `--` comments keeps every line terminator; the result holds no `--`, and a removed comment leaves its line break first |
| Sanitizer.Sanitize | src/extension.ts:85 | the text the walks read is no longer than the file, has the file's line structure, and holds no `--` |
| Sanitizer.StripLineCommentsIdempotent | src/extension.ts:65 | a second `--` pass changes nothing |
| Sanitizer.SanitizePlain | src/extension.ts:65 | text in which no comment can start passes both replacements unchanged |
| Sanitizer.BlockCommentRemoved | src/extension.ts:65 | a one-line `{- c -}` with no `-}` inside is removed whole, and scanning resumes right after it |
| Sanitizer.LineCommentRemoved | src/extension.ts:65 | a `--` comment is removed up to, but not including, its line break |
| Sanitizer.SanitizeAroundBreak | src/extension.ts:85 | no match of either pattern crosses a line break, so the text before a break and the text after it are sanitized independently |
| Sanitizer.StripLineCommentsAroundBreak | src/extension.ts:65 | a `--` comment never runs past a line break: the `--` pass treats the two sides of a break independently |
| Sanitizer.BlockCommentInvisibleFromLineStart | src/extension.ts:85 | at the start of the text, after comment-free text, a one-line block comment is as if never written |
| Sanitizer.LineCommentInvisibleFromLineStart | src/extension.ts:85 | at the start of the text, after comment-free text, a `--` comment running to its line break is as if never written |
| Sanitizer.BlockCommentInvisible | src/extension.ts:85 | anywhere in a file, after any earlier lines, sanitizing reads the file as if a one-line block comment had never been written, provided the part of its own line before it is comment-free |
| Sanitizer.LineCommentInvisible | src/extension.ts:85 | anywhere in a file, after any earlier lines, sanitizing reads the file as if a `--` comment running to its line break had never been written, provided the part of its own line before it is comment-free |
| Extract.TakeUntilNarrower | src/extension.ts:67 | splitting at fewer separators gives a token that extends the one found with more separators, so line 67's name always starts with line 87's |
| Extract.TokenAt | src/extension.ts:87 | a token read from a matched line lies within one line and holds no separator |
| Extract.KeywordLines | src/extension.ts:93 | every match starts with the keyword and lies within one line |
| Extract.SecondToken | src/extension.ts:87 | token 1 of a matched line always exists: it is the separator-free run right after the keyword's space |
| Extract.ModuleName | src/extension.ts:87 | no name exactly when `module ` occurs nowhere; otherwise the token after its first occurrence, read to the end of that line |
| Extract.ModuleNameOfDeclaration | src/extension.ts:67 | `module A.B.C where` declares `A.B.C` under both tokenizers, and `module A.B.C(x) where` does so under the one of line 87 |
| Extract.SecondTokens | src/extension.ts:93 | one import name per matched line, and each lies within that line and holds no space, `\|` or `(` |
| Extract.Imports | src/extension.ts:93 | every import read from a file is a single token: no line break, space, `\|` or `(` |
| Extract.ImportsLineByLine | src/extension.ts:93 | the global match yields, line by line, the token after the first `import ` of each line, and nothing from lines without one |
| Extract.ImportsAfterBreak | src/extension.ts:93 | a line break ends a line's contribution, and the rest of the text contributes on its own |
| Extract.Dedup | src/extension.ts:96 | `Array.from(new Set(xs))` holds exactly the values of `xs`, each once, in the order of their first occurrence |
| Trees.FindChildFrom | src/extension.ts:20 | `children.find` returns the first child with the label, and no earlier child has it |
| Trees.FindChildAppend | src/extension.ts:23 | pushing a child never changes which earlier child a search finds |
| Trees.AddModule | src/extension.ts:17-29 | inserting a path never changes the receiver's label or dependency list |
| Trees.AddModuleIdempotent | src/extension.ts:17-29 | inserting the same path twice gives the same tree as inserting it once |
| Trees.AddModuleUniqueLabels | src/extension.ts:20-23 | because `find` runs before `push`, sibling labels stay distinct |
| Trees.AddModuleDeps | src/extension.ts:17-29 | afterwards every old node keeps its list, every missing prefix of the path gains a node with an empty list, and no other node appears |
| Trees.AddDependency | src/extension.ts:9-16 | adding a dependency never changes the tree's shape, and never changes the receiver's list for a non-empty path |
| Trees.AddDependencyDeps | src/extension.ts:9-16 | the list at the path gains `dep` at its end when that node exists, and every other list is unchanged |
| Trees.AddDependencyMissingPath | src/extension.ts:14 | on a path with no node, the optional chain leaves the tree exactly as it was |
| Render.Text | src/extension.ts:37-47 | every line the renderer emits is non-empty and ends with `\n` |
| Render.Serialize | src/extension.ts:53 | the concatenated lines are at least one character per line, and end with `\n` when there is any line |
| Render.EndText | src/extension.ts:42 | a line reads exactly `end` exactly when it closes a subgraph: no box, edge or `subgraph` line can be mistaken for one |
| Render.SerializeShowsLines | src/extension.ts:53 | line `k`'s text sits in the concatenation at the offset where the earlier lines end, and the next line starts right after it |
| Render.LinesInOrder | src/extension.ts:53 | the lines' texts appear in the output in list order, without overlapping |
| Render.SerializeAppend | src/extension.ts:53 | the text of two line lists, one after the other, is the two texts concatenated |
| Render.Boxes | src/extension.ts:36-45 | a node's box lines contain no edge; their `subgraph`/`end` lines nest, and every `subgraph` line is directly followed by the namespace box of the same node |
| Render.ChildBoxes | src/extension.ts:39-41 | the same holds for the boxes of a run of siblings |
| Render.ChildEdges | src/extension.ts:39-48 | the dependency lines a run of siblings adds, each subtree's after the one before, are all edges |
| Render.DepEdges | src/extension.ts:46-48 | one edge per dependency, from the node's id, in list order |
| Render.Edges | src/extension.ts:46-48 | a node's dependency lines are all edges |
| Render.BoxesShowListing | src/extension.ts:35-49 | a box is drawn for a subtree exactly when it belongs to a node of that subtree, under that node's dotted id |
| Render.EdgesShowListing | src/extension.ts:35-49 | an edge is drawn for a subtree exactly when some node of that subtree, under that id, has that dependency |
| Render.GraphShowsEveryEdge | src/extension.ts:46-52 | every dependency recorded below the root is drawn as an edge from the node's dotted path |
| Render.GraphEdgesAreDependencies | src/extension.ts:46-52 | with distinct sibling labels, every edge drawn is a recorded dependency of the node its source names |
| Render.GraphShowsEveryNode | src/extension.ts:36-52 | every node below the root gets its box, under its dotted path |
| Render.GraphBoxesAreNodes | src/extension.ts:36-52 | with distinct sibling labels, every box drawn belongs to the node its id leads to |
| Render.GraphWellFormed | src/extension.ts:53 | the subgraphs nest properly, and every box line comes before every edge line |
| Render.GraphLines | src/extension.ts:50-53 | the graph's lines are the `subgraphs` lines followed by the `dependencies` lines: a line is an edge exactly when it comes after all the box lines |
| Render.MakeGraph | src/extension.ts:53 | the Markdown text opens with the ```` ```mermaid ```` / `flowchart LR` header, closes with the fence, and between them holds exactly as many characters as the graph's lines, so nothing stray precedes or follows them |
| Render.MakeGraphShowsLine | src/extension.ts:53 | each graph line's text appears between the header and the closing fence, at the offset where the earlier lines end |
| Render.LinePosition | src/extension.ts:53 | every box, `subgraph`, `end` and edge line of the graph appears in the Markdown text |
| Render.EndsOfBoxes | src/extension.ts:36-45 | a subtree's box lines hold one `end` line per node with children |
| Render.EdgeCount | src/extension.ts:46-48 | a subtree's dependency lines number exactly its dependency entries |
| Render.GraphCounts | src/extension.ts:32-54 | the graph has one `end` line per node below the root that has children, and one edge line per dependency entry of a node below the root |
| Render.GraphIgnoresRoot | src/extension.ts:50-53 | the root's own label and dependencies never reach the output |
| Pipeline.ParseAll | src/extension.ts:63-93 | one reading per file, in file order, and each is the reading of that file alone |
| Pipeline.Parse | src/extension.ts:65-93 | a file declares a name under line 87's tokenizer exactly when it does under line 67's; then line 87's name is a prefix of line 67's, each is one token, and so is every import |
| Pipeline.AllModulesAsWritten | src/extension.ts:56-76 | `inDirModules` as written lists a name exactly when some file's `module` line yields it under the space-only split |
| Pipeline.AllModules | src/extension.ts:56-76 | with line 87's split, the list holds a name exactly when some file declares it under the tree walk's reading |
| Pipeline.NamesAlign | src/extension.ts:67 | both readings list the same files' names, position by position, and each name of line 87 is a prefix of the one line 67 lists |
| Pipeline.Selected | src/extension.ts:89 | a file contributes a module exactly when it declares a name and the selection accepts it, and then it is that name |
| Pipeline.NamesWith | src/extension.ts:63-70 | the list holds a name exactly when some file declares it; files with no declaration are skipped |
| Pipeline.ModulePath | src/extension.ts:91 | a module's tree path is non-empty and joins back to its name |
| Pipeline.Kept | src/extension.ts:97-101 | the filter keeps exactly the entries the selection accepts and `allModules` lists |
| Pipeline.KeptInOrder | src/extension.ts:97-101 | the filter keeps entries distinct and in their order |
| Pipeline.FileDeps | src/extension.ts:93-101 | what a file adds: exactly its imports that the selection accepts and `allModules` lists |
| Pipeline.FileDepsInOrder | src/extension.ts:96-101 | each import is added once, in the order of its first import |
| Pipeline.AttachImports | src/extension.ts:97-101 | the dependency loop keeps the receiver's label, keeps its list when the path is non-empty, and keeps sibling labels distinct |
| Pipeline.AttachImportsDeps | src/extension.ts:97-101 | the loop appends exactly the kept dependencies at the module's node, and touches no other list |
| Pipeline.ProcessFile | src/extension.ts:83-102 | one file never changes the root's label or list, and keeps sibling labels distinct |
| Pipeline.ProcessFileDeps | src/extension.ts:83-102 | a file with no selected declaration changes nothing; otherwise the module's node, created if need be, gains the file's kept imports, prefixes appear with empty lists, and nothing else changes |
| Pipeline.BuildTree | src/extension.ts:135-146 | the tree has the root `ModulesRoot`, with no dependencies, and distinct sibling labels everywhere |
| Pipeline.BuildTreeNodes | src/extension.ts:78-108 | the nodes are the root and the prefixes of selected declared modules' paths, and each carries the concatenation, in file order, of its declaring files' kept imports |
| Pipeline.GraphEdgesAreImports | src/extension.ts:83-101 | the graph has an edge from `s` to `d` exactly when some file declares the selected module `s` and imports `d`, which the selection accepts and `allModules` lists |
| Pipeline.EveryModuleDrawn | src/extension.ts:89-91 | every selected declared module is drawn, as a box whose id is its name |
| Pipeline.BoxesAreNamespaces | src/extension.ts:89-91 | every box drawn stands for a prefix of some selected declared module's path |
| Pipeline.ImportsOfDeclaredModulesDrawn | src/extension.ts:144-146 | when both walks read names alike, every import of a declared and selected module is drawn |
| Pipeline.DrawGraph | src/extension.ts:144-150 | with both walks splitting names as line 87 does (the corrected pipeline), the Markdown text is a Mermaid code fence: header first, closing fence last |
| Pipeline.DrawGraphAsWritten | src/extension.ts:144-150 | the handler's own text, with `inDirModules` splitting names as line 67 does, is a Mermaid code fence |
| Pipeline.DrawGraphShowsImport | src/extension.ts:144-150 | with both walks splitting names as line 87 does (the corrected pipeline), a selected module's import of another selected, declared module appears in the Markdown text as the line `s --> d`; as written this fails, see `Pipeline.AsWrittenDropsImport` |
| Pipeline.AsWrittenDropsImport | src/extension.ts:67 | as written, `B`'s import of `A` is not drawn when `A` is declared as `module A(x) where`: the Markdown holds the two boxes and no edge |
| Pipeline.CorrectedKeepsImport | src/extension.ts:87 | when both walks split names as line 87 does, the edge from `B` to `A` is drawn, and the Markdown holds the two boxes and the line `B --> A` |

## Left out

- **File system.** The directory walks (`readDirectory`, `readFile`, the `.purs` and folder filters, the recursion into folders) are replaced by the list of file contents, in the order both walks visit them. That order is the files of a folder first, then its sub-folders.
- **Decoding.** `TextDecoder` is not modelled: a file is already a string.
- **VS Code glue.** The configuration lookups, workspace checks, progress notification, information messages and `writeFile` of the output are not modelled, and neither is `activate`/`deactivate`.
- **Selection pattern.** The configured `selectedModules` regular expression is an arbitrary predicate `sel` on names, not a regular-expression engine.
- **Line terminators.** JavaScript's `.` also refuses U+2028 and U+2029. Only `\n` and `\r` count as line terminators here.
- **Async and logging.** Asynchrony and `console.log` are not modelled. They do not affect the result.
- **The validity check of line 127.** It builds a `FileNotADirectory` error and compares its code with `'FileNotADirectory'`, which always holds, so the handler as written shows "This project isn't valid" and returns before drawing anything. `Pipeline.DrawGraphAsWritten` models the text the handler would write past that check, and `Pipeline.DrawGraph` the same text with the name split of line 67 corrected to that of line 87; the early return itself is not modelled.
- Sanitizer.BlockCommentInvisible: requires the part of the comment's own line before it to be comment-free (`Plain`: no `-`, not ending in `{`), because otherwise the claim is false. In `{-{--}` the earlier `{-` opens a comment that the written one closes, so the text sanitizes to the empty text, while `{-` alone stays `{-`.
- Sanitizer.LineCommentInvisible: requires the same of the part of the comment's own line before it, for the same reason. In `{--c-}` the `{` and the first `-` of `--` open a block comment that `c-}` closes, so the text sanitizes to the empty text, while `{` alone stays `{`.
- **The `res !== null` guard (line 95).** It is always true: when `import ` never occurs, `?.map` yields `undefined` and `new Set(undefined)` is empty. The model treats that case as the empty import list.

## Findings

| source | as written | input that shows it | evidently intended | confidence | as-written member | corrected member |
|---|---|---|---|---|---|---|
| src/extension.ts:67 | `inDirModules` splits the `module` line at spaces only, while `makeModuleTree` (line 87) splits at space, `\|` and `(`. A module declared as `module A(x) where` is therefore filed in the tree as `A`, but listed in `allModules` as `A(x)`. The check `allModules.includes(depending)` of line 98 then rejects every import of `A`. | the files `module A(x) where` and `module B where` + newline + `import A` | both walks read the module name the same way, so `B --> A` is drawn | not executed | Pipeline.AsWrittenDropsImport | Pipeline.CorrectedKeepsImport |
