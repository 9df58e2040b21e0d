# arti-gen core, modelled in Dafny

arti-gen is a template scaffolder. A template is a single file or a folder
tree whose file names, folder names and file lines may contain placeholders
`{{ name }}`. The generator fills in a variable table, resolves variables
whose value is just another placeholder (aliases), and then copies the
template into the working directory with every placeholder substituted.

This project models three parts of that core as pure Dafny functions and
methods, and proves properties about them:

- `substitutor.dfy` (module `Substitutor`): `variable_substitutor::run`.
  It is a single left-to-right pass that replaces each token
  `{{`, spaces, `[A-Za-z][A-Za-z0-9_]*`, spaces, `}}` by the table value of
  its name, or by nothing when the name is unknown. A hand-written prefix
  scanner stands in for the regular expression. It is proved to accept
  exactly the token grammar.
- `var_table.dfy` (module `VarTable`) and `resolution.dfy` (module
  `Resolution`): `generator::loadVars` and `generator::processVars`.
  - Loading overlays the template defaults, then `name`, then every
    `define` entry, and rejects malformed entries.
  - Resolution builds the alias graph (at most one edge per variable) and
    orders its nodes by a post-order depth-first traversal.
  - It then overwrites each alias with the current value of its target.
  - Cycles are not detected and resolution always succeeds.
- `paths.dfy` (module `Paths`) and `generator.dfy` (module `Generator`):
  `generator::run` over an abstract filesystem.
  - The filesystem is a map from path to `Dir`, `File(content, readable)`
    or `Other`.
  - The working directory and the directory-iterator entries are inputs.
    Printed warnings become a log.
  - Path joining, `filename`, `parent_path` and `std::getline` are
    modelled with their POSIX spelling.
- `common.dfy` (module `Common`) holds `Option`, `Result`, the variable
  table type `Vars`, and the name grammar shared by the placeholder and
  `define` patterns.

The template's default variables (`now`, `today`, `full_cwd`, `cwd`, plus
those of `vars.toml`) are an input map. Clocks, the current directory and
TOML loading are not modelled.

Behaviour of the code worth knowing:

- There is no cycle detection and no cyclic-reference error. The check in
  `processVars` is a stub that is never called, so a cyclic table is
  resolved like any other and loading succeeds.
- An alias is a value that is one placeholder as a whole. No outer spaces
  are trimmed first: `" {{x}}"` is not an alias.
- Running a Folder template a second time stops at the existing top-level
  folder with "The folder '…' already exists". It does not skip entries
  one by one.
- A Folder template's top-level folder is `substitute(cwd / root)`, under
  the working directory, and its entries are mirrored below it. The working
  directory itself is substituted too.
- Every copied line is followed by `\n`, including the last line of a
  template that did not end in one.

## Model

| member | source | states |
|---|---|---|
| Substitutor.MatchPrefixSound | src/variables_substitutor.cpp:28 | Whatever the scanner recognises at the front of a string is a token of the grammar, with the name it reports. |
| Substitutor.MatchPrefixComplete | src/variables_substitutor.cpp:28 | Every token of the grammar is recognised, with any number of spaces on either side of the name and whatever text follows it. |
| Substitutor.MatchPrefixExact | src/variables_substitutor.cpp:28 | The scanner reports a token of name n and length e at the front of s if and only if the first e characters of s form a token naming n. |
| Substitutor.ScanOfLayout | src/variables_substitutor.cpp:28 | A string laid out as braces, spaces, a name, spaces and braces is scanned as a token with exactly that name and length. |
| Substitutor.ScannedTokenIsPlaceholder | src/variables_substitutor.cpp:28 | The pieces the scanner steps over spell out a token of the grammar. |
| Substitutor.PlaceholderBraces | src/variables_substitutor.cpp:28 | A token is at least five characters long, starts with `{` and ends with `}`. |
| Substitutor.NoNameNoToken | src/variables_substitutor.cpp:28 | No token starts where the third character is neither a space nor a letter. |
| Substitutor.SubstitutePlaceholder | src/variables_substitutor.cpp:34-38 | A token at the front is replaced by exactly the value of its name, or by nothing for an unknown name, and scanning resumes right after the token. |
| Substitutor.SubstituteToken | src/variables_substitutor.cpp:34-38 | The same for any string satisfying the token grammar, whatever its inner spacing. |
| Substitutor.SubstituteChar | src/variables_substitutor.cpp:32-41 | A character that cannot open a token is copied to the output, followed by the substitution of the rest. |
| Substitutor.SubstituteUnmatched | src/variables_substitutor.cpp:32-41 | Where no prefix of the string is a token of the grammar, the first character is copied verbatim and scanning moves on by one character. |
| Substitutor.SubstituteCopiesUntokenedText | src/variables_substitutor.cpp:32-41 | Text in which no token of the grammar starts is copied verbatim and in order, braces included, in front of whatever the rest becomes. |
| Substitutor.SubstituteLiteralPrefix | src/variables_substitutor.cpp:32-41 | Text without `{` is copied verbatim and in order in front of whatever the rest becomes. |
| Substitutor.SubstituteNoPlaceholder | src/variables_substitutor.cpp:32-41 | A string that contains no token anywhere is returned unchanged. |
| Substitutor.SubstituteLiteral | src/variables_substitutor.cpp:32-41 | A string without `{` is returned unchanged. |
| Substitutor.BracesWithoutNameStayLiteral | src/variables_substitutor.cpp:28 | `{{` followed by a digit, a tab or any other non-space, non-letter character other than `{` is not a token: the three characters are copied and scanning resumes after them (so `{{1x}}` and `{{\tx}}` stay literal). |
| Substitutor.UnknownNameVanishes | src/variables_substitutor.cpp:25 | A token naming a variable absent from the table disappears: the literal text before it and the result for the rest close up. |
| Substitutor.SubstituteOneToken | src/variables_substitutor.cpp:32-43 | With one token between two texts free of `{`, the output is the first text, then the token's value, then the second text. |
| Substitutor.RepeatedNameSameValue | src/variables_substitutor.cpp:21-38 | Two occurrences of the same name, each with its own spacing and with literal text between them, both become the same table value. |
| Substitutor.SubstitutionIsSinglePass | src/variables_substitutor.cpp:28-38 | When a variable's value is itself a token, substituting a token for that variable leaves the inner token in the output, unreplaced. |
| VarTable.ParseDefine | src/generator.cpp:37-40 | An accepted `define` entry is `key=value` or a bare `key` with empty value, and `key` is a valid name. |
| VarTable.ParseDefineExact | src/generator.cpp:37-40 | Parsing yields key k and value v exactly when k is a valid name and the entry is `k=v`, or the entry is `k` and v is empty. |
| VarTable.ApplyDefines | src/generator.cpp:33-45 | Applying the entries fails if and only if one of them is malformed. The error names the first malformed entry, and every entry before it is well formed. Existing keys survive. |
| VarTable.ApplyDefinesPrecedence | src/generator.cpp:36-41 | After applying the entries, a key is present exactly when it was already present or some entry defines it. Its value is that of the last entry defining it, otherwise the earlier value. |
| VarTable.BuildTable | src/generator.cpp:22-46 | Without `name` the build fails with "The 'name' parameter is required". With `name` it fails exactly when some `define` is malformed. A built table holds `name` and every default key. |
| VarTable.BuildTablePrecedence | src/generator.cpp:23-45 | Every key of a built table has the value of its highest-precedence source: the last `define`, else the `name` parameter, else the default. No other keys appear. |
| VarTable.DefineOverridesName | src/generator.cpp:31-41 | `define name=x` beats the `name` parameter. |
| Resolution.AliasTargetExact | src/generator.cpp:55-58 | A value is an alias of n if and only if it is, as a whole, a token naming n, with no outer text or spaces. |
| Resolution.AliasGraph | src/generator.cpp:54-60 | Only table variables have outgoing edges. |
| Resolution.AliasGraphEdges | src/generator.cpp:54-59 | An edge k to n exists if and only if k's whole value is a token naming n. |
| Resolution.Dfs | src/generator.cpp:72-82 | The traversal from a node emits that node last and emits only unvisited nodes, each once. What it emits is an alias chain, target first. It stops at a chain end, at a visited node, or at a node of the chain itself. It terminates on cyclic graphs too. |
| Resolution.ChainFollow | src/generator.cpp:72-82 | Following k alias steps from a node of an emitted chain leads to the node k places before it. |
| Resolution.ChainBackEdgeIsCycle | src/generator.cpp:72-82 | If the last target of an emitted chain points back into the chain, the graph has a cycle. |
| Resolution.AppendChainTargetsFirst | src/generator.cpp:84-87 | On an acyclic graph, appending the chain one traversal emits keeps every target ahead of its alias. |
| Resolution.AppendChainBackEdges | src/generator.cpp:84-87 | On every graph, appending the chain one traversal emits keeps this property: an alias placed before its target is joined to it by an alias chain running backwards through the order. |
| Resolution.TopologicalSort | src/generator.cpp:68-90 | The order lists every alias and every target exactly once. On an acyclic graph every alias target precedes its alias. On any graph, an alias placed before its target is joined to it by a backward alias chain. |
| Resolution.ResolveStepProgress | src/generator.cpp:94-100 | One resolution step adds the node to the table if missing. It leaves unprocessed variables and non-aliases as they were and keeps new variables empty. |
| Resolution.ResolveStepResolved | src/generator.cpp:94-100 | When the target was processed earlier, a resolution step leaves the alias holding a non-alias value equal to its target's. |
| Resolution.BackEdgeValue | src/generator.cpp:94-100 | When a node is processed, every earlier alias pointing to it already holds the value of the node's own target. |
| Resolution.StepNonAliasAgrees | src/generator.cpp:94-100 | Processing a node that is not an alias keeps every processed alias equal to its target. |
| Resolution.StepAliasAgrees | src/generator.cpp:94-100 | Processing an alias keeps every processed alias equal to its target, once the earlier aliases of it hold the value it takes. |
| Resolution.ResolveStepAgrees | src/generator.cpp:94-100 | One pass of the final loop keeps every processed alias equal to its target, on cyclic graphs too. |
| Resolution.ResolveInOrder | src/generator.cpp:94-100 | The final loop computes exactly one resolution step per node, in order. No key is lost, and no value is invented: every value is an original one, or empty only when a key was added. |
| Resolution.ResolveStepDrawn | src/generator.cpp:94-100 | One resolution step only copies a current value or inserts the empty one for a new key, so it invents no value and loses no key. |
| Resolution.ResolveAllDrawn | src/generator.cpp:94-100 | However many steps the loop takes, no key is lost and no value is invented. |
| Resolution.ResolveAllProgress | src/generator.cpp:94-100 | After any number of passes, the processed nodes and all variables are in the table. Unprocessed variables and non-aliases keep their values, and new keys are empty. |
| Resolution.AgreesStepAt | src/generator.cpp:94-100 | One more pass keeps every processed alias equal to its target, on cyclic graphs too. |
| Resolution.ResolveAllAgrees | src/generator.cpp:94-100 | After any number of passes, every processed alias equals its target, on every graph. |
| Resolution.ResolvedStepAt | src/generator.cpp:94-100 | When targets come before their aliases, one more pass keeps the processed nodes free of aliases and equal to their targets. |
| Resolution.ResolveAllResolved | src/generator.cpp:94-100 | When targets come before their aliases, after any number of passes no processed value is an alias and each processed alias equals its target. |
| Resolution.ResolveAllInvariants | src/generator.cpp:94-100 | After the final loop, every node is processed and every alias equals its target, on every graph. On an acyclic graph, additionally no processed value is an alias. |
| Resolution.ProgressKeys | src/generator.cpp:94-100 | After the loop, the keys are the variables plus the alias targets, and targets that were missing hold the empty string. |
| Resolution.ProgressUnaliased | src/generator.cpp:94-100 | After the loop, a variable that is not an alias keeps its value, and every variable with an outgoing edge is an alias. |
| Resolution.ResolvedComplete | src/generator.cpp:94-100 | On an acyclic graph, after the loop no value is an alias and each former alias equals its target. |
| Resolution.ResolveGraph | src/generator.cpp:51-103 | Resolution over a graph that records the aliases has the postconditions of `ProcessVars`, including that no value is invented. |
| Resolution.ProcessVars | src/generator.cpp:51-103 | Keys become the variables plus all alias targets, and targets that did not exist are empty. Non-alias values are untouched, and a table without aliases is returned as is. Every former alias equals its target, cyclic tables included. On an acyclic alias graph, no value is an alias afterwards. No value is invented: every value is an original one, or empty only when a key was added. |
| Resolution.ResolvedFollowsChain | src/generator.cpp:94-100 | In a table satisfying the resolution equations, an alias holds the raw value found at the end of its alias chain, or empty if that variable never existed. |
| Resolution.ResolutionFollowsChains | src/generator.cpp:51-103 | On every table, cyclic ones included, a resolved variable whose alias chain reaches a non-alias has the raw value of that variable, or empty if it never existed. |
| Resolution.LoadVars | src/generator.cpp:22-49 | Loading fails exactly when the table cannot be built, with the build's error; a missing `name` fails first. Otherwise it succeeds with the resolved table, cyclic or not, and no value is invented: every value is an original one, or empty only when a key was added. |
| Resolution.MutualAliasesBuild | src/generator.cpp:33-45 | `define a={{b}}` and `define b={{a}}` are both accepted. |
| Resolution.MutualAliasGraph | src/generator.cpp:54-60 | The alias graph of `a={{b}}, b={{a}}` has an edge from `a` to `b` and one back. |
| Resolution.TwoNodeCycleOutcome | src/generator.cpp:94-100 | For two variables aliasing each other, the resolution postconditions leave exactly two keys holding one common value, which is one of the two original values. |
| Resolution.MutualAliasesResolve | src/generator.cpp:51-103 | `processVars` on `a={{b}}, b={{a}}` completes without an error. Both variables end with the same value, which is `{{a}}` or `{{b}}`. |
| Resolution.MutualAliasesAreCyclic | src/generator.cpp:62-66 | Two variables aliasing each other give a cyclic alias graph. `ProcessVars` and `LoadVars` do not require acyclicity, so such a table is resolved without an error. |
| Paths.Join | src/generator.cpp:159-160 | Joining with an absolute path gives that path. Otherwise the result is the first path, then a `/` when the first path is non-empty and does not end in one, then the second path. |
| Paths.Filename | src/generator.cpp:219 | The file name has no `/`, is a suffix of the path, and is the whole path or preceded by a `/`. So it is everything after the last `/`. |
| Paths.ParentPath | src/generator.cpp:223 | The parent path is the root or a proper prefix of the path, and empty when the path has no `/`. |
| Paths.ParentPathExact | src/generator.cpp:223 | With a `/` in the path, the parent is the root when only separators precede the file name's `/`. Otherwise it is that prefix with its trailing separators removed, and it does not end in `/`. |
| Paths.ParentFilenameOfJoin | src/generator.cpp:218-226 | Splitting `dir/name` gives back `dir` and `name`. |
| Paths.ReplacePrefix | src/generator.cpp:223-225 | Replacing the first n characters gives the new text followed by everything after the first n characters. When the string is shorter, the result is the new text alone. |
| Paths.ReplacePrefixOfPrefixed | src/generator.cpp:223-225 | Replacing exactly a prepended base swaps that base for the new text. |
| Paths.GetLines | src/generator.cpp:147-149 | No line read contains a line break, and an empty text has no lines. |
| Paths.JoinLines | src/generator.cpp:150 | The written text is empty exactly when there are no lines, and otherwise ends in a line break. |
| Paths.GetLinesOfJoinLines | src/generator.cpp:147-151 | Reading back what was written gives the written lines, provided no line contains a line break. |
| Paths.JoinLinesOfGetLines | src/generator.cpp:147-151 | Writing back what was read reproduces the text, with a line break added when the last line had none. |
| Paths.SubstituteKeepsSingleLine | src/generator.cpp:150 | Substitution adds no line break to a line unless a table value holds one. |
| Paths.CopyTextLines | src/generator.cpp:147-151 | When no value spans two lines, the copy reads back as the substituted template lines, one for one. |
| Paths.CopyTextLiteral | src/generator.cpp:147-151 | A template without `{` is copied verbatim, with a final line break added when it lacked one. |
| Generator.GenerateFile | src/generator.cpp:117-154 | Opening the template is checked first, then an existing destination, then creation (the parent directory must exist). Each error happens exactly in its case. On success only the new file is added, holding the line-by-line substituted copy. |
| Generator.VisitAt | src/generator.cpp:231-267 | The pass for an entry with a given destination: the same stop cases, growth and log facts as `VisitEntry`, stated for any destination. |
| Generator.VisitEntry | src/generator.cpp:217-267 | One entry of the walk stops the run exactly in these cases. The entry is missing, or it is neither a directory nor a regular file. Or it is a directory or a readable file whose destination neither exists nor can be created. A directory or readable file otherwise has its destination in place afterwards. Nothing is removed. The log gains at most one warning, the directory or the file "already exists" one. The per-case lemmas below give the exact outcome. |
| Generator.VisitDirectory | src/generator.cpp:231-243 | A directory entry whose destination exists adds only the directory warning. Otherwise the destination is created as a directory, or the run stops with "Error, Couldn't create the directory '<dest>'". |
| Generator.VisitFileExisting | src/generator.cpp:244-251 | A readable template file whose destination exists adds only the file warning. |
| Generator.VisitFileCreated | src/generator.cpp:244-245 | A readable template file with a new, creatable destination adds exactly that file, holding the line-by-line substituted copy, and nothing else changes. |
| Generator.VisitFileUncreatable | src/generator.cpp:253-255 | A readable template file whose destination can neither be found nor created stops the run with "Couldn't create the file '<dest>'". |
| Generator.VisitUnreadableFile | src/generator.cpp:257-258 | A template file that cannot be opened is skipped silently: nothing changes. |
| Generator.VisitUnsupported | src/generator.cpp:265-267 | A missing entry, or one that is neither a directory nor a regular file, stops the run with "Unrecognized or invalid file type provided on template" and changes nothing else. |
| Generator.Walk | src/generator.cpp:217-268 | The walk never removes or overwrites anything, and a failed run stays as it is. |
| Generator.WalkFirstStep | src/generator.cpp:217-251 | The first pass of the walk adds at most one message to the log. |
| Generator.WalkCreatesOnlyDests | src/generator.cpp:217-268 | The walk creates nothing but destinations of its entries. |
| Generator.WalkLogGrows | src/generator.cpp:231-251 | The walk only appends to the log, with at most one warning per entry. |
| Generator.WalkAppend | src/generator.cpp:217 | Walking two stretches of entries is walking them one after the other. |
| Generator.WalkDoneCovers | src/generator.cpp:231-264 | A walk that ends well met only directories and regular files. Every directory and readable file has its destination in place. |
| Generator.WalkOverExistingOutput | src/generator.cpp:231-251 | Walking over complete existing output changes nothing on disk and ends well. |
| Generator.UnsupportedEntryStops | src/generator.cpp:265-267 | An entry that is neither a directory nor a regular file ends the run with "Unrecognized or invalid file type provided on template". Later entries are not visited and earlier output stays. A walk that failed before reaching it stays as it is. |
| Generator.WalkStopsAtUnsupported | src/generator.cpp:265-267 | The walk stops at such an entry with that error and nothing else changes. |
| Generator.RunFile | src/generator.cpp:156-186 | A missing template fails with "The template file provided does not exist", and an unopenable one with "Couldn't open the template file provided". An existing destination fails with "The file '<filename>' already exists" and writes nothing. A destination that is absent and cannot be created fails with "Couldn't create the file '<filename>'" and writes nothing. Success happens exactly when the destination `cwd / substitute(root)` is absent and creatable. Then exactly that file is added, holding the substituted copy, and nothing is logged. |
| Generator.RunFolder | src/generator.cpp:188-268 | A missing template folder fails with "The template folder does not exist". An empty or existing top-level folder fails with "The folder '<path>' already exists". A top-level folder that cannot be created fails with "Unable to create folder '<path>'" and changes nothing. Otherwise the folder is created and the outcome is exactly the walk over the entries from there. Nothing is removed. |
| Generator.Run | src/generator.cpp:105-108 | An unknown kind fails with "Unexpected template type received". No run removes anything, and a File run creates at most its destination. |
| Generator.FolderRunCreatesOnly | src/generator.cpp:188-268 | A Folder run creates nothing but the top-level folder and the destinations of its entries. |
| Generator.RerunFileFails | src/generator.cpp:166-171 | Running a File template again after a success fails because the file exists, and changes nothing. |
| Generator.RerunFolderFails | src/generator.cpp:197-204 | Running a Folder template again after a success stops at the existing top-level folder, before any entry. |
| Generator.DestPathMirrors | src/generator.cpp:221-229 | An entry `base + mid + "/" + name` lands at `substitute(cwd + mid + "/" + name)`. |
| Generator.TopFolderLiteralCwd | src/generator.cpp:197-198 | With a working directory free of `{`, the Folder branch's top-level folder is `cwd/substitute(root)`. That is where the File branch writes unless the substituted root starts with `/`. |
| Generator.FileRootLiteral | src/generator.cpp:160 | The File branch joins the working directory, unsubstituted, with the substituted root. |
| Generator.FolderRootAfterToken | src/generator.cpp:198 | The Folder branch substitutes a token inside the working directory. |
| Generator.CwdTokenAsymmetry | src/generator.cpp:159-198 | With the working directory `/{{x}}` and a literal root `r`, the File branch writes `/{{x}}/r` but the Folder branch creates `/<x>/r`. |
| Generator.SingleLineCopy | src/generator.cpp:147-151 | A one-line template without a final line break is copied as its substituted line plus a line break. |
| Generator.TextThenTokenCopy | src/generator.cpp:147-151 | A line of literal text followed by one token is copied as the text, the token's value and a line break. |
| Generator.HelloTemplate | src/generator.cpp:147-151 | The template `Hello {{name}}` produces `Hello <name>` followed by a line break. |

## Left out

- Real filesystem and stream behaviour is not modelled: exceptions, permissions, symlink following in `is_directory` and `is_regular_file`, and `std::filesystem` path normalisation (`.`, `..`, trailing separators, non-POSIX separators).
  - A path exists when it is a key of the map.
  - A file can be created when its parent path is an existing directory.
  - A template opens when it is a readable regular file.
- Opening a directory as a File template is modelled as a failure to open.
- A failure of the output stream after the copy succeeded is not modelled.
- The order and the exceptions of `recursive_directory_iterator` are not modelled. The entries are an input sequence, and each is classified against the filesystem as it stands when the entry is visited.
- Each `fmt::print` warning becomes one log entry.
- The `Unknown` code of `generateFile` is never produced by the source, so the model has no such case.
- The ctre regular-expression engine is replaced by a hand-written scanner. `.` in the `define` pattern matches any character.
- The default variables (clock, current directory, `vars.toml`) and the command-line parsing are inputs, not modelled.
- `std::map` and `std::unordered_map` iteration orders are not modelled. `TopologicalSort` picks its roots in an arbitrary order, and every property holds for all choices.
- The constructor's copy of the default variables is left out, because `loadVars` overwrites the table anyway.
- Resolution.ProcessVars: "no value is an alias afterwards" is proved for acyclic alias graphs only, because on a cycle it is false. The values of a cycle are passed round without ever reaching a non-alias, and the source reports no error. That every former alias equals its target holds on every graph.
- Common.Lookup: the `substituteVariable` lookup of src/variables_substitutor.cpp:18-26 (an unknown name gives the empty string). Its postconditions are its two branches. Its role in substitution is stated by `SubstitutePlaceholder` and `UnknownNameVanishes`.
- Resolution.AliasTarget: the function has no postcondition of its own. Its meaning is stated by `AliasTargetExact`.
- Resolution.ResolveAll: the final loop as a function, with no postcondition of its own. `ResolveInOrder` computes it, and `ResolveAllInvariants` and `ResolveAllDrawn` state its meaning.
- Resolution.ResolveStep: the function has no postcondition of its own. Its meaning is stated by `ResolveStepProgress`, `ResolveStepResolved` and `ResolveStepAgrees`.
- Substitutor.Substitute: the function carries no postcondition of its own. Its meaning is stated by the lemmas listed above.
- Substitutor.MatchPrefix: its own postcondition only bounds the token length. That the scanner accepts exactly the grammar is stated by `MatchPrefixSound`, `MatchPrefixComplete` and `MatchPrefixExact`.
- Generator.DestPath: the function has no postcondition of its own. Where an entry lands is stated by `DestPathMirrors`.
- Generator.TopFolder: the function has no postcondition of its own. The top-level folder is stated by `TopFolderLiteralCwd` and `FolderRootAfterToken`.
- Paths.CopyText: the function has no postcondition of its own. The copy is stated by `CopyTextLines`, `CopyTextLiteral`, `SingleLineCopy` and `VisitFileCreated`.
- Generator.Run: its postcondition keeps the dispatch-level facts. The full behaviour of each branch is in `RunFile` and `RunFolder`.
