# aliasman: the alias file as text

aliasman keeps a user's shell aliases in one managed file, `~/.aliasman_aliases`,
that the shell sources. The first line of the file is a comment holding
a JSON configuration, `# {"model":"..."}`, which names the language model used
to propose new aliases. The rest is shell text. The program recognises
`alias NAME='COMMAND'` lines in it and leaves every other line alone.

This project models the program's text layer in `main.go`. Each operation maps
the file's old text to a value or to its new text. Reading and writing the file
are left to the caller.

- `readAliases` lists the definitions in file order. Module `AliasFile`.
- `appendAlias` writes one definition line. Module `AliasFile`.
- `removeAlias` drops the definition lines of one name. Module `AliasFile`.
- `loadAliases` (used by the `list` command) builds a name-to-command map. It
  trims each line first, and later definitions win. Module `AliasFile`.
- The confirmation screen splits an alias proposed by the model into a name and
  a command before appending it. Module `AliasFile`.
- `readConfig` reads the first configuration line that decodes.
  `updateConfig` writes a new configuration line at the top. Module
  `AliasConfig`.
- `installAliasman` creates the file's initial content. Module `Install`.

Go's `strings` functions used by these operations are modelled over strings as
rune sequences in `GoStrings`:

- `Split`, `SplitN(s, sep, 2)` and `Join`.
- `Trim`, `TrimLeft` and `TrimRight`. Each removes every run of cut-set runes,
  not just one layer.
- `TrimSpace`, over the runes `unicode.IsSpace` accepts.
- `TrimPrefix`, `HasPrefix` and `HasSuffix`.

`Seqs` states the three loop shapes once for any per-line function:

- collecting what each line yields;
- keeping the lines that pass a test;
- building a map in which later lines overwrite earlier ones.

Each loop in the source is a method with a `while` loop. Its postcondition ties
the result to a specification function. The lemmas then prove the program's
properties about those functions.

Two points about `main.go` that a reader might expect otherwise:

- A command loses every surrounding quote rune, not one layer. `strings.Trim`
  with the cut set `'"` strips repeatedly.
- Shell `function NAME() { ... }` blocks are not parsed. No function in
  `main.go` reads or writes them, so they are ordinary lines to the model.

## Model

| member | source | states |
|---|---|---|
| AliasFile.ParseAliasLine | main.go:320-328 | a line yields an alias exactly when it starts with `alias ` and has a `=` after that; the name is then trimmed and holds no `=`, and the command has no quote rune at either end |
| AliasFile.ReadAliases | main.go:311-332 | the list is the per-line parse of every line of the text split at newlines, in file order |
| AliasFile.ParseAliasesAt | main.go:319-329 | line `i`'s entry sits between the entries of the lines before it and those of the lines after it |
| AliasFile.ParseAliasesMembers | main.go:319-329 | an alias is listed exactly when some line parses to it |
| AliasFile.ParseAliasesWellFormed | main.go:322-326 | every listed name is trimmed and free of `=`, and no listed command starts or ends with a quote rune |
| AliasFile.ParseDefinitionLine | main.go:341 | the line `appendAlias` writes parses back to the same name and command |
| AliasFile.DefinitionLine | main.go:341 | the line written for `NAME` starts with `alias NAME=`, the prefix `removeAlias` drops; that it parses back to the same name and command is `ParseDefinitionLine` |
| AliasFile.AppendAlias | main.go:334-344 | the text after appending one definition line and a newline; it carries no contract of its own, and `AppendThenRead` and `ParseDefinitionLine` state what it adds to the list |
| AliasFile.AppendThenRead | main.go:334-344 | appending to a text that is empty or ends in a newline adds exactly the new alias at the end of the list and changes nothing before it |
| AliasFile.RemoveAlias | main.go:346-361 | the new text joins, in their order, exactly the lines that do not start with `alias NAME=` |
| AliasFile.KeepLinesMembers | main.go:355-359 | a line is kept exactly when it is a line of the file without the prefix |
| AliasFile.RemovedLines | main.go:352-361 | the new text splits into the kept lines, or one empty line when none was kept |
| AliasFile.RemoveAliasLines | main.go:352-361 | after removal no line starts with `alias NAME=`, and every other line of the file is still there |
| AliasFile.RemoveAliasIdempotent | main.go:346-361 | removing a name twice gives the same text as removing it once |
| AliasFile.RemoveAliasUnmatched | main.go:346-361 | when no line starts with `alias NAME=`, the text is unchanged |
| AliasFile.RemoveAliasMissesSpacedDefinition | main.go:356 | a definition with two spaces after `alias` is listed under its name but survives removal of that name |
| AliasFile.RemoveListedAlias | main.go:352-361 | the corrected removal drops exactly the lines the list shows under the name |
| AliasFile.RemoveEntriesThenRead | main.go:356 | after the corrected removal the list is the old list without the entries of that name, in order |
| AliasFile.PrefixedLineDefinesName | main.go:356 | every line the original removal drops is one the corrected removal drops too |
| AliasFile.LoadAliases | main.go:539-552 | the map assigns, line by line in file order, each trimmed line's parsed command to its name |
| AliasFile.LoadMapDomain | main.go:542-551 | a name is in the map exactly when some line defines it |
| AliasFile.LoadMapLastWins | main.go:549 | with repeated definitions of a name, the last one decides its command |
| AliasFile.IndentedLineLoaded | main.go:543 | leading whitespace does not change what a line contributes to the map |
| AliasFile.LoadedEntryUntrimmed | main.go:543-548 | on a line without surrounding whitespace, `loadAliases` and `readAliases` read the same entry |
| AliasFile.ConfirmAlias | main.go:492-503 | the split fails with "Invalid alias format" exactly when the proposal has no `=` |
| AliasFile.ConfirmDefinitionLine | main.go:492-496 | a proposal of the form `alias NAME='COMMAND'` splits into that name and command |
| AliasFile.AddProposedAlias | main.go:492-504 | a confirmed proposal appends its split, and one without `=` reports the error and appends nothing |
| AliasFile.ProposedAliasListed | main.go:492-497 | confirming a proposed definition adds exactly that alias to the end of the list |
| AliasConfig.ReadConfig | main.go:411-429 | the result is the first line's decoded configuration among lines shaped `# {...}`, or the `llama3:8b` default |
| AliasConfig.FirstConfigAt | main.go:418-426 | a decodable configuration line with none before it is the one read |
| AliasConfig.FirstConfigFound | main.go:418-426 | a configuration read comes from some line, and no line before it decodes |
| AliasConfig.FirstConfigNone | main.go:418-428 | nothing is found exactly when no line is config-shaped and decodable |
| AliasConfig.ConfigDefault | main.go:428 | with no decodable configuration line the default model is read |
| AliasConfig.UpdateConfig | main.go:649-672 | the new text is the new configuration line followed by the old lines, dropping line 0 only when it is config-shaped |
| AliasConfig.UpdateConfigLines | main.go:660-671 | the new first line is `# ` plus the JSON, the other lines are kept in order, and the line count stays the same or grows by one |
| AliasConfig.UpdateThenReadConfig | main.go:649-671 | after an update whose JSON is config-shaped and decodes, reading gives that configuration |
| AliasConfig.UpdateConfigTwice | main.go:664-667 | two updates in a row equal one update with the second configuration |
| Install.InitialContent | main.go:229-234 | the initial text, the configuration line, two comments, an empty line and the reload definition, each ended by a newline; it carries no contract of its own, and `InitialLinesSplit`, `InitialAliases` and `InitialConfig` state its lines, its one alias and its configuration |
| Install.InitialContentJoined | main.go:229-234 | the initial text is its six lines joined by newlines |
| Install.InitialLinesSplit | main.go:229-234 | for a path without newlines, the initial text splits back into those six lines |
| Install.InitialLinesDefine | main.go:229-234 | only the reload line of the initial text is an alias definition |
| Install.InitialAliases | main.go:233 | the new file lists exactly one alias, `aliasman-reload`, with command `source PATH` |
| Install.InitialLinesConfig | main.go:229 | the first line is config-shaped around the default JSON, and no later line is config-shaped |
| Install.InitialConfig | main.go:229 | the new file's configuration reads as the default model |
| Install.InitialThenAppend | main.go:229-234 | appending to the new file lists the reload alias and then the new one |

## Left out

- File reading and writing are left out. Read and write errors are left out with them: every operation takes the old text and returns a value or the new text.
- The terminal UI (tview/tcell screens, menus, key handling) is presentation only and is not modelled.
- JSON is not modelled. `json.Unmarshal` is a decoder function passed to `ReadConfig`. `json.Marshal` is replaced by the encoded text passed to `UpdateConfig`.
- AliasConfig.UpdateThenReadConfig: requires the encoded text has no newline and starts with `{` and ends with `}`, because the JSON encoder is not modelled.
- `isAliasmanInstalled`, `detectShellConfig` and the managed-block append to the shell configuration (main.go:241) are file-system checks and I/O.
- The language-model subprocess calls (`isLLMAvailable`, `generateAIAssistedAlias`) are calls into an external program.
- `extractAliasFromOutput` is not modelled: it relies on Go's regular-expression engine. The confirmation split starts from its output.
- `listAliasesCli` prints the map in Go's randomised map order, so only the map is modelled (`LoadAliases`), not the printed order.
- Strings are sequences of runes. Go's byte indexing (`line[6:]`, `line[2:]`) agrees with this because the skipped prefixes are ASCII. Invalid UTF-8 is not modelled.
- Install.InitialAliases: requires the path does not end in a quote rune, because a trailing quote would be trimmed from the listed command.

## Findings

| source | as written | input that shows it | evidently intended | confidence | as-written member | corrected member |
|---|---|---|---|---|---|---|
| main.go:356 | removal drops only lines that start with exactly `alias NAME=` | the line `alias  gs='x'` (two spaces) is listed as `gs` by `readAliases`, but deleting `gs` from the list leaves the line in the file | deleting an alias shown in the list removes its definition | medium; not executed | AliasFile.RemoveAliasMissesSpacedDefinition | AliasFile.RemoveEntriesThenRead |
