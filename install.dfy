/** The alias file `installAliasman` creates: a configuration line naming
    the default model, a header comment, and an alias that reloads the
    file. Writing the file and adding the managed block to the shell's
    configuration are not modelled. */
module Install {
  import opened Wrappers
  import opened GoStrings
  import opened Seqs
  import opened AliasFile
  import opened AliasConfig

  /** The configuration the new file starts with, as the program spells it. */
  const InitialConfigJson: string := "{ \"model\": \"llama3:8b\" }"

  const ReloadName: string := "aliasman-reload"

  /** The command of the reload alias: re-reads the alias file. */
  function ReloadCommand(aliasFilePath: string): string {
    "source " + aliasFilePath
  }

  /** The text `installAliasman` writes to the alias file at `aliasFilePath`,
      line by line. */
  function InitialContent(aliasFilePath: string): string {
    ConfigLine(InitialConfigJson) + "\n"
      + "# Aliasman managed aliases" + "\n"
      + "" + "\n"
      + "# Reload aliases" + "\n"
      + DefinitionLine(ReloadName, ReloadCommand(aliasFilePath)) + "\n"
  }

  /** The six lines of the new file, the last one empty. */
  function InitialLines(aliasFilePath: string): seq<string> {
    [ConfigLine(InitialConfigJson), "# Aliasman managed aliases", "", "# Reload aliases",
     DefinitionLine(ReloadName, ReloadCommand(aliasFilePath)), ""]
  }

  lemma InitialContentJoined(aliasFilePath: string)
    ensures InitialContent(aliasFilePath) == Join(InitialLines(aliasFilePath), '\n')
  {
    var a, b, c := ConfigLine(InitialConfigJson), "# Aliasman managed aliases", "";
    var d, e := "# Reload aliases", DefinitionLine(ReloadName, ReloadCommand(aliasFilePath));
    JoinCons(d, [e], '\n');
    JoinCons(c, [d, e], '\n');
    JoinCons(b, [c, d, e], '\n');
    JoinCons(a, [b, c, d, e], '\n');
    JoinAppendEmpty([a, b, c, d, e], '\n');
    assert InitialLines(aliasFilePath) == [a, b, c, d, e] + [""];
  }

  /** The new file splits into its six lines, provided the path holds no
      newline. */
  lemma InitialLinesSplit(aliasFilePath: string)
    requires '\n' !in aliasFilePath
    ensures Split(InitialContent(aliasFilePath), '\n') == InitialLines(aliasFilePath)
  {
    var lines := InitialLines(aliasFilePath);
    InitialContentJoined(aliasFilePath);
    DefinitionLineSingle(ReloadName, ReloadCommand(aliasFilePath));
    forall k | 0 <= k < |lines| ensures '\n' !in lines[k] {
    }
    SplitJoin(lines, '\n');
  }

  /** Only the fifth line of the new file is a definition. */
  lemma InitialLinesDefine(aliasFilePath: string)
    ensures forall k :: 0 <= k < |InitialLines(aliasFilePath)| && k != 4 ==>
      ParseAliasLine(InitialLines(aliasFilePath)[k]).None?
  {
    var lines := InitialLines(aliasFilePath);
    assert lines[0][0] == '#' && lines[1][0] == '#' && lines[3][0] == '#';
    assert forall k :: 0 <= k < |lines| && k != 4 ==> !HasPrefix(lines[k], AliasKeyword);
  }

  /** The new file lists exactly one alias: the reload alias sourcing the
      file, provided the path holds no newline and does not end in a quote. */
  lemma InitialAliases(aliasFilePath: string)
    requires '\n' !in aliasFilePath
    requires aliasFilePath == [] || aliasFilePath[|aliasFilePath| - 1] !in QuoteRunes
    ensures ParseAliases(Split(InitialContent(aliasFilePath), '\n'))
         == [Alias(ReloadName, ReloadCommand(aliasFilePath))]
  {
    var command := ReloadCommand(aliasFilePath);
    InitialLinesSplit(aliasFilePath);
    assert ParsedCommand(command);
    ParseDefinitionLine(ReloadName, command);
    InitialLinesDefine(aliasFilePath);
    FilterMapOnly(InitialLines(aliasFilePath), 4, ParseAliasLine, Alias(ReloadName, command));
  }

  /** Below its first line, the new file has no configuration line. */
  lemma InitialLinesConfig(aliasFilePath: string)
    ensures IsConfigLine(InitialLines(aliasFilePath)[0])
    ensures InitialLines(aliasFilePath)[0][2..] == InitialConfigJson
    ensures forall k :: 1 <= k < |InitialLines(aliasFilePath)| ==> !IsConfigLine(InitialLines(aliasFilePath)[k])
  {
    var lines := InitialLines(aliasFilePath);
    assert lines[1][2] == 'A' && lines[3][2] == 'R' && lines[4][0] == 'a';
  }

  /** The new file's configuration is the default model, whether the
      decoder reads the initial configuration as that model or rejects it. */
  lemma InitialConfig(aliasFilePath: string, decode: string -> Option<Config>)
    requires '\n' !in aliasFilePath
    requires decode(InitialConfigJson) == None || decode(InitialConfigJson) == Some(Config(DefaultModel))
    ensures ConfigOf(InitialContent(aliasFilePath), decode) == Config(DefaultModel)
  {
    var lines := InitialLines(aliasFilePath);
    InitialLinesSplit(aliasFilePath);
    InitialLinesConfig(aliasFilePath);
    if decode(InitialConfigJson) == None {
      FirstConfigNone(lines, decode);
    }
  }

  /** The new file ends in a newline, so `appendAlias` on it adds exactly
      the alias it writes. */
  lemma InitialThenAppend(aliasFilePath: string, name: string, command: string)
    requires '\n' !in aliasFilePath
    requires aliasFilePath == [] || aliasFilePath[|aliasFilePath| - 1] !in QuoteRunes
    requires ParsedName(name) && '\n' !in name
    requires ParsedCommand(command) && '\n' !in command
    ensures ParseAliases(Split(AppendAlias(InitialContent(aliasFilePath), name, command), '\n'))
         == [Alias(ReloadName, ReloadCommand(aliasFilePath)), Alias(name, command)]
  {
    InitialAliases(aliasFilePath);
    AppendThenRead(InitialContent(aliasFilePath), name, command);
  }
}
