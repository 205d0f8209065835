/** The managed alias file seen as text: how aliasman lists the alias
    definitions in it, writes a new one, removes one by name, builds the
    name-to-command map of the `list` command, and splits an alias proposed
    by the language model into a name and a command. Reading and writing
    the file itself is left to the caller: every operation maps the file's
    old text to a value or to its new text. */
module AliasFile {
  import opened Wrappers
  import opened GoStrings
  import opened Seqs

  /** One `alias NAME='COMMAND'` definition as the program lists it. */
  datatype Alias = Alias(name: string, command: string)

  /** The keyword a definition line starts with. */
  const AliasKeyword: string := "alias "

  /** The runes stripped from both ends of a command when the file is read. */
  const QuoteRunes: set<char> := {'\'', '"'}

  /** The runes stripped from both ends of a command proposed by the model. */
  const SingleQuote: set<char> := {'\''}

  const InvalidAliasFormat: string := "Invalid alias format"

  /** A name the reader can produce: no `=`, no whitespace at either end. */
  predicate ParsedName(name: string) {
    '=' !in name && Untrimmable(name, Whitespace)
  }

  /** A command the reader can produce: no quote rune at either end. */
  predicate ParsedCommand(command: string) {
    Untrimmable(command, QuoteRunes)
  }

  // ---------------------------------------------------------------------
  // Reading: readAliases

  /** What one line of the file contributes to the list: a line starting
      with `alias ` and holding a `=` after it defines the alias named by
      the trimmed text before the first `=`; its command is the text after
      it, trimmed of whitespace and then of every surrounding quote rune. */
  function ParseAliasLine(line: string): (r: Option<Alias>)
    ensures r.Some? <==> HasPrefix(line, AliasKeyword) && '=' in line[|AliasKeyword|..]
    ensures r.Some? ==> ParsedName(r.value.name) && ParsedCommand(r.value.command)
  {
    if HasPrefix(line, AliasKeyword) then
      var parts := SplitN2(line[|AliasKeyword|..], '=');
      if |parts| == 2 then
        ParsedFields(parts[0], parts[1]);
        Some(Alias(TrimSpace(parts[0]), Trim(TrimSpace(parts[1]), QuoteRunes)))
      else None
    else None
  }

  /** The trimmed text before the first `=` is a name the reader can
      produce, and the text after it, trimmed of whitespace and quotes, a
      command. */
  lemma ParsedFields(head: string, rest: string)
    requires '=' !in head
    ensures ParsedName(TrimSpace(head))
    ensures ParsedCommand(Trim(TrimSpace(rest), QuoteRunes))
  {
    TrimOmits(head, Whitespace, '=');
  }

  /** The list `readAliases` returns for the file's lines. */
  function ParseAliases(lines: seq<string>): seq<Alias> {
    FilterMap(lines, ParseAliasLine)
  }

  /** `readAliases` on the file's text: splits it at newlines and collects
      the entry of every definition line, in file order. */
  method ReadAliases(content: string) returns (aliases: seq<Alias>)
    ensures aliases == ParseAliases(Split(content, '\n'))
  {
    var lines := Split(content, '\n');
    aliases := [];
    var i := 0;
    while i < |lines|
      invariant 0 <= i <= |lines|
      invariant aliases == ParseAliases(lines[..i])
    {
      var line := lines[i];
      var entry := ParseAliasLine(line);
      if entry.Some? {
        aliases := aliases + [entry.value];
      }
      FilterMapSnoc(lines[..i], line, ParseAliasLine);
      TakeOneMore(lines, i);
      i := i + 1;
    }
    TakeAll(lines);
  }

  /** File order: the entry of line `i`, if it defines one, comes after the
      entries of the lines before it and before those of the lines after. */
  lemma ParseAliasesAt(lines: seq<string>, i: nat)
    requires i < |lines|
    ensures ParseAliases(lines)
         == ParseAliases(lines[..i]) + OptionSeq(ParseAliasLine(lines[i])) + ParseAliases(lines[i + 1..])
  {
    FilterMapAt(lines, i, ParseAliasLine);
  }

  /** An alias is listed exactly when some line defines it. */
  lemma ParseAliasesMembers(lines: seq<string>, a: Alias)
    ensures a in ParseAliases(lines) <==> exists i :: 0 <= i < |lines| && ParseAliasLine(lines[i]) == Some(a)
  {
    FilterMapMembers(lines, ParseAliasLine, a);
  }

  /** Every listed name is trimmed and free of `=`, and every listed command
      has no quote rune at either end. */
  lemma ParseAliasesWellFormed(lines: seq<string>)
    ensures forall a :: a in ParseAliases(lines) ==> ParsedName(a.name) && ParsedCommand(a.command)
  {
    forall a | a in ParseAliases(lines) ensures ParsedName(a.name) && ParsedCommand(a.command) {
      FilterMapMembers(lines, ParseAliasLine, a);
    }
  }

  // ---------------------------------------------------------------------
  // Writing: appendAlias

  /** The definition line `appendAlias` writes, without its newline. It
      starts with the prefix `removeAlias` looks for, so removing the name
      drops it. */
  function DefinitionLine(name: string, command: string): (r: string)
    ensures HasPrefix(r, DefinitionPrefix(name))
  {
    AliasKeyword + name + "='" + command + "'"
  }

  /** The file's text after `appendAlias` has added a definition. */
  function AppendAlias(content: string, name: string, command: string): string {
    content + DefinitionLine(name, command) + "\n"
  }

  /** The first `=` of a text whose first part has none. */
  lemma IndexAfterName(name: string, rest: string)
    requires '=' !in name
    ensures Index(name + "=" + rest, '=') == |name|
  {
    var s := name + "=" + rest;
    assert s[|name|] == '=';
    assert s[..|name|] == name;
  }

  /** A text with no `=` in its first part splits at the `=` after it. */
  lemma SplitAfterName(name: string, rest: string)
    requires '=' !in name
    ensures SplitN2(name + "=" + rest, '=') == [name, rest]
  {
    var s := name + "=" + rest;
    IndexAfterName(name, rest);
    assert s[..|name|] == name;
    assert s[|name| + 1..] == rest;
  }

  /** A line made of the keyword, a text without `=`, the `=` and the rest
      is read as the trimmed text and the trimmed, unquoted rest. */
  lemma ParseNamedLine(head: string, rest: string)
    requires '=' !in head
    ensures ParseAliasLine(AliasKeyword + (head + "=" + rest))
         == Some(Alias(TrimSpace(head), Trim(TrimSpace(rest), QuoteRunes)))
  {
    var line := AliasKeyword + (head + "=" + rest);
    assert line[..|AliasKeyword|] == AliasKeyword;
    assert line[|AliasKeyword|..] == head + "=" + rest;
    SplitAfterName(head, rest);
    assert SplitN2(line[|AliasKeyword|..], '=') == [head, rest];
  }

  /** A command wrapped in single quotes reads back as the command when
      trimmed of whitespace and then of the runes in `cut`. */
  lemma QuotedCommandReads(command: string, cut: set<char>)
    requires '\'' in cut && Untrimmable(command, cut)
    ensures Trim(TrimSpace("'" + command + "'"), cut) == command
  {
    var quoted := "'" + command + "'";
    assert quoted == ['\''] + command + ['\''];
    TrimUntrimmable(quoted, Whitespace);
    TrimWrapped('\'', command, cut);
  }

  /** A written definition line reads back as the alias it was written for,
      provided the name and command are ones the reader can produce. */
  lemma ParseDefinitionLine(name: string, command: string)
    requires ParsedName(name) && ParsedCommand(command)
    ensures ParseAliasLine(DefinitionLine(name, command)) == Some(Alias(name, command))
  {
    var quoted := "'" + command + "'";
    assert DefinitionLine(name, command) == AliasKeyword + (name + "=" + quoted);
    ParseNamedLine(name, quoted);
    TrimUntrimmable(name, Whitespace);
    QuotedCommandReads(command, QuoteRunes);
  }

  /** A written line holds no newline when its parts hold none. */
  lemma DefinitionLineSingle(name: string, command: string)
    requires '\n' !in name && '\n' !in command
    ensures '\n' !in DefinitionLine(name, command)
  {
  }

  /** Round trip: appending a definition to a file that is empty or ends in
      a newline adds exactly that alias at the end of the list and changes
      nothing before it. */
  lemma AppendThenRead(content: string, name: string, command: string)
    requires content == [] || content[|content| - 1] == '\n'
    requires ParsedName(name) && '\n' !in name
    requires ParsedCommand(command) && '\n' !in command
    ensures ParseAliases(Split(AppendAlias(content, name, command), '\n'))
         == ParseAliases(Split(content, '\n')) + [Alias(name, command)]
  {
    var line := DefinitionLine(name, command);
    DefinitionLineSingle(name, command);
    SplitAppendLine(content, line, '\n');
    var before := Split(content, '\n');
    var init := before[..|before| - 1];
    assert AppendAlias(content, name, command) == content + line + ['\n'];
    ParseDefinitionLine(name, command);
    assert ParseAliasLine("") == None;
    FilterMapBeforeLast(init, line, "", ParseAliasLine, Alias(name, command));
  }

  // ---------------------------------------------------------------------
  // Removing: removeAlias

  /** The prefix of the lines `removeAlias` drops for `name`. */
  function DefinitionPrefix(name: string): string {
    AliasKeyword + name + "="
  }

  /** The lines that do not start with `prefix`, in their order. */
  function KeepLines(lines: seq<string>, prefix: string): seq<string> {
    Filter(lines, line => !HasPrefix(line, prefix))
  }

  /** The file's text after `removeAlias(name)`. */
  function RemovedText(content: string, name: string): string {
    Join(KeepLines(Split(content, '\n'), DefinitionPrefix(name)), '\n')
  }

  /** `removeAlias`: keeps every line that does not start with
      `alias NAME=` and joins them again with newlines. */
  method RemoveAlias(content: string, name: string) returns (newContent: string)
    ensures newContent == RemovedText(content, name)
  {
    var lines := Split(content, '\n');
    var prefix := DefinitionPrefix(name);
    var newLines: seq<string> := [];
    var i := 0;
    while i < |lines|
      invariant 0 <= i <= |lines|
      invariant newLines == KeepLines(lines[..i], prefix)
    {
      var line := lines[i];
      if !HasPrefix(line, prefix) {
        newLines := newLines + [line];
      }
      FilterAppend(lines[..i], [line], l => !HasPrefix(l, prefix));
      FilterOne(line, l => !HasPrefix(l, prefix));
      TakeOneMore(lines, i);
      i := i + 1;
    }
    TakeAll(lines);
    newContent := Join(newLines, '\n');
  }

  /** The kept lines are the lines of the file that do not start with the
      prefix, and no others. */
  lemma KeepLinesMembers(lines: seq<string>, prefix: string)
    ensures forall l :: l in KeepLines(lines, prefix) <==> l in lines && !HasPrefix(l, prefix)
  {
    FilterMembers(lines, l => !HasPrefix(l, prefix));
  }

  /** The lines of the text after removal: the kept lines, or one empty
      line when nothing was kept. */
  lemma RemovedLines(content: string, name: string)
    ensures var kept := KeepLines(Split(content, '\n'), DefinitionPrefix(name));
      Split(RemovedText(content, name), '\n') == if kept == [] then [""] else kept
  {
    var lines := Split(content, '\n');
    var kept := KeepLines(lines, DefinitionPrefix(name));
    if kept != [] {
      KeepLinesMembers(lines, DefinitionPrefix(name));
      forall k | 0 <= k < |kept| ensures '\n' !in kept[k] {
        assert kept[k] in lines;
      }
      SplitJoin(kept, '\n');
    }
  }

  /** After removal no line starts with `alias NAME=`, and every other line
      of the file is still there. */
  lemma RemoveAliasLines(content: string, name: string)
    ensures forall l :: l in Split(RemovedText(content, name), '\n') ==>
      !HasPrefix(l, DefinitionPrefix(name))
    ensures forall l :: l in Split(content, '\n') && !HasPrefix(l, DefinitionPrefix(name)) ==>
      l in Split(RemovedText(content, name), '\n')
  {
    RemovedLines(content, name);
    KeepLinesMembers(Split(content, '\n'), DefinitionPrefix(name));
    assert !HasPrefix("", DefinitionPrefix(name));
  }

  /** Removing twice is removing once. */
  lemma RemoveAliasIdempotent(content: string, name: string)
    ensures RemovedText(RemovedText(content, name), name) == RemovedText(content, name)
  {
    var prefix := DefinitionPrefix(name);
    var kept := KeepLines(Split(content, '\n'), prefix);
    RemovedLines(content, name);
    if kept == [] {
      assert !HasPrefix("", prefix);
      FilterOne("", l => !HasPrefix(l, prefix));
    } else {
      FilterAll(kept, l => !HasPrefix(l, prefix));
    }
  }

  /** When no line starts with `alias NAME=`, the text is unchanged. */
  lemma RemoveAliasUnmatched(content: string, name: string)
    requires forall l :: l in Split(content, '\n') ==> !HasPrefix(l, DefinitionPrefix(name))
    ensures RemovedText(content, name) == content
  {
    var lines := Split(content, '\n');
    var prefix := DefinitionPrefix(name);
    forall k | 0 <= k < |lines| ensures !HasPrefix(lines[k], prefix) {
      assert lines[k] in lines;
    }
    FilterAll(lines, l => !HasPrefix(l, prefix));
    JoinSplit(content, '\n');
  }

  /** A definition line with two spaces after `alias`, which the shell
      accepts as well. */
  function SpacedDefinitionLine(name: string, command: string): string {
    DefinitionLine(" " + name, command)
  }

  /** A name the reader can produce is read back from behind a space. */
  lemma SpacedNameTrims(name: string)
    requires Untrimmable(name, Whitespace)
    ensures TrimSpace(" " + name) == name
  {
    assert ' ' in Whitespace;
    TrimLeftSkips(" ", name, Whitespace);
    TrimUntrimmable(name, Whitespace);
  }

  /** The spaced line does not start with `alias NAME=`. */
  lemma SpacedLineUnprefixed(name: string, command: string)
    requires Untrimmable(name, Whitespace)
    ensures !HasPrefix(SpacedDefinitionLine(name, command), DefinitionPrefix(name))
  {
    var line := SpacedDefinitionLine(name, command);
    var prefix := DefinitionPrefix(name);
    assert line[6] == ' ';
    if name == [] {
      assert prefix[6] == '=';
    } else {
      assert prefix[6] == name[0];
      assert ' ' in Whitespace;
    }
  }

  /** The spaced line is read as the alias it was written for. */
  lemma ParseSpacedLine(name: string, command: string)
    requires ParsedName(name) && ParsedCommand(command)
    ensures ParseAliasLine(SpacedDefinitionLine(name, command)) == Some(Alias(name, command))
  {
    var quoted := "'" + command + "'";
    assert SpacedDefinitionLine(name, command) == AliasKeyword + ((" " + name) + "=" + quoted);
    ParseNamedLine(" " + name, quoted);
    SpacedNameTrims(name);
    QuotedCommandReads(command, QuoteRunes);
  }

  /** As written, removal misses a definition that the list shows under
      the same name when the line has two spaces after `alias`
      (`alias  gs='x'` is listed as `gs` and kept by `removeAlias("gs")`). */
  lemma RemoveAliasMissesSpacedDefinition(name: string, command: string)
    requires ParsedName(name) && '\n' !in name
    requires ParsedCommand(command) && '\n' !in command
    ensures ParseAliases(Split(SpacedDefinitionLine(name, command), '\n')) == [Alias(name, command)]
    ensures RemovedText(SpacedDefinitionLine(name, command), name) == SpacedDefinitionLine(name, command)
  {
    var line := SpacedDefinitionLine(name, command);
    DefinitionLineSingle(" " + name, command);
    SplitNoSep(line, '\n');
    ParseSpacedLine(name, command);
    FilterMapOne(line, ParseAliasLine);
    SpacedLineUnprefixed(name, command);
    RemoveAliasUnmatched(line, name);
  }

  /** A line defines `name` when the reader lists it under that name. */
  predicate DefinesName(line: string, name: string) {
    ParseAliasLine(line).Some? && ParseAliasLine(line).value.name == name
  }

  /** Removal as the list screen means it: every line the reader lists
      under `name` is dropped. */
  function RemovedEntriesText(content: string, name: string): string {
    Join(Filter(Split(content, '\n'), line => !DefinesName(line, name)), '\n')
  }

  /** The corrected removal: drops every line the list shows under
      `name`, whatever the spacing of its definition. */
  method RemoveListedAlias(content: string, name: string) returns (newContent: string)
    ensures newContent == RemovedEntriesText(content, name)
  {
    var lines := Split(content, '\n');
    var newLines: seq<string> := [];
    var i := 0;
    while i < |lines|
      invariant 0 <= i <= |lines|
      invariant newLines == Filter(lines[..i], line => !DefinesName(line, name))
    {
      var line := lines[i];
      if !DefinesName(line, name) {
        newLines := newLines + [line];
      }
      FilterAppend(lines[..i], [line], l => !DefinesName(l, name));
      FilterOne(line, l => !DefinesName(l, name));
      TakeOneMore(lines, i);
      i := i + 1;
    }
    TakeAll(lines);
    newContent := Join(newLines, '\n');
  }

  /** The corrected removal lists every alias it listed before except
      those named `name`, in the same order. */
  lemma RemoveEntriesThenRead(content: string, name: string)
    ensures ParseAliases(Split(RemovedEntriesText(content, name), '\n'))
         == Filter(ParseAliases(Split(content, '\n')), (a: Alias) => a.name != name)
  {
    var lines := Split(content, '\n');
    var keep := (line: string) => !DefinesName(line, name);
    var kept := Filter(lines, keep);
    FilterMapOfFilter(lines, keep, ParseAliasLine, (a: Alias) => a.name != name);
    if kept == [] {
      assert Split(RemovedEntriesText(content, name), '\n') == [""];
      FilterMapOne("", ParseAliasLine);
    } else {
      FilterMembers(lines, keep);
      forall k | 0 <= k < |kept| ensures '\n' !in kept[k] {
        assert kept[k] in lines;
      }
      SplitJoin(kept, '\n');
    }
  }

  /** The corrected removal drops every line the written one drops, for any
      name the reader can produce. */
  lemma PrefixedLineDefinesName(line: string, name: string)
    requires ParsedName(name) && HasPrefix(line, DefinitionPrefix(name))
    ensures DefinesName(line, name)
  {
    var n := |DefinitionPrefix(name)|;
    assert line == AliasKeyword + (name + "=" + line[n..]) by {
      assert line == line[..n] + line[n..];
    }
    ParseNamedLine(name, line[n..]);
    TrimUntrimmable(name, Whitespace);
  }


  // ---------------------------------------------------------------------
  // The `list` command: loadAliases

  /** A listed alias as a name-to-command pair. */
  function EntryPair(entry: Option<Alias>): Option<(string, string)> {
    match entry
    case Some(a) => Some((a.name, a.command))
    case None => None
  }

  /** What `loadAliases` makes of one line: the line is trimmed of
      whitespace first, so indented definitions count too. */
  function LoadedEntry(line: string): Option<(string, string)> {
    EntryPair(ParseAliasLine(TrimSpace(line)))
  }

  /** The map `loadAliases` builds: each definition line assigns its command
      to its name, later lines overwriting earlier ones. */
  function LoadMap(lines: seq<string>): map<string, string> {
    AssignAll(lines, LoadedEntry)
  }

  /** `loadAliases` on the file's text. */
  method LoadAliases(content: string) returns (aliases: map<string, string>)
    ensures aliases == LoadMap(Split(content, '\n'))
  {
    var lines := Split(content, '\n');
    aliases := map[];
    var i := 0;
    while i < |lines|
      invariant 0 <= i <= |lines|
      invariant aliases == LoadMap(lines[..i])
    {
      var line := lines[i];
      var entry := LoadedEntry(line);
      if entry.Some? {
        aliases := aliases[entry.value.0 := entry.value.1];
      }
      AssignAllSnoc(lines[..i], line, LoadedEntry);
      TakeOneMore(lines, i);
      i := i + 1;
    }
    TakeAll(lines);
  }

  /** A name is in the map exactly when some line defines it. */
  lemma LoadMapDomain(lines: seq<string>, name: string)
    ensures name in LoadMap(lines) <==> exists i :: 0 <= i < |lines| && Assigns(LoadedEntry, lines[i], name)
  {
    AssignAllDomain(lines, LoadedEntry, name);
  }

  /** When a name is defined more than once, the last definition wins. */
  lemma LoadMapLastWins(lines: seq<string>, i: nat, name: string, command: string)
    requires i < |lines| && LoadedEntry(lines[i]) == Some((name, command))
    requires forall j :: i < j < |lines| ==> !Assigns(LoadedEntry, lines[j], name)
    ensures name in LoadMap(lines) && LoadMap(lines)[name] == command
  {
    AssignAllLastWins(lines, LoadedEntry, i);
  }

  /** Indentation does not hide a definition from `loadAliases`. */
  lemma IndentedLineLoaded(indent: string, line: string)
    requires forall k :: 0 <= k < |indent| ==> indent[k] in Whitespace
    ensures LoadedEntry(indent + line) == LoadedEntry(line)
  {
    TrimLeftSkips(indent, line, Whitespace);
  }

  /** On a line without surrounding whitespace, `loadAliases` and
      `readAliases` agree. */
  lemma LoadedEntryUntrimmed(line: string)
    requires Untrimmable(line, Whitespace)
    ensures LoadedEntry(line) == EntryPair(ParseAliasLine(line))
  {
    TrimUntrimmable(line, Whitespace);
  }

  // ---------------------------------------------------------------------
  // Confirming an alias proposed by the language model

  /** The split `showAliasConfirmation` applies to an extracted
      `alias NAME='COMMAND'` text before appending it. */
  function ConfirmAlias(alias: string): (r: Result<Alias, string>)
    ensures r.Failure? <==> '=' !in alias
    ensures r.Failure? ==> r.error == InvalidAliasFormat
  {
    var parts := SplitN2(alias, '=');
    if |parts| == 2 then
      Success(Alias(TrimPrefix(TrimSpace(parts[0]), AliasKeyword), Trim(TrimSpace(parts[1]), SingleQuote)))
    else
      Failure(InvalidAliasFormat)
  }

  /** The keyword and a name the reader can produce come out of the split
      as the name. */
  lemma ConfirmedName(name: string)
    requires name != [] && Untrimmable(name, Whitespace)
    ensures TrimPrefix(TrimSpace(AliasKeyword + name), AliasKeyword) == name
  {
    var head := AliasKeyword + name;
    assert head[0] == 'a' && head[|head| - 1] == name[|name| - 1];
    TrimUntrimmable(head, Whitespace);
    assert head[..|AliasKeyword|] == AliasKeyword;
  }

  /** A proposed definition line splits into its name and command, so the
      line appended afterwards is the proposed one. */
  lemma ConfirmDefinitionLine(name: string, command: string)
    requires name != [] && ParsedName(name)
    requires Untrimmable(command, SingleQuote)
    ensures ConfirmAlias(DefinitionLine(name, command)) == Success(Alias(name, command))
  {
    var head := AliasKeyword + name;
    var quoted := "'" + command + "'";
    assert DefinitionLine(name, command) == head + "=" + quoted;
    assert '=' !in head;
    SplitAfterName(head, quoted);
    ConfirmedName(name);
    QuotedCommandReads(command, SingleQuote);
  }

  /** The file's text after the user confirms a proposed alias: the split
      one appended, or the error shown instead. */
  function AddProposedAlias(content: string, alias: string): (r: Result<string, string>)
    ensures r.Failure? <==> '=' !in alias
    ensures r.Failure? ==> r.error == InvalidAliasFormat && ConfirmAlias(alias).Failure?
    ensures r.Success? ==> (ConfirmAlias(alias).Success?
      && r.value == AppendAlias(content, ConfirmAlias(alias).value.name, ConfirmAlias(alias).value.command))
  {
    match ConfirmAlias(alias)
    case Success(a) => Success(AppendAlias(content, a.name, a.command))
    case Failure(e) => Failure(e)
  }

  /** Confirming a proposed definition line adds exactly the proposed alias
      to the list. */
  lemma ProposedAliasListed(content: string, name: string, command: string)
    requires content == [] || content[|content| - 1] == '\n'
    requires name != [] && ParsedName(name) && '\n' !in name
    requires ParsedCommand(command) && '\n' !in command
    ensures AddProposedAlias(content, DefinitionLine(name, command)).Success?
    ensures ParseAliases(Split(AddProposedAlias(content, DefinitionLine(name, command)).value, '\n'))
         == ParseAliases(Split(content, '\n')) + [Alias(name, command)]
  {
    ConfirmDefinitionLine(name, command);
    AppendThenRead(content, name, command);
  }
}
