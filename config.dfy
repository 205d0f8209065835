/** The configuration aliasman keeps in the alias file itself: a comment
    line `# {...}` holding the JSON of the chosen model. Decoding and
    encoding JSON are not modelled: `readConfig` is given the decoder as a
    function and `updateConfig` the encoded text. */
module AliasConfig {
  import opened Wrappers
  import opened GoStrings

  datatype Config = Config(model: string)

  /** The model used when no configuration line can be decoded. */
  const DefaultModel: string := "llama3:8b"

  /** The shape of a configuration line: `# {` at the start, `}` at the end. */
  predicate IsConfigLine(line: string) {
    HasPrefix(line, "# {") && HasSuffix(line, "}")
  }

  /** The configuration a line yields: the decoded text after `# ` when
      the line has the configuration shape and the text decodes. */
  function LineConfig(line: string, decode: string -> Option<Config>): Option<Config> {
    if IsConfigLine(line) then decode(line[2..]) else None
  }

  /** The configuration of the first line that yields one. */
  function FirstConfig(lines: seq<string>, decode: string -> Option<Config>): Option<Config> {
    if lines == [] then None
    else if LineConfig(lines[0], decode).Some? then LineConfig(lines[0], decode)
    else FirstConfig(lines[1..], decode)
  }

  /** What `readConfig` returns for the file's text. */
  function ConfigOf(content: string, decode: string -> Option<Config>): Config {
    match FirstConfig(Split(content, '\n'), decode)
    case Some(c) => c
    case None => Config(DefaultModel)
  }

  /** `readConfig`: the first configuration line that decodes, otherwise
      the default model. */
  method ReadConfig(content: string, decode: string -> Option<Config>) returns (config: Config)
    ensures config == ConfigOf(content, decode)
  {
    var lines := Split(content, '\n');
    var i := 0;
    while i < |lines|
      invariant 0 <= i <= |lines|
      invariant FirstConfig(lines[i..], decode) == FirstConfig(lines, decode)
    {
      var line := lines[i];
      if IsConfigLine(line) {
        var decoded := decode(line[2..]);
        if decoded.Some? {
          return decoded.value;
        }
      }
      assert lines[i..][1..] == lines[i + 1..];
      i := i + 1;
    }
    return Config(DefaultModel);
  }

  /** The configuration found is that of line `i` when line `i` yields
      one and no line before it does (`FirstConfigFound` is the converse). */
  lemma {:induction false} FirstConfigAt(lines: seq<string>, decode: string -> Option<Config>, i: nat, c: Config)
    requires i < |lines|
    ensures (LineConfig(lines[i], decode) == Some(c)
             && forall j :: 0 <= j < i ==> LineConfig(lines[j], decode).None?)
        ==> FirstConfig(lines, decode) == Some(c)
  {
    if i > 0 && LineConfig(lines[0], decode).None? {
      FirstConfigAt(lines[1..], decode, i - 1, c);
      if LineConfig(lines[i], decode) == Some(c)
         && forall j :: 0 <= j < i ==> LineConfig(lines[j], decode).None? {
        forall j | 0 <= j < i - 1 ensures LineConfig(lines[1..][j], decode).None? {
          assert lines[1..][j] == lines[j + 1];
        }
      }
    }
  }

  /** A configuration found comes from some line, and every line before it
      yields none. */
  lemma {:induction false} FirstConfigFound(lines: seq<string>, decode: string -> Option<Config>)
    requires FirstConfig(lines, decode).Some?
    ensures exists i :: (0 <= i < |lines| && LineConfig(lines[i], decode) == FirstConfig(lines, decode)
                         && forall j :: 0 <= j < i ==> LineConfig(lines[j], decode).None?)
  {
    if LineConfig(lines[0], decode).None? {
      FirstConfigFound(lines[1..], decode);
      var i :| (0 <= i < |lines[1..]| && LineConfig(lines[1..][i], decode) == FirstConfig(lines[1..], decode)
                && forall j :: 0 <= j < i ==> LineConfig(lines[1..][j], decode).None?);
      assert LineConfig(lines[i + 1], decode) == FirstConfig(lines, decode);
      forall j | 0 <= j < i + 1 ensures LineConfig(lines[j], decode).None? {
        if j > 0 {
          assert lines[j] == lines[1..][j - 1];
        }
      }
    }
  }

  /** No configuration is found exactly when no line yields one; then
      `readConfig` falls back to the default model. */
  lemma {:induction false} FirstConfigNone(lines: seq<string>, decode: string -> Option<Config>)
    ensures FirstConfig(lines, decode).None? <==> forall i :: 0 <= i < |lines| ==> LineConfig(lines[i], decode).None?
  {
    if lines != [] {
      FirstConfigNone(lines[1..], decode);
      if LineConfig(lines[0], decode).None? {
        forall i | 0 < i < |lines| ensures LineConfig(lines[i], decode) == LineConfig(lines[1..][i - 1], decode) {
        }
        forall i | 0 <= i < |lines[1..]| ensures LineConfig(lines[1..][i], decode) == LineConfig(lines[i + 1], decode) {
        }
      }
    }
  }

  /** With no decodable configuration line, `readConfig` gives the default
      model. */
  lemma ConfigDefault(content: string, decode: string -> Option<Config>)
    requires forall line :: line in Split(content, '\n') ==> LineConfig(line, decode).None?
    ensures ConfigOf(content, decode) == Config(DefaultModel)
  {
    var lines := Split(content, '\n');
    forall i | 0 <= i < |lines| ensures LineConfig(lines[i], decode).None? {
      assert lines[i] in lines;
    }
    FirstConfigNone(lines, decode);
  }

  // ---------------------------------------------------------------------
  // Writing the configuration: updateConfig

  /** The line `updateConfig` writes for the encoded configuration. */
  function ConfigLine(json: string): string {
    "# " + json
  }

  /** The lines after the update: the new configuration line, then the old
      lines without the first one if that one has the configuration shape. */
  function UpdatedLines(lines: seq<string>, json: string): seq<string> {
    [ConfigLine(json)] + if |lines| > 0 && IsConfigLine(lines[0]) then lines[1..] else lines
  }

  /** The file's text after `updateConfig`. */
  function UpdatedText(content: string, json: string): string {
    Join(UpdatedLines(Split(content, '\n'), json), '\n')
  }

  /** `updateConfig`: writes the configuration line first and keeps every
      old line except a configuration line at the very top. */
  method UpdateConfig(content: string, json: string) returns (newContent: string)
    ensures newContent == UpdatedText(content, json)
  {
    var lines := Split(content, '\n');
    var updated := [ConfigLine(json)];
    var i := 0;
    while i < |lines|
      invariant 0 <= i <= |lines|
      invariant updated == [ConfigLine(json)] + if i > 0 && IsConfigLine(lines[0]) then lines[1..i] else lines[..i]
    {
      var line := lines[i];
      if !(i == 0 && IsConfigLine(line)) {
        updated := updated + [line];
      }
      assert lines[..i + 1] == lines[..i] + [line];
      assert i > 0 ==> lines[1..i + 1] == lines[1..i] + [line];
      i := i + 1;
    }
    assert lines[..|lines|] == lines;
    newContent := Join(updated, '\n');
  }

  /** The lines of the updated text: the new configuration line first, then
      the old lines, without the first one exactly when it had the
      configuration shape; so one line more, or as many as before. */
  lemma UpdateConfigLines(content: string, json: string)
    requires '\n' !in json
    ensures var lines := Split(content, '\n');
      var updated := Split(UpdatedText(content, json), '\n');
      && updated[0] == ConfigLine(json)
      && (IsConfigLine(lines[0]) ==> updated[1..] == lines[1..] && |updated| == |lines|)
      && (!IsConfigLine(lines[0]) ==> updated[1..] == lines && |updated| == |lines| + 1)
  {
    var lines := Split(content, '\n');
    var updated := UpdatedLines(lines, json);
    forall k | 0 <= k < |updated| ensures '\n' !in updated[k] {
      if k > 0 {
        assert updated[k] in lines;
      }
    }
    SplitJoin(updated, '\n');
  }

  /** A configuration line written with an encoding that has the
      configuration shape is the one read back. */
  lemma UpdateThenReadConfig(content: string, json: string, decode: string -> Option<Config>, c: Config)
    requires '\n' !in json && HasPrefix(json, "{") && HasSuffix(json, "}")
    requires decode(json) == Some(c)
    ensures ConfigOf(UpdatedText(content, json), decode) == c
  {
    UpdateConfigLines(content, json);
    var line := ConfigLine(json);
    assert line[..3] == "# " + json[..1];
    assert line[|line| - 1..] == json[|json| - 1..];
    assert line[2..] == json;
  }

  /** Updating twice is updating once with the second configuration: the
      first update's line is the one the second replaces. */
  lemma UpdateConfigTwice(content: string, first: string, second: string)
    requires '\n' !in first && '\n' !in second
    requires IsConfigLine(ConfigLine(first))
    ensures UpdatedText(UpdatedText(content, first), second) == UpdatedText(content, second)
  {
    UpdateConfigLines(content, first);
  }
}
