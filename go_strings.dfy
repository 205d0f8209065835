/** The part of Go's `strings` package that the alias file code relies on,
    over strings seen as sequences of runes. */
module GoStrings {

  /** Go's `unicode.IsSpace`: the ASCII controls tab to carriage return,
      space, U+0085, U+00A0, and the Unicode White_Space runes above them. */
  predicate IsSpace(c: char) {
    || '\t' <= c <= '\r' || c == ' ' || c == '\U{0085}' || c == '\U{00A0}'
    || c == '\U{1680}' || '\U{2000}' <= c <= '\U{200A}' || c == '\U{2028}'
    || c == '\U{2029}' || c == '\U{202F}' || c == '\U{205F}' || c == '\U{3000}'
  }

  /** The runes `strings.TrimSpace` removes. */
  const Whitespace: set<char> := set c: char | IsSpace(c)

  predicate HasPrefix(s: string, prefix: string) {
    |prefix| <= |s| && s[..|prefix|] == prefix
  }

  predicate HasSuffix(s: string, suffix: string) {
    |suffix| <= |s| && s[|s| - |suffix|..] == suffix
  }

  /** `strings.TrimPrefix`: drops `prefix` once when `s` starts with it. */
  function TrimPrefix(s: string, prefix: string): (r: string)
    ensures HasPrefix(s, prefix) ==> s == prefix + r
    ensures !HasPrefix(s, prefix) ==> r == s
  {
    if HasPrefix(s, prefix) then s[|prefix|..] else s
  }

  /** `strings.Index` for a one-rune separator: the first position of `c`,
      or -1 when `s` does not contain it. */
  function Index(s: string, c: char): (i: int)
    ensures -1 <= i < |s|
    ensures i == -1 <==> c !in s
    ensures 0 <= i ==> s[i] == c && c !in s[..i]
  {
    if |s| == 0 then -1
    else if s[0] == c then 0
    else
      var j := Index(s[1..], c);
      if j < 0 then -1
      else
        assert s[..j + 1] == [s[0]] + s[1..][..j];
        j + 1
  }

  /** `strings.Split` for a one-rune separator: the pieces between the
      separators. The empty string gives one empty piece. */
  function Split(s: string, sep: char): (parts: seq<string>)
    ensures |parts| >= 1
    ensures forall k :: 0 <= k < |parts| ==> sep !in parts[k]
  {
    if s == [] then [""]
    else
      var rest := Split(s[1..], sep);
      if s[0] == sep then [""] + rest
      else [[s[0]] + rest[0]] + rest[1..]
  }

  /** `strings.Join` with a one-rune separator. */
  function Join(parts: seq<string>, sep: char): string
  {
    if |parts| == 0 then ""
    else if |parts| == 1 then parts[0]
    else parts[0] + [sep] + Join(parts[1..], sep)
  }

  /** `strings.SplitN(s, sep, 2)`: the whole string when `sep` does not
      occur, otherwise the text before and after its first occurrence. */
  function SplitN2(s: string, sep: char): (parts: seq<string>)
    ensures |parts| == 1 <==> sep !in s
    ensures |parts| == 1 ==> parts[0] == s
    ensures |parts| == 2 ==> parts[0] + [sep] + parts[1] == s && sep !in parts[0]
    ensures 1 <= |parts| <= 2
  {
    var i := Index(s, sep);
    if i < 0 then [s] else [s[..i], s[i + 1..]]
  }

  /** `strings.TrimLeft`: drops every leading rune that is in `cut`. */
  function TrimLeft(s: string, cut: set<char>): (r: string)
    ensures |r| <= |s| && r == s[|s| - |r|..]
    ensures r == [] || r[0] !in cut
    ensures forall k :: 0 <= k < |s| - |r| ==> s[k] in cut
  {
    if |s| > 0 && s[0] in cut then
      var r := TrimLeft(s[1..], cut);
      assert forall k :: 0 < k < |s| ==> s[k] == s[1..][k - 1];
      assert s[1..][|s| - 1 - |r|..] == s[|s| - |r|..];
      r
    else s
  }

  /** `strings.TrimRight`: drops every trailing rune that is in `cut`. */
  function TrimRight(s: string, cut: set<char>): (r: string)
    ensures |r| <= |s| && r == s[..|r|]
    ensures r == [] || r[|r| - 1] !in cut
    ensures forall k :: |r| <= k < |s| ==> s[k] in cut
  {
    if |s| > 0 && s[|s| - 1] in cut then TrimRight(s[..|s| - 1], cut) else s
  }

  /** `strings.Trim`: drops leading and trailing runes that are in `cut`,
      as many as there are, not only one layer. */
  function Trim(s: string, cut: set<char>): (r: string)
    ensures r == [] || (r[0] !in cut && r[|r| - 1] !in cut)
  {
    TrimRight(TrimLeft(s, cut), cut)
  }

  /** `strings.TrimSpace`. */
  function TrimSpace(s: string): (r: string)
    ensures r == [] || (r[0] !in Whitespace && r[|r| - 1] !in Whitespace)
  {
    Trim(s, Whitespace)
  }

  /** A string whose two ends are not in `cut`. */
  predicate Untrimmable(s: string, cut: set<char>) {
    s == [] || (s[0] !in cut && s[|s| - 1] !in cut)
  }

  // ---------------------------------------------------------------------
  // Split and Join

  /** A string without the separator is one piece. */
  lemma {:induction false} SplitNoSep(s: string, sep: char)
    requires sep !in s
    ensures Split(s, sep) == [s]
  {
    if s != [] {
      SplitNoSep(s[1..], sep);
      assert [s[0]] + s[1..] == s;
    }
  }

  /** A separator-free first piece followed by the separator: the rest
      splits on its own. */
  lemma {:induction false} SplitAfterPiece(p: string, t: string, sep: char)
    requires sep !in p
    ensures Split(p + [sep] + t, sep) == [p] + Split(t, sep)
  {
    if p == [] {
      assert p + [sep] + t == [sep] + t;
      assert ([sep] + t)[1..] == t;
    } else {
      assert (p + [sep] + t)[1..] == p[1..] + [sep] + t;
      SplitAfterPiece(p[1..], t, sep);
      assert [p[0]] + p[1..] == p;
    }
  }

  /** A text ending in the separator splits into one more, empty, piece. */
  lemma {:induction false} SplitAppendSep(a: string, sep: char)
    ensures Split(a + [sep], sep) == Split(a, sep) + [""]
  {
    if a == [] {
      assert a + [sep] == [sep];
      assert Split([sep][1..], sep) == [""];
    } else {
      assert (a + [sep])[1..] == a[1..] + [sep];
      SplitAppendSep(a[1..], sep);
      var sa' := Split(a[1..], sep);
      if a[0] != sep {
        assert (sa' + [""])[1..] == sa'[1..] + [""];
      }
    }
  }

  /** The pieces of `a + t` when `t` extends the last piece of `a`. */
  predicate ExtendsLast(a: string, t: string, sep: char) {
    var sa := Split(a, sep);
    Split(a + t, sep) == sa[..|sa| - 1] + [sa[|sa| - 1] + t]
  }

  lemma SplitAppendPieceAtSep(a: string, t: string, sep: char)
    requires a != [] && a[0] == sep
    requires ExtendsLast(a[1..], t, sep)
    ensures ExtendsLast(a, t, sep)
  {
    assert (a + t)[1..] == a[1..] + t;
    var sa' := Split(a[1..], sep);
    var sa := Split(a, sep);
    assert sa == [""] + sa';
    assert sa[..|sa| - 1] == [""] + sa'[..|sa'| - 1];
  }

  lemma SplitAppendPieceInLast(a: string, t: string, sep: char)
    requires a != [] && a[0] != sep && |Split(a[1..], sep)| == 1
    requires ExtendsLast(a[1..], t, sep)
    ensures ExtendsLast(a, t, sep)
  {
    assert (a + t)[1..] == a[1..] + t;
    var sa' := Split(a[1..], sep);
    assert Split(a, sep) == [[a[0]] + sa'[0]];
    assert [a[0]] + (sa'[0] + t) == ([a[0]] + sa'[0]) + t;
  }

  lemma SplitAppendPieceInFirst(a: string, t: string, sep: char)
    requires a != [] && a[0] != sep && |Split(a[1..], sep)| > 1
    requires ExtendsLast(a[1..], t, sep)
    ensures ExtendsLast(a, t, sep)
  {
    assert (a + t)[1..] == a[1..] + t;
    var sa' := Split(a[1..], sep);
    var rest := Split(a[1..] + t, sep);
    var sa := Split(a, sep);
    assert rest[0] == sa'[0];
    assert rest[1..] == sa'[1..|sa'| - 1] + [sa'[|sa'| - 1] + t];
    assert sa == [[a[0]] + sa'[0]] + sa'[1..];
    assert sa[..|sa| - 1] == [[a[0]] + sa'[0]] + sa'[1..|sa'| - 1];
  }

  /** Text without the separator extends the last piece. */
  lemma {:induction false} SplitAppendPiece(a: string, t: string, sep: char)
    requires sep !in t
    ensures var sa := Split(a, sep);
      Split(a + t, sep) == sa[..|sa| - 1] + [sa[|sa| - 1] + t]
  {
    if a == [] {
      assert a + t == t;
      SplitNoSep(t, sep);
    } else {
      SplitAppendPiece(a[1..], t, sep);
      if a[0] == sep {
        SplitAppendPieceAtSep(a, t, sep);
      } else if |Split(a[1..], sep)| == 1 {
        SplitAppendPieceInLast(a, t, sep);
      } else {
        SplitAppendPieceInFirst(a, t, sep);
      }
    }
  }

  /** The pieces of a text that is empty or ends in the separator end with
      an empty piece. */
  lemma SplitTerminated(s: string, sep: char)
    requires s == [] || s[|s| - 1] == sep
    ensures var parts := Split(s, sep); parts[|parts| - 1] == ""
  {
    if s != [] {
      var body := s[..|s| - 1];
      assert s == body + [sep];
      SplitAppendSep(body, sep);
    }
  }

  /** Appending a separator-free piece and the separator to such a text
      puts the piece in place of the last, empty, piece and adds a new
      empty one. */
  lemma SplitAppendLine(s: string, line: string, sep: char)
    requires s == [] || s[|s| - 1] == sep
    requires sep !in line
    ensures var parts := Split(s, sep);
      parts == parts[..|parts| - 1] + [""]
      && Split(s + line + [sep], sep) == parts[..|parts| - 1] + [line] + [""]
  {
    var parts := Split(s, sep);
    var init := parts[..|parts| - 1];
    SplitTerminated(s, sep);
    assert parts == init + [""];
    assert Split(s + line, sep) == init + [line] by {
      SplitAppendPiece(s, line, sep);
      assert parts[|parts| - 1] + line == line;
    }
    SplitAppendSep(s + line, sep);
  }

  /** `Join(Split(s, sep), sep) == s`: the line view loses nothing. */
  lemma {:induction false} JoinSplit(s: string, sep: char)
    ensures Join(Split(s, sep), sep) == s
  {
    if s != [] {
      JoinSplit(s[1..], sep);
      var rest := Split(s[1..], sep);
      if s[0] != sep && |rest| > 1 {
        assert ([[s[0]] + rest[0]] + rest[1..])[1..] == rest[1..];
      }
    }
  }

  lemma JoinCons(first: string, rest: seq<string>, sep: char)
    requires |rest| >= 1
    ensures Join([first] + rest, sep) == first + [sep] + Join(rest, sep)
  {
    assert ([first] + rest)[1..] == rest;
  }

  /** An empty last piece adds one separator at the end of the join. */
  lemma {:induction false} JoinAppendEmpty(parts: seq<string>, sep: char)
    requires |parts| >= 1
    ensures Join(parts + [""], sep) == Join(parts, sep) + [sep]
  {
    if |parts| == 1 {
      assert parts + [""] == [parts[0]] + [""];
    } else {
      JoinAppendEmpty(parts[1..], sep);
      assert parts + [""] == [parts[0]] + (parts[1..] + [""]);
      JoinCons(parts[0], parts[1..] + [""], sep);
    }
  }

  /** Splitting a join of separator-free pieces gives the pieces back. */
  lemma {:induction false} SplitJoin(parts: seq<string>, sep: char)
    requires |parts| >= 1
    requires forall k :: 0 <= k < |parts| ==> sep !in parts[k]
    ensures Split(Join(parts, sep), sep) == parts
  {
    SplitNoSep(parts[0], sep);
    if |parts| > 1 {
      SplitJoin(parts[1..], sep);
      SplitAfterPiece(parts[0], Join(parts[1..], sep), sep);
    }
  }

  // ---------------------------------------------------------------------
  // Trimming

  /** Leading runes from `cut` make no difference to `TrimLeft`. */
  lemma {:induction false} TrimLeftSkips(w: string, s: string, cut: set<char>)
    requires forall k :: 0 <= k < |w| ==> w[k] in cut
    ensures TrimLeft(w + s, cut) == TrimLeft(s, cut)
  {
    if w != [] {
      assert (w + s)[1..] == w[1..] + s;
      TrimLeftSkips(w[1..], s, cut);
    } else {
      assert w + s == s;
    }
  }

  /** Trimming adds no rune. */
  lemma TrimOmits(s: string, cut: set<char>, c: char)
    requires c !in s
    ensures c !in Trim(s, cut)
  {
    var left := TrimLeft(s, cut);
    forall k | 0 <= k < |left| ensures left[k] != c {
      assert left[k] == s[|s| - |left| + k];
    }
    var r := TrimRight(left, cut);
    forall k | 0 <= k < |r| ensures r[k] != c {
      assert r[k] == left[k];
    }
  }

  /** A string whose ends are not in `cut` is left as it is. */
  lemma TrimUntrimmable(s: string, cut: set<char>)
    requires Untrimmable(s, cut)
    ensures Trim(s, cut) == s
  {
  }

  /** Trimming a string wrapped in one rune of `cut` on each side gives
      back the inside, provided the inside's ends are not in `cut`. */
  lemma TrimWrapped(q: char, s: string, cut: set<char>)
    requires q in cut
    requires Untrimmable(s, cut)
    ensures Trim([q] + s + [q], cut) == s
  {
    var w := [q] + s + [q];
    assert w == [q] + (s + [q]);
    TrimLeftSkips([q], s + [q], cut);
    if s == [] {
      assert TrimLeft([q], cut) == [];
    } else {
      assert TrimLeft(s + [q], cut) == s + [q];
      assert (s + [q])[..|s|] == s;
    }
  }
}
