/** The string operations the filter applies to STL text: Qt's whitespace
    test, trimmed(), toUpper(), startsWith(), split on "\s+" skipping empty
    parts, join, and QTextStream's line splitting. Bytes are read as Latin-1. */
module Text {
  import opened StlBase

  /** QChar::isSpace restricted to the Latin-1 range. */
  predicate IsSpace(c: char)
  {
    ('\t' <= c <= '\r') || c == ' ' || c == '\U{85}' || c == '\U{A0}'
  }

  predicate Blank(s: string)
  {
    forall i :: 0 <= i < |s| ==> IsSpace(s[i])
  }

  predicate NoSpace(s: string)
  {
    forall i :: 0 <= i < |s| ==> !IsSpace(s[i])
  }

  function UpperChar(c: char): (u: char)
    ensures 'a' <= c <= 'z' ==> 'A' <= u <= 'Z' && u as int == c as int - 32
    ensures !('a' <= c <= 'z') ==> u == c
  {
    if 'a' <= c <= 'z' then (c as int - 32) as char else c
  }

  /** QString::toUpper on the ASCII letters. */
  function Upper(s: string): (r: string)
    ensures |r| == |s|
  {
    if s == [] then [] else [UpperChar(s[0])] + Upper(s[1..])
  }

  function TrimStart(s: string): string
  {
    if s != [] && IsSpace(s[0]) then TrimStart(s[1..]) else s
  }

  function TrimEnd(s: string): string
  {
    if s != [] && IsSpace(s[|s| - 1]) then TrimEnd(s[..|s| - 1]) else s
  }

  /** QString::trimmed: whitespace removed from both ends. */
  function Trim(s: string): string
  {
    TrimEnd(TrimStart(s))
  }

  predicate StartsWith(s: string, prefix: string)
  {
    |prefix| <= |s| && s[..|prefix|] == prefix
  }

  /** line.trimmed().toUpper().startsWith(keyword), the test every fixed
      line of an ASCII facet goes through. */
  predicate KeywordLine(line: string, keyword: string)
  {
    StartsWith(Upper(Trim(line)), keyword)
  }

  /** The longest prefix of s without whitespace. */
  function Word(s: string): (w: string)
    ensures 0 < |w| <= |s| || s == [] || IsSpace(s[0])
    ensures |w| <= |s|
  {
    if s == [] || IsSpace(s[0]) then [] else [s[0]] + Word(s[1..])
  }

  /** QString::split(QRegExp("\\s+"), QString::SkipEmptyParts). */
  function Tokens(s: string): seq<string>
    decreases |s|
  {
    if s == [] then []
    else if IsSpace(s[0]) then Tokens(s[1..])
    else
      var w := Word(s);
      [w] + Tokens(s[|w|..])
  }

  /** A line splits into no token exactly when it is all whitespace. */
  lemma {:induction false} TokensEmptyIffBlank(s: string)
    ensures Tokens(s) == [] <==> Blank(s)
    decreases |s|
  {
    if s != [] && IsSpace(s[0]) {
      TokensEmptyIffBlank(s[1..]);
      if Blank(s[1..]) {
        forall i | 0 <= i < |s| ensures IsSpace(s[i]) {
          if i > 0 { assert s[i] == s[1..][i - 1]; }
        }
      } else {
        var i :| 0 <= i < |s[1..]| && !IsSpace(s[1..][i]);
        assert !IsSpace(s[i + 1]);
      }
    }
  }

  /** A word holds no whitespace. */
  lemma {:induction false} WordNoSpace(s: string)
    ensures NoSpace(Word(s))
    decreases |s|
  {
    if s != [] && !IsSpace(s[0]) {
      WordNoSpace(s[1..]);
      var w := Word(s);
      assert w == [s[0]] + Word(s[1..]);
      forall i | 0 <= i < |w|
        ensures !IsSpace(w[i])
      {
        if i > 0 {
          assert w[i] == Word(s[1..])[i - 1];
        }
      }
    }
  }

  /** Every token is a non-empty word without whitespace. */
  lemma {:induction false} TokensAreWords(s: string)
    ensures forall k :: 0 <= k < |Tokens(s)| ==> Tokens(s)[k] != [] && NoSpace(Tokens(s)[k])
    decreases |s|
  {
    if s != [] {
      if IsSpace(s[0]) {
        TokensAreWords(s[1..]);
      } else {
        var w := Word(s);
        WordNoSpace(s);
        TokensAreWords(s[|w|..]);
        assert Tokens(s) == [w] + Tokens(s[|w|..]);
      }
    }
  }

  /** QStringList::join. */
  function Join(ts: seq<string>, sep: string): string
  {
    if ts == [] then []
    else if |ts| == 1 then ts[0]
    else ts[0] + sep + Join(ts[1..], sep)
  }

  /** Splitting words joined by single spaces gives the words back: the mesh
      name written after "solid" is read back as the same name. */
  lemma {:induction false} TokensOfJoin(ws: seq<string>)
    requires forall k :: 0 <= k < |ws| ==> ws[k] != [] && NoSpace(ws[k])
    ensures Tokens(Join(ws, " ")) == ws
  {
    if |ws| == 1 {
      TokensOfWord(ws[0], []);
      assert ws[0] + [] == ws[0];
    } else if |ws| > 1 {
      TokensOfJoin(ws[1..]);
      var rest := Join(ws[1..], " ");
      assert Join(ws, " ") == ws[0] + (" " + rest);
      TokensOfWord(ws[0], " " + rest);
      assert (" " + rest)[1..] == rest;
    }
  }

  /** A word followed by nothing or by whitespace is the first token. */
  lemma {:induction false} TokensOfWord(w: string, rest: string)
    requires w != [] && NoSpace(w)
    requires rest == [] || IsSpace(rest[0])
    ensures Tokens(w + rest) == [w] + Tokens(rest)
  {
    WordOf(w, rest);
    assert (w + rest)[|w|..] == rest;
  }

  lemma {:induction false} WordOf(w: string, rest: string)
    requires NoSpace(w)
    requires rest == [] || IsSpace(rest[0])
    ensures Word(w + rest) == w
  {
    if w != [] {
      assert (w + rest)[1..] == w[1..] + rest;
      WordOf(w[1..], rest);
    } else {
      assert w + rest == rest;
    }
  }

  /** The Latin-1 reading of a byte. */
  function Latin1Char(b: byte): char
  {
    b as char
  }

  function Latin1(bs: seq<byte>): (s: string)
    ensures |s| == |bs|
    ensures forall i :: 0 <= i < |bs| ==> s[i] == Latin1Char(bs[i])
  {
    seq(|bs|, i requires 0 <= i < |bs| => Latin1Char(bs[i]))
  }

  /** Index of the first newline of s, or |s| when there is none. */
  function LineEnd(s: string): (k: nat)
    ensures k <= |s|
    ensures k < |s| ==> s[k] == '\n'
    ensures forall i :: 0 <= i < k ==> s[i] != '\n'
  {
    if s == [] || s[0] == '\n' then 0 else 1 + LineEnd(s[1..])
  }

  /** A line without its "\r" terminator, if it had one. */
  function StripCR(s: string): string
  {
    if s != [] && s[|s| - 1] == '\r' then s[..|s| - 1] else s
  }

  /** The successive results of QTextStream::readLine on s: split at "\n",
      a "\r" before the split point dropped, and no final empty line after a
      trailing "\n". */
  function Lines(s: string): (ls: seq<string>)
    ensures forall k :: 0 <= k < |ls| ==> forall i :: 0 <= i < |ls[k]| ==> ls[k][i] != '\n'
    decreases |s|
  {
    if s == [] then []
    else
      var k := LineEnd(s);
      [StripCR(s[..k])] + (if k < |s| then Lines(s[k + 1..]) else [])
  }

  /** QTextStream::readLine at line index pos: past the end it returns a null
      string, which is empty. */
  function LineAt(lines: seq<string>, pos: nat): string
  {
    if pos < |lines| then lines[pos] else ""
  }

  /** The stream position after one readLine. */
  function Next(lines: seq<string>, pos: nat): nat
  {
    if pos < |lines| then pos + 1 else pos
  }
}
