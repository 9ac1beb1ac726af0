/** The format test at the start of loadFile (lines 330-367): a file of
    fewer than 80 bytes is refused; otherwise it is binary unless its header,
    read as text, starts with "solid" (after trimming, in any case), and even
    then it is ASCII only when its second line starts with "facet". */
module Sniffer {
  import opened StlBase
  import opened Text
  import opened Writers
  import WriterLaws
  import BinaryReader

  /** What the test decides: the file is refused with an error code, or
      read as ASCII (true) or binary (false). */
  datatype Detection = Refused(error: FileError) | Detected(ascii: bool)

  /** QString(const char*): the bytes up to the first NUL, as Latin-1. */
  function CString(bs: seq<byte>): (s: string)
    ensures |s| <= |bs|
  {
    if bs == [] || bs[0] == 0 then [] else [Latin1Char(bs[0])] + CString(bs[1..])
  }

  /** Lines 341-363 once the header text is known: not "solid", binary;
      otherwise ASCII exactly when the second line read from the start of the
      file is non-empty and starts with "facet". */
  predicate Classify(file: seq<byte>, header: string)
  {
    && KeywordLine(header, "SOLID")
    && var line := LineAt(Lines(Latin1(file)), 1);
       line != [] && KeywordLine(line, "FACET")
  }

  /** The test with the header text ending at the 80th byte at the latest. */
  function Sniff(file: seq<byte>): (d: Detection)
    ensures d.Refused? <==> |file| < BinaryReader.HeaderSize
    ensures d.Refused? ==> (d.error == Reading <==> file == [])
  {
    if |file| < BinaryReader.HeaderSize then Refused(if |file| == 0 then Reading else MalformedFile)
    else Detected(Classify(file, CString(file[..BinaryReader.HeaderSize])))
  }

  /** The test as written (lines 335 and 343): the 80-byte buffer has no
      room for a terminator, so when the header holds no NUL the text goes on
      into whatever follows the buffer in memory, given here as `beyond`. */
  function SniffAsWritten(file: seq<byte>, beyond: seq<byte>): (d: Detection)
    ensures d.Refused? <==> |file| < BinaryReader.HeaderSize
    ensures d.Refused? ==> (d.error == Reading <==> file == [])
  {
    if |file| < BinaryReader.HeaderSize then Refused(if |file| == 0 then Reading else MalformedFile)
    else Detected(Classify(file, CString(file[..BinaryReader.HeaderSize] + beyond)))
  }

  // ---------------------------------------------------------------------
  // Text facts

  /** The text of a C string is made of the bytes before its terminator. */
  lemma {:induction false} CStringWithin(bs: seq<byte>)
    ensures CString(bs) == Latin1(bs[..|CString(bs)|])
    ensures |CString(bs)| < |bs| ==> bs[|CString(bs)|] == 0
    ensures forall i :: 0 <= i < |CString(bs)| ==> bs[i] != 0
  {
    if bs != [] && bs[0] != 0 {
      CStringWithin(bs[1..]);
      var s := CString(bs);
      assert s == [Latin1Char(bs[0])] + CString(bs[1..]);
      assert bs[..|s|] == [bs[0]] + bs[1..][..|s| - 1];
      forall i | 0 <= i < |s|
        ensures bs[i] != 0
      {
        if i > 0 {
          assert bs[i] == bs[1..][i - 1];
        }
      }
    }
  }

  /** Bytes without a NUL are read up to their end. */
  lemma {:induction false} CStringWhole(bs: seq<byte>, rest: seq<byte>)
    requires forall i :: 0 <= i < |bs| ==> bs[i] != 0
    ensures CString(bs + rest) == Latin1(bs) + CString(rest)
  {
    if bs != [] {
      assert (bs + rest)[1..] == bs[1..] + rest;
      CStringWhole(bs[1..], rest);
      assert Latin1(bs) == [Latin1Char(bs[0])] + Latin1(bs[1..]);
    } else {
      assert bs + rest == rest;
    }
  }

  lemma {:induction false} UpperPrefix(s: string, k: nat)
    requires k <= |s|
    ensures Upper(s)[..k] == Upper(s[..k])
  {
    if k > 0 {
      UpperPrefix(s[1..], k - 1);
      assert s[..k][1..] == s[1..][..k - 1];
    }
  }

  /** Trimming the end keeps every character up to the last non-space. */
  lemma {:induction false} TrimEndKeeps(s: string, i: nat)
    requires i < |s| && !IsSpace(s[i])
    ensures i < |TrimEnd(s)| && TrimEnd(s)[..i + 1] == s[..i + 1]
    decreases |s|
  {
    if IsSpace(s[|s| - 1]) {
      TrimEndKeeps(s[..|s| - 1], i);
    }
  }

  /** A line that starts with a word spelling the keyword, in any case,
      passes the keyword test. */
  lemma KeywordAtStart(line: string, keyword: string)
    requires 0 < |keyword| <= |line| && !IsSpace(line[0]) && !IsSpace(line[|keyword| - 1])
    requires Upper(line[..|keyword|]) == keyword
    ensures KeywordLine(line, keyword)
  {
    var k := |keyword|;
    TrimEndKeeps(line, k - 1);
    assert Trim(line) == TrimEnd(line);
    UpperPrefix(TrimEnd(line), k);
    assert TrimEnd(line)[..k] == line[..k];
  }

  /** A line that starts with a non-space character other than the
      keyword's first letter fails the keyword test. */
  lemma KeywordNotAtStart(line: string, keyword: string)
    requires 0 < |keyword| && 0 < |line| && !IsSpace(line[0]) && UpperChar(line[0]) != keyword[0]
    ensures !KeywordLine(line, keyword)
  {
    TrimEndKeeps(line, 0);
    assert Trim(line) == TrimEnd(line);
    UpperPrefix(TrimEnd(line), 1);
  }

  /** A line followed by a newline is the first line read. */
  lemma LinesHead(line: string, rest: string)
    requires '\n' !in line
    ensures Lines(line + "\n" + rest) == [StripCR(line)] + Lines(rest)
  {
    var s := line + "\n" + rest;
    assert s == line + ("\n" + rest);
    LineEndAt(line, "\n" + rest);
    var k := LineEnd(s);
    assert k == |line| < |s|;
    assert Lines(s) == [StripCR(s[..k])] + Lines(s[k + 1..]);
    assert s[..k] == line;
    assert s[k + 1..] == rest;
  }

  lemma {:induction false} LineEndAt(line: string, rest: string)
    requires '\n' !in line && rest != [] && rest[0] == '\n'
    ensures LineEnd(line + rest) == |line|
  {
    if line != [] {
      assert (line + rest)[1..] == line[1..] + rest;
      LineEndAt(line[1..], rest);
    } else {
      assert line + rest == rest;
    }
  }

  /** Text whose characters are all Latin-1. */
  predicate Latin1Text(s: string)
  {
    forall i :: 0 <= i < |s| ==> s[i] as int < 256
  }

  /** The bytes of Latin-1 text. */
  function Encode(s: string): (bs: seq<byte>)
    requires Latin1Text(s)
    ensures |bs| == |s| && Latin1(bs) == s
  {
    seq(|s|, i requires 0 <= i < |s| => s[i] as int)
  }

  // ---------------------------------------------------------------------
  // What the test makes of the files the writers produce

  /** The binary writer's header starts with "Binary", so its files are
      always read back as binary. */
  lemma BinaryImageDetected(points: seq<Point>, triangles: seq<Triangle>, fmt: Format)
    requires Writable(points, triangles)
    ensures Sniff(BinaryImage(points, triangles, fmt)) == Detected(false)
  {
    var file := BinaryImage(points, triangles, fmt);
    BinaryHead(points, triangles, fmt);
    var bs := file[..BinaryReader.HeaderSize];
    assert bs[0] == 66;
    var header := CString(bs);
    assert header == [Latin1Char(66)] + CString(bs[1..]);
    KeywordNotAtStart(header, "SOLID");
  }

  /** The binary file starts with the 'B' of its header. */
  lemma BinaryHead(points: seq<Point>, triangles: seq<Triangle>, fmt: Format)
    requires Writable(points, triangles)
    ensures |BinaryImage(points, triangles, fmt)| >= BinaryReader.HeaderSize
    ensures BinaryImage(points, triangles, fmt)[0] == 66
  {
    var h := HeaderBytes();
    assert BinaryImage(points, triangles, fmt)[0] == h[0];
  }

  /** The ASCII writer's files, once they reach 80 bytes, are read back as
      ASCII: the first line is "solid <name>" and the second "facet normal
      ...". The name must not hold a line break, and the number rendering
      must not produce one. */
  lemma AsciiTextDetected(points: seq<Point>, shift: Point, triangles: seq<Triangle>, name: string, fmt: Format)
    requires Writable(points, triangles)
    requires '\n' !in name
    requires forall x :: '\n' !in fmt.formatE(x) && '\r' !in fmt.formatE(x)
    requires Latin1Text(AsciiText(points, shift, triangles, name, fmt))
    requires |AsciiText(points, shift, triangles, name, fmt)| >= BinaryReader.HeaderSize
    ensures Sniff(Encode(AsciiText(points, shift, triangles, name, fmt))) == Detected(true)
  {
    var text := AsciiText(points, shift, triangles, name, fmt);
    var file := Encode(text);
    var l1, rest := AsciiFirstLines(points, shift, triangles, name, fmt);
    SolidHeader(file);
    SecondLineFacet("solid " + name, l1, rest);
  }

  /** The ASCII file starts with the line "solid <name>" and a line
      "facet normal ..." free of line breaks. */
  lemma AsciiFirstLines(points: seq<Point>, shift: Point, triangles: seq<Triangle>, name: string, fmt: Format)
    returns (l1: string, rest: string)
    requires Writable(points, triangles)
    requires forall x :: '\n' !in fmt.formatE(x) && '\r' !in fmt.formatE(x)
    ensures AsciiText(points, shift, triangles, name, fmt) == ("solid " + name) + "\n" + (l1 + "\n" + rest)
    ensures |l1| >= 5 && l1[..5] == "facet" && '\n' !in l1 && '\r' !in l1
  {
    var ls := WriterLaws.AsciiLines(points, shift, triangles, name, fmt);
    WriterLaws.AsciiTextLines(points, shift, triangles, name, fmt);
    var t := triangles[0];
    var a, b, c := points[t.i1], points[t.i2], points[t.i3];
    l1 := "facet normal " + Numbers(FaceNormal(a, b, c), fmt);
    assert ls[0] == "solid " + name;
    assert ls[1] == l1 by {
      assert WriterLaws.AsciiFacetsLines(points, shift, triangles, fmt)[0]
          == WriterLaws.AsciiFacetLines(points, shift, t, fmt)[0];
    }
    WriterLaws.TerminatedUnfold(ls, 0);
    WriterLaws.TerminatedUnfold(ls, 1);
    assert ls[0..] == ls;
    rest := WriterLaws.Terminated(ls[2..]);
    NoBreak(FaceNormal(a, b, c), fmt);
  }

  /** A file of at least 80 bytes that starts with "solid" has a header
      that passes the "solid" test. */
  lemma SolidHeader(file: seq<byte>)
    requires |file| >= BinaryReader.HeaderSize
    requires Latin1(file)[..5] == "solid"
    ensures KeywordLine(CString(file[..BinaryReader.HeaderSize]), "SOLID")
  {
    var bs := file[..BinaryReader.HeaderSize];
    forall i | 0 <= i < 5
      ensures bs[i] != 0
    {
      assert Latin1(file)[i] == Latin1Char(file[i]);
    }
    CStringWhole(bs[..5], bs[5..]);
    assert bs == bs[..5] + bs[5..];
    var header := CString(bs);
    assert Latin1(bs[..5]) == "solid" by {
      forall i | 0 <= i < 5
        ensures Latin1(bs[..5])[i] == "solid"[i]
      {
        assert Latin1(file)[i] == Latin1Char(file[i]);
      }
    }
    assert header[..5] == "solid";
    UpperSolid();
    KeywordAtStart(header, "SOLID");
  }

  /** A text whose second line starts with "facet" has a second line that
      passes the "facet" test. */
  lemma SecondLineFacet(l0: string, l1: string, rest: string)
    requires '\n' !in l0 && '\n' !in l1 && '\r' !in l1
    requires |l1| >= 5 && l1[..5] == "facet"
    ensures var line := LineAt(Lines(l0 + "\n" + (l1 + "\n" + rest)), 1);
      line != [] && KeywordLine(line, "FACET")
  {
    LinesHead(l0, l1 + "\n" + rest);
    LinesHead(l1, rest);
    assert StripCR(l1) == l1 by {
      if l1 != [] {
        assert l1[|l1| - 1] in l1;
      }
    }
    UpperFacet();
    KeywordAtStart(l1, "FACET");
  }

  lemma UpperCons(c: char, s: string)
    ensures Upper([c] + s) == [UpperChar(c)] + Upper(s)
  {
    assert ([c] + s)[1..] == s;
  }

  lemma UpperSolid()
    ensures Upper("solid") == "SOLID"
  {
    UpperCons('d', "");
    UpperCons('i', "d");
    UpperCons('l', "id");
    UpperCons('o', "lid");
    UpperCons('s', "olid");
  }

  lemma UpperFacet()
    ensures Upper("facet") == "FACET"
  {
    UpperCons('t', "");
    UpperCons('e', "t");
    UpperCons('c', "et");
    UpperCons('a', "cet");
    UpperCons('f', "acet");
  }

  lemma NoBreak(p: Point, fmt: Format)
    requires forall x :: '\n' !in fmt.formatE(x) && '\r' !in fmt.formatE(x)
    ensures '\n' !in "facet normal " + Numbers(p, fmt)
    ensures '\r' !in "facet normal " + Numbers(p, fmt)
  {
    assert '\n' !in fmt.formatE(p.x) && '\n' !in fmt.formatE(p.y) && '\n' !in fmt.formatE(p.z);
    assert '\r' !in fmt.formatE(p.x) && '\r' !in fmt.formatE(p.y) && '\r' !in fmt.formatE(p.z);
  }

  // ---------------------------------------------------------------------
  // The header text (lines 335 and 343)

  /** Corrected, the header text is made of header bytes only: at most 80
      characters, all before the first NUL of the header. */
  lemma HeaderTextWithin(file: seq<byte>)
    requires |file| >= BinaryReader.HeaderSize
    ensures var header := CString(file[..BinaryReader.HeaderSize]);
      && |header| <= BinaryReader.HeaderSize
      && header == Latin1(file[..|header|])
  {
    var bs := file[..BinaryReader.HeaderSize];
    CStringWithin(bs);
    assert bs[..|CString(bs)|] == file[..|CString(bs)|];
  }

  function Spaces(n: nat): (bs: seq<byte>)
    ensures |bs| == n && forall i :: 0 <= i < n ==> bs[i] == 32
  {
    seq(n, i => 32)
  }

  lemma {:induction false} TrimStartBlank(a: string, b: string)
    requires Blank(a)
    ensures TrimStart(a + b) == TrimStart(b)
  {
    if a != [] {
      assert (a + b)[1..] == a[1..] + b;
      TrimStartBlank(a[1..], b);
    } else {
      assert a + b == b;
    }
  }

  /** A file of 80 spaces followed by the line "facet". */
  function BlankHeaderFile(): (file: seq<byte>)
    ensures |file| >= BinaryReader.HeaderSize
  {
    Spaces(BinaryReader.HeaderSize) + [10, 102, 97, 99, 101, 116, 10]
  }

  lemma {:induction false} Latin1Append(a: seq<byte>, b: seq<byte>)
    ensures Latin1(a + b) == Latin1(a) + Latin1(b)
  {
    assert forall i :: 0 <= i < |a + b| ==> (a + b)[i] == if i < |a| then a[i] else b[i - |a|];
  }

  /** The second line of that file passes the "facet" test. */
  lemma BlankHeaderFileLines()
    ensures var line := LineAt(Lines(Latin1(BlankHeaderFile())), 1);
      line != [] && KeywordLine(line, "FACET")
  {
    var blank := Latin1(Spaces(BinaryReader.HeaderSize));
    Latin1Append(Spaces(BinaryReader.HeaderSize), [10, 102, 97, 99, 101, 116, 10]);
    assert Latin1([10, 102, 97, 99, 101, 116, 10]) == "\n" + ("facet" + "\n" + "");
    assert Latin1(BlankHeaderFile()) == blank + "\n" + ("facet" + "\n" + "");
    assert '\n' !in blank by {
      forall i | 0 <= i < |blank| ensures blank[i] != '\n' {
        assert blank[i] == Latin1Char(32);
      }
    }
    SecondLineFacet(blank, "facet", "");
  }

  /** Spaces read as text are blank, whatever follows them. */
  lemma BlankTrim(rest: string)
    ensures var blank := Latin1(Spaces(BinaryReader.HeaderSize));
      Blank(blank) && Trim(blank + rest) == Trim(rest)
  {
    var blank := Latin1(Spaces(BinaryReader.HeaderSize));
    assert Blank(blank) by {
      forall i | 0 <= i < |blank| ensures IsSpace(blank[i]) {
        assert blank[i] == Latin1Char(32);
      }
    }
    TrimStartBlank(blank, rest);
  }

  /** Read up to the end of the buffer, blank header text fails the
      "solid" test. */
  lemma BlankHeaderRejected()
    ensures !KeywordLine(CString(Spaces(BinaryReader.HeaderSize)), "SOLID")
  {
    var spaces := Spaces(BinaryReader.HeaderSize);
    CStringWhole(spaces, []);
    BlankTrim("");
    assert spaces + [] == spaces;
    assert CString(spaces) == Latin1(spaces) + "";
    assert Trim(CString(spaces)) == "";
    assert Upper("") == "";
  }

  /** Read on past the buffer into "solid", the same header passes it. */
  lemma BlankHeaderOverrun()
    ensures KeywordLine(CString(Spaces(BinaryReader.HeaderSize) + [115, 111, 108, 105, 100, 0]), "SOLID")
  {
    var spaces := Spaces(BinaryReader.HeaderSize);
    var word: seq<byte> := [115, 111, 108, 105, 100];
    CStringWhole(spaces, word + [0]);
    CStringWhole(word, [0]);
    assert Latin1(word) == "solid";
    assert CString([0]) == "";
    assert spaces + [115, 111, 108, 105, 100, 0] == spaces + (word + [0]);
    var header := CString(spaces + [115, 111, 108, 105, 100, 0]);
    assert header == Latin1(spaces) + "solid";
    BlankTrim("solid");
    assert TrimStart("solid") == "solid";
    assert TrimEnd("solid") == "solid";
    assert Trim(header) == "solid";
    UpperSolid();
    assert Upper(Trim(header)) == "SOLID";
  }

  /** As written, a file whose 80-byte header is all spaces, followed by a
      line "facet", is read as ASCII when the memory after the header buffer
      happens to hold "solid" and a NUL, although the header itself is
      blank; corrected, it is binary. */
  lemma HeaderOverrun()
    ensures SniffAsWritten(BlankHeaderFile(), [115, 111, 108, 105, 100, 0]) == Detected(true)
    ensures Sniff(BlankHeaderFile()) == Detected(false)
  {
    var file := BlankHeaderFile();
    assert file[..BinaryReader.HeaderSize] == Spaces(BinaryReader.HeaderSize);
    BlankHeaderFileLines();
    BlankHeaderOverrun();
    BlankHeaderRejected();
  }
}
