/**
  Cases of the test table of main.c (`test_parser_output`), each a compact
  print: the longest zero run becomes `::`, also at either end.
*/
module TextExamples {
  import opened Digits
  import opened Lexer
  import opened TextAddr
  import opened TextParser
  import opened ParseLaws
  import opened TextPrinter
  import opened TextRoundTrip

  /** 0:0:0:0:0:0:0:1 prints as ::1. */
  lemma PrintLoopback()
    ensures Print(V6Addr([0, 0, 0, 0, 0, 0, 0, 1], 128), true) == "::1"
  {
    var g := [0, 0, 0, 0, 0, 0, 0, 1];
    ScanLongest(g);
    LongestAt(g, 0, 6);
    assert HexString(1) == "1";
    assert HexStrings(g[7..]) == ["1"];
  }

  /** 1:0:0:0:0:0:0:0 prints as 1::. */
  lemma PrintLeading()
    ensures Print(V6Addr([1, 0, 0, 0, 0, 0, 0, 0], 128), true) == "1::"
  {
    var g := [1, 0, 0, 0, 0, 0, 0, 0];
    ScanLongest(g);
    LongestAt(g, 1, 6);
    assert HexString(1) == "1";
    assert HexStrings(g[..1]) == ["1"];
  }

  /** Of two runs of two zero groups the leftmost is compressed: 1:0:0:1:0:0:1:1 prints as 1::1:0:0:1:1. */
  lemma PrintLeftmost()
    ensures Print(V6Addr([1, 0, 0, 1, 0, 0, 1, 1], 128), true) == "1::" + Join(["1", "0", "0", "1", "1"])
  {
    var g := [1, 0, 0, 1, 0, 0, 1, 1];
    ScanLongest(g);
    LongestAt(g, 1, 1);
    assert HexString(1) == "1" && HexString(0) == "0";
    assert HexStrings(g[..1]) == ["1"];
    assert HexStrings(g[3..8]) == ["1", "0", "0", "1", "1"];
    assert BlockPart(g, 1, false) == "1";
    assert BlockPart(g, 5, true) == Join(["1", "0", "0", "1", "1"]);
  }

  /**
    100::1: the first block is read as the decimal 100 and, at the colon,
    turned back into the hexadecimal group 0x100; the address prints as it
    was written.
  */
  lemma ParseHundred(left: seq<string>, right: seq<string>)
    requires left == ["100"] && right == ["1"]
    ensures Lexed(Lex(Join(left) + "::" + Join(right)))
    ensures Parse(Lex(Join(left) + "::" + Join(right))).Parsed?
    ensures Parse(Lex(Join(left) + "::" + Join(right))).addr == V6Addr([0x100, 0, 0, 0, 0, 0, 0, 1], 128)
  {
    var toks := CompressedToks(left, right) + [Token(Eof, "")];
    assert Groups(left) && Groups(right);
    assert Lex(Join(left) + "::" + Join(right)) == toks by {
      LexCompressed(left, right);
    }
    assert Lexed(toks) && Parse(toks).Parsed? && Parse(toks).addr == V6Addr([0x100, 0, 0, 0, 0, 0, 0, 1], 128) by {
      ParseCompressed(left, right, [Token(Eof, "")], true);
      HundredValues(left, right);
    }
  }

  lemma HundredValues(left: seq<string>, right: seq<string>)
    requires left == ["100"] && right == ["1"]
    ensures Groups(left) && Groups(right)
    ensures HexValues(left) + Zeros(6) + HexValues(right) == [0x100, 0, 0, 0, 0, 0, 0, 1]
  {
    assert HexValue("1") == 1;
    assert HexValue("10") == 16;
    assert HexValue("100") == 0x100 by {
      assert "100"[..2] == "10" && "10"[..1] == "1";
    }
  }

  /** The group 0x100 prints as 100 again: 100::1 is its own compact form. */
  lemma PrintHundred()
    ensures Print(V6Addr([0x100, 0, 0, 0, 0, 0, 0, 1], 128), true) == "100::1"
  {
    var g := [0x100, 0, 0, 0, 0, 0, 0, 1];
    ScanLongest(g);
    LongestAt(g, 1, 5);
    assert HexString(1) == "1";
    assert HexStrings(g[..1]) == [HexString(0x100)];
    assert HexStrings(g[7..8]) == ["1"];
    assert BlockPart(g, 1, false) == HexString(0x100);
    assert BlockPart(g, 1, true) == "1";
    assert HexString(0x100) == "100" by {
      assert HexString(1) == "1" && HexString(16) == "10";
    }
  }

  /** The run found is the one given, when it is a longest run. */
  lemma LongestAt(g: seq<nat>, mb: nat, mn: nat)
    requires |g| == 8 && Longest(g, 8, mb, mn)
    ensures Scan(g) == (mb, mn)
  {
    ScanLongest(g);
    LongestUnique(g, 8, Scan(g).0, Scan(g).1, mb, mn);
  }

  /** The first case of the test table: 2001:0db8:85a3:0000:0000:8a2e:0370:7334 reads as these eight groups. */
  lemma ParseDocumentation(hs: seq<string>)
    requires hs == ["2001", "0db8", "85a3", "0000", "0000", "8a2e", "0370", "7334"]
    ensures Lexed(Lex(Join(hs)))
    ensures Parse(Lex(Join(hs))) == Parsed(V6Addr([0x2001, 0xdb8, 0x85a3, 0, 0, 0x8a2e, 0x370, 0x7334], 128), 16)
  {
    DocValues(hs);
    LexFull(hs);
    ParseFull(hs, [Token(Eof, "")], true);
  }

  lemma DocValues(hs: seq<string>)
    requires hs == ["2001", "0db8", "85a3", "0000", "0000", "8a2e", "0370", "7334"]
    ensures Groups(hs)
    ensures HexValues(hs) == [0x2001, 0xdb8, 0x85a3, 0, 0, 0x8a2e, 0x370, 0x7334]
  {
    assert Groups(hs);
    forall i | 0 <= i < 8
      ensures HexValue(hs[i]) == HexDigitValue(hs[i][0]) * 4096 + HexDigitValue(hs[i][1]) * 256 + HexDigitValue(hs[i][2]) * 16 + HexDigitValue(hs[i][3])
    {
      HexValueOfFour(hs[i]);
    }
  }

  /** The value of a four-digit hexadecimal numeral, digit by digit. */
  lemma HexValueOfFour(s: string)
    requires |s| == 4 && AllHex(s)
    ensures HexValue(s) == HexDigitValue(s[0]) * 4096 + HexDigitValue(s[1]) * 256 + HexDigitValue(s[2]) * 16 + HexDigitValue(s[3])
  {
    assert s[..3][..2] == s[..2] && s[..2][..1] == s[..1] && s[..1][..0] == [];
    assert HexValue(s[..1]) == HexDigitValue(s[0]);
    assert HexValue(s[..2]) == HexValue(s[..1]) * 16 + HexDigitValue(s[1]);
    assert HexValue(s[..3]) == HexValue(s[..2]) * 16 + HexDigitValue(s[2]);
    assert HexValue(s) == HexValue(s[..3]) * 16 + HexDigitValue(s[3]);
  }

  /** The same address prints compactly as 2001:db8:85a3::8a2e:370:7334: no leading zeros, and the two zero groups as `::`. */
  lemma PrintDocumentation()
    ensures Print(V6Addr([0x2001, 0xdb8, 0x85a3, 0, 0, 0x8a2e, 0x370, 0x7334], 128), true)
      == Join(["2001", "db8", "85a3"]) + "::" + Join(["8a2e", "370", "7334"])
  {
    var g := [0x2001, 0xdb8, 0x85a3, 0, 0, 0x8a2e, 0x370, 0x7334];
    ScanLongest(g);
    LongestAt(g, 3, 1);
    DocParts(g);
  }

  /** The three groups either side of the zero run, in `%x`. */
  lemma DocParts(g: seq<nat>)
    requires g == [0x2001, 0xdb8, 0x85a3, 0, 0, 0x8a2e, 0x370, 0x7334]
    ensures BlockPart(g, 3, false) == Join(["2001", "db8", "85a3"])
    ensures BlockPart(g, 3, true) == Join(["8a2e", "370", "7334"])
  {
    HexLiterals();
    assert HexStrings(g[..3]) == ["2001", "db8", "85a3"];
    assert HexStrings(g[5..8]) == ["8a2e", "370", "7334"];
  }

  lemma HexLiterals()
    ensures HexString(0x2001) == "2001" && HexString(0xdb8) == "db8" && HexString(0x85a3) == "85a3"
    ensures HexString(0x8a2e) == "8a2e" && HexString(0x370) == "370" && HexString(0x7334) == "7334"
  {
    assert HexString(2) == "2" && HexString(0x20) == "20" && HexString(0x200) == "200";
    assert HexString(0xd) == "d" && HexString(0xdb) == "db";
    assert HexString(8) == "8" && HexString(0x85) == "85" && HexString(0x85a) == "85a";
    assert HexString(0x8a) == "8a" && HexString(0x8a2) == "8a2";
    assert HexString(3) == "3" && HexString(0x37) == "37";
    assert HexString(7) == "7" && HexString(0x73) == "73" && HexString(0x733) == "733";
  }
}
