/**
  Printing and reading back in the prototype of main.c: the text that
  `s_print_addr` writes for an address with a full-length prefix lexes
  and parses to the same address, in compact and in normal mode. A
  shorter prefix does not read back, because `parse` has no `/cidr`.
*/
module TextRoundTrip {
  import opened Arith
  import opened Digits
  import opened Lexer
  import opened TextAddr
  import opened TextParser
  import opened ParseLaws
  import opened DottedLaws
  import opened TextPrinter

  /** Groups joined by colons lex as their numbers separated by colon tokens. */
  lemma {:induction false} LexJoin(hs: seq<string>, rest: string)
    requires Groups(hs)
    requires |rest| == 0 || ClassOf(rest[0]) != UInt
    ensures Lex(Join(hs) + rest) == GroupToks(hs) + Lex(rest)
  {
    if |hs| == 0 {
      assert Join(hs) + rest == rest;
    } else if |hs| == 1 {
      LexNumber(hs[0], rest);
    } else {
      assert Groups(hs[1..]) by {
        assert forall i :: 0 <= i < |hs[1..]| ==> hs[1..][i] == hs[i + 1];
      }
      LexJoin(hs[1..], rest);
      LexJoinCons(hs, rest);
    }
  }

  /** The inductive step of LexJoin: the first group and its colon in front of the rest. */
  lemma LexJoinCons(hs: seq<string>, rest: string)
    requires |hs| >= 2 && Group(hs[0]) && Groups(hs[1..])
    requires Lex(Join(hs[1..]) + rest) == GroupToks(hs[1..]) + Lex(rest)
    ensures Lex(Join(hs) + rest) == GroupToks(hs) + Lex(rest)
  {
    var tail := Join(hs[1..]) + rest;
    JoinCons(hs, rest);
    LexNumber(hs[0], [':'] + tail);
    LexSingle(':', tail);
    ConsTwo(Token(UInt, hs[0]), Token(Colon, ":"), GroupToks(hs[1..]), Lex(rest));
  }

  /** Joining two or more groups, then more text: the first group, a colon, and the rest joined. */
  lemma JoinCons(hs: seq<string>, rest: string)
    requires |hs| >= 2
    ensures Join(hs) + rest == hs[0] + ([':'] + (Join(hs[1..]) + rest))
  {
  }

  lemma Assoc<T>(a: seq<T>, b: seq<T>, c: seq<T>)
    ensures a + (b + c) == (a + b) + c
  {
  }

  /** Two tokens in front of a concatenation, regrouped. */
  lemma ConsTwo(x: Token, y: Token, d: seq<Token>, e: seq<Token>)
    ensures [x] + ([y] + (d + e)) == ([x, y] + d) + e
  {
  }

  /** The text of eight groups lexes as the groups and colons. */
  lemma LexFull(hs: seq<string>)
    requires Groups(hs)
    ensures Lex(Join(hs)) == GroupToks(hs) + [Token(Eof, "")]
  {
    LexJoin(hs, "");
    assert Join(hs) + "" == Join(hs);
  }

  /** The text of left `::` right lexes as the tokens the parser reads for it. */
  lemma LexCompressed(left: seq<string>, right: seq<string>)
    requires Groups(left) && Groups(right)
    ensures Lex(Join(left) + "::" + Join(right)) == CompressedToks(left, right) + [Token(Eof, "")]
  {
    var r := Join(right);
    var t2 := [':'] + r;
    LexFull(right);
    LexSingle(':', r);
    LexSingle(':', t2);
    LexJoin(left, [':'] + t2);
    DoubleColonText(Join(left), r);
    DoubleColonToks(GroupToks(left), GroupToks(right), [Token(Eof, "")]);
  }

  lemma DoubleColonText(l: string, r: string)
    ensures l + "::" + r == l + ([':'] + ([':'] + r))
  {
  }

  lemma DoubleColonToks(l: seq<Token>, r: seq<Token>, e: seq<Token>)
    ensures l + ([Token(Colon, ":")] + ([Token(Colon, ":")] + (r + e))) == l + [Token(Colon, ":"), Token(Colon, ":")] + r + e
  {
  }

  /** `%x` of a 16-bit group is a group the parser accepts, and it reads back as the number. */
  lemma HexGroups(g: seq<nat>)
    requires forall i :: 0 <= i < |g| ==> g[i] < 0x1_0000
    ensures Groups(HexStrings(g)) && HexValues(HexStrings(g)) == g
  {
    assert Pow(16, 4) == 0x1_0000 by {
      assert Pow(16, 1) == 16;
    }
    forall i | 0 <= i < |g|
      ensures Group(HexStrings(g)[i]) && HexValue(HexStrings(g)[i]) == g[i]
    {
      HexStringShort(g[i], 4);
      HexRoundTrip(g[i]);
    }
  }

  /** An IPv6 address with prefix 128, printed in either mode, reads back as itself. */
  lemma RoundTripV6(g: seq<nat>, compact: bool, checked: bool)
    requires Valid(V6Addr(g, 128))
    ensures Lexed(Lex(Print(V6Addr(g, 128), compact)))
    ensures ReadNext(Lex(Print(V6Addr(g, 128), compact)), 0, Init, Start, checked).Parsed?
    ensures ReadNext(Lex(Print(V6Addr(g, 128), compact)), 0, Init, Start, checked).addr == V6Addr(g, 128)
  {
    var a := V6Addr(g, 128);
    LexNumbers(Print(a, compact));
    ScanLongest(g);
    var (mb, mn) := Scan(g);
    PrintV6(g, 128, compact, mb, mn);
    assert Suffix(128, 128) == "";
    if compact && mn > 0 {
      RoundTripCompressed(g, mb, mn, checked);
      assert Print(a, compact) == Join(HexStrings(g[..mb])) + "::" + Join(HexStrings(g[mb + mn + 1..]));
    } else {
      HexGroups(g);
      LexFull(HexStrings(g));
      ParseFull(HexStrings(g), [Token(Eof, "")], checked);
      assert Print(a, compact) == Join(HexStrings(g));
    }
  }

  lemma RoundTripCompressed(g: seq<nat>, mb: nat, mn: nat, checked: bool)
    requires Valid(V6Addr(g, 128)) && mn > 0 && mb + mn + 1 <= 8 && ZeroRun(g, mb, mn + 1)
    ensures Lexed(Lex(Join(HexStrings(g[..mb])) + "::" + Join(HexStrings(g[mb + mn + 1..]))))
    ensures ReadNext(Lex(Join(HexStrings(g[..mb])) + "::" + Join(HexStrings(g[mb + mn + 1..]))), 0, Init, Start, checked).Parsed?
    ensures ReadNext(Lex(Join(HexStrings(g[..mb])) + "::" + Join(HexStrings(g[mb + mn + 1..]))), 0, Init, Start, checked).addr
      == V6Addr(g, 128)
  {
    CompressedGroups(g, mb, mn);
    CompressedReadsBack(HexStrings(g[..mb]), HexStrings(g[mb + mn + 1..]), checked);
  }

  /** The text left `::` right lexes and parses as the groups of left, zeros, and the groups of right. */
  lemma CompressedReadsBack(left: seq<string>, right: seq<string>, checked: bool)
    requires Groups(left) && Groups(right) && |left| + |right| <= 7
    ensures Lexed(Lex(Join(left) + "::" + Join(right)))
    ensures ReadNext(Lex(Join(left) + "::" + Join(right)), 0, Init, Start, checked).Parsed?
    ensures ReadNext(Lex(Join(left) + "::" + Join(right)), 0, Init, Start, checked).addr
      == V6Addr(HexValues(left) + Zeros(8 - |left| - |right|) + HexValues(right), 128)
  {
    LexCompressed(left, right);
    ParseCompressed(left, right, [Token(Eof, "")], checked);
  }

  /** The groups either side of a run of zeros, in `%x`, read back around the run. */
  lemma CompressedGroups(g: seq<nat>, mb: nat, mn: nat)
    requires Valid(V6Addr(g, 128)) && mn > 0 && mb + mn + 1 <= 8 && ZeroRun(g, mb, mn + 1)
    ensures Groups(HexStrings(g[..mb])) && Groups(HexStrings(g[mb + mn + 1..]))
    ensures |HexStrings(g[..mb])| <= 7 && |HexStrings(g[mb + mn + 1..])| <= 7
    ensures |HexStrings(g[..mb])| + |HexStrings(g[mb + mn + 1..])| <= 7
    ensures HexValues(HexStrings(g[..mb])) + Zeros(mn + 1) + HexValues(HexStrings(g[mb + mn + 1..])) == g
  {
    var e := mb + mn + 1;
    HexGroups(g[..mb]);
    HexGroups(g[e..]);
    assert g[mb..e] == Zeros(mn + 1);
    assert g == g[..mb] + g[mb..e] + g[e..];
  }

  /** `%u` of an octet is a block the parser takes as an octet, and it reads back as the number. */
  lemma DecOctets(os: seq<nat>)
    requires |os| == 4 && forall i :: 0 <= i < 4 ==> os[i] < 256
    ensures forall i :: 0 <= i < 4 ==> Octet(DecString(os[i])) && DecValue(DecString(os[i])) == os[i]
  {
    assert Pow(10, 3) == 1000 by {
      assert Pow(10, 1) == 10;
    }
    forall i | 0 <= i < 4
      ensures Octet(DecString(os[i])) && DecValue(DecString(os[i])) == os[i]
    {
      DecStringShort(os[i], 3);
      DecRoundTrip(os[i]);
    }
  }

  /** A number and a dot lex as their two tokens, whatever follows. */
  lemma LexNumberDot(d: string, rest: string)
    requires Number(d) && |d| <= 4
    ensures Lex(d + (['.'] + rest)) == [Token(UInt, d), Token(Dot, ".")] + Lex(rest)
  {
    LexNumber(d, ['.'] + rest);
    LexSingle('.', rest);
  }

  /** Numbers joined by dots, and their tokens: the shape of a dotted quad. */
  function DotJoin(ds: seq<string>): string
  {
    if |ds| == 0 then "" else if |ds| == 1 then ds[0] else ds[0] + "." + DotJoin(ds[1..])
  }
  function DotToks(ds: seq<string>): seq<Token>
  {
    if |ds| == 0 then [] else if |ds| == 1 then [Token(UInt, ds[0])] else [Token(UInt, ds[0]), Token(Dot, ".")] + DotToks(ds[1..])
  }
  /** Numbers joined by dots lex as the numbers separated by dot tokens. */
  lemma {:induction false} LexDotJoin(ds: seq<string>, rest: string)
    requires forall i :: 0 <= i < |ds| ==> Number(ds[i]) && |ds[i]| <= 4
    requires |rest| == 0 || ClassOf(rest[0]) != UInt
    ensures Lex(DotJoin(ds) + rest) == DotToks(ds) + Lex(rest)
  {
    if |ds| == 0 {
      assert DotJoin(ds) + rest == rest;
    } else if |ds| == 1 {
      LexNumber(ds[0], rest);
    } else {
      assert forall i :: 0 <= i < |ds[1..]| ==> ds[1..][i] == ds[i + 1];
      LexDotJoin(ds[1..], rest);
      LexDotJoinCons(ds, rest);
    }
  }

  /** The inductive step of LexDotJoin: the first number and its dot in front of the rest. */
  lemma LexDotJoinCons(ds: seq<string>, rest: string)
    requires |ds| >= 2 && Number(ds[0]) && |ds[0]| <= 4
    requires Lex(DotJoin(ds[1..]) + rest) == DotToks(ds[1..]) + Lex(rest)
    ensures Lex(DotJoin(ds) + rest) == DotToks(ds) + Lex(rest)
  {
    var tail := DotJoin(ds[1..]) + rest;
    DotJoinCons(ds, rest);
    LexNumberDot(ds[0], tail);
    Assoc([Token(UInt, ds[0]), Token(Dot, ".")], DotToks(ds[1..]), Lex(rest));
  }

  lemma DotJoinCons(ds: seq<string>, rest: string)
    requires |ds| >= 2
    ensures DotJoin(ds) + rest == ds[0] + (['.'] + (DotJoin(ds[1..]) + rest))
  {
  }

  lemma DotJoinQuad(d0: string, d1: string, d2: string, d3: string)
    ensures DotJoin([d0, d1, d2, d3]) == d0 + "." + d1 + "." + d2 + "." + d3
  {
    var ds := [d0, d1, d2, d3];
    assert ds[1..] == [d1, d2, d3] && ds[1..][1..] == [d2, d3] && ds[1..][1..][1..] == [d3];
    assert DotJoin([d2, d3]) == d2 + "." + d3;
    assert DotJoin([d1, d2, d3]) == d1 + "." + (d2 + "." + d3);
  }

  lemma DotToksQuad(d0: string, d1: string, d2: string, d3: string)
    ensures DotToks([d0, d1, d2, d3]) == DottedToks([d0, d1, d2, d3])
  {
    var ds := [d0, d1, d2, d3];
    assert ds[1..] == [d1, d2, d3] && ds[1..][1..] == [d2, d3] && ds[1..][1..][1..] == [d3];
    assert DotToks([d3]) == [Token(UInt, d3)];
    assert DotToks([d2, d3]) == [Token(UInt, d2), Token(Dot, ".")] + DotToks([d3]);
    assert DotToks([d1, d2, d3]) == [Token(UInt, d1), Token(Dot, ".")] + DotToks([d2, d3]);
  }

  /** The dotted quad of `%hhu` octets lexes as its four numbers and three dots. */
  lemma LexDotted(os: seq<nat>)
    requires |os| == 4 && forall i :: 0 <= i < 4 ==> os[i] < 256
    ensures Lex(Dotted(os)) == DottedToks([DecString(os[0]), DecString(os[1]), DecString(os[2]), DecString(os[3])]) + [Token(Eof, "")]
  {
    DecOctets(os);
    DecIsHex(DecString(os[0]));
    DecIsHex(DecString(os[1]));
    DecIsHex(DecString(os[2]));
    DecIsHex(DecString(os[3]));
    var ds := [DecString(os[0]), DecString(os[1]), DecString(os[2]), DecString(os[3])];
    LexDotJoin(ds, "");
    assert DotJoin(ds) + "" == DotJoin(ds);
    DotJoinQuad(ds[0], ds[1], ds[2], ds[3]);
    DotToksQuad(ds[0], ds[1], ds[2], ds[3]);
  }

  /** An IPv4 address with prefix 32 reads back as itself. */
  lemma RoundTripV4(os: seq<nat>, compact: bool, checked: bool)
    requires Valid(V4Addr(os, 32))
    ensures Lexed(Lex(Print(V4Addr(os, 32), compact)))
    ensures ReadNext(Lex(Print(V4Addr(os, 32), compact)), 0, Init, Start, checked) == Parsed(V4Addr(os, 32), 8)
  {
    var ds := [DecString(os[0]), DecString(os[1]), DecString(os[2]), DecString(os[3])];
    var toks := DottedToks(ds) + [Token(Eof, "")];
    assert Print(V4Addr(os, 32), compact) == Dotted(os);
    assert Lex(Dotted(os)) == toks by {
      LexDotted(os);
    }
    assert Lexed(toks) && ReadNext(toks, 0, Init, Start, checked) == Parsed(V4Addr(os, 32), 8) by {
      DecOctets(os);
      forall i | 0 <= i < 4
        ensures Number(ds[i])
      {
        DecIsHex(ds[i]);
      }
      ParseDotted(ds, [Token(Eof, "")], checked);
      assert DecValues(ds) == os;
    }
  }

  /** Printing and then parsing gives the address back, for either parser and either mode, when the prefix is full. */
  lemma RoundTrip(a: Addr, compact: bool)
    requires Valid(a) && a.cidr == (if a.V4Addr? then 32 else 128)
    ensures Lexed(Lex(Print(a, compact)))
    ensures Parse(Lex(Print(a, compact))).Parsed? && Parse(Lex(Print(a, compact))).addr == a
    ensures ParseAsWritten(Lex(Print(a, compact))).Parsed? && ParseAsWritten(Lex(Print(a, compact))).addr == a
  {
    match a
    case V4Addr(os, _) =>
      RoundTripV4(os, compact, true);
      RoundTripV4(os, compact, false);
    case V6Addr(g, _) =>
      RoundTripV6(g, compact, true);
      RoundTripV6(g, compact, false);
  }

  /**
    More than eight groups around a `::`: the parser as written keeps the
    first 8 - |right| groups on the left, drops the others, and puts the
    right-hand groups after them; the corrected parser refuses the right-hand
    group right[7 - |left|], the one that would make eight groups and leave
    the `::` standing for no group.
  */
  lemma ParseAsWrittenDrops(left: seq<string>, right: seq<string>)
    requires Groups(left) && Groups(right) && |left| <= 7 && 1 <= |right| <= 7 && |left| + |right| > 8
    ensures Lexed(CompressedToks(left, right) + [Token(Eof, "")])
    ensures ParseAsWritten(CompressedToks(left, right) + [Token(Eof, "")]).Parsed?
    ensures ParseAsWritten(CompressedToks(left, right) + [Token(Eof, "")]).addr
      == V6Addr(HexValues(left)[..8 - |right|] + HexValues(right), 128)
    ensures Parse(CompressedToks(left, right) + [Token(Eof, "")]) == Failed(InvalidBlock(right[7 - |left|]))
  {
    var toks := CompressedToks(left, right) + [Token(Eof, "")];
    assert Overlay(left, right) == HexValues(left)[..8 - |right|] + HexValues(right) by {
      assert (HexValues(left) + Zeros(8 - |left|))[..8 - |right|] == HexValues(left)[..8 - |right|];
    }
    assert Lexed(toks) && ParseAsWritten(toks).Parsed? && ParseAsWritten(toks).addr == V6Addr(Overlay(left, right), 128) by {
      ParseCompressed(left, right, [Token(Eof, "")], false);
    }
    ParseRejectsFull(left, right, [Token(Eof, "")]);
  }

  /**
    "1:2:3:4:5::6:7:8:9" names nine groups. The parser as written accepts it
    and writes the groups after the `::` over the fifth group; the corrected
    parser refuses the block "8", the eighth group, which would leave the
    `::` standing for no group.
  */
  lemma ParseAsWrittenOverwrites(left: seq<string>, right: seq<string>)
    requires left == ["1", "2", "3", "4", "5"] && right == ["6", "7", "8", "9"]
    ensures Lexed(Lex(Join(left) + "::" + Join(right)))
    ensures ParseAsWritten(Lex(Join(left) + "::" + Join(right))).Parsed?
    ensures ParseAsWritten(Lex(Join(left) + "::" + Join(right))).addr == V6Addr([1, 2, 3, 4, 6, 7, 8, 9], 128)
    ensures Parse(Lex(Join(left) + "::" + Join(right))) == Failed(InvalidBlock("8"))
  {
    var toks := CompressedToks(left, right) + [Token(Eof, "")];
    assert Lex(Join(left) + "::" + Join(right)) == toks by {
      assert Groups(left) && Groups(right);
      LexCompressed(left, right);
    }
    assert Lexed(toks) && ParseAsWritten(toks).Parsed? && ParseAsWritten(toks).addr == V6Addr([1, 2, 3, 4, 6, 7, 8, 9], 128)
      && Parse(toks) == Failed(InvalidBlock("8")) by {
      ParseAsWrittenDrops(left, right);
      OverwriteGroups(left, right);
    }
  }

  lemma OverwriteGroups(left: seq<string>, right: seq<string>)
    requires left == ["1", "2", "3", "4", "5"] && right == ["6", "7", "8", "9"]
    ensures Groups(left) && Groups(right) && HexValues(left)[..4] + HexValues(right) == [1, 2, 3, 4, 6, 7, 8, 9]
  {
    assert HexValues(left) == [1, 2, 3, 4, 5] by {
      assert forall i :: 0 <= i < 5 ==> HexValue(left[i]) == HexDigitValue(left[i][0]);
    }
    assert HexValues(right) == [6, 7, 8, 9] by {
      assert forall i :: 0 <= i < 4 ==> HexValue(right[i]) == HexDigitValue(right[i][0]);
    }
  }
}
