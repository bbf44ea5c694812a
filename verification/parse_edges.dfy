/**
  The edges of `parse` in main.c: input that ends before an address starts,
  and a number too long to be a block.
*/
module ParseEdges {
  import opened Digits
  import opened Lexer
  import opened TextParser

  /** Delimiters and then the end of the input, from index p on. */
  predicate DelimsThenEof(toks: seq<Token>, p: nat, k: nat)
  {
    p <= k && (forall i :: p <= i < k ==> At(toks, i).kind == Delim) && At(toks, k).kind == Eof
  }

  /** Delimiters before the end of the input are skipped, and the end before any address gives 2. */
  lemma {:induction false} NoAddressAtEnd(toks: seq<Token>, p: nat, k: nat, checked: bool)
    requires Lexed(toks) && DelimsThenEof(toks, p, k)
    ensures ReadNext(toks, p, Init, Start, checked) == NoAddress
    decreases k - p
  {
    var t := At(toks, p);
    assert ReadNext(toks, p, Init, Start, checked) == Dispatch(toks, p, Init, Start, t, checked);
    if p < k {
      assert t.kind == Delim;
      NoAddressAtEnd(toks, p + 1, k, checked);
    }
  }

  /** Input of nothing but delimiters (fewer than `MaxBuf - 1` of them), or no input at all, holds no address. */
  lemma NoAddressInBlank(d: string, checked: bool)
    requires |d| < MaxBuf - 1
    requires forall i :: 0 <= i < |d| ==> IsDelim(d[i])
    ensures Lexed(Lex(d))
    ensures ReadNext(Lex(d), 0, Init, Start, checked) == NoAddress
  {
    LexNumbers(d);
    if |d| == 0 {
      assert Lex(d) == [Token(Eof, "")];
      NoAddressAtEnd(Lex(d), 0, 0, checked);
    } else {
      LexDelims(d, "");
      assert d + "" == d;
      assert Lex(d) == [Token(Delim, d), Token(Eof, "")];
      NoAddressAtEnd(Lex(d), 0, 1, checked);
    }
  }

  /** A first number of more than four characters is refused as an invalid block. */
  lemma LongBlockRefused(toks: seq<Token>, h: string, checked: bool)
    requires Lexed(toks) && At(toks, 0) == Token(UInt, h) && |h| > 4
    ensures ReadNext(toks, 0, Init, Start, checked) == Failed(InvalidBlock(h))
  {
    var t := At(toks, 0);
    assert AllHex(h);
    assert ReadNext(toks, 0, Init, Start, checked) == Dispatch(toks, 0, Init, Start, t, checked);
    assert Dispatch(toks, 0, Init, Start, t, checked) == Dispatch(toks, 0, Block, Start, t, checked);
  }

  /** The same at the level of text: five or more hexadecimal digits at the start of the input are refused. */
  lemma LongNumberRefused(h: string, rest: string, checked: bool)
    requires 4 < |h| < MaxBuf - 1 && AllHex(h)
    requires |rest| == 0 || ClassOf(rest[0]) != UInt
    ensures Lexed(Lex(h + rest))
    ensures ReadNext(Lex(h + rest), 0, Init, Start, checked) == Failed(InvalidBlock(h))
  {
    LexNumbers(h + rest);
    LexNumber(h, rest);
    LongBlockRefused(Lex(h + rest), h, checked);
  }

  /** The tokens of "::ffff:1.2.3.4", the mixed IPv6 form with a dotted IPv4 tail. */
  function MixedToks(): (toks: seq<Token>)
    ensures Lexed(toks)
  {
    [Token(Colon, ":"), Token(Colon, ":"), Token(UInt, "ffff"), Token(Colon, ":"),
     Token(UInt, "1"), Token(Dot, "."), Token(UInt, "2"), Token(Dot, "."),
     Token(UInt, "3"), Token(Dot, "."), Token(UInt, "4"), Token(Eof, "")]
  }

  /** The parser's context on "::ffff:1.2.3.4" after the `::` and k of its groups. */
  function MixedCtx(k: nat): (c: Ctx)
    requires k <= 2
    ensures c.ver == V6 && c.dcolon && c.before == 0 && c.blocknum == k
    ensures |c.v4| == 4 && |c.v6b| == 8 && |c.v6| == 8
  {
    var c1 := Start.(ver := V6, dcolon := true, v6 := Start.v6b[..0] + Start.v6[0..], before := 0, blocknum := 0);
    var c2 := c1.(v6b := c1.v6b[0 := HexValue("ffff") % 0x1_0000], blocknum := 1);
    if k == 0 then c1
    else if k == 1 then c2
    else c2.(v6b := c2.v6b[1 := HexValue("1") % 0x1_0000], blocknum := 2)
  }

  /** The two colons: the version becomes IPv6 and the `::` is recorded. */
  lemma MixedHead(checked: bool)
    ensures ReadNext(MixedToks(), 0, Init, Start, checked) == ReadNext(MixedToks(), 2, V6BlockEnd, MixedCtx(0), checked)
  {
    var toks := MixedToks();
    var c0 := Start.(ver := V6);
    assert ReadNext(toks, 0, Init, Start, checked) == ReadNext(toks, 1, SecondColon, c0, checked);
  }

  /** The group "ffff" and the colon after it. */
  lemma MixedFirstGroup(checked: bool)
    ensures ReadNext(MixedToks(), 2, V6BlockEnd, MixedCtx(0), checked) == ReadNext(MixedToks(), 4, V6Block, MixedCtx(1), checked)
  {
    var toks := MixedToks();
    var t := At(toks, 2);
    assert ReadNext(toks, 2, V6BlockEnd, MixedCtx(0), checked) == Dispatch(toks, 2, V6Block, MixedCtx(0), t, checked);
    MixedFfff(checked);
    MixedColon(checked);
  }

  /** The group "ffff" is stored as the first group after the `::`. */
  lemma MixedFfff(checked: bool)
    ensures Dispatch(MixedToks(), 2, V6Block, MixedCtx(0), At(MixedToks(), 2), checked)
      == ReadNext(MixedToks(), 3, ColonEnd, MixedCtx(1), checked)
  {
    assert Suggest(At(MixedToks(), 2).text) == 2;
  }

  /** The colon after "ffff" leads to the next group. */
  lemma MixedColon(checked: bool)
    ensures ReadNext(MixedToks(), 3, ColonEnd, MixedCtx(1), checked) == ReadNext(MixedToks(), 4, V6Block, MixedCtx(1), checked)
  {
    var toks := MixedToks();
    var t := At(toks, 3);
    assert ReadNext(toks, 3, ColonEnd, MixedCtx(1), checked) == Dispatch(toks, 3, ColonS, MixedCtx(1), t, checked);
  }

  /** The group "1", then the dot where a colon, the end or a blank is expected. */
  lemma MixedDot(checked: bool)
    ensures ReadNext(MixedToks(), 4, V6Block, MixedCtx(1), checked) == Failed(Unexpected({Colon, Eof, Delim}, Dot))
  {
    var toks := MixedToks();
    assert Suggest("1") == 1;
    assert ReadNext(toks, 4, V6Block, MixedCtx(1), checked) == ReadNext(toks, 5, ColonEnd, MixedCtx(2), checked);
  }

  /**
    The mixed form is refused by both parsers: after the group "1" the state
    expects a colon, the end or a blank, and meets the dot.
  */
  lemma MixedFormRefused(checked: bool)
    ensures ReadNext(MixedToks(), 0, Init, Start, checked) == Failed(Unexpected({Colon, Eof, Delim}, Dot))
  {
    MixedHead(checked);
    MixedFirstGroup(checked);
    MixedDot(checked);
  }
}
