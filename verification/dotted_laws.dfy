/**
  What `parse` of main.c makes of a dotted quad: four numbers separated by
  dots, followed by a delimiter or the end of the input.
*/
module DottedLaws {
  import opened Digits
  import opened Lexer
  import opened TextAddr
  import opened TextParser
  import opened ParseLaws

  /** A block the parser takes as an IPv4 octet: up to four decimal digits worth at most 255. */
  predicate Octet(d: string)
  {
    AllDec(d) && 1 <= |d| <= 4 && DecValue(d) <= 255
  }

  /** A number token as `lex` delivers it. */
  predicate Number(d: string)
  {
    AllHex(d) && 1 <= |d|
  }

  /** The tokens of four numbers joined by dots. */
  function DottedToks(ds: seq<string>): (r: seq<Token>)
    requires |ds| == 4
    ensures |r| == 7
  {
    [Token(UInt, ds[0]), Token(Dot, "."), Token(UInt, ds[1]), Token(Dot, "."),
     Token(UInt, ds[2]), Token(Dot, "."), Token(UInt, ds[3])]
  }

  function DecValues(ds: seq<string>): (r: seq<nat>)
    requires forall i :: 0 <= i < |ds| ==> AllDec(ds[i])
    ensures |r| == |ds| && forall i :: 0 <= i < |ds| ==> r[i] == DecValue(ds[i])
  {
    if |ds| == 0 then [] else [DecValue(ds[0])] + DecValues(ds[1..])
  }

  lemma OctetSuggest(d: string)
    requires Number(d)
    ensures Octet(d) <==> Suggest(d) == 1
  {
  }

  /** A block after a dot, and the dot behind it, when the quad is not yet complete. */
  lemma V4Step(toks: seq<Token>, p: nat, c: Ctx, d: string, checked: bool)
    requires Lexed(toks) && Wf(V4Block, c) && c.blocknum + 1 < 4
    requires At(toks, p) == Token(UInt, d) && At(toks, p + 1) == Token(Dot, ".")
    ensures Octet(d) ==> Wf(V4Block, c.(v4 := c.v4[c.blocknum := DecValue(d)], blocknum := c.blocknum + 1))
    ensures Octet(d) ==> (ReadNext(toks, p, V4Block, c, checked) ==
      ReadNext(toks, p + 2, V4Block, c.(v4 := c.v4[c.blocknum := DecValue(d)], blocknum := c.blocknum + 1), checked))
    ensures !Octet(d) ==> ReadNext(toks, p, V4Block, c, checked) == Failed(InvalidBlock(d))
  {
    var t := At(toks, p);
    OctetSuggest(d);
    assert ReadNext(toks, p, V4Block, c, checked) == Dispatch(toks, p, V4Block, c, t, checked);
    if Octet(d) {
      var c' := c.(v4 := c.v4[c.blocknum := DecValue(d)], blocknum := c.blocknum + 1);
      assert DecValue(d) % 256 == DecValue(d);
      assert Dispatch(toks, p, V4Block, c, t, checked) == ReadNext(toks, p + 1, DotS, c', checked);
      assert ReadNext(toks, p + 1, DotS, c', checked) == Dispatch(toks, p + 1, DotS, c', At(toks, p + 1), checked);
    }
  }

  /** The fourth block, then a terminator. */
  lemma V4Last(toks: seq<Token>, p: nat, c: Ctx, d: string, checked: bool)
    requires Lexed(toks) && Wf(V4Block, c) && c.blocknum == 3 && c.ver == V4
    requires At(toks, p) == Token(UInt, d) && Terminator(At(toks, p + 1))
    ensures Octet(d) ==> ReadNext(toks, p, V4Block, c, checked) == Parsed(V4Addr(c.v4[3 := DecValue(d)], 32), p + 2)
    ensures !Octet(d) ==> ReadNext(toks, p, V4Block, c, checked) == Failed(InvalidBlock(d))
  {
    var t := At(toks, p);
    OctetSuggest(d);
    assert ReadNext(toks, p, V4Block, c, checked) == Dispatch(toks, p, V4Block, c, t, checked);
    if Octet(d) {
      var c' := c.(v4 := c.v4[c.blocknum := DecValue(d)], blocknum := c.blocknum + 1);
      assert DecValue(d) % 256 == DecValue(d);
      assert Dispatch(toks, p, V4Block, c, t, checked) == ReadNext(toks, p + 1, End, c', checked);
      assert ReadNext(toks, p + 1, End, c', checked) == Dispatch(toks, p + 1, End, c', At(toks, p + 1), checked);
    }
  }

  /**
    The first block, then a dot: an octet starts an IPv4 address; a number
    that is not an octet makes the parser want a colon; a block of five or
    more characters is refused.
  */
  lemma V4First(toks: seq<Token>, d: string, checked: bool) returns (c: Ctx)
    requires Lexed(toks) && At(toks, 0) == Token(UInt, d) && At(toks, 1) == Token(Dot, ".")
    ensures Wf(V4Block, c) && c.blocknum == 1 && c.ver == V4
    ensures Octet(d) ==> c.v4 == Start.v4[0 := DecValue(d)]
    ensures Octet(d) ==> ReadNext(toks, 0, Init, Start, checked) == ReadNext(toks, 2, V4Block, c, checked)
    ensures !Octet(d) ==> ReadNext(toks, 0, Init, Start, checked).Failed?
  {
    var t := At(toks, 0);
    assert Number(d);
    OctetSuggest(d);
    assert ReadNext(toks, 0, Init, Start, checked) == Dispatch(toks, 0, Init, Start, t, checked);
    assert Dispatch(toks, 0, Init, Start, t, checked) == Dispatch(toks, 0, Block, Start, t, checked);
    c := Start.(blocknum := 1, ver := V4);
    if Suggest(d) == 1 {
      c := Start.(v4 := Start.v4[0 := DecValue(d)], blocknum := 1, ver := V4);
      var ca := Start.(v4 := Start.v4[0 := DecValue(d)], blocknum := 1);
      assert Dispatch(toks, 0, Block, Start, t, checked) == ReadNext(toks, 1, BlockDelim, ca, checked);
      assert ReadNext(toks, 1, BlockDelim, ca, checked) == Dispatch(toks, 1, BlockDelim, ca, At(toks, 1), checked);
      assert Dispatch(toks, 1, BlockDelim, ca, At(toks, 1), checked) == Dispatch(toks, 1, DotS, c, At(toks, 1), checked);
    } else if Suggest(d) == 2 {
      var cb := Start.(v6b := Start.v6b[0 := HexValue(d)], blocknum := 1, ver := V6);
      assert Dispatch(toks, 0, Block, Start, t, checked) == ReadNext(toks, 1, ColonS, cb, checked);
    }
  }

  /**
    Four numbers joined by dots, then a terminator, parse exactly when each
    is an octet, and then give the IPv4 address of their values with prefix 32.
  */
  lemma ParseDotted(ds: seq<string>, tail: seq<Token>, checked: bool)
    requires |ds| == 4 && (forall i :: 0 <= i < 4 ==> Number(ds[i])) && Lexed(tail) && Terminator(At(tail, 0))
    ensures Lexed(DottedToks(ds) + tail)
    ensures ReadNext(DottedToks(ds) + tail, 0, Init, Start, checked).Parsed? <==> forall i :: 0 <= i < 4 ==> Octet(ds[i])
    ensures (forall i :: 0 <= i < 4 ==> Octet(ds[i])) ==>
      ReadNext(DottedToks(ds) + tail, 0, Init, Start, checked) == Parsed(V4Addr(DecValues(ds), 32), 8)
  {
    var toks := DottedToks(ds) + tail;
    LexedAppend(DottedToks(ds), tail);
    DottedAt(ds, tail);
    DottedSplit(toks, ds, checked);
  }

  /** From token 0 on: the four numbers ds separated by dots. */
  predicate QuadAt(toks: seq<Token>, ds: seq<string>)
    requires |ds| == 4
  {
    At(toks, 0) == Token(UInt, ds[0]) && At(toks, 1) == Token(Dot, ".") &&
    At(toks, 2) == Token(UInt, ds[1]) && At(toks, 3) == Token(Dot, ".") &&
    At(toks, 4) == Token(UInt, ds[2]) && At(toks, 5) == Token(Dot, ".") &&
    At(toks, 6) == Token(UInt, ds[3])
  }

  lemma DottedAt(ds: seq<string>, tail: seq<Token>)
    requires |ds| == 4
    ensures QuadAt(DottedToks(ds) + tail, ds)
    ensures At(DottedToks(ds) + tail, 7) == At(tail, 0)
  {
    var toks := DottedToks(ds) + tail;
    if |tail| > 0 {
      assert toks[7] == tail[0];
    }
  }

  lemma DottedSplit(toks: seq<Token>, ds: seq<string>, checked: bool)
    requires Lexed(toks) && |ds| == 4 && QuadAt(toks, ds)
    requires Terminator(At(toks, 7))
    ensures ReadNext(toks, 0, Init, Start, checked).Parsed? <==> forall i :: 0 <= i < 4 ==> Octet(ds[i])
    ensures (forall i :: 0 <= i < 4 ==> Octet(ds[i])) ==>
      ReadNext(toks, 0, Init, Start, checked) == Parsed(V4Addr(DecValues(ds), 32), 8)
  {
    var c1 := V4First(toks, ds[0], checked);
    if Octet(ds[0]) {
      DottedTail(toks, ds, c1, checked);
      if Octet(ds[1]) && Octet(ds[2]) && Octet(ds[3]) {
        assert forall i :: 0 <= i < 4 ==> Octet(ds[i]);
      }
    }
  }

  /** The three blocks after the first octet, and what they make of the address. */
  lemma DottedTail(toks: seq<Token>, ds: seq<string>, c1: Ctx, checked: bool)
    requires Lexed(toks) && |ds| == 4 && QuadAt(toks, ds) && Terminator(At(toks, 7))
    requires Wf(V4Block, c1) && c1.blocknum == 1 && c1.ver == V4 && Octet(ds[0]) && c1.v4 == Start.v4[0 := DecValue(ds[0])]
    ensures ReadNext(toks, 2, V4Block, c1, checked).Parsed? <==> Octet(ds[1]) && Octet(ds[2]) && Octet(ds[3])
    ensures Octet(ds[1]) && Octet(ds[2]) && Octet(ds[3]) ==>
      ReadNext(toks, 2, V4Block, c1, checked) == Parsed(V4Addr(DecValues(ds), 32), 8)
  {
    V4Step(toks, 2, c1, ds[1], checked);
    if !Octet(ds[1]) {
      return;
    }
    var c2 := c1.(v4 := c1.v4[1 := DecValue(ds[1])], blocknum := 2);
    DottedLastTwo(toks, ds, c2, checked);
  }

  /** The third and fourth blocks, after two octets. */
  lemma DottedLastTwo(toks: seq<Token>, ds: seq<string>, c2: Ctx, checked: bool)
    requires Lexed(toks) && |ds| == 4 && QuadAt(toks, ds) && Terminator(At(toks, 7))
    requires Wf(V4Block, c2) && c2.blocknum == 2 && c2.ver == V4 && Octet(ds[0]) && Octet(ds[1])
    requires c2.v4 == Start.v4[0 := DecValue(ds[0])][1 := DecValue(ds[1])]
    ensures ReadNext(toks, 4, V4Block, c2, checked).Parsed? <==> Octet(ds[2]) && Octet(ds[3])
    ensures Octet(ds[2]) && Octet(ds[3]) ==>
      ReadNext(toks, 4, V4Block, c2, checked) == Parsed(V4Addr(DecValues(ds), 32), 8)
  {
    V4Step(toks, 4, c2, ds[2], checked);
    if !Octet(ds[2]) {
      return;
    }
    var c3 := c2.(v4 := c2.v4[2 := DecValue(ds[2])], blocknum := 3);
    V4Last(toks, 6, c3, ds[3], checked);
    if Octet(ds[3]) {
      assert c3.v4[3 := DecValue(ds[3])] == DecValues(ds);
    }
  }
}
