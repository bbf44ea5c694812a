/**
  What `parse` of main.c makes of the token sequences of IPv6 and IPv4
  text: groups separated by colons with at most one `::`, and dotted quads.
  The step lemmas follow the state machine through one group at a time.
*/
module ParseLaws {
  import opened Arith
  import opened Digits
  import opened Lexer
  import opened TextAddr
  import opened TextParser

  /** An IPv6 group as `lex` delivers it and `parse` accepts it: 1 to 4 lower-case hexadecimal digits. */
  predicate Group(h: string)
  {
    AllHex(h) && 1 <= |h| <= 4
  }

  predicate Groups(hs: seq<string>)
  {
    forall i :: 0 <= i < |hs| ==> Group(hs[i])
  }

  lemma GroupBelow(h: string)
    requires Group(h)
    ensures HexValue(h) < 0x1_0000 && HexValue(h) % 0x1_0000 == HexValue(h) && Suggest(h) != 0
  {
    HexValueBelow(h);
    assert Pow(16, 1) == 16;
    assert Pow(16, 4) == 0x1_0000;
  }

  function HexValues(hs: seq<string>): (r: seq<nat>)
    requires Groups(hs)
    ensures |r| == |hs| && forall i :: 0 <= i < |hs| ==> r[i] == HexValue(hs[i])
  {
    if |hs| == 0 then [] else [HexValue(hs[0])] + HexValues(hs[1..])
  }

  /** The buffer v with the values of the groups hs written from index m on. */
  function Fill(v: seq<nat>, m: nat, hs: seq<string>): (r: seq<nat>)
    requires Groups(hs) && m + |hs| <= |v|
    ensures |r| == |v|
  {
    v[..m] + HexValues(hs) + v[m + |hs|..]
  }

  /** A group that is read as a number into the buffer slot `blocknum`. */
  function Put(c: Ctx, h: string): (r: Ctx)
    requires Group(h) && c.blocknum < |c.v6b|
    ensures r.blocknum == c.blocknum + 1 && r.dcolon == c.dcolon && r.before == c.before
    ensures r.v4 == c.v4 && r.v6 == c.v6 && r.ver == c.ver && |r.v6b| == |c.v6b|
  {
    c.(v6b := c.v6b[c.blocknum := HexValue(h)], blocknum := c.blocknum + 1)
  }

  /** The end of an address: a delimiter, or the end of the input. */
  predicate Terminator(t: Token)
  {
    t.kind == Delim || t.kind == Eof
  }

  /** From token p on: the groups hs, separated by single colons. */
  predicate GroupsAt(toks: seq<Token>, p: nat, hs: seq<string>)
  {
    forall i {:trigger hs[i]} :: 0 <= i < |hs| ==>
      At(toks, p + 2 * i) == Token(UInt, hs[i]) && (i + 1 < |hs| ==> At(toks, p + 2 * i + 1) == Token(Colon, ":"))
  }

  /** From token p on: each group of hs followed by a colon. */
  predicate GroupColonsAt(toks: seq<Token>, p: nat, hs: seq<string>)
  {
    forall i {:trigger hs[i]} :: 0 <= i < |hs| ==> At(toks, p + 2 * i) == Token(UInt, hs[i]) && At(toks, p + 2 * i + 1) == Token(Colon, ":")
  }

  /** From token p on: each group of hs behind a colon. */
  predicate ColonGroupsAt(toks: seq<Token>, p: nat, hs: seq<string>)
  {
    forall i {:trigger hs[i]} :: 0 <= i < |hs| ==> At(toks, p + 2 * i) == Token(Colon, ":") && At(toks, p + 2 * i + 1) == Token(UInt, hs[i])
  }

  lemma GroupsTail(toks: seq<Token>, p: nat, hs: seq<string>)
    requires GroupsAt(toks, p, hs) && |hs| >= 1
    ensures At(toks, p) == Token(UInt, hs[0]) && ColonGroupsAt(toks, p + 1, hs[1..])
  {
    assert At(toks, p + 2 * 0) == Token(UInt, hs[0]);
    forall i | 0 <= i < |hs[1..]|
      ensures At(toks, p + 1 + 2 * i) == Token(Colon, ":") && At(toks, p + 1 + 2 * i + 1) == Token(UInt, hs[1..][i])
    {
      assert hs[1..][i] == hs[i + 1];
      assert At(toks, p + 2 * i) == Token(UInt, hs[i]);
      assert p + 1 + 2 * i == p + 2 * i + 1;
      assert p + 1 + 2 * i + 1 == p + 2 * (i + 1);
    }
  }

  lemma GroupsShift(toks: seq<Token>, p: nat, hs: seq<string>)
    requires GroupsAt(toks, p, hs) && |hs| >= 2
    ensures At(toks, p) == Token(UInt, hs[0]) && At(toks, p + 1) == Token(Colon, ":") && GroupsAt(toks, p + 2, hs[1..])
  {
    assert At(toks, p + 2 * 0) == Token(UInt, hs[0]) && At(toks, p + 2 * 0 + 1) == Token(Colon, ":");
    forall i | 0 <= i < |hs[1..]|
      ensures At(toks, p + 2 + 2 * i) == Token(UInt, hs[1..][i]) && (i + 1 < |hs[1..]| ==> At(toks, p + 2 + 2 * i + 1) == Token(Colon, ":"))
    {
      assert hs[1..][i] == hs[i + 1];
      assert p + 2 + 2 * i == p + 2 * (i + 1);
    }
  }

  /** Groups separated by colons, with a colon after the last one, are each followed by a colon. */
  lemma GroupsThenColon(toks: seq<Token>, p: nat, hs: seq<string>)
    requires GroupsAt(toks, p, hs) && |hs| >= 1 && At(toks, p + 2 * |hs| - 1) == Token(Colon, ":")
    ensures GroupColonsAt(toks, p, hs)
  {
    forall i | 0 <= i < |hs|
      ensures At(toks, p + 2 * i) == Token(UInt, hs[i]) && At(toks, p + 2 * i + 1) == Token(Colon, ":")
    {
      if i + 1 == |hs| {
        assert p + 2 * i + 1 == p + 2 * |hs| - 1;
      }
    }
  }

  lemma GroupColonsTail(toks: seq<Token>, p: nat, hs: seq<string>)
    requires GroupColonsAt(toks, p, hs) && |hs| >= 1
    ensures At(toks, p) == Token(UInt, hs[0]) && At(toks, p + 1) == Token(Colon, ":") && GroupColonsAt(toks, p + 2, hs[1..])
  {
    assert At(toks, p + 2 * 0) == Token(UInt, hs[0]);
    forall i | 0 <= i < |hs[1..]|
      ensures At(toks, p + 2 + 2 * i) == Token(UInt, hs[1..][i]) && At(toks, p + 2 + 2 * i + 1) == Token(Colon, ":")
    {
      assert hs[1..][i] == hs[i + 1];
      assert p + 2 + 2 * i == p + 2 * (i + 1);
    }
  }

  lemma ColonGroupsTail(toks: seq<Token>, p: nat, hs: seq<string>)
    requires ColonGroupsAt(toks, p, hs) && |hs| >= 1
    ensures At(toks, p) == Token(Colon, ":") && At(toks, p + 1) == Token(UInt, hs[0]) && ColonGroupsAt(toks, p + 2, hs[1..])
  {
    assert At(toks, p + 2 * 0) == Token(Colon, ":") && At(toks, p + 2 * 0 + 1) == Token(UInt, hs[0]);
    forall i | 0 <= i < |hs[1..]|
      ensures At(toks, p + 2 + 2 * i) == Token(Colon, ":") && At(toks, p + 2 + 2 * i + 1) == Token(UInt, hs[1..][i])
    {
      assert hs[1..][i] == hs[i + 1];
      assert p + 2 + 2 * i == p + 2 * (i + 1);
    }
  }

  /** The first n groups of a run behind colons, and the colon and group that come next. */
  lemma ColonGroupsPrefix(toks: seq<Token>, p: nat, hs: seq<string>, n: nat)
    requires ColonGroupsAt(toks, p, hs) && n < |hs|
    ensures ColonGroupsAt(toks, p, hs[..n])
    ensures At(toks, p + 2 * n) == Token(Colon, ":") && At(toks, p + 2 * n + 1) == Token(UInt, hs[n])
  {
    forall i | 0 <= i < n
      ensures At(toks, p + 2 * i) == Token(Colon, ":") && At(toks, p + 2 * i + 1) == Token(UInt, hs[..n][i])
    {
      assert hs[..n][i] == hs[i];
    }
    assert At(toks, p + 2 * n) == Token(Colon, ":") && At(toks, p + 2 * n + 1) == Token(UInt, hs[n]);
  }

  /** Before `::`: a group followed by a colon is stored and the parser waits for a group or a second colon again. */
  lemma BeforeGroup(toks: seq<Token>, p: nat, c: Ctx, h: string, checked: bool)
    requires Lexed(toks) && Wf(V6DoubleColon, c) && !c.dcolon && c.blocknum + 1 < 8
    requires At(toks, p) == Token(UInt, h) && Group(h) && At(toks, p + 1) == Token(Colon, ":")
    ensures Wf(V6DoubleColon, Put(c, h))
    ensures ReadNext(toks, p, V6DoubleColon, c, checked) == ReadNext(toks, p + 2, V6DoubleColon, Put(c, h), checked)
  {
    GroupBelow(h);
    var t := At(toks, p);
    var c' := Put(c, h);
    assert ReadNext(toks, p, V6DoubleColon, c, checked) == Dispatch(toks, p, V6DoubleColon, c, t, checked);
    assert Dispatch(toks, p, V6DoubleColon, c, t, checked) == Dispatch(toks, p, V6Block, c, t, checked);
    assert Dispatch(toks, p, V6Block, c, t, checked) == ReadNext(toks, p + 1, ColonS, c', checked);
    assert ReadNext(toks, p + 1, ColonS, c', checked) == Dispatch(toks, p + 1, ColonS, c', At(toks, p + 1), checked);
  }

  /** The eighth group without `::` completes the address when a terminator follows. */
  lemma LastGroup(toks: seq<Token>, p: nat, c: Ctx, h: string, checked: bool)
    requires Lexed(toks) && Wf(V6DoubleColon, c) && !c.dcolon && c.blocknum == 7
    requires At(toks, p) == Token(UInt, h) && Group(h) && Terminator(At(toks, p + 1))
    ensures ReadNext(toks, p, V6DoubleColon, c, checked) == Parsed(Assemble(Put(c, h)), p + 2)
  {
    GroupBelow(h);
    var t := At(toks, p);
    var c' := Put(c, h);
    assert ReadNext(toks, p, V6DoubleColon, c, checked) == Dispatch(toks, p, V6DoubleColon, c, t, checked);
    assert Dispatch(toks, p, V6DoubleColon, c, t, checked) == Dispatch(toks, p, V6Block, c, t, checked);
    assert Dispatch(toks, p, V6Block, c, t, checked) == ReadNext(toks, p + 1, End, c', checked);
    assert ReadNext(toks, p + 1, End, c', checked) == Dispatch(toks, p + 1, End, c', At(toks, p + 1), checked);
  }

  /** The context after `::`: the groups read so far move to `v6` and the count starts again. */
  function AfterDoubleColon(c: Ctx): (r: Ctx)
    requires |c.v6b| == 8 && |c.v6| == 8 && c.blocknum < 8
    ensures Wf(V6BlockEnd, r) <==> |c.v4| == 4
  {
    c.(dcolon := true, v6 := c.v6b[..c.blocknum] + c.v6[c.blocknum..], before := c.blocknum, blocknum := 0)
  }

  /** A colon where a group or a second colon may come is the second colon of `::`. */
  lemma SecondColonStep(toks: seq<Token>, p: nat, c: Ctx, checked: bool)
    requires Lexed(toks) && Wf(V6DoubleColon, c) && !c.dcolon
    requires At(toks, p) == Token(Colon, ":")
    ensures Wf(V6BlockEnd, AfterDoubleColon(c))
    ensures ReadNext(toks, p, V6DoubleColon, c, checked) == ReadNext(toks, p + 1, V6BlockEnd, AfterDoubleColon(c), checked)
  {
    var t := At(toks, p);
    assert ReadNext(toks, p, V6DoubleColon, c, checked) == Dispatch(toks, p, V6DoubleColon, c, t, checked);
    assert Dispatch(toks, p, V6DoubleColon, c, t, checked) == Dispatch(toks, p, SecondColon, c, t, checked);
  }

  /** After `::`, a terminator ends the address. */
  lemma AfterEnd(toks: seq<Token>, p: nat, c: Ctx, s: State, checked: bool)
    requires Lexed(toks) && (s == V6BlockEnd || s == ColonEnd) && Wf(s, c)
    requires Terminator(At(toks, p))
    ensures ReadNext(toks, p, s, c, checked) == Parsed(Assemble(c), p + 1)
  {
    var t := At(toks, p);
    assert ReadNext(toks, p, s, c, checked) == Dispatch(toks, p, s, c, t, checked);
    assert Dispatch(toks, p, s, c, t, checked) == Dispatch(toks, p, End, c, t, checked);
  }

  /** The first group after `::`. */
  lemma AfterFirstGroup(toks: seq<Token>, p: nat, c: Ctx, h: string, checked: bool)
    requires Lexed(toks) && Wf(V6BlockEnd, c) && c.dcolon && c.blocknum == 0
    requires checked ==> c.before + 1 < 8
    requires At(toks, p) == Token(UInt, h) && Group(h)
    ensures Wf(ColonEnd, Put(c, h))
    ensures ReadNext(toks, p, V6BlockEnd, c, checked) == ReadNext(toks, p + 1, ColonEnd, Put(c, h), checked)
  {
    GroupBelow(h);
    var t := At(toks, p);
    assert ReadNext(toks, p, V6BlockEnd, c, checked) == Dispatch(toks, p, V6BlockEnd, c, t, checked);
    assert Dispatch(toks, p, V6BlockEnd, c, t, checked) == Dispatch(toks, p, V6Block, c, t, checked);
  }

  /** A further group after `::`, behind its colon. */
  lemma AfterGroup(toks: seq<Token>, p: nat, c: Ctx, h: string, checked: bool)
    requires Lexed(toks) && Wf(ColonEnd, c) && c.dcolon && c.blocknum + 1 < 8
    requires checked ==> c.before + c.blocknum + 1 < 8
    requires At(toks, p) == Token(Colon, ":") && At(toks, p + 1) == Token(UInt, h) && Group(h)
    ensures Wf(ColonEnd, Put(c, h))
    ensures ReadNext(toks, p, ColonEnd, c, checked) == ReadNext(toks, p + 2, ColonEnd, Put(c, h), checked)
  {
    GroupBelow(h);
    var t := At(toks, p);
    assert ReadNext(toks, p, ColonEnd, c, checked) == Dispatch(toks, p, ColonEnd, c, t, checked);
    assert Dispatch(toks, p, ColonEnd, c, t, checked) == Dispatch(toks, p, ColonS, c, t, checked);
    assert Dispatch(toks, p, ColonS, c, t, checked) == ReadNext(toks, p + 1, V6Block, c, checked);
    assert ReadNext(toks, p + 1, V6Block, c, checked) == Dispatch(toks, p + 1, V6Block, c, At(toks, p + 1), checked);
  }

  /** The context after the groups rs are read one by one from slot `blocknum` on. */
  function Advance(c: Ctx, rs: seq<string>): (r: Ctx)
    requires Groups(rs) && c.blocknum + |rs| <= |c.v6b|
    ensures r.blocknum == c.blocknum + |rs| && r.dcolon == c.dcolon && r.before == c.before
    ensures r.v4 == c.v4 && r.v6 == c.v6 && r.ver == c.ver && |r.v6b| == |c.v6b|
    decreases |rs|
  {
    if |rs| == 0 then c
    else
      assert Groups(rs[1..]) by {
        assert forall i :: 0 <= i < |rs| - 1 ==> rs[1..][i] == rs[i + 1];
      }
      Advance(Put(c, rs[0]), rs[1..])
  }

  lemma AdvanceStep(c: Ctx, rs: seq<string>)
    requires Groups(rs) && |rs| >= 1 && c.blocknum + |rs| <= |c.v6b|
    ensures Advance(Put(c, rs[0]), rs[1..]) == Advance(c, rs)
  {
  }

  lemma AdvanceNone(c: Ctx)
    requires c.blocknum <= |c.v6b|
    ensures Advance(c, []) == c
  {
  }

  /** Reading the groups rs writes their values into the slots from `blocknum` on and leaves the others. */
  lemma {:induction false} AdvanceFill(c: Ctx, rs: seq<string>)
    requires Groups(rs) && c.blocknum + |rs| <= |c.v6b|
    ensures Advance(c, rs).v6b == Fill(c.v6b, c.blocknum, rs)
    decreases |rs|
  {
    if |rs| == 0 {
      assert Fill(c.v6b, c.blocknum, []) == c.v6b;
    } else {
      AdvanceFill(Put(c, rs[0]), rs[1..]);
      FillCons(c.v6b, c.blocknum, rs);
    }
  }

  /** Writing the first group, then the others from the next slot on, is writing them all. */
  lemma FillCons(v: seq<nat>, m: nat, rs: seq<string>)
    requires Groups(rs) && |rs| >= 1 && m + |rs| <= |v|
    ensures Groups(rs[1..])
    ensures Fill(v[m := HexValue(rs[0])], m + 1, rs[1..]) == Fill(v, m, rs)
  {
    assert forall i :: 0 <= i < |rs[1..]| ==> rs[1..][i] == rs[i + 1];
    var v' := v[m := HexValue(rs[0])];
    var l := Fill(v', m + 1, rs[1..]);
    var r := Fill(v, m, rs);
    FillAt(v', m + 1, rs[1..]);
    FillAt(v, m, rs);
    forall j | 0 <= j < |v|
      ensures l[j] == r[j]
    {
      if m + 1 <= j < m + |rs| {
        assert rs[1..][j - (m + 1)] == rs[j - m];
      }
    }
  }

  /** Each slot of Fill(v, m, hs): a group's value inside the filled range, the old value outside it. */
  lemma FillAt(v: seq<nat>, m: nat, hs: seq<string>)
    requires Groups(hs) && m + |hs| <= |v|
    ensures forall j :: 0 <= j < |v| ==> Fill(v, m, hs)[j] == (if m <= j < m + |hs| then HexValue(hs[j - m]) else v[j])
  {
    var h := HexValues(hs);
    forall j | 0 <= j < |v|
      ensures Fill(v, m, hs)[j] == (if m <= j < m + |hs| then HexValue(hs[j - m]) else v[j])
    {
      if j < m {
        assert Fill(v, m, hs)[j] == v[..m][j];
      } else if j < m + |hs| {
        assert Fill(v, m, hs)[j] == h[j - m];
      } else {
        assert Fill(v, m, hs)[j] == v[m + |hs|..][j - m - |hs|];
      }
    }
  }

  /** Groups rs before `::`, each followed by its colon, then the second colon of `::`. */
  lemma BeforeLoop(toks: seq<Token>, p: nat, c: Ctx, rs: seq<string>, checked: bool)
    requires Lexed(toks) && Wf(V6DoubleColon, c) && !c.dcolon && Groups(rs) && c.blocknum + |rs| < 8
    requires GroupColonsAt(toks, p, rs)
    requires At(toks, p + 2 * |rs|) == Token(Colon, ":")
    ensures Wf(V6BlockEnd, AfterDoubleColon(Advance(c, rs)))
    ensures ReadNext(toks, p, V6DoubleColon, c, checked) ==
      ReadNext(toks, p + 2 * |rs| + 1, V6BlockEnd, AfterDoubleColon(Advance(c, rs)), checked)
  {
    SecondColonStep(toks, p + 2 * |rs|, Advance(c, rs), checked);
    BeforePrefix(toks, p, c, rs, checked);
  }

  /** Groups rs before `::`, each followed by its colon, are stored one after the other. */
  lemma {:induction false} BeforePrefix(toks: seq<Token>, p: nat, c: Ctx, rs: seq<string>, checked: bool)
    requires Lexed(toks) && Wf(V6DoubleColon, c) && !c.dcolon && Groups(rs) && c.blocknum + |rs| < 8
    requires GroupColonsAt(toks, p, rs)
    ensures ReadNext(toks, p, V6DoubleColon, c, checked) == ReadNext(toks, p + 2 * |rs|, V6DoubleColon, Advance(c, rs), checked)
    decreases |rs|
  {
    if |rs| == 0 {
      AdvanceNone(c);
    } else {
      GroupColonsTail(toks, p, rs);
      BeforePrefix(toks, p + 2, Put(c, rs[0]), rs[1..], checked);
      BeforePrefixCons(toks, p, c, rs, checked);
    }
  }

  /** The inductive step of BeforePrefix: the first group and its colon, then the others. */
  lemma BeforePrefixCons(toks: seq<Token>, p: nat, c: Ctx, rs: seq<string>, checked: bool)
    requires Lexed(toks) && Wf(V6DoubleColon, c) && !c.dcolon && Groups(rs) && 1 <= |rs| && c.blocknum + |rs| < 8
    requires At(toks, p) == Token(UInt, rs[0]) && At(toks, p + 1) == Token(Colon, ":")
    requires ReadNext(toks, p + 2, V6DoubleColon, Put(c, rs[0]), checked) ==
      ReadNext(toks, p + 2 + 2 * |rs[1..]|, V6DoubleColon, Advance(Put(c, rs[0]), rs[1..]), checked)
    ensures ReadNext(toks, p, V6DoubleColon, c, checked) == ReadNext(toks, p + 2 * |rs|, V6DoubleColon, Advance(c, rs), checked)
  {
    BeforeGroup(toks, p, c, rs[0], checked);
    AdvanceStep(c, rs);
    assert p + 2 + 2 * |rs[1..]| == p + 2 * |rs|;
  }

  /** The remaining groups rs of an address without `::`, up to the eighth, then a terminator. */
  lemma {:induction false} FullLoop(toks: seq<Token>, p: nat, c: Ctx, rs: seq<string>, checked: bool)
    requires Lexed(toks) && Wf(V6DoubleColon, c) && !c.dcolon && Groups(rs) && |rs| >= 1 && c.blocknum + |rs| == 8
    requires GroupsAt(toks, p, rs)
    requires Terminator(At(toks, p + 2 * |rs| - 1))
    ensures ReadNext(toks, p, V6DoubleColon, c, checked) == Parsed(Assemble(Advance(c, rs)), p + 2 * |rs|)
    decreases |rs|
  {
    if |rs| == 1 {
      assert At(toks, p + 2 * 0) == Token(UInt, rs[0]);
      LastGroup(toks, p, c, rs[0], checked);
      AdvanceStep(c, rs);
      AdvanceNone(Put(c, rs[0]));
    } else {
      GroupsShift(toks, p, rs);
      BeforeGroup(toks, p, c, rs[0], checked);
      var rest := rs[1..];
      assert p + 2 + 2 * |rest| - 1 == p + 2 * |rs| - 1;
      FullLoop(toks, p + 2, Put(c, rs[0]), rest, checked);
      AdvanceStep(c, rs);
    }
  }

  /** After `::`, in state ColonEnd at token p: the groups rs follow, each behind its colon, and fit. */
  predicate AfterReady(toks: seq<Token>, p: nat, c: Ctx, rs: seq<string>, checked: bool)
  {
    Lexed(toks) && Wf(ColonEnd, c) && c.dcolon && Groups(rs) && c.blocknum + |rs| < 8 &&
    (checked ==> c.before + c.blocknum + |rs| < 8) &&
    ColonGroupsAt(toks, p, rs)
  }

  /** Reading one group leaves the parser ready for the rest. */
  lemma AfterReadyTail(toks: seq<Token>, p: nat, c: Ctx, rs: seq<string>, checked: bool)
    requires AfterReady(toks, p, c, rs, checked) && |rs| >= 1
    ensures AfterReady(toks, p + 2, Put(c, rs[0]), rs[1..], checked)
    ensures p + 2 + 2 * |rs[1..]| == p + 2 * |rs|
  {
    ColonGroupsTail(toks, p, rs);
  }

  /** The groups rs after the first one behind `::`, each behind its colon, then a terminator. */
  lemma {:induction false} AfterLoop(toks: seq<Token>, p: nat, c: Ctx, rs: seq<string>, checked: bool)
    requires AfterReady(toks, p, c, rs, checked) && Terminator(At(toks, p + 2 * |rs|))
    ensures ReadNext(toks, p, ColonEnd, c, checked) == Parsed(Assemble(Advance(c, rs)), p + 2 * |rs| + 1)
    decreases |rs|
  {
    if |rs| == 0 {
      AdvanceNone(c);
      AfterEnd(toks, p, c, ColonEnd, checked);
    } else {
      AfterReadyTail(toks, p, c, rs, checked);
      AfterLoop(toks, p + 2, Put(c, rs[0]), rs[1..], checked);
      AfterLoopCons(toks, p, c, rs, checked);
    }
  }

  /** The inductive step of AfterLoop: one more group in front of groups already known to parse. */
  lemma AfterLoopCons(toks: seq<Token>, p: nat, c: Ctx, rs: seq<string>, checked: bool)
    requires AfterReady(toks, p, c, rs, checked) && |rs| >= 1
    requires ReadNext(toks, p + 2, ColonEnd, Put(c, rs[0]), checked) == Parsed(Assemble(Advance(Put(c, rs[0]), rs[1..])), p + 2 + 2 * |rs[1..]| + 1)
    ensures ReadNext(toks, p, ColonEnd, c, checked) == Parsed(Assemble(Advance(c, rs)), p + 2 * |rs| + 1)
  {
    ColonGroupsTail(toks, p, rs);
    AfterGroup(toks, p, c, rs[0], checked);
    AdvanceStep(c, rs);
    assert p + 2 + 2 * |rs[1..]| + 1 == p + 2 * |rs| + 1;
  }

  /**
    The first group, followed by a colon: read as a decimal IPv4 block when
    it looks like one and then reinterpreted as hexadecimal at the colon, or
    read as hexadecimal at once; either way slot 0 holds its hexadecimal
    value.
  */
  lemma FirstGroup(toks: seq<Token>, h: string, checked: bool) returns (c: Ctx)
    requires Lexed(toks) && At(toks, 0) == Token(UInt, h) && Group(h) && At(toks, 1) == Token(Colon, ":")
    ensures Wf(V6DoubleColon, c) && !c.dcolon && c.ver == V6 && c.blocknum == 1
    ensures c.v6b == Start.v6b[0 := HexValue(h)] && c.v6 == Start.v6
    ensures ReadNext(toks, 0, Init, Start, checked) == ReadNext(toks, 2, V6DoubleColon, c, checked)
  {
    GroupBelow(h);
    var t := At(toks, 0);
    assert ReadNext(toks, 0, Init, Start, checked) == Dispatch(toks, 0, Init, Start, t, checked);
    assert Dispatch(toks, 0, Init, Start, t, checked) == Dispatch(toks, 0, Block, Start, t, checked);
    if Suggest(h) == 1 {
      var ca := Start.(v4 := Start.v4[0 := DecValue(h)], blocknum := 1);
      assert Dispatch(toks, 0, Block, Start, t, checked) == ReadNext(toks, 1, BlockDelim, ca, checked);
      assert ReadNext(toks, 1, BlockDelim, ca, checked) == Dispatch(toks, 1, BlockDelim, ca, At(toks, 1), checked);
      DecReadAsHex(h);
      c := ca.(v6b := ca.v6b[0 := Reinterpret(ca.v4[0])], ver := V6);
      assert Dispatch(toks, 1, BlockDelim, ca, At(toks, 1), checked) == Dispatch(toks, 1, ColonS, c, At(toks, 1), checked);
    } else {
      c := Start.(v6b := Start.v6b[0 := HexValue(h)], blocknum := 1, ver := V6);
      assert Dispatch(toks, 0, Block, Start, t, checked) == ReadNext(toks, 1, ColonS, c, checked);
      assert ReadNext(toks, 1, ColonS, c, checked) == Dispatch(toks, 1, ColonS, c, At(toks, 1), checked);
    }
  }

  /** A leading `::`. */
  lemma LeadingDoubleColon(toks: seq<Token>, checked: bool)
    requires Lexed(toks) && At(toks, 0) == Token(Colon, ":") && At(toks, 1) == Token(Colon, ":")
    ensures Wf(V6BlockEnd, AfterDoubleColon(Start.(ver := V6)))
    ensures ReadNext(toks, 0, Init, Start, checked) == ReadNext(toks, 2, V6BlockEnd, AfterDoubleColon(Start.(ver := V6)), checked)
  {
    var c := Start.(ver := V6);
    assert ReadNext(toks, 0, Init, Start, checked) == Dispatch(toks, 0, Init, Start, At(toks, 0), checked);
    assert ReadNext(toks, 1, SecondColon, c, checked) == Dispatch(toks, 1, SecondColon, c, At(toks, 1), checked);
  }

  /** The tokens of groups separated by single colons. */
  function GroupToks(hs: seq<string>): (r: seq<Token>)
    ensures |r| == if |hs| == 0 then 0 else 2 * |hs| - 1
  {
    if |hs| == 0 then []
    else if |hs| == 1 then [Token(UInt, hs[0])]
    else [Token(UInt, hs[0]), Token(Colon, ":")] + GroupToks(hs[1..])
  }

  /** Groups at the even indices of their tokens, colons between them. */
  lemma {:induction false} GroupToksIndex(hs: seq<string>)
    ensures forall i {:trigger hs[i]} :: 0 <= i < |hs| ==>
      GroupToks(hs)[2 * i] == Token(UInt, hs[i]) && (i + 1 < |hs| ==> GroupToks(hs)[2 * i + 1] == Token(Colon, ":"))
  {
    if |hs| > 1 {
      GroupToksIndex(hs[1..]);
      var r := GroupToks(hs);
      var r' := GroupToks(hs[1..]);
      forall i | 0 <= i < |hs|
        ensures r[2 * i] == Token(UInt, hs[i]) && (i + 1 < |hs| ==> r[2 * i + 1] == Token(Colon, ":"))
      {
        if i > 0 {
          assert hs[1..][i - 1] == hs[i];
          assert r[2 * i] == r'[2 * (i - 1)];
          if i + 1 < |hs| {
            assert r[2 * i + 1] == r'[2 * (i - 1) + 1];
          }
        }
      }
    }
  }

  lemma {:induction false} GroupToksLexed(hs: seq<string>)
    requires Groups(hs)
    ensures Lexed(GroupToks(hs))
  {
    if |hs| > 1 {
      GroupToksLexed(hs[1..]);
      var r := GroupToks(hs);
      assert forall i :: 2 <= i < |r| ==> r[i] == GroupToks(hs[1..])[i - 2];
    }
  }

  /** The tokens of an IPv6 address with `::` between the groups left and right. */
  function CompressedToks(left: seq<string>, right: seq<string>): seq<Token>
  {
    GroupToks(left) + [Token(Colon, ":"), Token(Colon, ":")] + GroupToks(right)
  }

  /**
    What the parser left written makes of left `::` right: the groups left, zeros,
    and the groups right written over the last |right| slots, whether or not the
    zeros left any room.
  */
  function Overlay(left: seq<string>, right: seq<string>): (r: seq<nat>)
    requires Groups(left) && Groups(right) && |left| <= 8 && |right| <= 8
    ensures |r| == 8
  {
    (HexValues(left) + Zeros(8 - |left|))[..8 - |right|] + HexValues(right)
  }

  /** The groups after `::` up to a terminator. */
  lemma AfterPart(toks: seq<Token>, p: nat, c: Ctx, right: seq<string>, checked: bool)
    requires Lexed(toks) && Wf(V6BlockEnd, c) && c.dcolon && c.blocknum == 0 && Groups(right) && |right| < 8
    requires checked ==> c.before + |right| < 8
    requires GroupsAt(toks, p, right)
    requires Terminator(At(toks, p + (if |right| == 0 then 0 else 2 * |right| - 1)))
    ensures ReadNext(toks, p, V6BlockEnd, c, checked).Parsed?
    ensures ReadNext(toks, p, V6BlockEnd, c, checked).addr == Assemble(Advance(c, right))
  {
    if |right| == 0 {
      AdvanceNone(c);
      AfterEnd(toks, p, c, V6BlockEnd, checked);
    } else {
      GroupsTail(toks, p, right);
      AfterFirstGroup(toks, p, c, right[0], checked);
      var rest := right[1..];
      assert p + 1 + 2 * |rest| == p + 2 * |right| - 1;
      AfterLoop(toks, p + 1, Put(c, right[0]), rest, checked);
      AdvanceStep(c, right);
    }
  }

  lemma LexedAppend(a: seq<Token>, b: seq<Token>)
    requires Lexed(a) && Lexed(b)
    ensures Lexed(a + b)
  {
    forall i | 0 <= i < |a + b| && (a + b)[i].kind == UInt
      ensures 1 <= |(a + b)[i].text| && AllHex((a + b)[i].text)
    {
      if i >= |a| {
        assert (a + b)[i] == b[i - |a|];
      }
    }
  }

  /** The groups before `::` and the `::` itself: the parser is then after `::` with the groups in `v6`. */
  lemma BeforePart(toks: seq<Token>, left: seq<string>, q: nat, checked: bool) returns (c: Ctx)
    requires Lexed(toks) && Groups(left) && |left| <= 7
    requires q == if |left| == 0 then 2 else 2 * |left| + 1
    requires GroupsAt(toks, 0, left)
    requires At(toks, q - 2) == Token(Colon, ":") && At(toks, q - 1) == Token(Colon, ":")
    ensures Wf(V6BlockEnd, c) && c.dcolon && c.blocknum == 0 && c.before == |left| && c.ver == V6
    ensures c.v6 == HexValues(left) + Zeros(8 - |left|)
    ensures ReadNext(toks, 0, Init, Start, checked) == ReadNext(toks, q, V6BlockEnd, c, checked)
  {
    if |left| == 0 {
      LeadingDoubleColon(toks, checked);
      c := AfterDoubleColon(Start.(ver := V6));
      assert c.v6 == HexValues(left) + Zeros(8);
    } else {
      c := BeforeSome(toks, left, q, checked);
    }
  }

  lemma BeforeSome(toks: seq<Token>, left: seq<string>, q: nat, checked: bool) returns (c: Ctx)
    requires Lexed(toks) && Groups(left) && 1 <= |left| <= 7 && q == 2 * |left| + 1
    requires GroupsAt(toks, 0, left)
    requires At(toks, q - 2) == Token(Colon, ":") && At(toks, q - 1) == Token(Colon, ":")
    ensures Wf(V6BlockEnd, c) && c.dcolon && c.blocknum == 0 && c.before == |left| && c.ver == V6
    ensures c.v6 == HexValues(left) + Zeros(8 - |left|)
    ensures ReadNext(toks, 0, Init, Start, checked) == ReadNext(toks, q, V6BlockEnd, c, checked)
  {
    GroupsThenColon(toks, 0, left);
    GroupColonsTail(toks, 0, left);
    var c1 := FirstGroup(toks, left[0], checked);
    assert 2 + 2 * |left[1..]| == q - 1;
    BeforeLoop(toks, 2, c1, left[1..], checked);
    c := AfterDoubleColon(Advance(c1, left[1..]));
    BeforeValues(c1, left);
  }

  /** After the first group, reading the others fills the slots in order and leaves zeros behind them. */
  lemma FirstFill(c1: Ctx, hs: seq<string>)
    requires Groups(hs) && 1 <= |hs| <= 8 && c1.blocknum == 1 && c1.v6b == Start.v6b[0 := HexValue(hs[0])]
    ensures Advance(c1, hs[1..]).v6b == HexValues(hs) + Zeros(8 - |hs|)
  {
    AdvanceFill(c1, hs[1..]);
    var v := c1.v6b;
    assert v[..1] == [HexValue(hs[0])];
    assert v[|hs|..] == Zeros(8 - |hs|);
    assert HexValues(hs) == [HexValue(hs[0])] + HexValues(hs[1..]);
  }

  /** The groups before `::` end up in `v6`, followed by zeros. */
  lemma BeforeValues(c1: Ctx, left: seq<string>)
    requires Groups(left) && 1 <= |left| <= 7 && c1.blocknum == 1 && |c1.v4| == 4
    requires c1.v6b == Start.v6b[0 := HexValue(left[0])] && c1.v6 == Start.v6
    ensures AfterDoubleColon(Advance(c1, left[1..])).v6 == HexValues(left) + Zeros(8 - |left|)
  {
    FirstFill(c1, left);
    var a := Advance(c1, left[1..]);
    assert a.v6b[..|left|] == HexValues(left);
    assert a.v6[|left|..] == Zeros(8 - |left|);
  }

  lemma CompressedLexed(left: seq<string>, right: seq<string>, tail: seq<Token>)
    requires Groups(left) && Groups(right) && Lexed(tail)
    ensures Lexed(CompressedToks(left, right) + tail)
  {
    var cc := [Token(Colon, ":"), Token(Colon, ":")];
    var ga := GroupToks(left);
    var gb := GroupToks(right);
    GroupToksLexed(left);
    GroupToksLexed(right);
    LexedAppend(ga, cc);
    LexedAppend(ga + cc, gb);
    LexedAppend(ga + cc + gb, tail);
  }

  /** Where the groups before `::` and the `::` itself sit. */
  lemma CompressedLeft(left: seq<string>, right: seq<string>, tail: seq<Token>)
    ensures GroupsAt(CompressedToks(left, right) + tail, 0, left)
    ensures At(CompressedToks(left, right) + tail, |GroupToks(left)|) == Token(Colon, ":")
    ensures At(CompressedToks(left, right) + tail, |GroupToks(left)| + 1) == Token(Colon, ":")
  {
    var cc := [Token(Colon, ":"), Token(Colon, ":")];
    var ga := GroupToks(left);
    var gb := GroupToks(right);
    var toks := CompressedToks(left, right) + tail;
    GroupToksIndex(left);
    forall i | 0 <= i < |left|
      ensures At(toks, 2 * i) == Token(UInt, left[i]) && (i + 1 < |left| ==> At(toks, 2 * i + 1) == Token(Colon, ":"))
    {
      assert toks[2 * i] == ga[2 * i];
      if i + 1 < |left| {
        assert toks[2 * i + 1] == ga[2 * i + 1];
      }
    }
    assert toks[|ga|] == cc[0] && toks[|ga| + 1] == cc[1];
  }

  /** Where the groups after `::` and the terminator sit. */
  lemma CompressedRight(left: seq<string>, right: seq<string>, tail: seq<Token>)
    ensures GroupsAt(CompressedToks(left, right) + tail, |GroupToks(left)| + 2, right)
  {
    var ga := GroupToks(left);
    var gb := GroupToks(right);
    var toks := CompressedToks(left, right) + tail;
    var q := |ga| + 2;
    GroupToksIndex(right);
    forall i | 0 <= i < |right|
      ensures At(toks, q + 2 * i) == Token(UInt, right[i]) && (i + 1 < |right| ==> At(toks, q + 2 * i + 1) == Token(Colon, ":"))
    {
      assert toks[q + 2 * i] == gb[2 * i];
      if i + 1 < |right| {
        assert toks[q + 2 * i + 1] == gb[2 * i + 1];
      }
    }
  }

  /** What follows the groups after `::` is the first token of the tail. */
  lemma CompressedEnd(left: seq<string>, right: seq<string>, tail: seq<Token>)
    ensures At(CompressedToks(left, right) + tail, |GroupToks(left)| + 2 + |GroupToks(right)|) == At(tail, 0)
  {
    var toks := CompressedToks(left, right) + tail;
    if |tail| > 0 {
      assert toks[|GroupToks(left)| + 2 + |GroupToks(right)|] == tail[0];
    }
  }

  /**
    An IPv6 address with `::`: the groups before it are read left-aligned,
    those after it right-aligned, and the prefix is 128. With at most seven
    groups in all, this is the groups before, zeros, and the groups after.
  */
  lemma ParseCompressed(left: seq<string>, right: seq<string>, tail: seq<Token>, checked: bool)
    requires Groups(left) && Groups(right) && |left| <= 7 && |right| <= 7 && Lexed(tail) && Terminator(At(tail, 0))
    requires checked ==> |left| + |right| <= 7
    ensures Lexed(CompressedToks(left, right) + tail)
    ensures ReadNext(CompressedToks(left, right) + tail, 0, Init, Start, checked).Parsed?
    ensures ReadNext(CompressedToks(left, right) + tail, 0, Init, Start, checked).addr == V6Addr(Overlay(left, right), 128)
    ensures |left| + |right| <= 8 ==> Overlay(left, right) == HexValues(left) + Zeros(8 - |left| - |right|) + HexValues(right)
  {
    var toks := CompressedToks(left, right) + tail;
    var q := |GroupToks(left)| + 2;
    CompressedLexed(left, right, tail);
    CompressedLeft(left, right, tail);
    CompressedRight(left, right, tail);
    CompressedEnd(left, right, tail);
    ParseSplit(toks, left, right, q, checked);
    OverlayFits(left, right);
  }

  /** The parse of a `::` address, once the positions of its tokens are known. */
  lemma ParseSplit(toks: seq<Token>, left: seq<string>, right: seq<string>, q: nat, checked: bool)
    requires Lexed(toks) && Groups(left) && Groups(right) && |left| <= 7 && |right| <= 7
    requires checked ==> |left| + |right| <= 7
    requires q == if |left| == 0 then 2 else 2 * |left| + 1
    requires GroupsAt(toks, 0, left)
    requires At(toks, q - 2) == Token(Colon, ":") && At(toks, q - 1) == Token(Colon, ":")
    requires GroupsAt(toks, q, right)
    requires Terminator(At(toks, q + (if |right| == 0 then 0 else 2 * |right| - 1)))
    ensures ReadNext(toks, 0, Init, Start, checked).Parsed?
    ensures ReadNext(toks, 0, Init, Start, checked).addr == V6Addr(Overlay(left, right), 128)
  {
    var c2 := BeforePart(toks, left, q, checked);
    AfterPart(toks, q, c2, right, checked);
    OverlayAssembled(left, right, c2);
  }

  /** The address assembled after `::`: the buffer before it with its last slots overwritten by the groups after it. */
  lemma OverlayAssembled(left: seq<string>, right: seq<string>, c: Ctx)
    requires Groups(left) && Groups(right) && |left| <= 7 && |right| <= 7
    requires Wf(V6BlockEnd, c) && c.dcolon && c.blocknum == 0 && c.ver == V6
    requires c.v6 == HexValues(left) + Zeros(8 - |left|)
    ensures Assemble(Advance(c, right)) == V6Addr(Overlay(left, right), 128)
  {
    var c' := Advance(c, right);
    var n := |right|;
    AssembleAfter(c, right);
    assert c'.v6b[..n] == HexValues(right) by {
      AdvanceFill(c, right);
      FillPrefix(c.v6b, right);
    }
  }

  /** After `::` the groups read so far fill the last slots of the address. */
  lemma AssembleAfter(c: Ctx, right: seq<string>)
    requires Groups(right) && |right| <= 7
    requires Wf(V6BlockEnd, c) && c.dcolon && c.blocknum == 0 && c.ver == V6
    ensures Assemble(Advance(c, right)) == V6Addr(c.v6[..8 - |right|] + Advance(c, right).v6b[..|right|], 128)
  {
  }

  /** Groups written from slot 0 on are the first slots of the buffer. */
  lemma FillPrefix(v: seq<nat>, hs: seq<string>)
    requires Groups(hs) && |hs| <= |v|
    ensures Fill(v, 0, hs)[..|hs|] == HexValues(hs)
  {
    assert v[..0] + HexValues(hs) == HexValues(hs);
  }

  /** With room for the zeros, the overlay is the groups before, zeros, then the groups after. */
  lemma OverlayFits(left: seq<string>, right: seq<string>)
    requires Groups(left) && Groups(right) && |left| <= 8 && |right| <= 8
    ensures |left| + |right| <= 8 ==> Overlay(left, right) == HexValues(left) + Zeros(8 - |left| - |right|) + HexValues(right)
  {
    if |left| + |right| <= 8 {
      assert (HexValues(left) + Zeros(8 - |left|))[..8 - |right|] == HexValues(left) + Zeros(8 - |left| - |right|);
    }
  }

  /** The tokens of groups with a tail behind them. */
  lemma GroupsTailAt(hs: seq<string>, tail: seq<Token>)
    requires Groups(hs) && Lexed(tail)
    ensures Lexed(GroupToks(hs) + tail)
    ensures GroupsAt(GroupToks(hs) + tail, 0, hs)
    ensures At(GroupToks(hs) + tail, |GroupToks(hs)|) == At(tail, 0)
  {
    var g := GroupToks(hs);
    var toks := g + tail;
    GroupToksLexed(hs);
    LexedAppend(g, tail);
    GroupToksIndex(hs);
    forall i | 0 <= i < |hs|
      ensures At(toks, 2 * i) == Token(UInt, hs[i]) && (i + 1 < |hs| ==> At(toks, 2 * i + 1) == Token(Colon, ":"))
    {
      assert toks[2 * i] == g[2 * i];
      if i + 1 < |hs| {
        assert toks[2 * i + 1] == g[2 * i + 1];
      }
    }
    if |tail| > 0 {
      assert toks[|g|] == tail[0];
    }
  }

  /** Eight groups without `::`, then a terminator: the address of those eight values, prefix 128. */
  lemma ParseFull(hs: seq<string>, tail: seq<Token>, checked: bool)
    requires Groups(hs) && |hs| == 8 && Lexed(tail) && Terminator(At(tail, 0))
    ensures Lexed(GroupToks(hs) + tail)
    ensures ReadNext(GroupToks(hs) + tail, 0, Init, Start, checked) == Parsed(V6Addr(HexValues(hs), 128), 16)
  {
    GroupsTailAt(hs, tail);
    FullSplit(GroupToks(hs) + tail, hs, checked);
  }

  lemma FullSplit(toks: seq<Token>, hs: seq<string>, checked: bool)
    requires Lexed(toks) && Groups(hs) && |hs| == 8
    requires GroupsAt(toks, 0, hs)
    requires Terminator(At(toks, 15))
    ensures ReadNext(toks, 0, Init, Start, checked) == Parsed(V6Addr(HexValues(hs), 128), 16)
  {
    GroupsShift(toks, 0, hs);
    var c1 := FirstGroup(toks, hs[0], checked);
    var rest := hs[1..];
    FullLoop(toks, 2, c1, rest, checked);
    FirstFill(c1, hs);
    assert HexValues(hs) + Zeros(0) == HexValues(hs);
  }

  /** Groups after `::`, each behind its colon, while the corrected check lets them through. */
  lemma {:induction false} AfterPrefix(toks: seq<Token>, p: nat, c: Ctx, rs: seq<string>, checked: bool)
    requires Lexed(toks) && Wf(ColonEnd, c) && c.dcolon && Groups(rs) && c.blocknum + |rs| < 8
    requires checked ==> c.before + c.blocknum + |rs| < 8
    requires ColonGroupsAt(toks, p, rs)
    ensures ReadNext(toks, p, ColonEnd, c, checked) == ReadNext(toks, p + 2 * |rs|, ColonEnd, Advance(c, rs), checked)
    decreases |rs|
  {
    if |rs| == 0 {
      AdvanceNone(c);
    } else {
      ColonGroupsTail(toks, p, rs);
      AfterPrefix(toks, p + 2, Put(c, rs[0]), rs[1..], checked);
      AfterPrefixCons(toks, p, c, rs, checked);
    }
  }

  /** The inductive step of AfterPrefix: the first colon and group, then the others. */
  lemma AfterPrefixCons(toks: seq<Token>, p: nat, c: Ctx, rs: seq<string>, checked: bool)
    requires Lexed(toks) && Wf(ColonEnd, c) && c.dcolon && Groups(rs) && 1 <= |rs| && c.blocknum + |rs| < 8
    requires checked ==> c.before + c.blocknum + |rs| < 8
    requires At(toks, p) == Token(Colon, ":") && At(toks, p + 1) == Token(UInt, rs[0])
    requires ReadNext(toks, p + 2, ColonEnd, Put(c, rs[0]), checked) ==
      ReadNext(toks, p + 2 + 2 * |rs[1..]|, ColonEnd, Advance(Put(c, rs[0]), rs[1..]), checked)
    ensures ReadNext(toks, p, ColonEnd, c, checked) == ReadNext(toks, p + 2 * |rs|, ColonEnd, Advance(c, rs), checked)
  {
    AfterGroup(toks, p, c, rs[0], checked);
    AdvanceStep(c, rs);
    assert p + 2 + 2 * |rs[1..]| == p + 2 * |rs|;
  }

  /** The corrected parser refuses a group after `::` that fills the eighth slot. */
  lemma RejectAfter(toks: seq<Token>, p: nat, c: Ctx, h: string)
    requires Lexed(toks) && Wf(ColonEnd, c) && c.dcolon && c.before + c.blocknum + 1 >= 8
    requires At(toks, p) == Token(Colon, ":") && At(toks, p + 1) == Token(UInt, h) && Group(h)
    ensures ReadNext(toks, p, ColonEnd, c, true) == Failed(InvalidBlock(h))
  {
    var t := At(toks, p);
    assert ReadNext(toks, p, ColonEnd, c, true) == Dispatch(toks, p, ColonEnd, c, t, true);
    assert Dispatch(toks, p, ColonEnd, c, t, true) == Dispatch(toks, p, ColonS, c, t, true);
    assert Dispatch(toks, p, ColonS, c, t, true) == ReadNext(toks, p + 1, V6Block, c, true);
    assert ReadNext(toks, p + 1, V6Block, c, true) == Dispatch(toks, p + 1, V6Block, c, At(toks, p + 1), true);
  }

  /** The same for the first group after `::` when seven groups came before it. */
  lemma RejectFirst(toks: seq<Token>, p: nat, c: Ctx, h: string)
    requires Lexed(toks) && Wf(V6BlockEnd, c) && c.dcolon && c.blocknum == 0 && c.before + 1 >= 8
    requires At(toks, p) == Token(UInt, h) && Group(h)
    ensures ReadNext(toks, p, V6BlockEnd, c, true) == Failed(InvalidBlock(h))
  {
    var t := At(toks, p);
    assert ReadNext(toks, p, V6BlockEnd, c, true) == Dispatch(toks, p, V6BlockEnd, c, t, true);
    assert Dispatch(toks, p, V6BlockEnd, c, t, true) == Dispatch(toks, p, V6Block, c, t, true);
  }

  /**
    With eight or more groups around `::`, the corrected parser refuses the
    group that would take the last slot the `::` needs: the `8 - |left|`-th
    group after it.
  */
  lemma ParseRejectsFull(left: seq<string>, right: seq<string>, tail: seq<Token>)
    requires Groups(left) && Groups(right) && |left| <= 7 && 1 <= |right| <= 7 && |left| + |right| >= 8 && Lexed(tail)
    ensures Lexed(CompressedToks(left, right) + tail)
    ensures Parse(CompressedToks(left, right) + tail) == Failed(InvalidBlock(right[7 - |left|]))
  {
    var toks := CompressedToks(left, right) + tail;
    var q := |GroupToks(left)| + 2;
    CompressedLexed(left, right, tail);
    CompressedLeft(left, right, tail);
    CompressedRight(left, right, tail);
    RejectSplit(toks, left, right, q);
  }

  lemma RejectSplit(toks: seq<Token>, left: seq<string>, right: seq<string>, q: nat)
    requires Lexed(toks) && Groups(left) && Groups(right) && |left| <= 7 && 1 <= |right| <= 7 && |left| + |right| >= 8
    requires q == if |left| == 0 then 2 else 2 * |left| + 1
    requires GroupsAt(toks, 0, left)
    requires At(toks, q - 2) == Token(Colon, ":") && At(toks, q - 1) == Token(Colon, ":")
    requires GroupsAt(toks, q, right)
    ensures ReadNext(toks, 0, Init, Start, true) == Failed(InvalidBlock(right[7 - |left|]))
  {
    var c2 := BeforePart(toks, left, q, true);
    var k := 7 - |left|;
    if k == 0 {
      RejectFirst(toks, q, c2, right[0]);
    } else {
      GroupsTail(toks, q, right);
      AfterFirstGroup(toks, q, c2, right[0], true);
      var mid := right[1..][..k - 1];
      ColonGroupsPrefix(toks, q + 1, right[1..], k - 1);
      AfterPrefix(toks, q + 1, Put(c2, right[0]), mid, true);
      var c3 := Advance(Put(c2, right[0]), mid);
      assert right[1..][k - 1] == right[k];
      RejectAfter(toks, q + 1 + 2 * |mid|, c3, right[k]);
    }
  }
}
