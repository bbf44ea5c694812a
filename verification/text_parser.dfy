/**
  `parse` of the prototype in main.c: the state machine that reads one
  IPv4 dotted quad or IPv6 colon-hex address (with at most one `::`, as in
  section 2.2 of RFC 4291) from the token stream of `lex`. It returns the
  address, 2 when the input ends before an address starts, or 0 on an
  error.
*/
module TextParser {
  import opened Digits
  import opened Lexer
  import opened TextAddr

  /** The states `PARSE_*`. */
  datatype State =
    | Init | DotS | ColonS | BlockDelim | SecondColon | Block | V4Block
    | V6DoubleColon | V6Block | V6BlockEnd | ColonEnd | End

  /** `_expected_tokens[state]`: the token kinds a state accepts when it reads a new token. */
  function Expected(s: State): set<Kind>
  {
    match s
    case Init => {Delim, Colon, UInt, Eof}
    case DotS => {Dot}
    case ColonS => {Colon}
    case BlockDelim => {Colon, Dot}
    case SecondColon => {Colon}
    case Block => {UInt}
    case V4Block => {UInt}
    case V6DoubleColon => {UInt, Colon}
    case V6Block => {UInt}
    case V6BlockEnd => {UInt, Delim, Eof}
    case ColonEnd => {Colon, Eof, Delim}
    case End => {Delim, Eof}
  }

  /** `ADDRVER_*`. */
  datatype Ver = Undecided | V4 | V6

  /**
    The parser's local variables: `blocknum`, `addrver`, `ipv6_double_colon`,
    `ipv6_blocknum_a`, and the buffers `v4`, `v6b` (groups being read) and
    `v6` (the groups before `::`).
  */
  datatype Ctx = Ctx(blocknum: nat, ver: Ver, dcolon: bool, before: nat, v4: seq<nat>, v6b: seq<nat>, v6: seq<nat>)

  /** What `parse` returns: 1 with the address and the index of the token after it, 2, or 0 with the error. */
  datatype Outcome = Parsed(addr: Addr, next: nat) | NoAddress | Failed(err: Error)

  datatype Error = BufferOverflow | Unexpected(expected: set<Kind>, actual: Kind) | InvalidBlock(text: string)

  function Zeros(n: nat): (r: seq<nat>)
    ensures |r| == n && forall i :: 0 <= i < n ==> r[i] == 0
  {
    seq(n, i => 0)
  }

  const Start: Ctx := Ctx(0, Undecided, false, 0, Zeros(4), Zeros(8), Zeros(8))

  /**
    `_suggest_addr_ver` on a number: 0 when it is longer than 4 characters,
    1 when it is decimal and at most 255, 2 otherwise.
  */
  function Suggest(t: string): (r: nat)
    requires AllHex(t)
    ensures r <= 2
    ensures r == 0 <==> |t| > 4
    ensures r == 1 <==> |t| <= 4 && AllDec(t) && DecValue(t) <= 255
  {
    if |t| > 4 then 0
    else if AllDec(t) then (if DecValue(t) <= 255 then 1 else 2)
    else 2
  }

  /** The bounds the buffers' indices keep in each state. */
  predicate Wf(s: State, c: Ctx)
  {
    |c.v4| == 4 && |c.v6b| == 8 && |c.v6| == 8 && c.blocknum <= 8 &&
    (s != End ==> c.blocknum < 8) &&
    (s == V4Block || s == DotS ==> c.blocknum < 4) &&
    (s == Init || s == Block ==> c.blocknum == 0) &&
    (s == BlockDelim ==> c.blocknum == 1)
  }

  /** The token `lex` returns at index p: past the end of the input it keeps returning end of file. */
  function At(toks: seq<Token>, p: nat): Token
  {
    if p < |toks| then toks[p] else Token(Eof, "")
  }

  function Remaining(toks: seq<Token>, p: nat): nat
  {
    if p < |toks| then |toks| - p else 0
  }

  /** States that hand the current token on to another state (`goto __parse_current_token_label`). */
  function Rank(s: State): nat
  {
    if s in {Init, BlockDelim, ColonEnd, V6DoubleColon, V6BlockEnd} then 1 else 0
  }

  /** `__setaddr`: the v4 octets with prefix 32, or the groups with those after `::` right-aligned, with prefix 128. */
  function Assemble(c: Ctx): Addr
    requires |c.v4| == 4 && |c.v6b| == 8 && |c.v6| == 8 && c.blocknum <= 8
  {
    if c.ver == V4 then V4Addr(c.v4, 32)
    else if c.dcolon then V6Addr(c.v6[..8 - c.blocknum] + c.v6b[..c.blocknum], 128)
    else V6Addr(c.v6b, 128)
  }

  /**
    `__parse_next_token_label`: read the token at p and check it against the
    state. `checked` selects the corrected parser, which refuses a group
    after `::` that would leave no zero group for the `::` to stand for.
  */
  function ReadNext(toks: seq<Token>, p: nat, s: State, c: Ctx, checked: bool): Outcome
    requires Lexed(toks) && Wf(s, c)
    decreases Remaining(toks, p), 2
  {
    var t := At(toks, p);
    if t.kind == Overflow then Failed(BufferOverflow)
    else if t.kind !in Expected(s) then Failed(Unexpected(Expected(s), t.kind))
    else Dispatch(toks, p, s, c, t, checked)
  }

  /** `__parse_current_token_label`: the `switch (state)` on the token t at index p. */
  function Dispatch(toks: seq<Token>, p: nat, s: State, c: Ctx, t: Token, checked: bool): Outcome
    requires Lexed(toks) && Wf(s, c)
    requires t == At(toks, p) && t.kind in Expected(s)
    decreases Remaining(toks, p), Rank(s)
  {
    match s
    case Init =>
      if t.kind == Delim then ReadNext(toks, p + 1, Init, c, checked)
      else if t.kind == Colon then ReadNext(toks, p + 1, SecondColon, c.(ver := V6), checked)
      else if t.kind == UInt then Dispatch(toks, p, Block, c, t, checked)
      else NoAddress
    case Block =>
      var v := Suggest(t.text);
      if v == 0 then Failed(InvalidBlock(t.text))
      else if v == 1 then
        ReadNext(toks, p + 1, BlockDelim, c.(v4 := c.v4[c.blocknum := DecValue(t.text)], blocknum := c.blocknum + 1), checked)
      else
        ReadNext(toks, p + 1, ColonS, c.(v6b := c.v6b[c.blocknum := HexValue(t.text)], blocknum := c.blocknum + 1, ver := V6), checked)
    case BlockDelim =>
      if t.kind == Colon then
        var c' := if c.ver == Undecided then c.(v6b := c.v6b[0 := Reinterpret(c.v4[0])]) else c;
        Dispatch(toks, p, ColonS, c'.(ver := V6), t, checked)
      else Dispatch(toks, p, DotS, c.(ver := V4), t, checked)
    case ColonS =>
      ReadNext(toks, p + 1, if c.dcolon then V6Block else V6DoubleColon, c, checked)
    case ColonEnd =>
      if t.kind == Colon then Dispatch(toks, p, ColonS, c, t, checked)
      else Dispatch(toks, p, End, c, t, checked)
    case DotS =>
      ReadNext(toks, p + 1, V4Block, c, checked)
    case V4Block =>
      if Suggest(t.text) == 1 then
        var c' := c.(v4 := c.v4[c.blocknum := DecValue(t.text) % 256], blocknum := c.blocknum + 1);
        ReadNext(toks, p + 1, if c'.blocknum == 4 then End else DotS, c', checked)
      else Failed(InvalidBlock(t.text))
    case V6Block =>
      if Suggest(t.text) == 0 || (checked && c.dcolon && c.before + c.blocknum + 1 >= 8) then Failed(InvalidBlock(t.text))
      else
        var c' := c.(v6b := c.v6b[c.blocknum := HexValue(t.text) % 0x1_0000], blocknum := c.blocknum + 1);
        ReadNext(toks, p + 1, if c'.blocknum == 8 then End else if c.dcolon then ColonEnd else ColonS, c', checked)
    case V6DoubleColon =>
      if t.kind == Colon then Dispatch(toks, p, SecondColon, c, t, checked)
      else Dispatch(toks, p, V6Block, c, t, checked)
    case V6BlockEnd =>
      if t.kind == UInt then Dispatch(toks, p, V6Block, c, t, checked)
      else Dispatch(toks, p, End, c, t, checked)
    case SecondColon =>
      ReadNext(toks, p + 1, V6BlockEnd,
        c.(dcolon := true, v6 := c.v6b[..c.blocknum] + c.v6[c.blocknum..], before := c.blocknum, blocknum := 0), checked)
    case End =>
      Parsed(Assemble(c), p + 1)
  }

  /**
    The first block read as decimal and then followed by a colon: its value
    is printed in decimal (`sprintf("%u")`) and read back as hexadecimal.
  */
  function Reinterpret(v: nat): nat
  {
    DecIsHex(DecString(v));
    HexValue(DecString(v))
  }

  /** `parse(input, addr)` as written, from the first token of the input. */
  function ParseAsWritten(toks: seq<Token>): Outcome
    requires Lexed(toks)
  {
    ReadNext(toks, 0, Init, Start, false)
  }

  /** `parse` with the corrected check that `::` stands for at least one zero group. */
  function Parse(toks: seq<Token>): Outcome
    requires Lexed(toks)
  {
    ReadNext(toks, 0, Init, Start, true)
  }
}
