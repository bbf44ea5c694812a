/**
  The tokenizer `lex` of the prototype in main.c, over the whole input as a
  string instead of a stream: maximal runs of hexadecimal digits (numbers,
  lower-cased) and of delimiters, single colons, dots and unknown
  characters, and an end-of-file token. A run that fills the 32-byte token
  buffer stops the lexer with an overflow.
*/
module Lexer {
  import opened Digits

  /** The token kinds (`TOK_*`); Overflow stands for `lex` setting `LEX_EOVERFLOW`. */
  datatype Kind = Delim | Colon | UInt | Dot | Unknown | Eof | Overflow

  datatype Token = Token(kind: Kind, text: string)

  /** `LEX_MAX_BUF`: a run reaching `LEX_MAX_BUF - 1` characters overflows. */
  const MaxBuf: nat := 32

  predicate IsUpperHex(c: char)
  {
    'A' <= c <= 'F'
  }

  predicate IsDelim(c: char)
  {
    c == ',' || c == ' ' || c == '\t' || c == '\r' || c == '\n'
  }

  /** The kind the `switch` of `lex` gives a character. */
  function ClassOf(c: char): (k: Kind)
    ensures k != Eof && k != Overflow
    ensures k == UInt <==> IsHexDigit(c) || IsUpperHex(c)
    ensures k == Delim <==> IsDelim(c)
  {
    if IsHexDigit(c) || IsUpperHex(c) then UInt
    else if c == ':' then Colon
    else if c == '.' then Dot
    else if IsDelim(c) then Delim
    else Unknown
  }

  /** Colons, dots, unknown characters and end of file are tokens of their own; numbers and delimiters run on. */
  predicate SingleChar(k: Kind)
  {
    k == Colon || k == Dot || k == Unknown
  }

  /** `c + ('a' - 'A')` for the upper-case hexadecimal letters. */
  function Lower(c: char): (r: char)
    ensures IsHexDigit(c) || IsUpperHex(c) ==> IsHexDigit(r)
    ensures !IsUpperHex(c) ==> r == c
  {
    if IsUpperHex(c) then (c as int + ('a' as int - 'A' as int)) as char else c
  }

  function LowerAll(s: string): (r: string)
    ensures |r| == |s|
    ensures forall i :: 0 <= i < |s| ==> r[i] == Lower(s[i])
  {
    if |s| == 0 then "" else [Lower(s[0])] + LowerAll(s[1..])
  }

  /** The length of the run of characters of kind k at the start of s. */
  function RunLength(s: string, k: Kind): (n: nat)
    ensures n <= |s|
    ensures forall i :: 0 <= i < n ==> ClassOf(s[i]) == k
    ensures n < |s| ==> ClassOf(s[n]) != k
  {
    if |s| == 0 || ClassOf(s[0]) != k then 0 else 1 + RunLength(s[1..], k)
  }

  /**
    Successive calls of `lex` on the input s: each token in order, ending
    with the end-of-file token, or with Overflow at the first run of
    `MaxBuf - 1` or more characters.
  */
  function Lex(s: string): (r: seq<Token>)
    decreases |s|
  {
    if |s| == 0 then [Token(Eof, "")]
    else
      var k := ClassOf(s[0]);
      if SingleChar(k) then [Token(k, [s[0]])] + Lex(s[1..])
      else
        var n := RunLength(s, k);
        if n >= MaxBuf - 1 then [Token(Overflow, "")]
        else [Token(k, LowerAll(s[..n]))] + Lex(s[n..])
  }

  /** What the parser may rely on in the lexer's output: numbers are non-empty lower-case hexadecimal. */
  predicate Lexed(toks: seq<Token>)
  {
    forall i :: 0 <= i < |toks| && toks[i].kind == UInt ==> 1 <= |toks[i].text| && AllHex(toks[i].text)
  }

  /** The concatenated texts of tokens. */
  function Texts(toks: seq<Token>): string
  {
    if |toks| == 0 then "" else toks[0].text + Texts(toks[1..])
  }

  /** How long the first token of a non-empty input is, when the lexer does not overflow on it. */
  function Width(s: string): (n: nat)
    requires |s| > 0
    ensures 1 <= n <= |s|
  {
    var k := ClassOf(s[0]);
    if SingleChar(k) then 1 else RunLength(s, k)
  }

  /** Lexing a non-empty input: one token, then the rest of the input; or an overflow. */
  lemma LexStep(s: string)
    requires |s| > 0
    ensures Lex(s)[0].kind == Overflow <==> !SingleChar(ClassOf(s[0])) && Width(s) >= MaxBuf - 1
    ensures Lex(s)[0].kind == Overflow ==> Lex(s) == [Token(Overflow, "")]
    ensures Lex(s)[0].kind != Overflow ==>
      Lex(s) == [Token(ClassOf(s[0]), LowerAll(s[..Width(s)]))] + Lex(s[Width(s)..])
  {
    var k := ClassOf(s[0]);
    if SingleChar(k) {
      assert LowerAll(s[..1]) == [s[0]];
    }
  }

  /** The lexer's output ends with the end-of-file or overflow token and has neither before. */
  lemma {:induction false} LexEnds(s: string)
    ensures |Lex(s)| >= 1
    ensures Lex(s)[|Lex(s)| - 1].kind in {Eof, Overflow}
    ensures forall i :: 0 <= i < |Lex(s)| - 1 ==> Lex(s)[i].kind !in {Eof, Overflow}
    decreases |s|
  {
    if |s| > 0 {
      LexStep(s);
      if Lex(s)[0].kind != Overflow {
        LexEnds(s[Width(s)..]);
      }
    }
  }

  /** Numbers are lower-case hexadecimal of 1 to `MaxBuf - 2` characters. */
  lemma {:induction false} LexNumbers(s: string)
    ensures Lexed(Lex(s))
    ensures forall i :: 0 <= i < |Lex(s)| && Lex(s)[i].kind == UInt ==> |Lex(s)[i].text| < MaxBuf - 1
    decreases |s|
  {
    if |s| > 0 {
      LexStep(s);
      if Lex(s)[0].kind != Overflow {
        var w := Width(s);
        LexNumbers(s[w..]);
        if ClassOf(s[0]) == UInt {
          assert forall i :: 0 <= i < w ==> IsHexDigit(LowerAll(s[..w])[i]);
        }
      }
    }
  }

  /** Runs are maximal: a run token is never followed by a token of its own kind. */
  lemma {:induction false} LexMaximal(s: string)
    ensures forall i :: 0 <= i < |Lex(s)| - 1 && !SingleChar(Lex(s)[i].kind) ==> Lex(s)[i + 1].kind != Lex(s)[i].kind
    decreases |s|
  {
    if |s| > 0 {
      LexStep(s);
      if Lex(s)[0].kind != Overflow {
        var w := Width(s);
        LexMaximal(s[w..]);
        if !SingleChar(ClassOf(s[0])) && w < |s| {
          LexStep(s[w..]);
          assert s[w..][0] == s[w];
        }
      }
    }
  }

  /** Without overflow the token texts spell the input, hexadecimal letters lower-cased. */
  lemma {:induction false} LexTexts(s: string)
    ensures Lex(s)[|Lex(s)| - 1].kind == Eof ==> Texts(Lex(s)) == LowerAll(s)
    decreases |s|
  {
    if |s| > 0 {
      LexStep(s);
      if Lex(s)[0].kind != Overflow {
        var w := Width(s);
        LexTexts(s[w..]);
        assert Lex(s)[1..] == Lex(s[w..]);
        assert s == s[..w] + s[w..];
        LowerAllAppend(s[..w], s[w..]);
      }
    }
  }

  lemma {:induction false} LowerAllAppend(a: string, b: string)
    ensures LowerAll(a + b) == LowerAll(a) + LowerAll(b)
  {
    assert forall i :: 0 <= i < |a + b| ==> LowerAll(a + b)[i] == (LowerAll(a) + LowerAll(b))[i];
  }

  /** The first token of a non-empty input has the kind of its first character, unless the lexer overflows. */
  lemma LexStartsWithClass(s: string)
    requires |s| > 0
    ensures Lex(s)[0].kind == ClassOf(s[0]) || Lex(s)[0].kind == Overflow
  {
  }

  /** A number of fewer than `MaxBuf - 1` lower-case digits, followed by anything but a digit, lexes as one token. */
  lemma LexNumber(h: string, rest: string)
    requires 1 <= |h| < MaxBuf - 1 && AllHex(h)
    requires |rest| == 0 || ClassOf(rest[0]) != UInt
    ensures Lex(h + rest) == [Token(UInt, h)] + Lex(rest)
  {
    var s := h + rest;
    assert ClassOf(s[0]) == UInt;
    RunLengthOf(h, rest);
    assert s[..|h|] == h && s[|h|..] == rest;
    assert LowerAll(h) == h;
  }

  lemma {:induction false} RunLengthOf(h: string, rest: string)
    requires forall i :: 0 <= i < |h| ==> ClassOf(h[i]) == UInt
    requires |rest| == 0 || ClassOf(rest[0]) != UInt
    ensures RunLength(h + rest, UInt) == |h|
  {
    if |h| > 0 {
      assert (h + rest)[1..] == h[1..] + rest;
      RunLengthOf(h[1..], rest);
    } else {
      assert h + rest == rest;
    }
  }

  /** A colon, dot or unknown character lexes as a token of its own. */
  lemma LexSingle(c: char, rest: string)
    requires SingleChar(ClassOf(c))
    ensures Lex([c] + rest) == [Token(ClassOf(c), [c])] + Lex(rest)
  {
    assert ([c] + rest)[1..] == rest;
  }

  /** A run of delimiters lexes as one token. */
  lemma LexDelims(d: string, rest: string)
    requires 1 <= |d| < MaxBuf - 1
    requires forall i :: 0 <= i < |d| ==> IsDelim(d[i])
    requires |rest| == 0 || !IsDelim(rest[0])
    ensures Lex(d + rest) == [Token(Delim, d)] + Lex(rest)
  {
    var s := d + rest;
    DelimRunLength(d, rest);
    assert s[..|d|] == d && s[|d|..] == rest;
    assert LowerAll(d) == d;
  }

  lemma {:induction false} DelimRunLength(d: string, rest: string)
    requires forall i :: 0 <= i < |d| ==> IsDelim(d[i])
    requires |rest| == 0 || !IsDelim(rest[0])
    ensures RunLength(d + rest, Delim) == |d|
  {
    if |d| > 0 {
      assert (d + rest)[1..] == d[1..] + rest;
      DelimRunLength(d[1..], rest);
    } else {
      assert d + rest == rest;
    }
  }
}
