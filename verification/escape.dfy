/**
  `strcpy_escaped` of cidrips.c: the decoder for the `--prefix` and
  `--postfix` arguments, which turns `\n`, `\r` and `\t` into control
  characters and copies every other escape unchanged.
*/
module Escape {

  /** What an escape `\c` becomes: a control character for n, r and t, else the backslash and c themselves. */
  function Decode(c: char): (r: string)
    ensures 1 <= |r| <= 2
    ensures |r| == 1 <==> c == 'n' || c == 'r' || c == 't'
  {
    if c == 'n' then "\n"
    else if c == 'r' then "\r"
    else if c == 't' then "\t"
    else ['\\', c]
  }

  /**
    The output of the copy loop over s, when the previous character left it
    in escape state `escape` (a backslash was read and not yet decoded).
  */
  function Unescape(s: string, escape: bool): (r: string)
    ensures |r| <= |s| + (if escape then 1 else 0)
    ensures escape && |s| == 0 ==> r == ""
  {
    if |s| == 0 then ""
    else if escape then Decode(s[0]) + Unescape(s[1..], false)
    else if s[0] == '\\' then Unescape(s[1..], true)
    else [s[0]] + Unescape(s[1..], false)
  }

  /** Whether the loop is in escape state after reading s from state `escape`. */
  function EscapeAfter(s: string, escape: bool): bool
  {
    if |s| == 0 then escape
    else if escape then EscapeAfter(s[1..], false)
    else EscapeAfter(s[1..], s[0] == '\\')
  }

  /** `strcpy_escaped(s0, s1)`: the loop of cidrips.c, producing what it writes before the terminating NUL. */
  method StrcpyEscaped(s1: string) returns (s0: string)
    ensures s0 == Unescape(s1, false)
    ensures |s0| <= |s1|
  {
    var escape := false;
    var p := 0;
    s0 := "";
    while p < |s1|
      invariant 0 <= p <= |s1|
      invariant s0 + Unescape(s1[p..], escape) == Unescape(s1, false)
    {
      assert s1[p..][1..] == s1[p + 1..];
      if !escape {
        if s1[p] == '\\' {
          escape := true;
        } else {
          s0 := s0 + [s1[p]];
        }
      } else {
        escape := false;
        s0 := s0 + Decode(s1[p]);
      }
      p := p + 1;
    }
  }

  /** Decoding works piecewise: the second part starts in the state the first part left. */
  lemma {:induction false} UnescapeAppend(s: string, t: string, escape: bool)
    ensures Unescape(s + t, escape) == Unescape(s, escape) + Unescape(t, EscapeAfter(s, escape))
  {
    if |s| == 0 {
      assert s + t == t;
    } else {
      assert (s + t)[1..] == s[1..] + t;
      if escape {
        UnescapeAppend(s[1..], t, false);
      } else {
        UnescapeAppend(s[1..], t, s[0] == '\\');
      }
    }
  }

  /** A lone backslash at the end, after a complete escape or plain character, is dropped. */
  lemma TrailingBackslashDropped(s: string)
    requires !EscapeAfter(s, false)
    ensures Unescape(s + "\\", false) == Unescape(s, false)
  {
    UnescapeAppend(s, "\\", false);
    assert Unescape("\\", false) == Unescape("", true);
  }

  predicate NoBackslash(s: string)
  {
    forall k :: 0 <= k < |s| ==> s[k] != '\\'
  }

  /** Text without a backslash is copied unchanged. */
  lemma {:induction false} PlainCopied(s: string)
    requires NoBackslash(s)
    ensures Unescape(s, false) == s
    ensures !EscapeAfter(s, false)
  {
    if |s| > 0 {
      PlainCopied(s[1..]);
      assert [s[0]] + s[1..] == s;
    }
  }

  /** The inverse for backslash-free text: the control characters n, r, t written as escapes. */
  function Escape(t: string): (r: string)
    ensures |t| <= |r| <= 2 * |t|
  {
    if |t| == 0 then ""
    else if t[0] == '\n' then "\\n" + Escape(t[1..])
    else if t[0] == '\r' then "\\r" + Escape(t[1..])
    else if t[0] == '\t' then "\\t" + Escape(t[1..])
    else [t[0]] + Escape(t[1..])
  }

  /** Decoding the escaped form of backslash-free text gives the text back. */
  lemma {:induction false} UnescapeEscape(t: string)
    requires NoBackslash(t)
    ensures Unescape(Escape(t), false) == t
  {
    if |t| > 0 {
      UnescapeEscape(t[1..]);
      var e := Escape(t);
      var rest := Escape(t[1..]);
      if t[0] == '\n' || t[0] == '\r' || t[0] == '\t' {
        assert e[2..] == rest;
        assert e[1..][1..] == rest;
      } else {
        assert e[1..] == rest;
      }
      assert [t[0]] + t[1..] == t;
    }
  }
}
