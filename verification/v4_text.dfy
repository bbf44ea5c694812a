/**
  Dotted-quad text of IPv4 prefixes: the `sscanf("%hhu.%hhu.%hhu.%hhu%n")`
  scanner shared by both `addr_parse_v4` functions, and `addr_print_v4`.
*/
module V4Text {
  import opened Options
  import opened Digits
  import opened Prefix
  import Arith

  /** A value of one `unsigned char`. */
  type Octet = x: nat | x <= 255

  /**
    One `%hhu` conversion: a run of decimal digits and its value, with the
    number of characters read. A number above 255 is refused (the C
    conversion is undefined there), as is input that does not start with a digit.
  */
  function ScanOctet(s: string): (r: Option<(Octet, nat)>)
    ensures r.Some? ==> 1 <= r.value.1 <= |s|
  {
    var n := DecRun(s);
    if n == 0 || DecValue(s[..n]) > 255 then None
    else Some((DecValue(s[..n]), n))
  }

  /** k octets separated by '.', and the number of characters they took (the `%n`). */
  function ScanOctets(s: string, k: nat): (r: Option<(seq<Octet>, nat)>)
    requires k >= 1
    ensures r.Some? ==> |r.value.0| == k && r.value.1 <= |s|
    decreases k
  {
    var o := ScanOctet(s);
    if o.None? then None
    else
      var n := o.value.1;
      if k == 1 then Some(([o.value.0], n))
      else if n < |s| && s[n] == '.' then
        var t := ScanOctets(s[n + 1..], k - 1);
        if t.None? then None else Some(([o.value.0] + t.value.0, n + 1 + t.value.1))
      else None
  }

  /** The 32-bit value of four octets, the first most significant. */
  function Pack(vs: seq<Octet>): U32
    requires |vs| == 4
  {
    (vs[0] as nat) * 0x100_0000 + (vs[1] as nat) * 0x1_0000 + (vs[2] as nat) * 0x100 + vs[3] as nat
  }

  /** The four octets of a 32-bit value, as `addr_print_v4` extracts them. */
  function Octets(a: U32): seq<Octet>
  {
    [a / 0x100_0000, a / 0x1_0000 % 0x100, a / 0x100 % 0x100, a % 0x100]
  }

  lemma PackOctets(a: U32)
    ensures Pack(Octets(a)) == a
  {
    var a1 := a / 0x100;
    var a2 := a1 / 0x100;
    assert a == a1 * 0x100 + a % 0x100;
    assert a1 == a2 * 0x100 + a1 % 0x100;
    Arith.DivDiv(a, 0x100, 0x100);
    Arith.DivDiv(a, 0x1_0000, 0x100);
    assert a / 0x1_0000 == a2;
    assert a / 0x100_0000 == a2 / 0x100;
    assert a2 == (a2 / 0x100) * 0x100 + a2 % 0x100;
  }

  /** `%hhu.%hhu...`: the octets written in decimal and joined by dots. */
  function Dotted(vs: seq<Octet>): string
    requires |vs| >= 1
  {
    if |vs| == 1 then DecString(vs[0]) else DecString(vs[0]) + "." + Dotted(vs[1..])
  }

  /**
    `addr_parse_v4` of cidrips.c: four octets, then either nothing (prefix
    length 32) or '/' and a prefix length of at most 32; whatever follows that
    number is ignored, as `sscanf` ignores it.
  */
  function ParseV4(s: string): Option<Prefix>
  {
    match ScanOctets(s, 4)
    case None => None
    case Some((vs, n)) =>
      var rest := s[n..];
      if |rest| == 0 then Some(Prefix(Pack(vs), 32))
      else if rest[0] != '/' then None
      else
        match ScanOctet(rest[1..])
        case None => None
        case Some((c, _)) => if c > 32 then None else Some(Prefix(Pack(vs), c))
  }

  /** `addr_print_v4`: the dotted quad, and `/cidr` only when the prefix is not a single host. */
  function PrintV4(p: Prefix): string
  {
    Dotted(Octets(p.addr)) + (if p.cidr != 32 then "/" + DecString(p.cidr) else "")
  }

  /** Scanning a printed octet stops at the character after its digits. */
  lemma ScanOctetOfNumeral(v: nat, rest: string)
    requires v <= 255
    requires |rest| == 0 || !IsDecDigit(rest[0])
    ensures ScanOctet(DecString(v) + rest) == Some((v, |DecString(v)|))
  {
    DecRunOfNumeral(DecString(v), rest);
    DecRoundTrip(v);
  }

  /** A numeral of value at most 255 and a dot in front of k - 1 scanned octets make k scanned octets. */
  lemma ScanOctetsCons(s: string, d: string, v: Octet, tail: string, k: nat, vs: seq<Octet>, m: nat)
    requires |d| >= 1 && AllDec(d) && DecValue(d) == v && k > 1
    requires s == d + ("." + tail)
    requires ScanOctets(tail, k - 1) == Some((vs, m))
    ensures ScanOctets(s, k) == Some(([v] + vs, |d| + 1 + m))
  {
    DecRunOfNumeral(d, "." + tail);
    assert ScanOctet(s) == Some((v, |d|));
    assert s[|d|] == '.';
    assert s[|d| + 1..] == tail;
  }

  /** Scanning k printed octets followed by a non-digit reads exactly them. */
  lemma {:induction false} ScanOctetsOfDotted(vs: seq<Octet>, rest: string)
    requires |vs| >= 1
    requires |rest| == 0 || !IsDecDigit(rest[0])
    ensures ScanOctets(Dotted(vs) + rest, |vs|) == Some((vs, |Dotted(vs)|))
  {
    if |vs| == 1 {
      ScanOctetOfNumeral(vs[0], rest);
      assert [vs[0]] == vs;
    } else {
      ScanOctetsOfDotted(vs[1..], rest);
      DottedCons(vs, rest);
    }
  }

  /** A dotted string of two or more octets is the first numeral, a dot, and the rest. */
  lemma DottedSplit(vs: seq<Octet>, rest: string)
    requires |vs| >= 2
    ensures Dotted(vs) + rest == DecString(vs[0]) + ("." + (Dotted(vs[1..]) + rest))
    ensures |Dotted(vs)| == |DecString(vs[0])| + 1 + |Dotted(vs[1..])|
  {
  }

  /** The numeral of v and a dot in front of octets vs make the octets v, vs. */
  lemma ScanOctetsPrepend(vs: seq<Octet>, tail: string, m: nat, s: string, d: string)
    requires |vs| >= 2
    requires |d| >= 1 && AllDec(d) && DecValue(d) == vs[0]
    requires s == d + ("." + tail)
    requires ScanOctets(tail, |vs| - 1) == Some((vs[1..], m))
    ensures ScanOctets(s, |vs|) == Some((vs, |d| + 1 + m))
  {
    ScanOctetsCons(s, d, vs[0], tail, |vs|, vs[1..], m);
    assert [vs[0]] + vs[1..] == vs;
  }

  /** The inductive step of ScanOctetsOfDotted. */
  lemma DottedCons(vs: seq<Octet>, rest: string)
    requires |vs| >= 2
    requires ScanOctets(Dotted(vs[1..]) + rest, |vs| - 1) == Some((vs[1..], |Dotted(vs[1..])|))
    ensures ScanOctets(Dotted(vs) + rest, |vs|) == Some((vs, |Dotted(vs)|))
  {
    var d := DecString(vs[0]);
    var tail := Dotted(vs[1..]) + rest;
    var s := Dotted(vs) + rest;
    assert s == d + ("." + tail) && |Dotted(vs)| == |d| + 1 + |Dotted(vs[1..])| by {
      DottedSplit(vs, rest);
    }
    assert |d| >= 1 && AllDec(d) && DecValue(d) == vs[0] by {
      DecRoundTrip(vs[0]);
    }
    ScanOctetsPrepend(vs, tail, |Dotted(vs[1..])|, s, d);
  }

  /** Printing then parsing gives the prefix back. */
  lemma PrintParseV4(p: Prefix)
    ensures ParseV4(PrintV4(p)) == Some(p)
  {
    var vs := Octets(p.addr);
    PackOctets(p.addr);
    var suffix := if p.cidr != 32 then "/" + DecString(p.cidr) else "";
    ScanOctetsOfDotted(vs, suffix);
    var s := PrintV4(p);
    assert s[|Dotted(vs)|..] == suffix;
    if p.cidr != 32 {
      assert suffix[1..] == DecString(p.cidr) + "";
      ScanOctetOfNumeral(p.cidr, "");
    }
  }

  /** Four octets with nothing after them are a host address: the prefix length defaults to 32. */
  lemma ParseV4DefaultsToHost(vs: seq<Octet>)
    requires |vs| == 4
    ensures ParseV4(Dotted(vs)) == Some(Prefix(Pack(vs), 32))
  {
    ScanOctetsOfDotted(vs, "");
    assert Dotted(vs) + "" == Dotted(vs);
  }

  /** A prefix length above 32 is refused. */
  lemma ParseV4RejectsLongCidr(vs: seq<Octet>, c: nat)
    requires |vs| == 4
    requires c > 32
    ensures ParseV4(Dotted(vs) + "/" + DecString(c)) == None
  {
    var s := Dotted(vs) + "/" + DecString(c);
    assert s == Dotted(vs) + ("/" + DecString(c));
    ScanOctetsOfDotted(vs, "/" + DecString(c));
    assert s[|Dotted(vs)|..][1..] == DecString(c);
    DecRunOfNumeral(DecString(c), "");
    assert DecString(c) + "" == DecString(c);
    DecRoundTrip(c);
  }

  /** A numeral and a dot in front of text that does not scan as k - 1 octets do not scan as k octets. */
  lemma ScanOctetsConsNone(d: string, tail: string, k: nat)
    requires |d| >= 1 && AllDec(d) && k > 1
    requires ScanOctets(tail, k - 1) == None
    ensures ScanOctets(d + "." + tail, k) == None
  {
    var s := d + "." + tail;
    assert s == d + ("." + tail);
    DecRunOfNumeral(d, "." + tail);
    assert s[|d| + 1..] == tail;
  }

  /** Fewer than k octets are refused. */
  lemma {:induction false} ScanOctetsShort(vs: seq<Octet>, k: nat)
    requires 1 <= |vs| < k
    ensures ScanOctets(Dotted(vs), k) == None
  {
    var d := DecString(vs[0]);
    if |vs| == 1 {
      ScanOctetOfNumeral(vs[0], "");
      assert Dotted(vs) == d + "";
      assert ScanOctet(Dotted(vs)) == Some((vs[0], |Dotted(vs)|));
    } else {
      var tail := Dotted(vs[1..]);
      ScanOctetsShort(vs[1..], k - 1);
      ScanOctetsConsNone(d, tail, k);
      assert Dotted(vs) == d + "." + tail;
    }
  }

  lemma ParseV4RejectsShort(vs: seq<Octet>)
    requires 1 <= |vs| < 4
    ensures ParseV4(Dotted(vs)) == None
  {
    ScanOctetsShort(vs, 4);
  }
}
