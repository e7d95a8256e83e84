/** Base64 with the standard alphabet and `=` padding (section 4 of
    RFC 4648), as Python's `base64.b64encode` produces it. */
module Base64 {
  import opened Wrappers

  type Byte = x: int | 0 <= x < 256
  type Group = x: int | 0 <= x < 64

  /** The character for a 6-bit group: A-Z, a-z, 0-9, '+', '/'. */
  function Sextet(i: Group): (c: char)
    ensures c != '='
    ensures SextetIndex(c) == Some(i)
  {
    if i < 26 then ('A' as int + i) as char
    else if i < 52 then ('a' as int + i - 26) as char
    else if i < 62 then ('0' as int + i - 52) as char
    else if i == 62 then '+'
    else '/'
  }

  /** The 6-bit group a character of the alphabet stands for. */
  function SextetIndex(c: char): Option<Group>
  {
    if 'A' <= c <= 'Z' then Some(c as int - 'A' as int)
    else if 'a' <= c <= 'z' then Some(c as int - 'a' as int + 26)
    else if '0' <= c <= '9' then Some(c as int - '0' as int + 52)
    else if c == '+' then Some(62)
    else if c == '/' then Some(63)
    else None
  }

  // Three bytes b0 b1 b2 hold the four 6-bit groups g0 g1 g2 g3, most
  // significant bit first; a missing trailing byte counts as zero.
  function G0(b0: Byte): Group { b0 / 4 }
  function G1(b0: Byte, b1: Byte): Group { b0 % 4 * 16 + b1 / 16 }
  function G2(b1: Byte, b2: Byte): Group { b1 % 16 * 4 + b2 / 64 }
  function G3(b2: Byte): Group { b2 % 64 }

  function B0(g0: Group, g1: Group): Byte { g0 * 4 + g1 / 16 }
  function B1(g1: Group, g2: Group): Byte { g1 % 16 * 16 + g2 / 4 }
  function B2(g2: Group, g3: Group): Byte { g2 % 4 * 64 + g3 }

  /** Splitting three bytes into four groups and joining them again gives
      the three bytes back. */
  lemma Regroup(b0: Byte, b1: Byte, b2: Byte)
    ensures B0(G0(b0), G1(b0, b1)) == b0
    ensures B1(G1(b0, b1), G2(b1, b2)) == b1
    ensures B2(G2(b1, b2), G3(b2)) == b2
  {
    assert G1(b0, b1) / 16 == b0 % 4;
    assert G1(b0, b1) % 16 == b1 / 16;
    assert G2(b1, b2) / 4 == b1 % 16;
    assert G2(b1, b2) % 4 == b2 / 64;
  }

  /** Each group of three bytes becomes four characters; a final group of
      one or two bytes is padded with `=` to four characters. */
  function Encode(b: seq<Byte>): (s: string)
    ensures |s| == 4 * ((|b| + 2) / 3)
    decreases |b|
  {
    if |b| == 0 then []
    else if |b| == 1 then
      [Sextet(G0(b[0])), Sextet(G1(b[0], 0)), '=', '=']
    else if |b| == 2 then
      [Sextet(G0(b[0])), Sextet(G1(b[0], b[1])), Sextet(G2(b[1], 0)), '=']
    else
      [Sextet(G0(b[0])), Sextet(G1(b[0], b[1])), Sextet(G2(b[1], b[2])), Sextet(G3(b[2]))]
      + Encode(b[3..])
  }

  /** The bytes of one four-character group: three, or one or two when the
      group ends in padding. */
  function DecodeGroup(q: string): Option<seq<Byte>>
    requires |q| == 4
  {
    var g0, g1, g2, g3 := SextetIndex(q[0]), SextetIndex(q[1]), SextetIndex(q[2]), SextetIndex(q[3]);
    if g0.None? || g1.None? then None
    else if q[2] == '=' && q[3] == '=' then Some([B0(g0.value, g1.value)])
    else if g2.None? then None
    else if q[3] == '=' then Some([B0(g0.value, g1.value), B1(g1.value, g2.value)])
    else if g3.None? then None
    else Some([B0(g0.value, g1.value), B1(g1.value, g2.value), B2(g2.value, g3.value)])
  }

  /** The inverse of Encode; padding may only end the last group. */
  function Decode(s: string): Option<seq<Byte>>
    decreases |s|
  {
    if |s| == 0 then Some([])
    else if |s| < 4 then None
    else
      match DecodeGroup(s[..4])
      case None => None
      case Some(head) =>
        if |head| < 3 then (if |s| == 4 then Some(head) else None)
        else
          match Decode(s[4..])
          case None => None
          case Some(rest) => Some(head + rest)
  }

  /** A group that ends in padding is decoded only as the last group. */
  lemma DecodeFinalGroup(s: string, head: seq<Byte>)
    requires |s| == 4 && DecodeGroup(s) == Some(head) && |head| < 3
    ensures Decode(s) == Some(head)
  {
    assert s[..4] == s;
  }

  lemma DecodeEncodeOne(b: seq<Byte>)
    requires |b| == 1
    ensures Decode(Encode(b)) == Some(b)
  {
    assert b == [b[0]];
    var g0, g1 := G0(b[0]), G1(b[0], 0);
    var s := Encode(b);
    assert s == [Sextet(g0), Sextet(g1), '=', '='];
    assert DecodeGroup(s) == Some([B0(g0, g1)]);
    Regroup(b[0], 0, 0);
    DecodeFinalGroup(s, b);
  }

  lemma DecodeEncodeTwo(b: seq<Byte>)
    requires |b| == 2
    ensures Decode(Encode(b)) == Some(b)
  {
    assert b == [b[0], b[1]];
    var g0, g1, g2 := G0(b[0]), G1(b[0], b[1]), G2(b[1], 0);
    var s := Encode(b);
    assert s == [Sextet(g0), Sextet(g1), Sextet(g2), '='];
    assert DecodeGroup(s) == Some([B0(g0, g1), B1(g1, g2)]);
    Regroup(b[0], b[1], 0);
    DecodeFinalGroup(s, b);
  }

  lemma DecodeEncodeStep(b0: Byte, b1: Byte, b2: Byte, rest: seq<Byte>)
    requires Decode(Encode(rest)) == Some(rest)
    ensures Decode(Encode([b0, b1, b2] + rest)) == Some([b0, b1, b2] + rest)
  {
    var b := [b0, b1, b2] + rest;
    assert b[0] == b0 && b[1] == b1 && b[2] == b2 && b[3..] == rest;
    var g0, g1, g2, g3 := G0(b0), G1(b0, b1), G2(b1, b2), G3(b2);
    var q := [Sextet(g0), Sextet(g1), Sextet(g2), Sextet(g3)];
    var s := Encode(b);
    assert s == q + Encode(rest);
    assert s[..4] == q && s[4..] == Encode(rest);
    assert DecodeGroup(q) == Some([B0(g0, g1), B1(g1, g2), B2(g2, g3)]);
    Regroup(b0, b1, b2);
  }

  /** The encoding can be undone: decoding it gives the original bytes. */
  lemma {:induction false} DecodeEncode(b: seq<Byte>)
    ensures Decode(Encode(b)) == Some(b)
    decreases |b|
  {
    if |b| == 1 {
      DecodeEncodeOne(b);
    } else if |b| == 2 {
      DecodeEncodeTwo(b);
    } else if |b| >= 3 {
      assert b == [b[0], b[1], b[2]] + b[3..];
      DecodeEncode(b[3..]);
      DecodeEncodeStep(b[0], b[1], b[2], b[3..]);
    }
  }

  /** Distinct byte strings have distinct encodings. */
  lemma EncodeInjective(a: seq<Byte>, b: seq<Byte>)
    ensures Encode(a) == Encode(b) ==> a == b
  {
    DecodeEncode(a);
    DecodeEncode(b);
  }
}
