/** UTF-8 (section 3 of RFC 3629): how every text reaches a file, a derivation
    or a JSON document. */
module Utf8 {
  import opened Basics

  /** The bytes of one scalar value. */
  function EncodeOne(c: char): (b: Bytes)
    ensures 1 <= |b| <= 4
  {
    var point := c as int;
    if point < 0x80 then [point]
    else if point < 0x800 then [0xC0 + point / 0x40, Continuation(point)]
    else if point < 0x10000 then [0xE0 + point / 0x1000, Continuation(point / 0x40), Continuation(point)]
    else [0xF0 + point / 0x40000, Continuation(point / 0x1000), Continuation(point / 0x40), Continuation(point)]
  }

  /** A continuation byte: the low six bits. */
  function Continuation(bits: nat): Byte {
    0x80 + bits % 0x40
  }

  /** The table of section 3 of RFC 3629: the point's bits, in sixes, after the
      markers of the lead byte and of each continuation byte. */
  lemma OneIsLaidOut(c: char, w: nat, x: nat, y: nat, z: nat)
    requires x < 0x40 && y < 0x40 && z < 0x40 && c as int == 0x40000 * w + 0x1000 * x + 0x40 * y + z
    ensures EncodeOne(c) ==
            if c as int <= 0x7F then [c as int]
            else if c as int <= 0x7FF then [0xC0 + y, 0x80 + z]
            else if c as int <= 0xFFFF then [0xE0 + x, 0x80 + y, 0x80 + z]
            else [0xF0 + w, 0x80 + x, 0x80 + y, 0x80 + z]
  {
    var point := c as int;
    assert point == 0x40 * (0x1000 * w + 0x40 * x + y) + z;
    assert point / 0x40 == 0x40 * (0x40 * w + x) + y;
    assert point / 0x1000 == 0x40 * w + x;
    assert point / 0x40000 == w;
  }

  function Encode(t: Text): Bytes {
    if t == [] then [] else EncodeOne(t[0]) + Encode(t[1..])
  }

  predicate IsScalar(point: int) {
    0 <= point < 0xD800 || 0xE000 <= point < 0x110000
  }

  predicate IsContinuation(b: Byte) {
    0x80 <= b < 0xC0
  }

  /** Whether the bytes at the front are a lead byte's continuation bytes. */
  predicate Continues(b: Bytes, count: nat) {
    count < |b| && forall i :: 0 < i <= count ==> IsContinuation(b[i])
  }

  /** The bits of a lead byte above its marker. */
  function Lead(b: Bytes, marker: int): int
    requires b != []
  {
    b[0] as int - marker
  }

  /** Higher bits followed by a continuation byte's six. */
  function Joined(high: int, b: Byte): int {
    high * 0x40 + (b as int - 0x80)
  }

  lemma JoinSplit(point: nat)
    ensures Joined(point / 0x40, Continuation(point)) == point
    ensures point / 0x1000 == point / 0x40 / 0x40 && point / 0x40000 == point / 0x1000 / 0x40
  {
  }

  lemma SplitJoin(high: nat, b: Byte)
    requires IsContinuation(b)
    ensures Joined(high, b) >= 0 && Joined(high, b) / 0x40 == high && Continuation(Joined(high, b)) == b
  {
  }

  lemma SplitJoin2(high: nat, b: Byte, c: Byte)
    requires IsContinuation(b) && IsContinuation(c)
    ensures var point := Joined(Joined(high, b), c);
            && 0 <= point && point / 0x1000 == high
            && Continuation(point / 0x40) == b && Continuation(point) == c
  {
    SplitJoin(high, b);
    SplitJoin(Joined(high, b), c);
    JoinSplit(Joined(Joined(high, b), c));
  }

  lemma SplitJoin3(high: nat, b: Byte, c: Byte, d: Byte)
    requires IsContinuation(b) && IsContinuation(c) && IsContinuation(d)
    ensures var point := Joined(Joined(Joined(high, b), c), d);
            && 0 <= point && point / 0x40000 == high
            && Continuation(point / 0x1000) == b && Continuation(point / 0x40) == c && Continuation(point) == d
  {
    SplitJoin2(high, b, c);
    SplitJoin(Joined(Joined(high, b), c), d);
    JoinSplit(Joined(Joined(Joined(high, b), c), d));
    JoinSplit(Joined(Joined(high, b), c));
  }

  /** The scalar value at the front and its length in bytes: the shortest form
      only, no surrogate and nothing past U+10FFFF. */
  function DecodeOne(b: Bytes): (r: Option<(char, nat)>)
    ensures r.Some? ==> 0 < r.value.1 <= |b|
  {
    if b == [] then None
    else if b[0] < 0x80 then Some((b[0] as char, 1))
    else if 0xC0 <= b[0] < 0xE0 && Continues(b, 1) then
      Shortest(Joined(Lead(b, 0xC0), b[1]), 0x80, 2)
    else if 0xE0 <= b[0] < 0xF0 && Continues(b, 2) then
      Shortest(Joined(Joined(Lead(b, 0xE0), b[1]), b[2]), 0x800, 3)
    else if 0xF0 <= b[0] < 0xF8 && Continues(b, 3) then
      Shortest(Joined(Joined(Joined(Lead(b, 0xF0), b[1]), b[2]), b[3]), 0x10000, 4)
    else None
  }

  function Shortest(point: int, least: int, length: nat): (r: Option<(char, nat)>)
    ensures r.Some? ==> r.value.1 == length && r.value.0 as int == point >= least
  {
    if point >= least && IsScalar(point) then Some((point as char, length)) else None
  }

  /** The text a byte string spells, if it is UTF-8. */
  function Decode(b: Bytes): Option<Text>
    decreases |b|
  {
    if b == [] then Some([])
    else match DecodeOne(b)
      case None => None
      case Some((c, n)) =>
        match Decode(b[n..])
        case None => None
        case Some(t) => Some([c] + t)
  }

  lemma DecodesTwo(c: char, rest: Bytes)
    requires 0x80 <= c as int < 0x800
    ensures DecodeOne(EncodeOne(c) + rest) == Some((c, 2))
  {
    var b := EncodeOne(c) + rest;
    JoinSplit(c as int);
    assert b[1] == EncodeOne(c)[1] && Continues(b, 1) && Lead(b, 0xC0) == c as int / 0x40;
  }

  lemma DecodesThree(c: char, rest: Bytes)
    requires 0x800 <= c as int < 0x10000
    ensures DecodeOne(EncodeOne(c) + rest) == Some((c, 3))
  {
    var b, point := EncodeOne(c) + rest, c as int;
    JoinSplit(point);
    JoinSplit(point / 0x40);
    assert b[1] == EncodeOne(c)[1] && b[2] == EncodeOne(c)[2] && Continues(b, 2) && Lead(b, 0xE0) == point / 0x1000;
    assert Joined(Joined(Lead(b, 0xE0), b[1]), b[2]) == point;
  }

  lemma DecodesFour(c: char, rest: Bytes)
    requires 0x10000 <= c as int
    ensures DecodeOne(EncodeOne(c) + rest) == Some((c, 4))
  {
    var b, point := EncodeOne(c) + rest, c as int;
    JoinSplit(point);
    JoinSplit(point / 0x40);
    JoinSplit(point / 0x1000);
    assert b[1] == EncodeOne(c)[1] && b[2] == EncodeOne(c)[2] && b[3] == EncodeOne(c)[3];
    assert Continues(b, 3) && Lead(b, 0xF0) == point / 0x40000;
    assert Joined(Lead(b, 0xF0), b[1]) == point / 0x1000;
    assert Joined(Joined(Joined(Lead(b, 0xF0), b[1]), b[2]), b[3]) == point;
  }

  lemma DecodesEncodedOne(c: char, rest: Bytes)
    ensures DecodeOne(EncodeOne(c) + rest) == Some((c, |EncodeOne(c)|))
  {
    if 0x80 <= c as int < 0x800 {
      DecodesTwo(c, rest);
    } else if 0x800 <= c as int < 0x10000 {
      DecodesThree(c, rest);
    } else if 0x10000 <= c as int {
      DecodesFour(c, rest);
    }
  }

  lemma EncodesDecodedOne(b: Bytes)
    ensures DecodeOne(b).Some? ==> b[..DecodeOne(b).value.1] == EncodeOne(DecodeOne(b).value.0)
  {
    if b != [] && b[0] >= 0x80 && DecodeOne(b).Some? {
      var (c, n) := DecodeOne(b).value;
      assert Continues(b, n - 1) && forall i :: 0 < i < n ==> IsContinuation(b[i]);
      if n == 2 {
        SplitJoin(Lead(b, 0xC0), b[1]);
        assert b[..n] == [b[0], b[1]];
      } else if n == 3 {
        SplitJoin2(Lead(b, 0xE0), b[1], b[2]);
        assert b[..n] == [b[0], b[1], b[2]];
      } else {
        SplitJoin3(Lead(b, 0xF0), b[1], b[2], b[3]);
        assert b[..n] == [b[0], b[1], b[2], b[3]];
      }
    }
  }

  /** Decoding undoes encoding. */
  lemma {:induction false} DecodesEncoded(t: Text)
    ensures Decode(Encode(t)) == Some(t)
  {
    if t != [] {
      var b, n := Encode(t), |EncodeOne(t[0])|;
      DecodesEncodedOne(t[0], Encode(t[1..]));
      assert DecodeOne(b) == Some((t[0], n));
      DecodesEncoded(t[1..]);
      assert b[n..] == Encode(t[1..]);
      assert Decode(b) == Some([t[0]] + t[1..]) && [t[0]] + t[1..] == t;
    }
  }

  lemma DecodesFirst(b: Bytes)
    requires b != [] && Decode(b).Some?
    ensures DecodeOne(b).Some?
    ensures var (c, n) := DecodeOne(b).value;
            Decode(b[n..]).Some? && Decode(b).value == [c] + Decode(b[n..]).value
  {
  }

  lemma EncodesFirst(c: char, t: Text)
    ensures Encode([c] + t) == EncodeOne(c) + Encode(t)
  {
    assert ([c] + t)[1..] == t;
  }

  /** Nothing but a text's encoding decodes to it. */
  lemma {:induction false} EncodesDecoded(b: Bytes)
    ensures Decode(b).Some? ==> Encode(Decode(b).value) == b
    decreases |b|
  {
    if b != [] && Decode(b).Some? {
      DecodesFirst(b);
      EncodesDecodedOne(b);
      var (c, n) := DecodeOne(b).value;
      EncodesDecoded(b[n..]);
      EncodesFirst(c, Decode(b[n..]).value);
      assert b == b[..n] + b[n..];
    }
  }
}
