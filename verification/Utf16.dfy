/** Reading UTF-16 source (src/Nix/Parser.hs): section 2.2 of RFC 2781 in, UTF-8
    out. */
module Utf16 {
  import opened Basics
  import Utf8

  datatype ByteOrder = LittleEndian | BigEndian

  datatype Fault = OddLength | UnpairedSurrogate

  /** What was read before a fault, as UTF-8: the lexer places the error at its end. */
  datatype Malformed = Malformed(built: Bytes, fault: Fault)

  // ---- Reading ----------------------------------------------------------

  function CodeUnit(order: ByteOrder, b: Bytes): Option<(int, Bytes)> {
    if |b| < 2 then None
    else Some((if order.LittleEndian? then b[1] as int * 0x100 + b[0] else b[0] as int * 0x100 + b[1], b[2..]))
  }

  predicate IsHighSurrogate(unit: int) {
    0xD800 <= unit < 0xDC00
  }

  predicate IsLowSurrogate(unit: int) {
    0xDC00 <= unit < 0xE000
  }

  predicate IsSurrogate(unit: int) {
    0xD800 <= unit < 0xE000
  }

  /** The scalar value a high and a low surrogate spell. */
  function SurrogatePair(high: int, low: int): (c: char)
    requires IsHighSurrogate(high) && IsLowSurrogate(low)
    ensures c as int >= 0x10000
  {
    (0x10000 + (high - 0xD800) * 0x400 + (low - 0xDC00)) as char
  }

  /** The next scalar value and the units after it, or what is wrong. */
  function Next(order: ByteOrder, b: Bytes): (r: Result<(char, Bytes), Fault>)
    requires b != []
    ensures r.Ok? ==> |r.value.1| < |b|
  {
    match CodeUnit(order, b)
    case None => Err(OddLength)
    case Some((unit, rest)) =>
      var second := CodeUnit(order, rest);
      if IsHighSurrogate(unit) && second.Some? && IsLowSurrogate(second.value.0) then
        Ok((SurrogatePair(unit, second.value.0), second.value.1))
      else if IsSurrogate(unit) then Err(UnpairedSurrogate)
      else UnitInRange(order, b); Ok((unit as char, rest))
  }

  lemma UnitInRange(order: ByteOrder, b: Bytes)
    requires CodeUnit(order, b).Some?
    ensures 0 <= CodeUnit(order, b).value.0 < 0x10000
  {
  }

  /** The body after what has been built, as UTF-8. */
  function Go(order: ByteOrder, built: Bytes, b: Bytes): Result<Bytes, Malformed>
    decreases |b|
  {
    if b == [] then Ok(built)
    else match Next(order, b)
      case Err(fault) => Err(Malformed(built, fault))
      case Ok((c, rest)) => Go(order, built + Utf8.EncodeOne(c), rest)
  }

  function ToUtf8(order: ByteOrder, b: Bytes): Result<Bytes, Malformed> {
    Go(order, [], b)
  }

  // ---- Writing, by the standard -----------------------------------------

  function UnitBytes(order: ByteOrder, unit: int): Bytes
    requires 0 <= unit < 0x10000
  {
    if order.LittleEndian? then [unit % 0x100, unit / 0x100] else [unit / 0x100, unit % 0x100]
  }

  function EncodeOne(order: ByteOrder, c: char): (b: Bytes)
    ensures |b| == if c as int < 0x10000 then 2 else 4
  {
    var point := c as int;
    if point < 0x10000 then UnitBytes(order, point)
    else
      var offset := point - 0x10000;
      UnitBytes(order, 0xD800 + offset / 0x400) + UnitBytes(order, 0xDC00 + offset % 0x400)
  }

  function Encode(order: ByteOrder, t: Text): Bytes {
    if t == [] then [] else EncodeOne(order, t[0]) + Encode(order, t[1..])
  }

  // ---- One scalar value -------------------------------------------------

  lemma UnitRoundTrip(order: ByteOrder, unit: int, rest: Bytes)
    requires 0 <= unit < 0x10000
    ensures CodeUnit(order, UnitBytes(order, unit) + rest) == Some((unit, rest))
  {
    assert (UnitBytes(order, unit) + rest)[2..] == rest;
  }

  lemma UnitReads(order: ByteOrder, b: Bytes)
    requires CodeUnit(order, b).Some?
    ensures 0 <= CodeUnit(order, b).value.0 < 0x10000
    ensures b == UnitBytes(order, CodeUnit(order, b).value.0) + CodeUnit(order, b).value.1
  {
    assert b == [b[0], b[1]] + b[2..];
  }

  lemma NextReadsEncoded(order: ByteOrder, c: char, rest: Bytes)
    ensures Next(order, EncodeOne(order, c) + rest) == Ok((c, rest))
  {
    var point := c as int;
    if point < 0x10000 {
      UnitRoundTrip(order, point, rest);
    } else {
      var high, low := 0xD800 + (point - 0x10000) / 0x400, 0xDC00 + (point - 0x10000) % 0x400;
      UnitRoundTrip(order, high, UnitBytes(order, low) + rest);
      UnitRoundTrip(order, low, rest);
      assert EncodeOne(order, c) + rest == UnitBytes(order, high) + (UnitBytes(order, low) + rest);
    }
  }

  lemma NextEncodes(order: ByteOrder, b: Bytes)
    requires b != [] && Next(order, b).Ok?
    ensures b == EncodeOne(order, Next(order, b).value.0) + Next(order, b).value.1
  {
    UnitReads(order, b);
    var (unit, rest) := CodeUnit(order, b).value;
    if IsHighSurrogate(unit) {
      UnitReads(order, rest);
      var (low, afterPair) := CodeUnit(order, rest).value;
      var offset := SurrogatePair(unit, low) as int - 0x10000;
      assert offset / 0x400 == unit - 0xD800 && offset % 0x400 == low - 0xDC00;
      assert b == UnitBytes(order, unit) + UnitBytes(order, low) + afterPair;
    }
  }

  // ---- Whole bodies -----------------------------------------------------

  /** The longest well-formed start of a body. */
  function WellFormedPart(order: ByteOrder, b: Bytes): Text
    decreases |b|
  {
    if b == [] || Next(order, b).Err? then []
    else [Next(order, b).value.0] + WellFormedPart(order, Next(order, b).value.1)
  }

  /** What follows it. */
  function Remainder(order: ByteOrder, b: Bytes): (r: Bytes)
    ensures r == [] || Next(order, r).Err?
    decreases |b|
  {
    if b == [] || Next(order, b).Err? then b else Remainder(order, Next(order, b).value.1)
  }

  lemma {:induction false} PartAndRemainder(order: ByteOrder, b: Bytes)
    ensures b == Encode(order, WellFormedPart(order, b)) + Remainder(order, b)
    decreases |b|
  {
    if b != [] && Next(order, b).Ok? {
      var (c, rest) := Next(order, b).value;
      NextEncodes(order, b);
      PartAndRemainder(order, rest);
      EncodeCons(order, c, WellFormedPart(order, rest));
      Regroup(EncodeOne(order, c), Encode(order, WellFormedPart(order, rest)), Remainder(order, rest));
    }
  }

  lemma EncodeCons(order: ByteOrder, c: char, t: Text)
    ensures Encode(order, [c] + t) == EncodeOne(order, c) + Encode(order, t)
  {
    assert ([c] + t)[1..] == t;
  }

  lemma {:induction false} GoBuilds(order: ByteOrder, built: Bytes, b: Bytes)
    ensures var whole := built + Utf8.Encode(WellFormedPart(order, b));
            var rest := Remainder(order, b);
            Go(order, built, b) == if rest == [] then Ok(whole) else Err(Malformed(whole, Next(order, rest).error))
    decreases |b|
  {
    PartAndRemainder(order, b);
    if b != [] && Next(order, b).Ok? {
      var (c, rest) := Next(order, b).value;
      GoBuilds(order, built + Utf8.EncodeOne(c), rest);
      PartAndRemainder(order, rest);
      assert WellFormedPart(order, b)[1..] == WellFormedPart(order, rest);
      assert built + Utf8.EncodeOne(c) + Utf8.Encode(WellFormedPart(order, rest))
          == built + Utf8.Encode(WellFormedPart(order, b));
    } else {
      assert built + Utf8.Encode([]) == built;
    }
  }

  /** Every well-formed start of a body is a start of the longest. */
  lemma {:induction false} PartIsLongest(order: ByteOrder, b: Bytes, t: Text)
    requires Encode(order, t) <= b
    ensures t <= WellFormedPart(order, b)
    ensures Encode(order, t) == b ==> t == WellFormedPart(order, b) && Remainder(order, b) == []
    decreases |b|
  {
    if t != [] {
      var first := EncodeOne(order, t[0]);
      var rest := b[|first|..];
      assert b == first + rest by {
        assert first == Encode(order, t)[..|first|] == b[..|first|];
      }
      NextReadsEncoded(order, t[0], rest);
      assert Encode(order, t[1..]) == Encode(order, t)[|first|..];
      PartIsLongest(order, rest, t[1..]);
      assert t == [t[0]] + t[1..];
    }
  }

  /** A body is read exactly when it is well-formed UTF-16, and then as the UTF-8
      of the same scalar values. */
  lemma ReadsWellFormed(order: ByteOrder, b: Bytes, out: Bytes)
    ensures ToUtf8(order, b) == Ok(out) <==> exists t :: Encode(order, t) == b && Utf8.Encode(t) == out
  {
    GoBuilds(order, [], b);
    PartAndRemainder(order, b);
    var part := WellFormedPart(order, b);
    assert [] + Utf8.Encode(part) == Utf8.Encode(part);
    if ToUtf8(order, b) == Ok(out) {
      assert Encode(order, part) + [] == Encode(order, part) == b;
    }
    forall t | Encode(order, t) == b && Utf8.Encode(t) == out
      ensures ToUtf8(order, b) == Ok(out)
    {
      PartIsLongest(order, b, t);
    }
  }

  /** The UTF-8 read from a well-formed body decodes to what the body spells. */
  lemma ReadsTheSameText(order: ByteOrder, t: Text)
    ensures ToUtf8(order, Encode(order, t)).Ok?
    ensures Utf8.Decode(ToUtf8(order, Encode(order, t)).value) == Some(t)
  {
    ReadsWellFormed(order, Encode(order, t), Utf8.Encode(t));
    Utf8.DecodesEncoded(t);
  }

  /** A malformed body is reported after its longest well-formed start, and as odd
      exactly when one byte is left there. */
  lemma FaultAfterLongestPart(order: ByteOrder, b: Bytes)
    requires ToUtf8(order, b).Err?
    ensures var part := WellFormedPart(order, b);
            && Encode(order, part) < b
            && (forall t :: Encode(order, t) <= b ==> t <= part)
            && ToUtf8(order, b).error.built == Utf8.Encode(part)
            && (ToUtf8(order, b).error.fault == OddLength <==> |b| == |Encode(order, part)| + 1)
  {
    GoBuilds(order, [], b);
    PartAndRemainder(order, b);
    assert [] + Utf8.Encode(WellFormedPart(order, b)) == Utf8.Encode(WellFormedPart(order, b));
    forall t | Encode(order, t) <= b
      ensures t <= WellFormedPart(order, b)
    {
      PartIsLongest(order, b, t);
    }
  }

  // ---- Source files -----------------------------------------------------

  const UTF16_LE_MARK: Bytes := [0xFF, 0xFE]
  const UTF16_BE_MARK: Bytes := [0xFE, 0xFF]
  const UTF8_MARK: Bytes := [0xEF, 0xBB, 0xBF]

  /** A source file as UTF-8, by the byte order mark it starts with. */
  function SourceUtf8(b: Bytes): Result<Bytes, Malformed> {
    if UTF16_LE_MARK <= b then ToUtf8(LittleEndian, b[2..])
    else if UTF16_BE_MARK <= b then ToUtf8(BigEndian, b[2..])
    else if UTF8_MARK <= b then Ok(b[3..])
    else Ok(b)
  }

  /** A file is read by the mark it starts with, and byte for byte without one. */
  lemma MarkDecides(body: Bytes)
    ensures SourceUtf8([0xFF, 0xFE] + body) == ToUtf8(LittleEndian, body)
    ensures SourceUtf8([0xFE, 0xFF] + body) == ToUtf8(BigEndian, body)
    ensures SourceUtf8([0xEF, 0xBB, 0xBF] + body) == Ok(body)
    ensures !([0xFF, 0xFE] <= body) && !([0xFE, 0xFF] <= body) && !([0xEF, 0xBB, 0xBF] <= body) ==>
              SourceUtf8(body) == Ok(body)
  {
    var little, big, utf8 := [0xFF, 0xFE] + body, [0xFE, 0xFF] + body, [0xEF, 0xBB, 0xBF] + body;
    assert little[2..] == body && big[2..] == body && utf8[3..] == body;
    assert big[0] == 0xFE && utf8[0] == 0xEF;
  }

  /** The same text reads the same under every mark. */
  lemma SpellingsAgree(t: Text)
    ensures SourceUtf8([0xFF, 0xFE] + Encode(LittleEndian, t)) == Ok(Utf8.Encode(t))
    ensures SourceUtf8([0xFE, 0xFF] + Encode(BigEndian, t)) == Ok(Utf8.Encode(t))
    ensures SourceUtf8([0xEF, 0xBB, 0xBF] + Utf8.Encode(t)) == Ok(Utf8.Encode(t))
  {
    ReadsWellFormed(LittleEndian, Encode(LittleEndian, t), Utf8.Encode(t));
    ReadsWellFormed(BigEndian, Encode(BigEndian, t), Utf8.Encode(t));
    MarkDecides(Encode(LittleEndian, t));
    MarkDecides(Encode(BigEndian, t));
    MarkDecides(Utf8.Encode(t));
  }
}
