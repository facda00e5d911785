/** JSON strings read back what was written, and `\u` escapes name the scalar
    value they spell. */
module JsonStrings {
  import opened Basics
  import opened Escaping
  import opened Json

  // ---- Escaping, character by character ---------------------------------

  function Spell(s: Text): Text {
    SpellEach(Spelled, s)
  }

  /** Copying the clean runs in bulk escapes as going character by character does. */
  lemma EscapeIsSpell(s: Text)
    ensures Escape(s) == Spell(s)
  {
    RunsAreEach(NeedsEscape, Spelled, s);
  }

  // ---- Reading, character by character ----------------------------------

  function Chars(t: Text): Parse<Text, Text>
    decreases |t|
  {
    if t == [] then Failure
    else if t[0] == '\"' then Success("", t[1..])
    else if t[0] == '\\' then
      var (decoded, rest) :- ParseEscape(t[1..]);
      Before(decoded, Chars(rest))
    else if t[0] < ' ' then Failure
    else Before([t[0]], Chars(t[1..]))
  }

  lemma StringPlain(c: char, s: Text, done: Text)
    requires !NeedsEscape(c)
    ensures ParseString([c] + s, done) == ParseString(s, done + [c])
  {
    var whole := [c] + s;
    var n := Clean(NeedsEscape, s);
    CleanCons(NeedsEscape, c, s);
    assert whole[..n + 1] == [c] + s[..n];
    if n < |s| {
      assert whole[n + 1] == s[n] && whole[n + 2..] == s[n + 1..];
      assert done + whole[..n + 1] == done + [c] + s[..n];
    }
  }

  lemma StringStops(t: Text, done: Text)
    requires t != [] && NeedsEscape(t[0])
    ensures t[0] == '\"' ==> ParseString(t, done) == Success(done, t[1..])
    ensures t[0] != '\"' && t[0] != '\\' ==> ParseString(t, done) == Failure
    ensures t[0] == '\\' && ParseEscape(t[1..]).Failure? ==> ParseString(t, done) == Failure
    ensures t[0] == '\\' && ParseEscape(t[1..]).Success? ==>
              var escaped := ParseEscape(t[1..]);
              ParseString(t, done) == ParseString(escaped.rest, done + escaped.value)
  {
    assert Clean(NeedsEscape, t) == 0 && done + t[..0] == done;
  }

  /** Taking the clean runs in bulk reads as going character by character does. */
  lemma {:induction false} StringIsChars(t: Text, done: Text)
    ensures ParseString(t, done) == Before(done, Chars(t))
    decreases |t|
  {
    if t != [] {
      if NeedsEscape(t[0]) {
        StringStops(t, done);
        if t[0] == '\"' {
          assert done + "" == done;
        } else if t[0] == '\\' && ParseEscape(t[1..]).Success? {
          var decoded, rest := ParseEscape(t[1..]).value, ParseEscape(t[1..]).rest;
          StringIsChars(rest, done + decoded);
          BeforeBefore(done, decoded, Chars(rest));
        }
      } else {
        assert t == [t[0]] + t[1..];
        StringPlain(t[0], t[1..], done);
        StringIsChars(t[1..], done + [t[0]]);
        BeforeBefore(done, [t[0]], Chars(t[1..]));
      }
    }
  }

  // ---- Escapes ----------------------------------------------------------

  function UpperHexChar(d: int): char
    requires 0 <= d < 16
  {
    if d < 10 then ('0' as int + d) as char else ('A' as int + d - 10) as char
  }

  /** Four hex digits, in either case. */
  function Hex4(unit: int, upper: bool): Text
    requires 0 <= unit < 0x10000
  {
    var hex := (d: int) requires 0 <= d < 16 => if upper then UpperHexChar(d) else HexChar(d);
    [hex(unit / 0x1000), hex(unit / 0x100 % 16), hex(unit / 16 % 16), hex(unit % 16)]
  }

  lemma HexReads(d: int)
    requires 0 <= d < 16
    ensures HexValue(HexChar(d)) == Some(d) && HexValue(UpperHexChar(d)) == Some(d)
  {
  }

  lemma UnitReads(unit: int, upper: bool, rest: Text)
    requires 0 <= unit < 0x10000
    ensures CodeUnit(Hex4(unit, upper) + rest) == Success(unit, rest)
  {
    var t := Hex4(unit, upper) + rest;
    var (a, b, c, d) := (unit / 0x1000, unit / 0x100 % 16, unit / 16 % 16, unit % 16);
    HexReads(a);
    HexReads(b);
    HexReads(c);
    HexReads(d);
    assert t[4..] == rest;
    HexDigits(unit);
  }

  lemma HexDigits(unit: int)
    requires 0 <= unit < 0x10000
    ensures ((unit / 0x1000 * 16 + unit / 0x100 % 16) * 16 + unit / 16 % 16) * 16 + unit % 16 == unit
  {
    assert unit / 0x1000 * 16 + unit / 0x100 % 16 == unit / 0x100;
    assert unit / 0x100 * 16 + unit / 16 % 16 == unit / 16;
  }

  /** The `\u` escape, without its backslash, of a scalar value: one unit, or a
      surrogate pair past U+FFFF (section 7 of RFC 8259). */
  function UnicodeEscape(c: char, upper: bool): Text {
    var point := c as int;
    if point < 0x10000 then "u" + Hex4(point, upper)
    else "u" + Hex4(Surrogates(c).0, upper) + "\\u" + Hex4(Surrogates(c).1, upper)
  }

  /** The high and low surrogates of a scalar value past U+FFFF. */
  function Surrogates(c: char): (pair: (int, int))
    requires c as int >= 0x10000
    ensures IsHighSurrogate(pair.0) && IsLowSurrogate(pair.1)
    ensures 0x10000 + (pair.0 - 0xD800) * 0x400 + (pair.1 - 0xDC00) == c as int
  {
    var offset := c as int - 0x10000;
    (0xD800 + offset / 0x400, 0xDC00 + offset % 0x400)
  }

  /** Every scalar value is read back from its `\u` escape. */
  lemma UnicodeEscapeReads(c: char, upper: bool, rest: Text)
    ensures ParseEscape(UnicodeEscape(c, upper) + rest) == Success([c], rest)
  {
    if c as int < 0x10000 {
      var t := UnicodeEscape(c, upper) + rest;
      assert t[1..] == Hex4(c as int, upper) + rest;
      UnitReads(c as int, upper, rest);
    } else {
      PairReads(Surrogates(c).0, Surrogates(c).1, upper, rest);
    }
  }

  lemma PairReads(high: int, low: int, upper: bool, rest: Text)
    requires IsHighSurrogate(high) && IsLowSurrogate(low)
    ensures ParseEscape("u" + Hex4(high, upper) + "\\u" + Hex4(low, upper) + rest) ==
            Success([(0x10000 + (high - 0xD800) * 0x400 + (low - 0xDC00)) as char], rest)
  {
    var third := Hex4(low, upper) + rest;
    var second := "\\u" + third;
    var t := "u" + Hex4(high, upper) + "\\u" + Hex4(low, upper) + rest;
    assert t[1..] == Hex4(high, upper) + second && t[0] == 'u';
    UnitReads(high, upper, second);
    LowReads(high, low, upper, rest);
  }

  lemma LowReads(high: int, low: int, upper: bool, rest: Text)
    requires IsHighSurrogate(high) && IsLowSurrogate(low)
    ensures CodePoint(high, "\\u" + (Hex4(low, upper) + rest)) ==
            Success([(0x10000 + (high - 0xD800) * 0x400 + (low - 0xDC00)) as char], rest)
  {
    var third := Hex4(low, upper) + rest;
    assert ("\\u" + third)[2..] == third;
    UnitReads(low, upper, rest);
  }

  /** The text goes on with an escape that names a low surrogate. */
  predicate LowFollows(rest: Text) {
    "\\u" <= rest && CodeUnit(rest[2..]).Success? && IsLowSurrogate(CodeUnit(rest[2..]).value)
  }

  /** An escape that names a surrogate is read exactly when it is a high one and an
      escape of a low one follows, and then as the scalar value the pair encodes. */
  lemma SurrogateReads(unit: int, upper: bool, rest: Text)
    requires 0xD800 <= unit < 0xE000
    ensures var r := ParseEscape("u" + Hex4(unit, upper) + rest);
            && (r.Success? <==> IsHighSurrogate(unit) && LowFollows(rest))
            && (r.Success? ==>
                  && |r.value| == 1 && r.value[0] as int >= 0x10000
                  && Surrogates(r.value[0]) == (unit, CodeUnit(rest[2..]).value)
                  && r.rest == CodeUnit(rest[2..]).rest)
  {
    assert ("u" + Hex4(unit, upper) + rest)[1..] == Hex4(unit, upper) + rest;
    UnitReads(unit, upper, rest);
    if IsHighSurrogate(unit) && LowFollows(rest) {
      PairIsUnique(unit, CodeUnit(rest[2..]).value);
    }
  }

  lemma PairIsUnique(high: int, low: int)
    requires IsHighSurrogate(high) && IsLowSurrogate(low)
    ensures Surrogates((0x10000 + (high - 0xD800) * 0x400 + (low - 0xDC00)) as char) == (high, low)
  {
  }

  lemma EscapeReads(c: char, rest: Text)
    requires NeedsEscape(c)
    ensures EscapeChar(c)[0] == '\\' && ParseEscape(EscapeChar(c)[1..] + rest) == Success([c], rest)
  {
    var t := EscapeChar(c)[1..] + rest;
    if |EscapeChar(c)| == 2 {
      assert t[1..] == rest;
    } else {
      ControlEscape(c);
      assert t == "u" + Hex4(c as int, false) + rest;
      assert t[1..] == Hex4(c as int, false) + rest;
      UnitReads(c as int, false, rest);
    }
  }

  lemma ControlEscape(c: char)
    requires c < ' ' && |EscapeChar(c)| != 2
    ensures EscapeChar(c)[1..] == "u" + Hex4(c as int, false)
  {
    var point := c as int;
    assert point / 0x1000 == 0 && point / 0x100 % 16 == 0 && point / 16 % 16 == point / 16;
    assert EscapeChar(c) == "\\u00" + [HexChar(point / 16), HexChar(point % 16)];
  }

  // ---- Round trip -------------------------------------------------------

  lemma SpelledReads(c: char, rest: Text)
    ensures Chars(Spelled(c) + rest) == Before([c], Chars(rest))
  {
    var whole := Spelled(c) + rest;
    if NeedsEscape(c) {
      EscapeReads(c, rest);
      assert whole[1..] == EscapeChar(c)[1..] + rest;
    } else {
      assert whole[1..] == rest;
    }
  }

  lemma {:induction false} CharsRead(s: Text, tail: Text)
    ensures Chars(Spell(s) + ("\"" + tail)) == Success(s, tail)
  {
    var after := "\"" + tail;
    if s == [] {
      assert Spell(s) + after == after && after[1..] == tail;
    } else {
      CharsRead(s[1..], tail);
      SpelledReads(s[0], Spell(s[1..]) + after);
      SpellFirst(Spelled, s, after);
      assert s == [s[0]] + s[1..];
    }
  }

  /** Any string, escaped and closed, is read back. */
  lemma StringReads(s: Text, tail: Text)
    ensures ParseString(Escape(s) + ("\"" + tail), "") == Success(s, tail)
  {
    EscapeIsSpell(s);
    CharsRead(s, tail);
    StringIsChars(Escape(s) + ("\"" + tail), "");
    assert "" + s == s;
  }
}
