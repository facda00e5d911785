/** JSON as the program writes and reads it (src/Nix/Json.hs): sections 6 and 7 of
    RFC 8259, with the integer types and the number layout of nlohmann's library. */
module Json {
  import opened Basics
  import opened Escaping
  import opened TextOrder

  /** A double: what is not a number is written `null`, and a magnitude is known by
      its shortest digits. */
  datatype Double = NotFinite | Zero(negative: bool) | Nonzero(negative: bool, magnitude: nat)

  datatype Json =
    | Null
    | Bool(b: bool)
    | Int(n: int)
    | Float(d: Double)
    | Str(s: Text)
    | Arr(items: seq<Json>)
    | Obj(members: map<Text, Json>)

  /** Decimal digits, most significant first. */
  type Digit = d: int | 0 <= d < 10

  /** The library's number conversions: a magnitude's shortest digits with its
      point's position, and the double a lexeme names (none past the range). */
  datatype Numerics = Numerics(digits: nat -> (seq<Digit>, int), read: Text -> Option<Double>) {
    ghost predicate WellFormed() {
      forall m: nat {:trigger digits(m)} :: digits(m).0 != [] && digits(m).0[0] != 0
    }
  }

  datatype IntegerRange = NlohmannRange | NixRange

  const MIN_INT64: int := -0x8000_0000_0000_0000
  const MAX_INT64: int := 0x7FFF_FFFF_FFFF_FFFF
  const MAX_WORD64: int := 0xFFFF_FFFF_FFFF_FFFF

  // ---- Numbers as text --------------------------------------------------

  function DigitChar(d: Digit): (c: char)
    ensures IsDigit(c) && DigitValue(c) == d
  {
    (d + '0' as int) as char
  }

  predicate IsDigit(c: char) {
    '0' <= c <= '9'
  }

  function DigitValue(c: char): Digit
    requires IsDigit(c)
  {
    c as int - '0' as int
  }

  function DigitText(ds: seq<Digit>): Text {
    Map(DigitChar, ds)
  }

  predicate AllDigits(t: Text) {
    forall i :: 0 <= i < |t| ==> IsDigit(t[i])
  }

  /** The number decimal digits stand for. */
  function Value(t: Text): nat
    requires AllDigits(t)
  {
    if t == [] then 0 else 10 * Value(t[..|t| - 1]) + DigitValue(t[|t| - 1])
  }

  function Shown(n: nat): (t: Text)
    ensures t != [] && AllDigits(t)
  {
    if n < 10 then [DigitChar(n)] else Shown(n / 10) + [DigitChar(n % 10)]
  }

  function Decimal(n: int): Text {
    if n < 0 then "-" + Shown(-n) else Shown(n)
  }

  const MAX_POINT: int := 15
  const MIN_POINT: int := -4

  function Zeros(n: nat): (t: Text)
    ensures |t| == n && AllDigits(t)
  {
    seq(n, _ => '0')
  }

  function ExponentText(e: int): Text {
    if e < 0 then "-" + Padded(-e) else "+" + Padded(e)
  }

  function Padded(n: nat): (t: Text)
    ensures t != [] && AllDigits(t)
  {
    if n < 10 then "0" + Shown(n) else Shown(n)
  }

  /** Shortest digits laid out with the point where it belongs: plainly while it
      stays near them, scientifically past that. */
  function Layout(digits: Text, point: int): Text {
    if |digits| <= point <= MAX_POINT then digits + Zeros(point - |digits|) + ".0"
    else if 0 < point <= MAX_POINT then digits[..point] + "." + digits[point..]
    else if MIN_POINT < point <= 0 then "0." + Zeros(-point) + digits
    else Mantissa(digits) + "e" + ExponentText(point - 1)
  }

  function Mantissa(digits: Text): Text {
    if |digits| == 1 then digits
    else if digits == [] then "0"
    else [digits[0]] + "." + digits[1..]
  }

  function FormatDouble(num: Numerics, d: Double): Text
    requires d != NotFinite
  {
    match d
    case Zero(negative) => if negative then "-0.0" else "0.0"
    case Nonzero(negative, m) =>
      var (digits, point) := num.digits(m);
      (if negative then "-" else "") + Layout(DigitText(digits), point)
  }

  // ---- Writing ----------------------------------------------------------
  // Each writer puts its text in front of `tail`, as builders do.

  predicate NeedsEscape(c: char) {
    c == '\"' || c == '\\' || c < ' '
  }

  const BACKSPACE: char := 8 as char
  const FORM_FEED: char := 12 as char

  function HexChar(d: int): char
    requires 0 <= d < 16
  {
    if d < 10 then ('0' as int + d) as char else ('a' as int + d - 10) as char
  }

  function EscapeChar(c: char): Text
    requires NeedsEscape(c)
  {
    if c == '\"' then "\\\""
    else if c == '\\' then "\\\\"
    else if c == BACKSPACE then "\\b"
    else if c == FORM_FEED then "\\f"
    else if c == '\n' then "\\n"
    else if c == '\r' then "\\r"
    else if c == '\t' then "\\t"
    else "\\u00" + [HexChar(c as int / 16), HexChar(c as int % 16)]
  }

  /** A character as it stands in a written string. */
  function Spelled(c: char): Text {
    if NeedsEscape(c) then EscapeChar(c) else [c]
  }

  /** Quotes, backslashes and control characters escaped, the clean runs between
      them as they are. */
  function Escape(s: Text): Text {
    CopyRuns(NeedsEscape, Spelled, s)
  }

  /** How documents are written: each string passed through a rewrite first, and a
      gap of insignificant space around each structural character.  The program
      leaves none; a document it reads may have some. */
  datatype Writer = Writer(num: Numerics, rewrite: Text -> Text, gap: Text) {
    predicate Spaced() {
      forall i :: 0 <= i < |gap| ==> gap[i] as int in {0x20, 0x09, 0x0A, 0x0D}
    }

    function Quoted(s: Text, tail: Text): Text {
      "\"" + (Escape(rewrite(s)) + ("\"" + tail))
    }

    function Render(v: Json, tail: Text): Text
      decreases v
    {
      match v
      case Null => "null" + tail
      case Bool(b) => if b then "true" + tail else "false" + tail
      case Int(n) => Decimal(n) + tail
      case Float(d) => (if d == NotFinite then "null" else FormatDouble(num, d)) + tail
      case Str(s) => Quoted(s, tail)
      case Arr(_) => "[" + (gap + RenderItems(v, 0, gap + ("]" + tail)))
      case Obj(_) => "{" + (gap + RenderMembers(v, 0, gap + ("}" + tail)))
    }

    /** What goes between two items. */
    function Comma(tail: Text): Text {
      gap + ("," + (gap + tail))
    }

    /** An array's elements from an index on. */
    function RenderItems(v: Json, i: nat, tail: Text): Text
      requires v.Arr? && i <= |v.items|
      decreases v, |v.items| - i
    {
      if i == |v.items| then tail
      else if i == |v.items| - 1 then Render(v.items[i], tail)
      else Render(v.items[i], Comma(RenderItems(v, i + 1, tail)))
    }

    /** An object's members, in the order of their names, from an index on. */
    function RenderMembers(v: Json, i: nat, tail: Text): Text
      requires v.Obj? && i <= |Members(v)|
      decreases v, |Members(v)| - i
    {
      if i == |Members(v)| then tail
      else if i == |Members(v)| - 1 then RenderMember(v, i, tail)
      else RenderMember(v, i, Comma(RenderMembers(v, i + 1, tail)))
    }

    function RenderMember(v: Json, i: nat, tail: Text): Text
      requires v.Obj? && i < |Members(v)|
      decreases v, |Members(v)| - i, 0
    {
      Quoted(Members(v)[i].0, gap + (":" + (gap + Render(MemberValue(v, i), tail))))
    }

    /** A whole document, perhaps after a byte order mark. */
    function Document(v: Json, mark: bool): Text {
      (if mark then "\U{FEFF}" else "") + (gap + Render(v, gap))
    }
  }

  function Members(v: Json): seq<(Text, Json)>
    requires v.Obj?
  {
    TextsOrdered();
    Pairs(AtMostText, v.members)
  }

  function MemberValue(v: Json, i: nat): (w: Json)
    requires v.Obj? && i < |Members(v)|
    ensures w < v && w == Members(v)[i].1
  {
    TextsOrdered();
    assert Members(v)[i].0 in v.members;
    v.members[Members(v)[i].0]
  }

  // ---- Reading ----------------------------------------------------------

  predicate IsSpace(c: char) {
    c == ' ' || c == '\t' || c == '\n' || c == '\r'
  }

  function SkipSpace(t: Text): (r: Text)
    ensures |r| <= |t|
  {
    if t != [] && IsSpace(t[0]) then SkipSpace(t[1..]) else t
  }

  const BYTE_ORDER_MARK: char := '\U{FEFF}'

  function HexValue(c: char): (r: Option<int>)
    ensures r.Some? ==> 0 <= r.value < 16
  {
    if '0' <= c <= '9' then Some(c as int - '0' as int)
    else if 'a' <= c <= 'f' then Some(c as int - 'a' as int + 10)
    else if 'A' <= c <= 'F' then Some(c as int - 'A' as int + 10)
    else None
  }

  /** The four hex digits of a `\u` escape. */
  function CodeUnit(t: Text): (r: Parse<int, Text>)
    ensures r.Success? ==> |r.rest| < |t|
  {
    if |t| < 4 then Failure
    else match (HexValue(t[0]), HexValue(t[1]), HexValue(t[2]), HexValue(t[3]))
      case (Some(a), Some(b), Some(c), Some(d)) => Success(((a * 16 + b) * 16 + c) * 16 + d, t[4..])
      case _ => Failure
  }

  predicate IsHighSurrogate(unit: int) {
    0xD800 <= unit < 0xDC00
  }

  predicate IsLowSurrogate(unit: int) {
    0xDC00 <= unit < 0xE000
  }

  function StripPrefix(prefix: Text, t: Text): (r: Option<Text>)
    ensures r.Some? ==> |r.value| + |prefix| == |t|
  {
    if prefix <= t then Some(t[|prefix|..]) else None
  }

  /** The scalar value a `\u` escape names, a high surrogate only with the low one
      after it. */
  function CodePoint(unit: int, t: Text): (r: Parse<Text, Text>)
    requires 0 <= unit < 0x10000
    ensures r.Success? ==> |r.rest| <= |t|
  {
    if IsHighSurrogate(unit) then
      match StripPrefix("\\u", t)
      case None => Failure
      case Some(marked) =>
        var (low, rest) :- CodeUnit(marked);
        if IsLowSurrogate(low) then
          Success([(0x10000 + (unit - 0xD800) * 0x400 + (low - 0xDC00)) as char], rest)
        else Failure
    else if IsLowSurrogate(unit) then Failure
    else Success([unit as char], t)
  }

  lemma UnitInRange(t: Text)
    ensures CodeUnit(t).Success? ==> 0 <= CodeUnit(t).value < 0x10000
  {
  }

  /** One escape sequence, after its backslash. */
  function ParseEscape(t: Text): (r: Parse<Text, Text>)
    ensures r.Success? ==> |r.rest| < |t|
  {
    if t == [] then Failure
    else match t[0]
      case '\"' => Success("\"", t[1..])
      case '\\' => Success("\\", t[1..])
      case '/' => Success("/", t[1..])
      case 'b' => Success([BACKSPACE], t[1..])
      case 'f' => Success([FORM_FEED], t[1..])
      case 'n' => Success("\n", t[1..])
      case 'r' => Success("\r", t[1..])
      case 't' => Success("\t", t[1..])
      case 'u' =>
        var (unit, rest) :- CodeUnit(t[1..]);
        UnitInRange(t[1..]);
        CodePoint(unit, rest)
      case _ => Failure
  }

  /** The rest of a string after its opening quote, after `done`. */
  function ParseString(t: Text, done: Text): (r: Parse<Text, Text>)
    ensures r.Success? ==> |r.rest| < |t|
    decreases |t|
  {
    var n := Clean(NeedsEscape, t);
    if n == |t| then Failure
    else if t[n] == '\"' then Success(done + t[..n], t[n + 1..])
    else if t[n] == '\\' then
      var (decoded, rest) :- ParseEscape(t[n + 1..]);
      ParseString(rest, done + t[..n] + decoded)
    else Failure
  }

  /** How many digits come first. */
  function DigitRun(t: Text): (n: nat)
    ensures n <= |t| && AllDigits(t[..n]) && (n < |t| ==> !IsDigit(t[n]))
  {
    if t == [] || !IsDigit(t[0]) then 0 else 1 + DigitRun(t[1..])
  }

  /** A number's parts as they stand. */
  datatype Lexeme = Lexeme(sign: Text, integral: Text, fraction: Text, exponent: Text) {
    function Text(): Text {
      sign + integral + fraction + exponent
    }

    predicate IsFloat() {
      fraction != [] || exponent != []
    }
  }

  function IntegerPart(t: Text): (r: Parse<Text, Text>)
    ensures r.Success? ==> |r.rest| < |t| && r.value != [] && AllDigits(r.value)
  {
    if t == [] then Failure
    else if t[0] == '0' then Success("0", t[1..])
    else if IsDigit(t[0]) then Success(t[..DigitRun(t)], t[DigitRun(t)..])
    else Failure
  }

  function DigitsAfter(marker: Text, t: Text): (r: Parse<Text, Text>)
    ensures r.Success? ==> |r.rest| <= |t|
  {
    if DigitRun(t) == 0 then Failure else Success(marker + t[..DigitRun(t)], t[DigitRun(t)..])
  }

  function FractionPart(t: Text): (r: Parse<Text, Text>)
    ensures r.Success? ==> |r.rest| <= |t|
  {
    if t != [] && t[0] == '.' then DigitsAfter(".", t[1..]) else Success("", t)
  }

  function ExponentPart(t: Text): (r: Parse<Text, Text>)
    ensures r.Success? ==> |r.rest| <= |t|
  {
    if t != [] && (t[0] == 'e' || t[0] == 'E') then
      if |t| > 1 && (t[1] == '+' || t[1] == '-') then DigitsAfter(t[..2], t[2..])
      else DigitsAfter(t[..1], t[1..])
    else Success("", t)
  }

  function Scan(t: Text): (r: Parse<Lexeme, Text>)
    ensures r.Success? ==> |r.rest| < |t| && r.value.integral != [] && AllDigits(r.value.integral)
    ensures r.Success? ==> r.value.sign == "" || r.value.sign == "-"
  {
    if t != [] && t[0] == '-' then ScanUnsigned("-", t[1..]) else ScanUnsigned("", t)
  }

  function ScanUnsigned(sign: Text, t: Text): (r: Parse<Lexeme, Text>)
    ensures r.Success? ==>
              |r.rest| < |t| && r.value.integral != [] && AllDigits(r.value.integral) && r.value.sign == sign
  {
    var (integral, t) :- IntegerPart(t);
    var (fraction, t) :- FractionPart(t);
    var (exponent, t) :- ExponentPart(t);
    Success(Lexeme(sign, integral, fraction, exponent), t)
  }

  /** Which documents are read, and how. */
  datatype Reader = Reader(num: Numerics, range: IntegerRange) {
    /** What a number's parts stand for: an integer while it fits, a float past
        that, nothing past the floats. */
    function NumberOf(x: Lexeme): Option<Json>
      requires AllDigits(x.integral)
    {
      var n: int := if x.sign == "" then Value(x.integral) else 0 - Value(x.integral);
      if !x.IsFloat() && MIN_INT64 <= n <= MAX_INT64 then Some(Int(n))
      else if !x.IsFloat() && MAX_INT64 < n <= MAX_WORD64 then
        if range == NlohmannRange then Some(Int(n)) else None
      else match num.read(x.Text())
        case Some(d) => Some(Float(d))
        case None => None
    }

    function ParseNumber(t: Text): (r: Parse<Json, Text>)
      ensures r.Success? ==> |r.rest| < |t|
    {
      var (x, rest) :- Scan(t);
      match NumberOf(x)
      case Some(v) => Success(v, rest)
      case None => Failure
    }

    function Literal(word: Text, value: Json, t: Text): (r: Parse<Json, Text>)
      requires word != []
      ensures r.Success? ==> |r.rest| < |t|
    {
      match StripPrefix(word, t)
      case Some(rest) => Success(value, rest)
      case None => Failure
    }

    /** One value, its leading space already skipped. */
    function ParseValue(t: Text): (r: Parse<Json, Text>)
      ensures r.Success? ==> |r.rest| < |t|
      decreases |t|, 0
    {
      if t == [] then Failure
      else if t[0] == '{' then ParseObject(SkipSpace(t[1..]))
      else if t[0] == '[' then ParseArray(SkipSpace(t[1..]))
      else ParseScalar(t)
    }

    /** A value that holds no others. */
    function ParseScalar(t: Text): (r: Parse<Json, Text>)
      requires t != []
      ensures r.Success? ==> |r.rest| < |t|
    {
      if t[0] == '\"' then
        var (s, rest) :- ParseString(t[1..], "");
        Success(Str(s), rest)
      else if t[0] == 't' then Literal("true", Bool(true), t)
      else if t[0] == 'f' then Literal("false", Bool(false), t)
      else if t[0] == 'n' then Literal("null", Null, t)
      else if t[0] == '-' || IsDigit(t[0]) then ParseNumber(t)
      else Failure
    }

    function ParseArray(t: Text): (r: Parse<Json, Text>)
      ensures r.Success? ==> |r.rest| < |t|
      decreases |t|, 2
    {
      if t != [] && t[0] == ']' then Success(Arr([]), t[1..]) else ParseElements([], t)
    }

    function ParseElements(done: seq<Json>, t: Text): (r: Parse<Json, Text>)
      ensures r.Success? ==> |r.rest| < |t|
      decreases |t|, 1
    {
      var (value, rest) :- ParseValue(t);
      var after := SkipSpace(rest);
      if after == [] then Failure
      else if after[0] == ',' then ParseElements(done + [value], SkipSpace(after[1..]))
      else if after[0] == ']' then Success(Arr(done + [value]), after[1..])
      else Failure
    }

    function ParseObject(t: Text): (r: Parse<Json, Text>)
      ensures r.Success? ==> |r.rest| < |t|
      decreases |t|, 3
    {
      if t != [] && t[0] == '}' then Success(Obj(map[]), t[1..]) else ParseMembers(map[], t)
    }

    function ParseMembers(done: map<Text, Json>, t: Text): (r: Parse<Json, Text>)
      ensures r.Success? ==> |r.rest| < |t|
      decreases |t|, 2
    {
      var (member, rest) :- ParseMember(t);
      var with := done[member.0 := member.1];
      var after := SkipSpace(rest);
      if after == [] then Failure
      else if after[0] == ',' then ParseMembers(with, SkipSpace(after[1..]))
      else if after[0] == '}' then Success(Obj(with), after[1..])
      else Failure
    }

    /** A member's name and value. */
    function ParseMember(t: Text): (r: Parse<(Text, Json), Text>)
      ensures r.Success? ==> |r.rest| < |t|
      decreases |t|, 1
    {
      if t == [] || t[0] != '\"' then Failure
      else
        var (name, afterName) :- ParseString(t[1..], "");
        var beforeColon := SkipSpace(afterName);
        if beforeColon == [] || beforeColon[0] != ':' then Failure
        else
          var (value, afterValue) :- ParseValue(SkipSpace(beforeColon[1..]));
          Success((name, value), afterValue)
    }

    /** A whole document: one value, space around it, perhaps a byte order mark. */
    function ParseJson(t: Text): Option<Json> {
      var body := if t != [] && t[0] == BYTE_ORDER_MARK then t[1..] else t;
      match ParseValue(SkipSpace(body))
      case Success(v, rest) => if SkipSpace(rest) == [] then Some(v) else None
      case Failure => None
    }
  }
}
