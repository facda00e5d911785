/** The texts that are JSON (RFC 8259), as trees of their parts, and that the
    reader accepts exactly those (src/Nix/Json.hs). */
module JsonGrammar {
  import opened Basics
  import opened Escaping
  import opened Json
  import opened JsonNumbers
  import opened JsonStrings
  import opened JsonFormat

  // ---- Texts ------------------------------------------------------------
  // Each part's text is put in front of `tail`.

  /** A character of a string as it stands: bare, after a backslash, by its code
      unit, or by the two it takes. */
  datatype Piece = Bare(c: char) | Short(letter: char) | Coded(unit: Text) | Paired(high: Text, low: Text)

  datatype Tree =
    | Word(word: Json)
    | Number(x: Lexeme)
    | Quoted(pieces: seq<Piece>)
    | EmptyArray(gap: Text)
    | Array(gap: Text, elements: Elements)
    | EmptyObject(gap: Text)
    | Object(gap: Text, entries: Entries)

  datatype Elements =
    | LastElement(item: Tree, after: Text)
    | Element(item: Tree, after: Text, gap: Text, rest: Elements)

  datatype Entries =
    | LastEntry(name: seq<Piece>, before: Text, inside: Text, value: Tree, after: Text)
    | Entry(name: seq<Piece>, before: Text, inside: Text, value: Tree, after: Text, gap: Text, rest: Entries)

  /** A whole document: perhaps a byte order mark, and space around one value. */
  datatype Document = Document(mark: bool, before: Text, tree: Tree, after: Text)

  function PieceText(p: Piece, tail: Text): Text {
    match p
    case Bare(c) => [c] + tail
    case Short(letter) => "\U{5C}" + ([letter] + tail)
    case Coded(unit) => "\U{5C}" + ("u" + (unit + tail))
    case Paired(high, low) => "\U{5C}" + ("u" + (high + ("\U{5C}u" + (low + tail))))
  }

  function PiecesText(ps: seq<Piece>, tail: Text): Text {
    if ps == [] then tail else PieceText(ps[0], PiecesText(ps[1..], tail))
  }

  function StringText(ps: seq<Piece>, tail: Text): Text {
    "\U{22}" + PiecesText(ps, "\U{22}" + tail)
  }

  function WordText(word: Json): Text {
    match word
    case Bool(b) => if b then "true" else "false"
    case _ => "null"
  }

  function TreeText(t: Tree, tail: Text): Text {
    match t
    case Word(word) => WordText(word) + tail
    case Number(x) => x.sign + (x.integral + (x.fraction + (x.exponent + tail)))
    case Quoted(ps) => StringText(ps, tail)
    case EmptyArray(gap) => "[" + (gap + ("]" + tail))
    case Array(gap, es) => "[" + (gap + ElementsText(es, "]" + tail))
    case EmptyObject(gap) => "{" + (gap + ("}" + tail))
    case Object(gap, es) => "{" + (gap + EntriesText(es, "}" + tail))
  }

  function ElementsText(es: Elements, tail: Text): Text {
    match es
    case LastElement(item, after) => TreeText(item, after + tail)
    case Element(item, after, gap, rest) => TreeText(item, after + ("," + (gap + ElementsText(rest, tail))))
  }

  function EntriesText(es: Entries, tail: Text): Text {
    var next := es.after + match es
                           case LastEntry(_, _, _, _, _) => tail
                           case Entry(_, _, _, _, _, gap, rest) => "," + (gap + EntriesText(rest, tail));
    StringText(es.name, es.before + (":" + (es.inside + TreeText(es.value, next))))
  }

  function DocumentText(d: Document): Text {
    (if d.mark then "\U{FEFF}" else "") + (d.before + TreeText(d.tree, d.after))
  }

  // ---- Which of them are JSON -------------------------------------------

  predicate IsGap(t: Text) {
    forall i :: 0 <= i < |t| ==> t[i] as int in {0x20, 0x09, 0x0A, 0x0D}
  }

  predicate IsHex4(t: Text) {
    |t| == 4 && forall i :: 0 <= i < 4 ==> HexValue(t[i]).Some?
  }

  function Unit(t: Text): (unit: int)
    requires IsHex4(t)
    ensures 0 <= unit < 0x10000
  {
    0x1000 * HexValue(t[0]).value + 0x100 * HexValue(t[1]).value + 0x10 * HexValue(t[2]).value + HexValue(t[3]).value
  }

  predicate PieceOk(p: Piece) {
    match p
    case Bare(c) => c as int >= 0x20 && c as int != 0x22 && c as int != 0x5C
    case Short(letter) => letter as int in ESCAPES
    case Coded(unit) => IsHex4(unit) && !(0xD800 <= Unit(unit) < 0xE000)
    case Paired(high, low) =>
      IsHex4(high) && IsHex4(low) && 0xD800 <= Unit(high) < 0xDC00 && 0xDC00 <= Unit(low) < 0xE000
  }

  ghost predicate PiecesOk(ps: seq<Piece>) {
    forall p :: p in ps ==> PieceOk(p)
  }

  /** The character a piece stands for. */
  function PieceValue(p: Piece): char {
    if !PieceOk(p) then ' '
    else match p
      case Bare(c) => c
      case Short(letter) => ESCAPES[letter as int] as char
      case Coded(unit) => Unit(unit) as char
      case Paired(high, low) => (0x10000 + 0x400 * (Unit(high) - 0xD800) + (Unit(low) - 0xDC00)) as char
  }

  predicate ExponentOk(t: Text) {
    t == "" || (|t| > 1 && (t[0] == 'e' || t[0] == 'E') &&
                (AllDigits(t[1..]) || (|t| > 2 && (t[1] == '+' || t[1] == '-') && AllDigits(t[2..]))))
  }

  predicate NumberOk(x: Lexeme) {
    (x.sign == "" || x.sign == "-") && IsIntegral(x.integral) && IsFraction(x.fraction) && ExponentOk(x.exponent)
  }

  /** The grammar of section 2 to 7, and every number one the reader keeps. */
  ghost predicate TreeOk(r: Reader, t: Tree) {
    match t
    case Word(word) => word.Null? || word.Bool?
    case Number(x) => NumberOk(x) && r.NumberOf(x).Some?
    case Quoted(ps) => PiecesOk(ps)
    case EmptyArray(gap) => IsGap(gap)
    case Array(gap, es) => IsGap(gap) && ElementsOk(r, es)
    case EmptyObject(gap) => IsGap(gap)
    case Object(gap, es) => IsGap(gap) && EntriesOk(r, es)
  }

  ghost predicate ElementsOk(r: Reader, es: Elements) {
    && TreeOk(r, es.item) && IsGap(es.after)
    && (es.Element? ==> IsGap(es.gap) && ElementsOk(r, es.rest))
  }

  ghost predicate EntriesOk(r: Reader, es: Entries) {
    && PiecesOk(es.name) && IsGap(es.before) && IsGap(es.inside) && TreeOk(r, es.value) && IsGap(es.after)
    && (es.Entry? ==> IsGap(es.gap) && EntriesOk(r, es.rest))
  }

  ghost predicate DocumentOk(r: Reader, d: Document) {
    IsGap(d.before) && TreeOk(r, d.tree) && IsGap(d.after)
  }

  /** The value a tree spells: elements in order, and of a repeated name the last. */
  ghost function TreeValue(r: Reader, t: Tree): Json
    requires TreeOk(r, t)
    decreases t
  {
    match t
    case Word(word) => word
    case Number(x) => r.NumberOf(x).value
    case Quoted(ps) => Str(Map(PieceValue, ps))
    case EmptyArray(_) => Arr([])
    case Array(_, es) => Arr(ElementsAfter(r, [], es))
    case EmptyObject(_) => Obj(map[])
    case Object(_, es) => Obj(EntriesAfter(r, map[], es))
  }

  ghost function ElementsAfter(r: Reader, done: seq<Json>, es: Elements): seq<Json>
    requires ElementsOk(r, es)
    decreases es
  {
    var more := done + [TreeValue(r, es.item)];
    if es.Element? then ElementsAfter(r, more, es.rest) else more
  }

  ghost function EntriesAfter(r: Reader, done: map<Text, Json>, es: Entries): map<Text, Json>
    requires EntriesOk(r, es)
    decreases es
  {
    var more := done[Map(PieceValue, es.name) := TreeValue(r, es.value)];
    if es.Entry? then EntriesAfter(r, more, es.rest) else more
  }

  // ---- Space ------------------------------------------------------------

  /** What the reader finds after skipping space. */
  ghost predicate Starts(t: Text) {
    t != [] ==> !IsSpace(t[0])
  }

  lemma {:induction false} GapSkips(gap: Text, t: Text)
    requires IsGap(gap) && Starts(t)
    ensures SkipSpace(gap + t) == t
  {
    if gap == [] {
      assert gap + t == t;
    } else {
      GapSkips(gap[1..], t);
      assert (gap + t)[1..] == gap[1..] + t;
    }
  }

  lemma {:induction false} SkipsGap(t: Text) returns (gap: Text)
    ensures IsGap(gap) && t == gap + SkipSpace(t) && Starts(SkipSpace(t))
  {
    if t != [] && IsSpace(t[0]) {
      var rest := SkipsGap(t[1..]);
      gap := [t[0]] + rest;
      assert t == [t[0]] + t[1..];
    } else {
      gap := [];
      assert t == gap + t;
    }
  }

  // ---- Strings ----------------------------------------------------------

  lemma UnitReads(unit: Text, tail: Text)
    requires IsHex4(unit)
    ensures CodeUnit(unit + tail) == Success(Unit(unit), tail)
  {
    var t := unit + tail;
    assert t[0] == unit[0] && t[1] == unit[1] && t[2] == unit[2] && t[3] == unit[3] && t[4..] == tail;
  }

  lemma PieceReads(p: Piece, tail: Text)
    requires PieceOk(p)
    ensures Chars(PieceText(p, tail)) == Before([PieceValue(p)], Chars(tail))
  {
    var t := PieceText(p, tail);
    match p
    case Bare(c) => assert t[1..] == tail;
    case Short(letter) =>
      EscapesRead(letter, tail);
      assert t[1..] == [letter] + tail;
    case Coded(unit) =>
      UnitReads(unit, tail);
      assert t[1..] == "u" + (unit + tail) && t[1..][1..] == unit + tail;
    case Paired(high, low) =>
      PairReads(high, low, tail);
      assert t[1..] == "u" + (high + ("\U{5C}u" + (low + tail)));
  }

  lemma PairReads(high: Text, low: Text, tail: Text)
    requires PieceOk(Paired(high, low))
    ensures ParseEscape("u" + (high + ("\U{5C}u" + (low + tail)))) == Success([PieceValue(Paired(high, low))], tail)
  {
    var second := "\U{5C}u" + (low + tail);
    UnitReads(high, second);
    UnitReads(low, tail);
    assert ("u" + (high + second))[1..] == high + second && second[2..] == low + tail;
  }

  lemma {:induction false} PiecesRead(ps: seq<Piece>, tail: Text)
    requires PiecesOk(ps)
    ensures Chars(PiecesText(ps, "\U{22}" + tail)) == Success(Map(PieceValue, ps), tail)
  {
    if ps == [] {
      assert ("\U{22}" + tail)[1..] == tail;
    } else {
      PiecesRead(ps[1..], tail);
      assert ps[0] in ps;
      PieceReads(ps[0], PiecesText(ps[1..], "\U{22}" + tail));
      MapFirst(PieceValue, ps);
    }
  }

  /** A string is read as what its pieces stand for. */
  lemma StringReads(ps: seq<Piece>, tail: Text)
    requires PiecesOk(ps)
    ensures StringText(ps, tail)[0] == '\U{22}'
    ensures ParseString(StringText(ps, tail)[1..], "") == Success(Map(PieceValue, ps), tail)
  {
    var rest := PiecesText(ps, "\U{22}" + tail);
    assert StringText(ps, tail)[1..] == rest;
    PiecesRead(ps, tail);
    StringIsChars(rest, "");
    assert "" + Map(PieceValue, ps) == Map(PieceValue, ps);
  }

  lemma UnitIsHex(t: Text)
    requires CodeUnit(t).Success?
    ensures IsHex4(t[..4]) && Unit(t[..4]) == CodeUnit(t).value && t == t[..4] + CodeUnit(t).rest
  {
  }

  lemma CodeIsPiece(t: Text) returns (p: Piece)
    requires t != [] && t[0] == 'u' && ParseEscape(t).Success?
    ensures PieceOk(p) && "\U{5C}" + t == PieceText(p, ParseEscape(t).rest)
    ensures ParseEscape(t).value == [PieceValue(p)]
  {
    assert t == "u" + t[1..];
    UnitIsHex(t[1..]);
    var unit, rest := t[1..][..4], CodeUnit(t[1..]).rest;
    if IsHighSurrogate(Unit(unit)) {
      var marked := StripPrefix("\\u", rest).value;
      UnitIsHex(marked);
      p := Paired(unit, marked[..4]);
      assert rest == "\U{5C}u" + marked;
    } else {
      p := Coded(unit);
    }
  }

  /** An escape that is read is a piece. */
  lemma EscapeIsPiece(t: Text) returns (p: Piece)
    requires ParseEscape(t).Success?
    ensures PieceOk(p) && "\U{5C}" + t == PieceText(p, ParseEscape(t).rest)
    ensures ParseEscape(t).value == [PieceValue(p)]
  {
    EscapesRead(t[0], t[1..]);
    assert t == [t[0]] + t[1..];
    if t[0] as int in ESCAPES {
      p := Short(t[0]);
    } else {
      p := CodeIsPiece(t);
    }
  }

  lemma {:induction false} CharsArePieces(t: Text) returns (ps: seq<Piece>)
    requires Chars(t).Success?
    ensures PiecesOk(ps) && t == PiecesText(ps, "\U{22}" + Chars(t).rest) && Chars(t).value == Map(PieceValue, ps)
    decreases |t|
  {
    assert t == [t[0]] + t[1..];
    if t[0] == '\"' {
      ps := [];
    } else {
      var p, after;
      if t[0] == '\\' {
        p := EscapeIsPiece(t[1..]);
        after := ParseEscape(t[1..]).rest;
      } else {
        p, after := Bare(t[0]), t[1..];
      }
      var rest := CharsArePieces(after);
      ps := [p] + rest;
      assert ps[1..] == rest;
      MapFirst(PieceValue, ps);
    }
  }

  /** Nothing but a string is read as one. */
  lemma StringIsPieces(t: Text) returns (ps: seq<Piece>)
    requires t != [] && t[0] == '\"' && ParseString(t[1..], "").Success?
    ensures PiecesOk(ps) && t == StringText(ps, ParseString(t[1..], "").rest)
    ensures ParseString(t[1..], "").value == Map(PieceValue, ps)
  {
    StringIsChars(t[1..], "");
    ps := CharsArePieces(t[1..]);
    assert "" + Map(PieceValue, ps) == Map(PieceValue, ps);
    assert t == "\U{22}" + t[1..];
  }

  // ---- Numbers ----------------------------------------------------------

  lemma ExponentScans(t: Text, tail: Text)
    requires ExponentOk(t) && Delimited(tail)
    ensures ExponentPart(t + tail) == Success(t, tail)
  {
    if t == "" {
      assert t + tail == tail;
    } else {
      var n := if t[1] == '+' || t[1] == '-' then 2 else 1;
      assert AllDigits(t[n..]) && t[n..] != [] && t == t[..n] + t[n..];
      DigitRunReads(t[n..], tail);
      assert (t + tail)[n..] == t[n..] + tail && (t + tail)[..n] == t[..n];
    }
  }

  lemma NumberScans(x: Lexeme, tail: Text)
    requires NumberOk(x) && Delimited(tail)
    ensures Scan(TreeText(Number(x), tail)) == Success(x, tail)
  {
    var unsigned := x.integral + (x.fraction + (x.exponent + tail));
    IntegralReads(x.integral, x.fraction + (x.exponent + tail));
    FractionReads(x.fraction, x.exponent + tail);
    ExponentScans(x.exponent, tail);
    assert unsigned[0] == x.integral[0] != '-';
    SignReads(x.sign, unsigned);
  }

  lemma NumberStarts(x: Lexeme, tail: Text)
    requires NumberOk(x)
    ensures var t := TreeText(Number(x), tail); t != [] && (t[0] == '-' || IsDigit(t[0]))
  {
  }

  lemma DigitsAreThere(marker: Text, t: Text)
    requires DigitsAfter(marker, t).Success?
    ensures var ds := t[..DigitRun(t)];
            ds != [] && AllDigits(ds) && DigitsAfter(marker, t).value == marker + ds
            && marker + t == (marker + ds) + DigitsAfter(marker, t).rest
  {
  }

  lemma IntegralIsThere(t: Text)
    requires IntegerPart(t).Success?
    ensures IsIntegral(IntegerPart(t).value) && t == IntegerPart(t).value + IntegerPart(t).rest
  {
  }

  lemma FractionIsThere(t: Text)
    requires FractionPart(t).Success?
    ensures IsFraction(FractionPart(t).value) && t == FractionPart(t).value + FractionPart(t).rest
  {
    if t != [] && t[0] == '.' {
      DigitsAreThere(".", t[1..]);
      assert t == "." + t[1..];
    }
  }

  lemma ExponentIsThere(t: Text)
    requires ExponentPart(t).Success?
    ensures ExponentOk(ExponentPart(t).value) && t == ExponentPart(t).value + ExponentPart(t).rest
  {
    if t != [] && (t[0] == 'e' || t[0] == 'E') {
      var n := if |t| > 1 && (t[1] == '+' || t[1] == '-') then 2 else 1;
      DigitsAreThere(t[..n], t[n..]);
      assert t == t[..n] + t[n..];
      var ds := t[n..][..DigitRun(t[n..])];
      assert (t[..n] + ds)[n..] == ds;
    }
  }

  /** What is scanned is a number. */
  lemma ScanIsNumber(t: Text)
    requires Scan(t).Success?
    ensures NumberOk(Scan(t).value) && t == TreeText(Number(Scan(t).value), Scan(t).rest)
  {
    var sign := if t != [] && t[0] == '-' then "-" else "";
    var unsigned := t[|sign|..];
    assert t == sign + unsigned && Scan(t) == ScanUnsigned(sign, unsigned);
    IntegralIsThere(unsigned);
    FractionIsThere(IntegerPart(unsigned).rest);
    ExponentIsThere(FractionPart(IntegerPart(unsigned).rest).rest);
  }

  // ---- Trees are read ---------------------------------------------------

  /** A tree's text starts with no space, and with nothing that closes or separates. */
  lemma TreeStarts(r: Reader, t: Tree, tail: Text)
    requires TreeOk(r, t)
    ensures var text := TreeText(t, tail);
            text != [] && !IsSpace(text[0]) && text[0] != ']' && text[0] != '}' && text[0] != '\U{FEFF}'
  {
    match t
    case Word(word) => assert TreeText(t, tail)[0] == WordText(word)[0];
    case Number(x) => NumberStarts(x, tail);
    case _ =>
  }

  lemma GapDelimits(gap: Text, c: char, tail: Text)
    requires IsGap(gap) && (c == ',' || c == ']' || c == '}')
    ensures Delimited(gap + ([c] + tail)) && SkipSpace(gap + ([c] + tail)) == [c] + tail
  {
    GapSkips(gap, [c] + tail);
    assert gap != [] ==> (gap + ([c] + tail))[0] == gap[0];
    assert gap == [] ==> gap + ([c] + tail) == [c] + tail;
  }

  lemma WordReads(r: Reader, word: Json, tail: Text)
    requires word.Null? || word.Bool?
    ensures r.ParseValue(WordText(word) + tail) == Success(word, tail)
  {
    var t := WordText(word) + tail;
    assert WordText(word) <= t && t[|WordText(word)|..] == tail;
    assert t[0] == if word.Null? then 'n' else if word.b then 't' else 'f';
    assert r.ParseScalar(t) == r.Literal(WordText(word), word, t);
  }

  lemma NumberReads(r: Reader, x: Lexeme, tail: Text)
    requires NumberOk(x) && r.NumberOf(x).Some? && Delimited(tail)
    ensures r.ParseValue(TreeText(Number(x), tail)) == Success(r.NumberOf(x).value, tail)
  {
    var t := TreeText(Number(x), tail);
    NumberStarts(x, tail);
    NumberScans(x, tail);
    ScalarValue(r, t);
    NumberValue(r, t, t[0]);
    NumberIsParsed(r, t, x, tail);
  }

  lemma ScalarValue(r: Reader, t: Text)
    requires t != [] && t[0] != '{' && t[0] != '['
    ensures r.ParseValue(t) == r.ParseScalar(t)
  {
  }

  lemma NumberValue(r: Reader, t: Text, first: char)
    requires t != [] && t[0] == first && (first == '-' || IsDigit(first))
    ensures r.ParseScalar(t) == r.ParseNumber(t)
  {
    assert first !in {'\"', 't', 'f', 'n'};
  }

  lemma NumberIsParsed(r: Reader, t: Text, x: Lexeme, tail: Text)
    requires AllDigits(x.integral) && Scan(t) == Success(x, tail) && r.NumberOf(x).Some?
    ensures r.ParseNumber(t) == Success(r.NumberOf(x).value, tail)
  {
  }

  lemma ScalarReads(r: Reader, t: Tree, tail: Text)
    requires TreeOk(r, t) && Delimited(tail) && (t.Word? || t.Number? || t.Quoted?)
    ensures r.ParseValue(TreeText(t, tail)) == Success(TreeValue(r, t), tail)
  {
    match t
    case Word(word) => WordReads(r, word, tail);
    case Number(x) => NumberReads(r, x, tail);
    case Quoted(ps) => StringReads(ps, tail);
  }

  /** Every tree is read as its value, with what follows it left over. */
  lemma {:induction false} TreeReads(r: Reader, t: Tree, tail: Text)
    requires TreeOk(r, t) && Delimited(tail)
    ensures r.ParseValue(TreeText(t, tail)) == Success(TreeValue(r, t), tail)
    decreases t
  {
    var text := TreeText(t, tail);
    match t
    case EmptyArray(gap) =>
      GapDelimits(gap, ']', tail);
      assert text[1..] == gap + ("]" + tail) && ("]" + tail)[1..] == tail;
    case EmptyObject(gap) =>
      GapDelimits(gap, '}', tail);
      assert text[1..] == gap + ("}" + tail) && ("}" + tail)[1..] == tail;
    case Array(gap, es) =>
      ElementsRead(r, [], es, tail);
      ElementsStart(r, es, "]" + tail);
      GapSkips(gap, ElementsText(es, "]" + tail));
      assert text[1..] == gap + ElementsText(es, "]" + tail);
    case Object(gap, es) =>
      EntriesRead(r, map[], es, tail);
      GapSkips(gap, EntriesText(es, "}" + tail));
      assert text[1..] == gap + EntriesText(es, "}" + tail);
    case _ => ScalarReads(r, t, tail);
  }

  lemma ElementsStart(r: Reader, es: Elements, tail: Text)
    requires ElementsOk(r, es)
    ensures var text := ElementsText(es, tail); text != [] && !IsSpace(text[0]) && text[0] != ']'
  {
    match es
    case LastElement(item, after) => TreeStarts(r, item, after + tail);
    case Element(item, after, gap, rest) => TreeStarts(r, item, after + ("," + (gap + ElementsText(rest, tail))));
  }

  lemma {:induction false} ElementsRead(r: Reader, done: seq<Json>, es: Elements, tail: Text)
    requires ElementsOk(r, es)
    ensures r.ParseElements(done, ElementsText(es, "]" + tail)) == Success(Arr(ElementsAfter(r, done, es)), tail)
    decreases es
  {
    match es
    case LastElement(item, after) =>
      GapDelimits(after, ']', tail);
      TreeReads(r, item, after + ("]" + tail));
      assert ("]" + tail)[1..] == tail;
    case Element(item, after, gap, rest) =>
      var next := ElementsText(rest, "]" + tail);
      GapDelimits(after, ',', gap + next);
      TreeReads(r, item, after + ("," + (gap + next)));
      ElementsStart(r, rest, "]" + tail);
      GapSkips(gap, next);
      assert ("," + (gap + next))[1..] == gap + next;
      ElementsRead(r, done + [TreeValue(r, item)], rest, tail);
  }

  lemma EntryReads(r: Reader, es: Entries, next: Text)
    requires PiecesOk(es.name) && IsGap(es.before) && IsGap(es.inside) && TreeOk(r, es.value)
    requires r.ParseValue(TreeText(es.value, next)) == Success(TreeValue(r, es.value), next)
    ensures r.ParseMember(StringText(es.name, es.before + (":" + (es.inside + TreeText(es.value, next))))) ==
            Success((Map(PieceValue, es.name), TreeValue(r, es.value)), next)
  {
    var value := TreeText(es.value, next);
    StringReads(es.name, es.before + (":" + (es.inside + value)));
    GapSkips(es.before, ":" + (es.inside + value));
    TreeStarts(r, es.value, next);
    GapSkips(es.inside, value);
    assert (":" + (es.inside + value))[1..] == es.inside + value;
  }

  lemma {:induction false} EntriesRead(r: Reader, done: map<Text, Json>, es: Entries, tail: Text)
    requires EntriesOk(r, es)
    ensures r.ParseMembers(done, EntriesText(es, "}" + tail)) == Success(Obj(EntriesAfter(r, done, es)), tail)
    ensures EntriesText(es, "}" + tail)[0] == '\U{22}'
    decreases es
  {
    match es
    case LastEntry(name, _, _, value, after) =>
      GapDelimits(after, '}', tail);
      TreeReads(r, value, after + ("}" + tail));
      EntryReads(r, es, after + ("}" + tail));
      assert ("}" + tail)[1..] == tail;
    case Entry(name, _, _, value, after, gap, rest) =>
      var next := EntriesText(rest, "}" + tail);
      GapDelimits(after, ',', gap + next);
      TreeReads(r, value, after + ("," + (gap + next)));
      EntryReads(r, es, after + ("," + (gap + next)));
      EntriesRead(r, done[Map(PieceValue, name) := TreeValue(r, value)], rest, tail);
      GapSkips(gap, next);
      assert ("," + (gap + next))[1..] == gap + next;
  }

  // ---- What is read is a tree -------------------------------------------

  lemma WordIsTree(r: Reader, word: Json, t: Text)
    requires r.Literal(WordText(word), word, t).Success?
    ensures t == TreeText(Word(word), r.Literal(WordText(word), word, t).rest)
  {
  }

  lemma ScalarIsTree(r: Reader, t: Text) returns (tree: Tree)
    requires t != [] && r.ParseScalar(t).Success?
    ensures TreeOk(r, tree) && t == TreeText(tree, r.ParseScalar(t).rest)
    ensures r.ParseScalar(t).value == TreeValue(r, tree)
  {
    if t[0] == '\"' {
      var ps := StringIsPieces(t);
      tree := Quoted(ps);
    } else if t[0] == 't' {
      tree := Word(Bool(true));
      WordIsTree(r, Bool(true), t);
    } else if t[0] == 'f' {
      tree := Word(Bool(false));
      WordIsTree(r, Bool(false), t);
    } else if t[0] == 'n' {
      tree := Word(Null);
      WordIsTree(r, Null, t);
    } else {
      ScanIsNumber(t);
      tree := Number(Scan(t).value);
    }
  }

  lemma ArrayParts(r: Reader, t: Text)
    requires t != [] && t[0] == '[' && r.ParseValue(t).Success?
    ensures var inner := SkipSpace(t[1..]);
            && inner != [] && |inner| < |t|
            && r.ParseValue(t) == if inner[0] == ']' then Success(Arr([]), inner[1..]) else r.ParseElements([], inner)
  {
  }

  lemma ObjectParts(r: Reader, t: Text)
    requires t != [] && t[0] == '{' && r.ParseValue(t).Success?
    ensures var inner := SkipSpace(t[1..]);
            && inner != [] && |inner| < |t|
            && r.ParseValue(t) ==
               if inner[0] == '}' then Success(Obj(map[]), inner[1..]) else r.ParseMembers(map[], inner)
  {
  }

  /** Nothing but a tree's text is read as a value. */
  lemma {:induction false} ValueIsTree(r: Reader, t: Text) returns (tree: Tree)
    requires r.ParseValue(t).Success?
    ensures TreeOk(r, tree) && t == TreeText(tree, r.ParseValue(t).rest)
    ensures r.ParseValue(t).value == TreeValue(r, tree)
    decreases |t|, 1
  {
    if t[0] == '[' {
      tree := ArrayIsTree(r, t);
    } else if t[0] == '{' {
      tree := ObjectIsTree(r, t);
    } else {
      tree := ScalarIsTree(r, t);
    }
  }

  lemma {:induction false} ArrayIsTree(r: Reader, t: Text) returns (tree: Tree)
    requires t != [] && t[0] == '[' && r.ParseValue(t).Success?
    ensures TreeOk(r, tree) && t == TreeText(tree, r.ParseValue(t).rest)
    ensures r.ParseValue(t).value == TreeValue(r, tree)
    decreases |t|, 0
  {
    ArrayParts(r, t);
    var gap := SkipsGap(t[1..]);
    var inner := SkipSpace(t[1..]);
    assert t == "[" + t[1..] && inner == [inner[0]] + inner[1..];
    if inner[0] == ']' {
      tree := EmptyArray(gap);
    } else {
      var es := ElementsAreTree(r, [], inner);
      tree := Array(gap, es);
    }
  }

  lemma {:induction false} ObjectIsTree(r: Reader, t: Text) returns (tree: Tree)
    requires t != [] && t[0] == '{' && r.ParseValue(t).Success?
    ensures TreeOk(r, tree) && t == TreeText(tree, r.ParseValue(t).rest)
    ensures r.ParseValue(t).value == TreeValue(r, tree)
    decreases |t|, 0
  {
    ObjectParts(r, t);
    var gap := SkipsGap(t[1..]);
    var inner := SkipSpace(t[1..]);
    assert t == "{" + t[1..] && inner == [inner[0]] + inner[1..];
    if inner[0] == '}' {
      tree := EmptyObject(gap);
    } else {
      var es := EntriesAreTree(r, map[], inner);
      tree := Object(gap, es);
    }
  }

  lemma {:induction false} ElementsAreTree(r: Reader, done: seq<Json>, t: Text) returns (es: Elements)
    requires r.ParseElements(done, t).Success?
    ensures ElementsOk(r, es) && t == ElementsText(es, "]" + r.ParseElements(done, t).rest)
    ensures r.ParseElements(done, t).value == Arr(ElementsAfter(r, done, es))
    decreases |t|, 2
  {
    var item := ValueIsTree(r, t);
    var rest := r.ParseValue(t).rest;
    var after := SkipsGap(rest);
    var next := SkipSpace(rest);
    assert next == [next[0]] + next[1..];
    if next[0] == ',' {
      var gap := SkipsGap(next[1..]);
      var more := ElementsAreTree(r, done + [TreeValue(r, item)], SkipSpace(next[1..]));
      es := Element(item, after, gap, more);
    } else {
      es := LastElement(item, after);
    }
  }

  /** A member that is read has a name, a colon and a value. */
  lemma MemberParts(r: Reader, t: Text)
    requires r.ParseMember(t).Success?
    ensures t != [] && t[0] == '\"' && ParseString(t[1..], "").Success?
    ensures var colon := SkipSpace(ParseString(t[1..], "").rest);
            && colon != [] && colon[0] == ':' && |colon[1..]| < |t|
            && var value := r.ParseValue(SkipSpace(colon[1..]));
               && value.Success?
               && r.ParseMember(t) == Success((ParseString(t[1..], "").value, value.value), value.rest)
  {
  }

  /** An entry's name, its colon and its value. */
  lemma {:induction false} MemberIsEntry(r: Reader, t: Text) returns (e: Entries)
    requires r.ParseMember(t).Success?
    ensures PiecesOk(e.name) && IsGap(e.before) && IsGap(e.inside) && TreeOk(r, e.value)
    ensures t == StringText(e.name, e.before + (":" + (e.inside + TreeText(e.value, r.ParseMember(t).rest))))
    ensures r.ParseMember(t).value == (Map(PieceValue, e.name), TreeValue(r, e.value))
    decreases |t|, 2
  {
    MemberParts(r, t);
    var colon := SkipSpace(ParseString(t[1..], "").rest);
    var name := StringIsPieces(t);
    var value := ValueIsTree(r, SkipSpace(colon[1..]));
    var before, inside := ColonSplits(ParseString(t[1..], "").rest);
    e := LastEntry(name, before, inside, value, "");
  }

  lemma ColonSplits(t: Text) returns (before: Text, inside: Text)
    requires SkipSpace(t) != [] && SkipSpace(t)[0] == ':'
    ensures IsGap(before) && IsGap(inside)
    ensures t == before + (":" + (inside + SkipSpace(SkipSpace(t)[1..])))
  {
    before := SkipsGap(t);
    inside := SkipsGap(SkipSpace(t)[1..]);
    assert SkipSpace(t) == ":" + SkipSpace(t)[1..];
  }

  lemma {:induction false} EntriesAreTree(r: Reader, done: map<Text, Json>, t: Text) returns (es: Entries)
    requires r.ParseMembers(done, t).Success?
    ensures EntriesOk(r, es) && t == EntriesText(es, "}" + r.ParseMembers(done, t).rest)
    ensures r.ParseMembers(done, t).value == Obj(EntriesAfter(r, done, es))
    decreases |t|, 3
  {
    var e := MemberIsEntry(r, t);
    var rest := r.ParseMember(t).rest;
    var after := SkipsGap(rest);
    var next := SkipSpace(rest);
    assert next == [next[0]] + next[1..];
    if next[0] == ',' {
      var gap := SkipsGap(next[1..]);
      var with := done[Map(PieceValue, e.name) := TreeValue(r, e.value)];
      var more := EntriesAreTree(r, with, SkipSpace(next[1..]));
      es := Entry(e.name, e.before, e.inside, e.value, after, gap, more);
    } else {
      es := LastEntry(e.name, e.before, e.inside, e.value, after);
    }
  }

  // ---- Documents --------------------------------------------------------

  /** A text is read as a value exactly when it is a JSON document that spells it. */
  lemma ReadsExactlyJson(r: Reader, t: Text, v: Json)
    ensures r.ParseJson(t) == Some(v) <==>
            exists d :: DocumentOk(r, d) && DocumentText(d) == t && TreeValue(r, d.tree) == v
  {
    if r.ParseJson(t) == Some(v) {
      var d := ReadIsDocument(r, t);
    }
    forall d | DocumentOk(r, d) && DocumentText(d) == t && TreeValue(r, d.tree) == v
      ensures r.ParseJson(t) == Some(v)
    {
      DocumentReads(r, d);
    }
  }

  lemma DocumentReads(r: Reader, d: Document)
    requires DocumentOk(r, d)
    ensures r.ParseJson(DocumentText(d)) == Some(TreeValue(r, d.tree))
  {
    var value := TreeText(d.tree, d.after);
    TreeStarts(r, d.tree, d.after);
    GapSkips(d.before, value);
    GapEnds(d.after);
    TreeReads(r, d.tree, d.after);
    MarkSkipped(d.mark, d.before, value);
  }

  lemma GapEnds(gap: Text)
    requires IsGap(gap)
    ensures Delimited(gap) && SkipSpace(gap) == ""
  {
    GapSkips(gap, "");
    assert gap + "" == gap;
  }

  lemma MarkSkipped(mark: bool, gap: Text, value: Text)
    requires IsGap(gap) && value != [] && value[0] != '\U{FEFF}'
    ensures var t, body := (if mark then "\U{FEFF}" else "") + (gap + value), gap + value;
            (if t != [] && t[0] == BYTE_ORDER_MARK then t[1..] else t) == body
  {
    var body := gap + value;
    assert body[0] == if gap == "" then value[0] else gap[0];
    assert ("\U{FEFF}" + body)[1..] == body && "" + body == body;
  }

  lemma ReadIsDocument(r: Reader, t: Text) returns (d: Document)
    requires r.ParseJson(t).Some?
    ensures DocumentOk(r, d) && DocumentText(d) == t && TreeValue(r, d.tree) == r.ParseJson(t).value
  {
    var mark := t != [] && t[0] == '\U{FEFF}';
    var body := if mark then t[1..] else t;
    var before := SkipsGap(body);
    var tree := ValueIsTree(r, SkipSpace(body));
    var rest := r.ParseValue(SkipSpace(body)).rest;
    var after := SkipsGap(rest);
    assert after == rest;
    d := Document(mark, before, tree, rest);
    assert t == (if mark then "\U{FEFF}" else "") + body;
  }
}
