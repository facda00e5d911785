/** JSON by its literal characters (section 2 of RFC 8259), apart from the code that
    writes and reads it (src/Nix/Json.hs). */
module JsonFormat {
  import opened Basics
  import opened Escaping
  import opened Json
  import opened JsonStrings

  // ---- Escapes ----------------------------------------------------------

  const HEX_DIGITS: Text := "0123456789abcdef"

  /** A character in a written string: seven have an escape of two characters, the
      other controls one of six, and any other stands for itself. */
  function CharForm(c: char): Text {
    var point := c as int;
    if point == 0x22 then "\U{5C}\U{22}"
    else if point == 0x5C then "\U{5C}\U{5C}"
    else if point == 0x08 then "\U{5C}b"
    else if point == 0x0C then "\U{5C}f"
    else if point == 0x0A then "\U{5C}n"
    else if point == 0x0D then "\U{5C}r"
    else if point == 0x09 then "\U{5C}t"
    else if point < 0x20 then "\U{5C}u00" + [HEX_DIGITS[point / 16], HEX_DIGITS[point % 16]]
    else [c]
  }

  lemma SpelledIsForm(c: char)
    ensures Spelled(c) == CharForm(c)
  {
    if NeedsEscape(c) && EscapeChar(c)[1] == 'u' {
      assert HexChar(c as int / 16) == HEX_DIGITS[c as int / 16] && HexChar(c as int % 16) == HEX_DIGITS[c as int % 16];
    }
  }

  /** Copying the clean runs in bulk writes each character's form. */
  lemma EscapeIsForm(s: Text)
    ensures Escape(s) == SpellEach(CharForm, s)
  {
    EscapeIsSpell(s);
    FormIsSpell(s);
  }

  lemma {:induction false} FormIsSpell(s: Text)
    ensures Spell(s) == SpellEach(CharForm, s)
  {
    if s != [] {
      SpelledIsForm(s[0]);
      FormIsSpell(s[1..]);
    }
  }

  /** What each letter stands for after a backslash: a quote, a backslash, a slash,
      backspace, form feed, line feed, carriage return and tab. */
  const ESCAPES: map<int, int> := map[
    0x22 := 0x22, 0x5C := 0x5C, 0x2F := 0x2F, 0x62 := 0x08, 0x66 := 0x0C, 0x6E := 0x0A, 0x72 := 0x0D, 0x74 := 0x09]

  /** Those eight escapes are read as what they stand for, and no other but `\u`. */
  lemma EscapesRead(e: char, rest: Text)
    ensures e as int in ESCAPES ==> ParseEscape([e] + rest) == Success([ESCAPES[e as int] as char], rest)
    ensures e as int !in ESCAPES && e as int != 0x75 ==> ParseEscape([e] + rest) == Failure
  {
    assert ([e] + rest)[1..] == rest;
  }

  // ---- Numbers ----------------------------------------------------------

  /** A zero ends a number it starts: no digit may come after it, in a document, an
      array or an object. */
  lemma LeadingZeroRefused(r: Reader, sign: Text, d: char, rest: Text)
    requires sign in {"", "-"} && '0' <= d <= '9'
    ensures var t := sign + ("0" + ([d] + rest));
            && r.ParseValue(t) == Success(Int(0), [d] + rest)
            && r.ParseJson(t) == None
            && (forall done :: r.ParseElements(done, t) == Failure)
            && (forall done, name :: r.ParseMembers(done, "\"" + (Escape(name) + ("\"" + (":" + t)))) == Failure)
  {
    var t := sign + ("0" + ([d] + rest));
    ZeroReads(r, sign, d, rest);
    forall done
      ensures r.ParseElements(done, t) == Failure
    {
    }
    forall done, name
      ensures r.ParseMembers(done, "\"" + (Escape(name) + ("\"" + (":" + t)))) == Failure
    {
      MemberReads(r, name, t);
    }
  }

  lemma ZeroReads(r: Reader, sign: Text, d: char, rest: Text)
    requires sign in {"", "-"} && '0' <= d <= '9'
    ensures r.ParseValue(sign + ("0" + ([d] + rest))) == Success(Int(0), [d] + rest)
  {
    var unsigned := "0" + ([d] + rest);
    var t := sign + unsigned;
    assert t[|sign|..] == unsigned && unsigned[1..] == [d] + rest;
    assert ScanUnsigned(sign, unsigned) == Success(Lexeme(sign, "0", "", ""), [d] + rest);
    assert Scan(t) == Success(Lexeme(sign, "0", "", ""), [d] + rest);
  }

  lemma MemberReads(r: Reader, name: Text, t: Text)
    requires t != [] && !IsSpace(t[0]) && r.ParseValue(t).Success?
    ensures r.ParseMember("\"" + (Escape(name) + ("\"" + (":" + t)))) ==
            Success((name, r.ParseValue(t).value), r.ParseValue(t).rest)
  {
    var member := "\"" + (Escape(name) + ("\"" + (":" + t)));
    assert member[1..] == Escape(name) + ("\"" + (":" + t));
    StringReads(name, ":" + t);
    assert (":" + t)[1..] == t;
  }

  // ---- Documents --------------------------------------------------------

  function QuotedForm(s: Text): Text {
    "\U{22}" + SpellEach(CharForm, s) + "\U{22}"
  }

  /** A value's text: words for the literals, digits for the numbers, brackets
      around what arrays and objects hold, no space anywhere. */
  function Form(w: Writer, v: Json): Text
    decreases v
  {
    match v
    case Null => "null"
    case Bool(b) => if b then "true" else "false"
    case Int(n) => Decimal(n)
    case Float(d) => if d == NotFinite then "null" else FormatDouble(w.num, d)
    case Str(s) => QuotedForm(w.rewrite(s))
    case Arr(_) => "[" + ItemForms(w, v, 0) + "]"
    case Obj(_) => "{" + MemberForms(w, v, 0) + "}"
  }

  function ItemForms(w: Writer, v: Json, i: nat): Text
    requires v.Arr? && i <= |v.items|
    decreases v, |v.items| - i
  {
    if i == |v.items| then ""
    else Form(w, v.items[i]) + (if i == |v.items| - 1 then "" else ",") + ItemForms(w, v, i + 1)
  }

  /** A member's text. */
  function MemberForm(w: Writer, v: Json, i: nat): Text
    requires v.Obj? && i < |Members(v)|
    decreases v, |Members(v)| - i, 0
  {
    QuotedForm(w.rewrite(Members(v)[i].0)) + ":" + Form(w, MemberValue(v, i))
  }

  function MemberForms(w: Writer, v: Json, i: nat): Text
    requires v.Obj? && i <= |Members(v)|
    decreases v, |Members(v)| - i, 1
  {
    if i == |Members(v)| then ""
    else MemberForm(w, v, i) + (if i == |Members(v)| - 1 then "" else ",") + MemberForms(w, v, i + 1)
  }

  lemma QuotedWrites(w: Writer, s: Text, tail: Text)
    ensures w.Quoted(s, tail) == QuotedForm(w.rewrite(s)) + tail
  {
    EscapeIsForm(w.rewrite(s));
    Nested("\U{22}", SpellEach(CharForm, w.rewrite(s)), "\U{22}", tail);
  }

  /** What the program writes, no gaps left, is the value's text. */
  lemma {:induction false} RenderIsForm(w: Writer, v: Json, tail: Text)
    requires w.gap == ""
    ensures w.Render(v, tail) == Form(w, v) + tail
    decreases v
  {
    match v
    case Str(s) => QuotedWrites(w, s, tail);
    case Arr(_) =>
      ItemsWrite(w, v, 0, "]" + tail);
      NoGap(w, "]" + tail);
      NoGap(w, w.RenderItems(v, 0, "]" + tail));
      Nested("[", ItemForms(w, v, 0), "]", tail);
    case Obj(_) =>
      MembersWrite(w, v, 0, "}" + tail);
      NoGap(w, "}" + tail);
      NoGap(w, w.RenderMembers(v, 0, "}" + tail));
      Nested("{", MemberForms(w, v, 0), "}", tail);
    case _ =>
  }

  lemma NoGap(w: Writer, tail: Text)
    requires w.gap == ""
    ensures w.gap + tail == tail && w.Comma(tail) == "," + tail
  {
  }

  lemma {:induction false} ItemsWrite(w: Writer, v: Json, i: nat, tail: Text)
    requires w.gap == "" && v.Arr? && i <= |v.items|
    ensures w.RenderItems(v, i, tail) == ItemForms(w, v, i) + tail
    decreases v, |v.items| - i
  {
    if i < |v.items| {
      var rest := w.RenderItems(v, i + 1, tail);
      ItemsWrite(w, v, i + 1, tail);
      if i == |v.items| - 1 {
        RenderIsForm(w, v.items[i], tail);
        assert Form(w, v.items[i]) + "" + "" == Form(w, v.items[i]);
      } else {
        NoGap(w, rest);
        RenderIsForm(w, v.items[i], "," + rest);
        Nested(Form(w, v.items[i]), ",", ItemForms(w, v, i + 1), tail);
      }
    }
  }

  lemma {:induction false} MemberWrites(w: Writer, v: Json, i: nat, tail: Text)
    requires w.gap == "" && v.Obj? && i < |Members(v)|
    ensures w.RenderMember(v, i, tail) == MemberForm(w, v, i) + tail
    decreases v, |Members(v)| - i, 0
  {
    var value := w.Render(MemberValue(v, i), tail);
    RenderIsForm(w, MemberValue(v, i), tail);
    NoGap(w, value);
    NoGap(w, ":" + value);
    QuotedWrites(w, Members(v)[i].0, ":" + value);
    Nested(QuotedForm(w.rewrite(Members(v)[i].0)), ":", Form(w, MemberValue(v, i)), tail);
  }

  lemma {:induction false} MembersWrite(w: Writer, v: Json, i: nat, tail: Text)
    requires w.gap == "" && v.Obj? && i <= |Members(v)|
    ensures w.RenderMembers(v, i, tail) == MemberForms(w, v, i) + tail
    decreases v, |Members(v)| - i, 1
  {
    if i < |Members(v)| {
      var rest := w.RenderMembers(v, i + 1, tail);
      MembersWrite(w, v, i + 1, tail);
      if i == |Members(v)| - 1 {
        MemberWrites(w, v, i, tail);
        assert MemberForm(w, v, i) + "" + "" == MemberForm(w, v, i);
      } else {
        NoGap(w, rest);
        MemberWrites(w, v, i, "," + rest);
        Nested(MemberForm(w, v, i), ",", MemberForms(w, v, i + 1), tail);
      }
    }
  }
}
