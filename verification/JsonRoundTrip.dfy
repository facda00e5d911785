/** What a written document is read back as: itself, exactly while its numbers stay
    in range (src/Nix/Json.hs). */
module JsonRoundTrip {
  import opened Basics
  import opened Sorting
  import opened TextOrder
  import opened Json
  import opened JsonNumbers
  import Strings = JsonStrings
  import Utf8

  /** A writer and a reader with the same number conversions. */
  datatype Trip = Trip(w: Writer, r: Reader) {
    ghost predicate Valid() {
      w.num == r.num && w.num.WellFormed() && w.Spaced()
    }

    // ---- What comes back --------------------------------------------------

    /** The value read where another was written. */
    function Back(v: Json): Option<Json>
      decreases v
    {
      match v
      case Null => Some(Null)
      case Bool(b) => Some(Bool(b))
      case Int(n) => r.NumberOf(DecimalLexeme(n))
      case Float(d) =>
        if d == NotFinite then Some(Null)
        else (match r.num.read(FormatDouble(w.num, d))
              case Some(read) => Some(Float(read))
              case None => None)
      case Str(s) => Some(Str(w.rewrite(s)))
      case Arr(_) =>
        ArrOf(BackItems(v, 0, []))
      case Obj(_) =>
        ObjOf(BackMembers(v, 0, map[]))
    }

    function ArrOf(items: Option<seq<Json>>): Option<Json> {
      if items.Some? then Some(Arr(items.value)) else None
    }

    function ObjOf(members: Option<map<Text, Json>>): Option<Json> {
      if members.Some? then Some(Obj(members.value)) else None
    }

    function BackItems(v: Json, i: nat, done: seq<Json>): Option<seq<Json>>
      requires v.Arr? && i <= |v.items|
      decreases v, |v.items| - i
    {
      if i == |v.items| then Some(done)
      else match Back(v.items[i])
        case Some(x) => BackItems(v, i + 1, done + [x])
        case None => None
    }

    function BackMembers(v: Json, i: nat, done: map<Text, Json>): Option<map<Text, Json>>
      requires v.Obj? && i <= |Members(v)|
      decreases v, |Members(v)| - i
    {
      if i == |Members(v)| then Some(done)
      else match Back(MemberValue(v, i))
        case Some(x) => BackMembers(v, i + 1, done[w.rewrite(Members(v)[i].0) := x])
        case None => None
    }

    // ---- Reading ----------------------------------------------------------

    /** How a value's text starts. */
    predicate Starts(t: Text) {
      && t != []
      && (t[0] == '{' || t[0] == '[' || t[0] == '\"' || t[0] == 't' || t[0] == 'f' || t[0] == 'n' || t[0] == '-'
          || IsDigit(t[0]))
    }

    lemma RenderStarts(v: Json, tail: Text)
      requires Valid()
      ensures Starts(w.Render(v, tail))
    {
      match v {
        case Int(n) =>
          assert Decimal(n)[0] == '-' || IsDigit(Decimal(n)[0]);
        case Float(d) =>
          if d != NotFinite {
            DoubleIsLexeme(w.num, d);
            LexemeStarts(DoubleLexeme(w.num, d));
          }
        case _ =>
      }
    }

    /** Text that ends a value. */
    predicate Ends(tail: Text) {
      tail == [] || tail[0] == ',' || tail[0] == ']' || tail[0] == '}' || IsSpace(tail[0])
    }

    lemma EndsDelimit(tail: Text)
      requires Ends(tail)
      ensures Delimited(tail)
    {
    }

    /** A gap is skipped, and ends a value if what follows it does. */
    lemma GapSkipped(t: Text)
      requires Valid()
      ensures SkipSpace(w.gap + t) == SkipSpace(t) && (Ends(t) ==> Ends(w.gap + t))
    {
      SpacesSkipped(w.gap, t);
      assert w.gap == [] ==> w.gap + t == t;
    }

    lemma {:induction false} SpacesSkipped(gap: Text, t: Text)
      requires forall i :: 0 <= i < |gap| ==> IsSpace(gap[i])
      ensures SkipSpace(gap + t) == SkipSpace(t)
    {
      if gap == [] {
        assert gap + t == t;
      } else {
        assert (gap + t)[1..] == gap[1..] + t;
        SpacesSkipped(gap[1..], t);
      }
    }

    lemma QuotedReads(s: Text, tail: Text)
      ensures w.Quoted(s, tail) != [] && w.Quoted(s, tail)[0] == '\"'
      ensures ParseString(w.Quoted(s, tail)[1..], "") == Success(w.rewrite(s), tail)
    {
      assert w.Quoted(s, tail)[1..] == Escape(w.rewrite(s)) + ("\"" + tail);
      Strings.StringReads(w.rewrite(s), tail);
    }

    lemma WordReads(word: Text, value: Json, tail: Text)
      requires word != []
      ensures r.Literal(word, value, word + tail) == Success(value, tail)
    {
      assert (word + tail)[|word|..] == tail;
    }

    /** A parse of one value with what follows left over, or a failure. */
    function Read(v: Option<Json>, tail: Text): Parse<Json, Text> {
      match v
      case Some(x) => Success(x, tail)
      case None => Failure
    }

    lemma NumberValue(t: Text)
      requires t != [] && (t[0] == '-' || IsDigit(t[0]))
      ensures r.ParseValue(t) == r.ParseNumber(t)
    {
      assert r.ParseValue(t) == r.ParseScalar(t);
    }

    lemma NumberReads(x: Lexeme, tail: Text)
      requires IsLexeme(x) && Ends(tail)
      ensures r.ParseValue(x.Text() + tail) == Read(r.NumberOf(x), tail)
    {
      EndsDelimit(tail);
      ScanReads(x, tail);
      LexemeStarts(x);
      assert (x.Text() + tail)[0] == x.Text()[0];
      NumberValue(x.Text() + tail);
    }

    lemma LexemeStarts(x: Lexeme)
      requires IsLexeme(x)
      ensures x.Text() != [] && (x.Text()[0] == '-' || IsDigit(x.Text()[0]))
    {
      assert x.Text()[0] == if x.sign == "" then x.integral[0] else '-';
    }

    lemma WordValue(word: Text, value: Json, tail: Text)
      requires || (word == "null" && value == Null)
               || (word == "true" && value == Bool(true))
               || (word == "false" && value == Bool(false))
      ensures r.ParseValue(word + tail) == Success(value, tail)
    {
      WordReads(word, value, tail);
      assert r.ParseValue(word + tail) == r.ParseScalar(word + tail);
    }

    lemma StringValue(s: Text, tail: Text)
      ensures r.ParseValue(w.Quoted(s, tail)) == Success(Str(w.rewrite(s)), tail)
    {
      QuotedReads(s, tail);
      assert r.ParseValue(w.Quoted(s, tail)) == r.ParseScalar(w.Quoted(s, tail));
    }

    lemma FloatValue(d: Double, tail: Text)
      requires Valid() && Ends(tail) && d != NotFinite
      ensures r.ParseValue(FormatDouble(w.num, d) + tail) == Read(Back(Float(d)), tail)
    {
      DoubleIsLexeme(w.num, d);
      NumberReads(DoubleLexeme(w.num, d), tail);
    }

    lemma ScalarReads(v: Json, tail: Text)
      requires Valid() && Ends(tail) && !v.Arr? && !v.Obj?
      ensures r.ParseValue(w.Render(v, tail)) == Read(Back(v), tail)
    {
      match v {
        case Null =>
          WordValue("null", v, tail);
        case Bool(b) =>
          WordValue(if b then "true" else "false", v, tail);
        case Int(n) =>
          DecimalReads(n);
          NumberReads(DecimalLexeme(n), tail);
        case Float(d) =>
          if d == NotFinite {
            WordValue("null", Null, tail);
          } else {
            FloatValue(d, tail);
          }
        case Str(s) =>
          StringValue(s, tail);
      }
    }

    lemma {:induction false} ValueReads(v: Json, tail: Text)
      requires Valid() && Ends(tail)
      ensures r.ParseValue(w.Render(v, tail)) == Read(Back(v), tail)
      decreases v
    {
      match v {
        case Arr(_) => ArrayReads(v, tail);
        case Obj(_) => ObjectReads(v, tail);
        case _ => ScalarReads(v, tail);
      }
    }

    lemma {:induction false} ArrayReads(v: Json, tail: Text)
      requires Valid() && v.Arr?
      ensures r.ParseValue(w.Render(v, tail)) == Read(Back(v), tail)
      decreases v, |v.items| + 1
    {
      var after := w.gap + ("]" + tail);
      var inside := w.RenderItems(v, 0, after);
      assert w.Render(v, tail)[1..] == w.gap + inside;
      GapSkipped(inside);
      GapSkipped("]" + tail);
      assert SkipSpace("]" + tail) == "]" + tail && ("]" + tail)[1..] == tail;
      if v.items != [] {
        ItemsStart(v, 0, after);
        ItemsRead(v, 0, [], tail);
      }
    }

    lemma {:induction false} ObjectReads(v: Json, tail: Text)
      requires Valid() && v.Obj?
      ensures r.ParseValue(w.Render(v, tail)) == Read(Back(v), tail)
      decreases v, |Members(v)| + 1
    {
      var after := w.gap + ("}" + tail);
      var inside := w.RenderMembers(v, 0, after);
      assert w.Render(v, tail)[1..] == w.gap + inside;
      GapSkipped(inside);
      GapSkipped("}" + tail);
      assert SkipSpace("}" + tail) == "}" + tail && ("}" + tail)[1..] == tail;
      if Members(v) != [] {
        MembersStart(v, 0, after);
        MembersRead(v, 0, map[], tail);
      }
    }

    lemma {:induction false} ItemsRead(v: Json, i: nat, done: seq<Json>, tail: Text)
      requires Valid() && v.Arr? && i < |v.items|
      ensures r.ParseElements(done, w.RenderItems(v, i, w.gap + ("]" + tail))) ==
              Read(ArrOf(BackItems(v, i, done)), tail)
      decreases v, |v.items| - i
    {
      var after := w.gap + ("]" + tail);
      var last := i == |v.items| - 1;
      var next := if last then "" else w.RenderItems(v, i + 1, after);
      var rest := if last then after else w.Comma(next);
      assert w.RenderItems(v, i, after) == w.Render(v.items[i], rest);
      CloserEnds(']', tail);
      CommaEnds(next);
      ValueReads(v.items[i], rest);
      ElementReads(done, w.Render(v.items[i], rest), Back(v.items[i]), rest);
      if Back(v.items[i]).Some? && !last {
        ItemsStart(v, i + 1, after);
        ItemsRead(v, i + 1, done + [Back(v.items[i]).value], tail);
      }
    }

    lemma CloserEnds(closer: char, tail: Text)
      requires Valid() && (closer == ']' || closer == '}')
      ensures Ends(w.gap + ([closer] + tail)) && SkipSpace(w.gap + ([closer] + tail)) == [closer] + tail
      ensures ([closer] + tail)[1..] == tail
    {
      GapSkipped([closer] + tail);
      assert SkipSpace([closer] + tail) == [closer] + tail;
    }

    lemma CommaEnds(next: Text)
      requires Valid()
      ensures Ends(w.Comma(next)) && SkipSpace(w.Comma(next)) == "," + (w.gap + next)
      ensures ("," + (w.gap + next))[1..] == w.gap + next && SkipSpace(w.gap + next) == SkipSpace(next)
    {
      GapSkipped("," + (w.gap + next));
      GapSkipped(next);
      assert SkipSpace("," + (w.gap + next)) == "," + (w.gap + next);
    }

    lemma ItemsStart(v: Json, i: nat, after: Text)
      requires Valid() && v.Arr? && i < |v.items|
      ensures var t := w.RenderItems(v, i, after); Starts(t) && SkipSpace(t) == t
    {
      RenderStarts(v.items[i], if i + 1 == |v.items| then after else w.Comma(w.RenderItems(v, i + 1, after)));
    }

    /** One element is read, and then what its delimiter says is. */
    lemma ElementReads(done: seq<Json>, valueText: Text, x: Option<Json>, rest: Text)
      requires r.ParseValue(valueText) == Read(x, rest)
      requires SkipSpace(rest) != [] && (SkipSpace(rest)[0] == ',' || SkipSpace(rest)[0] == ']')
      ensures r.ParseElements(done, valueText) ==
              if x.None? then Failure
              else if SkipSpace(rest)[0] == ',' then r.ParseElements(done + [x.value], SkipSpace(SkipSpace(rest)[1..]))
              else Success(Arr(done + [x.value]), SkipSpace(rest)[1..])
    {
    }

    lemma MembersStart(v: Json, i: nat, after: Text)
      requires v.Obj? && i < |Members(v)|
      ensures var t := w.RenderMembers(v, i, after); t != [] && t[0] == '\"' && SkipSpace(t) == t
    {
    }

    lemma {:induction false} MembersRead(v: Json, i: nat, done: map<Text, Json>, tail: Text)
      requires Valid() && v.Obj? && i < |Members(v)|
      ensures r.ParseMembers(done, w.RenderMembers(v, i, w.gap + ("}" + tail))) ==
              Read(ObjOf(BackMembers(v, i, done)), tail)
      decreases v, |Members(v)| - i
    {
      var after := w.gap + ("}" + tail);
      var last := i == |Members(v)| - 1;
      var next := if last then "" else w.RenderMembers(v, i + 1, after);
      var rest := if last then after else w.Comma(next);
      var name, value := Members(v)[i].0, MemberValue(v, i);
      var valueText := w.Render(value, rest);
      assert w.RenderMembers(v, i, after) == w.Quoted(name, w.gap + (":" + (w.gap + valueText)));
      CloserEnds('}', tail);
      CommaEnds(next);
      ValueReads(value, rest);
      RenderStarts(value, rest);
      MemberReads(done, name, valueText, Back(value), rest);
      if Back(value).Some? && !last {
        MembersStart(v, i + 1, after);
        MembersRead(v, i + 1, done[w.rewrite(name) := Back(value).value], tail);
      }
    }

    lemma OneMemberReads(name: Text, valueText: Text, x: Option<Json>, rest: Text)
      requires Valid() && Starts(valueText) && r.ParseValue(valueText) == Read(x, rest)
      ensures r.ParseMember(w.Quoted(name, w.gap + (":" + (w.gap + valueText)))) ==
              if x.Some? then Success((w.rewrite(name), x.value), rest) else Failure
    {
      var colon := ":" + (w.gap + valueText);
      QuotedReads(name, w.gap + colon);
      GapSkipped(colon);
      GapSkipped(valueText);
      assert SkipSpace(colon) == colon && colon[1..] == w.gap + valueText;
      assert SkipSpace(valueText) == valueText;
    }

    /** One member is read, and then what its delimiter says is. */
    lemma MemberReads(done: map<Text, Json>, name: Text, valueText: Text, x: Option<Json>, rest: Text)
      requires Valid() && Starts(valueText) && r.ParseValue(valueText) == Read(x, rest)
      requires SkipSpace(rest) != [] && (SkipSpace(rest)[0] == ',' || SkipSpace(rest)[0] == '}')
      ensures r.ParseMembers(done, w.Quoted(name, w.gap + (":" + (w.gap + valueText)))) ==
              if x.None? then Failure
              else if SkipSpace(rest)[0] == ',' then
                r.ParseMembers(done[w.rewrite(name) := x.value], SkipSpace(SkipSpace(rest)[1..]))
              else Success(Obj(done[w.rewrite(name) := x.value]), SkipSpace(rest)[1..])
    {
      OneMemberReads(name, valueText, x, rest);
    }

    // ---- Documents --------------------------------------------------------

    /** The bytes of a document. */
    function DocumentBytes(v: Json, mark: bool): Bytes {
      Utf8.Encode(w.Document(v, mark))
    }

    /** A document's bytes are UTF-8, and reading their text, however it is spaced and
        marked, gives back exactly what its value comes back as. */
    lemma DocumentReads(v: Json, mark: bool)
      requires Valid()
      ensures Utf8.Decode(DocumentBytes(v, mark)).Some?
              && r.ParseJson(Utf8.Decode(DocumentBytes(v, mark)).value) == Back(v)
    {
      Utf8.DecodesEncoded(w.Document(v, mark));
      RenderStarts(v, w.gap);
      GapSkipped("");
      assert w.gap + "" == w.gap;
      ValueReads(v, w.gap);
      WholeReads(w.Render(v, w.gap), Back(v), mark);
    }

    lemma WholeReads(t: Text, x: Option<Json>, mark: bool)
      requires Valid() && Starts(t) && r.ParseValue(t) == Read(x, w.gap) && SkipSpace(w.gap) == ""
      ensures r.ParseJson((if mark then [BYTE_ORDER_MARK] else "") + (w.gap + t)) == x
    {
      var body := w.gap + t;
      GapSkipped(t);
      assert SkipSpace(t) == t;
      assert body[0] != BYTE_ORDER_MARK;
      assert ([BYTE_ORDER_MARK] + body)[1..] == body && "" + body == body;
    }

    // ---- When that is the value itself ------------------------------------

    /** Every integer in range, every float finite and named by its own digits. */
    predicate Fits(v: Json)
      decreases v
    {
      match v
      case Int(n) =>
        -0x8000_0000_0000_0000 <= n < if r.range == NlohmannRange then 0x1_0000_0000_0000_0000
          else 0x8000_0000_0000_0000
      case Float(d) => d != NotFinite && r.num.read(FormatDouble(w.num, d)) == Some(d)
      case Arr(items) => forall i :: 0 <= i < |items| ==> Fits(items[i])
      case Obj(_) => forall i :: 0 <= i < |Members(v)| ==> Fits(MemberValue(v, i))
      case _ => true
    }

    /** Without a rewrite, a value comes back as itself exactly when it fits. */
    lemma {:induction false} BackIsSelf(v: Json)
      requires Valid() && forall s :: w.rewrite(s) == s
      ensures Back(v) == Some(v) <==> Fits(v)
      decreases v
    {
      match v {
        case Int(n) =>
          IntIsSelf(n);
        case Arr(items) =>
          ItemsAreSelf(v, 0);
          assert items[..0] == [];
        case Obj(members) =>
          MembersAreSelf(v);
        case _ =>
      }
    }

    lemma IntIsSelf(n: int)
      ensures Back(Int(n)) == Some(Int(n)) <==> Fits(Int(n))
    {
      DecimalReads(n);
    }

    lemma {:induction false} BackItemsExtend(v: Json, i: nat, done: seq<Json>)
      requires v.Arr? && i <= |v.items| && BackItems(v, i, done).Some?
      ensures done <= BackItems(v, i, done).value
      decreases |v.items| - i
    {
      if i < |v.items| {
        BackItemsExtend(v, i + 1, done + [Back(v.items[i]).value]);
      }
    }

    lemma {:induction false} ItemsAreSelf(v: Json, i: nat)
      requires Valid() && (forall s :: w.rewrite(s) == s) && v.Arr? && i <= |v.items|
      ensures BackItems(v, i, v.items[..i]) == Some(v.items) <==> forall j :: i <= j < |v.items| ==> Fits(v.items[j])
      decreases v, |v.items| - i
    {
      if i == |v.items| {
        assert v.items[..i] == v.items;
      } else {
        BackIsSelf(v.items[i]);
        assert v.items[..i] + [v.items[i]] == v.items[..i + 1];
        ItemsAreSelf(v, i + 1);
        if Back(v.items[i]).Some? && !Fits(v.items[i]) {
          var done := v.items[..i] + [Back(v.items[i]).value];
          if BackItems(v, i + 1, done).Some? {
            BackItemsExtend(v, i + 1, done);
            assert BackItems(v, i + 1, done).value[i] == done[i];
          }
        }
      }
    }

    lemma NamesDistinct(v: Json)
      requires v.Obj?
      ensures forall i, j :: 0 <= i < j < |Members(v)| ==> Members(v)[i].0 != Members(v)[j].0
    {
      TextsOrdered();
      AscendingIncreases(AtMostText, v.members.Keys);
    }

    lemma NamedMember(v: Json, k: Text) returns (i: nat)
      requires v.Obj? && k in v.members
      ensures i < |Members(v)| && Members(v)[i].0 == k && MemberValue(v, i) == v.members[k]
    {
      TextsOrdered();
      var keys := Ascending(AtMostText, v.members.Keys);
      assert k in keys;
      i :| 0 <= i < |keys| && keys[i] == k;
      assert Members(v)[i].0 == keys[i];
    }

    predicate AllBack(v: Json, i: nat)
      requires v.Obj? && i <= |Members(v)|
    {
      forall j :: i <= j < |Members(v)| ==> Back(MemberValue(v, j)).Some?
    }

    lemma AllBackNext(v: Json, i: nat)
      requires v.Obj? && i < |Members(v)|
      ensures AllBack(v, i) <==> Back(MemberValue(v, i)).Some? && AllBack(v, i + 1)
    {
    }

    /** The members from `i` on as they come back. */
    function BackMap(v: Json, i: nat): map<Text, Json>
      requires v.Obj? && i <= |Members(v)| && AllBack(v, i)
      decreases |Members(v)| - i
    {
      if i == |Members(v)| then map[]
      else map[Members(v)[i].0 := Back(MemberValue(v, i)).value] + BackMap(v, i + 1)
    }

    lemma {:induction false} MembersBack(v: Json, i: nat, done: map<Text, Json>)
      requires v.Obj? && i <= |Members(v)| && (forall s :: w.rewrite(s) == s) && AllBack(v, i)
      ensures BackMembers(v, i, done) == Some(done + BackMap(v, i))
      decreases |Members(v)| - i
    {
      if i == |Members(v)| {
        assert done + map[] == done;
      } else {
        var name, x, rest := Members(v)[i].0, Back(MemberValue(v, i)).value, BackMap(v, i + 1);
        MembersBack(v, i + 1, done[name := x]);
        MapRegroup(done, name, x, rest);
      }
    }

    lemma BackMembersNext(v: Json, i: nat, done: map<Text, Json>)
      requires v.Obj? && i < |Members(v)|
      ensures BackMembers(v, i, done) ==
              if Back(MemberValue(v, i)).None? then None
              else BackMembers(v, i + 1, done[w.rewrite(Members(v)[i].0) := Back(MemberValue(v, i)).value])
    {
    }

    lemma {:induction false} MembersFail(v: Json, i: nat, done: map<Text, Json>)
      requires v.Obj? && i <= |Members(v)| && !AllBack(v, i)
      ensures BackMembers(v, i, done) == None
      decreases |Members(v)| - i
    {
      assert i < |Members(v)|;
      AllBackNext(v, i);
      BackMembersNext(v, i, done);
      if !AllBack(v, i + 1) && Back(MemberValue(v, i)).Some? {
        MembersFail(v, i + 1, done[w.rewrite(Members(v)[i].0) := Back(MemberValue(v, i)).value]);
      }
    }

    lemma {:induction false} BackMapNames(v: Json, i: nat, k: Text)
      requires v.Obj? && i <= |Members(v)| && AllBack(v, i) && k in BackMap(v, i)
      ensures exists j :: i <= j < |Members(v)| && Members(v)[j].0 == k
      decreases |Members(v)| - i
    {
      if Members(v)[i].0 != k {
        BackMapNames(v, i + 1, k);
      }
    }

    lemma {:induction false} BackMapAt(v: Json, i: nat, j: nat)
      requires v.Obj? && i <= j < |Members(v)| && AllBack(v, i)
      ensures Members(v)[j].0 in BackMap(v, i) && BackMap(v, i)[Members(v)[j].0] == Back(MemberValue(v, j)).value
      decreases |Members(v)| - i
    {
      AllBackNext(v, i);
      var later := BackMap(v, i + 1);
      assert BackMap(v, i) == map[Members(v)[i].0 := Back(MemberValue(v, i)).value] + later;
      if i < j {
        BackMapAt(v, i + 1, j);
      } else {
        NotNamedLater(v, i);
      }
    }

    lemma NotNamedLater(v: Json, i: nat)
      requires v.Obj? && i < |Members(v)| && AllBack(v, i + 1)
      ensures Members(v)[i].0 !in BackMap(v, i + 1)
    {
      NamesDistinct(v);
      if Members(v)[i].0 in BackMap(v, i + 1) {
        BackMapNames(v, i + 1, Members(v)[i].0);
      }
    }

    /** Members that all come back come back as the map itself when each comes back
        as itself. */
    lemma BackMapIsSelf(v: Json)
      requires v.Obj? && AllBack(v, 0)
      ensures BackMap(v, 0) == v.members <==>
              forall i :: 0 <= i < |Members(v)| ==> Back(MemberValue(v, i)).value == MemberValue(v, i)
    {
      var m := BackMap(v, 0);
      forall i | 0 <= i < |Members(v)| && m == v.members
        ensures Back(MemberValue(v, i)).value == MemberValue(v, i)
      {
        BackMapAt(v, 0, i);
      }
      if forall i :: 0 <= i < |Members(v)| ==> Back(MemberValue(v, i)).value == MemberValue(v, i) {
        forall k | k in v.members
          ensures k in m && m[k] == v.members[k]
        {
          var i := NamedMember(v, k);
          BackMapAt(v, 0, i);
        }
        forall k | k in m
          ensures k in v.members
        {
          BackMapNames(v, 0, k);
        }
        assert m.Keys == v.members.Keys;
      }
    }

    lemma {:induction false} MembersAreSelf(v: Json)
      requires Valid() && (forall s :: w.rewrite(s) == s) && v.Obj?
      ensures BackMembers(v, 0, map[]) == Some(v.members) <==> forall i :: 0 <= i < |Members(v)| ==>
              Fits(MemberValue(v, i))
      decreases v, 0
    {
      forall i | 0 <= i < |Members(v)|
        ensures Back(MemberValue(v, i)) == Some(MemberValue(v, i)) <==> Fits(MemberValue(v, i))
      {
        BackIsSelf(MemberValue(v, i));
      }
      if !AllBack(v, 0) {
        MembersFail(v, 0, map[]);
      } else {
        MembersBack(v, 0, map[]);
        assert map[] + BackMap(v, 0) == BackMap(v, 0);
        BackMapIsSelf(v);
      }
    }

    /** A document without rewrites reads back as what was written, exactly when
        every number in it fits. */
    lemma RoundTrips(v: Json, mark: bool)
      requires Valid() && forall s :: w.rewrite(s) == s
      ensures Utf8.Decode(DocumentBytes(v, mark)).Some?
      ensures r.ParseJson(Utf8.Decode(DocumentBytes(v, mark)).value) == Some(v) <==> Fits(v)
    {
      DocumentReads(v, mark);
      BackIsSelf(v);
    }
  }

  lemma MapRegroup<K, V>(m: map<K, V>, k: K, v: V, n: map<K, V>)
    ensures m[k := v] + n == m + (map[k := v] + n)
  {
  }
}
