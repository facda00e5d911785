/** Reading a written derivation gives its canonical form back, so the bytes a
    store path is hashed from determine the derivation. */
module ATermRoundTrip {
  import opened Basics
  import opened Escaping
  import opened Derivations
  import opened Sorting
  import opened TextOrder
  import opened ATerm
  import opened ATermFormat
  import Utf8

  // ---- Strings ----------------------------------------------------------

  lemma ContentPlain(b: Byte, s: Bytes, done: Bytes)
    requires !Ends(b)
    ensures Content([b] + s, done) == Content(s, done + [b])
  {
    var whole := [b] + s;
    var n := Clean(Ends, s);
    CleanCons(Ends, b, s);
    assert whole[..n + 1] == [b] + s[..n];
    if n < |s| {
      assert whole[n + 1] == s[n] && whole[n + 1..] == s[n..];
      assert done + whole[..n + 1] == done + [b] + s[..n];
      if s[n] == BACKSLASH && n + 1 < |s| {
        assert whole[n + 3..] == s[n + 2..] && whole[n + 2] == s[n + 1];
      }
    }
  }

  lemma ContentEscaped(e: Byte, s: Bytes, done: Bytes)
    ensures Content([BACKSLASH, e] + s, done) == Content(s, done + [Unescaped(e)])
  {
    var whole := [BACKSLASH, e] + s;
    assert Clean(Ends, whole) == 0 && done + whole[..0] == done && whole[2..] == s;
  }

  lemma ContentEnds(b: Bytes, done: Bytes)
    requires b != [] && b[0] == QUOTE
    ensures Content(b, done) == Success(done, b)
  {
    assert Clean(Ends, b) == 0 && b[..0] == [] && b[0..] == b && done + [] == done;
  }

  /** Reading a string byte by byte. */
  function Collect(b: Bytes): Parse<Bytes, Bytes>
    decreases |b|
  {
    if b == [] then Failure
    else if b[0] == QUOTE then Success([], b)
    else if b[0] != BACKSLASH then Before([b[0]], Collect(b[1..]))
    else if |b| == 1 then Failure
    else Before([Unescaped(b[1])], Collect(b[2..]))
  }

  /** Taking the clean runs in bulk reads as going byte by byte does. */
  lemma {:induction false} ContentIsCollect(b: Bytes, done: Bytes)
    ensures Content(b, done) == Before(done, Collect(b))
    decreases |b|
  {
    if b != [] {
      if b[0] == QUOTE {
        ContentEnds(b, done);
        assert done + [] == done;
      } else if b[0] != BACKSLASH {
        assert b == [b[0]] + b[1..];
        ContentPlain(b[0], b[1..], done);
        ContentIsCollect(b[1..], done + [b[0]]);
        BeforeBefore(done, [b[0]], Collect(b[1..]));
      } else if |b| > 1 {
        assert b == [BACKSLASH, b[1]] + b[2..];
        ContentEscaped(b[1], b[2..], done);
        ContentIsCollect(b[2..], done + [Unescaped(b[1])]);
        BeforeBefore(done, [Unescaped(b[1])], Collect(b[2..]));
      }
    }
  }

  /** A byte as a string may show it, as it is or after a backslash. */
  datatype Token = Bare(byte: Byte) | Slashed(byte: Byte)

  function TokenForm(t: Token): Bytes {
    match t
    case Bare(b) => [b]
    case Slashed(e) => [0x5C, e]
  }

  function TokenForms(ts: seq<Token>): Bytes {
    if ts == [] then [] else TokenForm(ts[0]) + TokenForms(ts[1..])
  }

  function TokenValue(t: Token): Byte {
    match t
    case Bare(b) => b
    case Slashed(e) => if e == 0x6E then 0x0A else if e == 0x72 then 0x0D else if e == 0x74 then 0x09 else e
  }

  ghost predicate BareAreClean(ts: seq<Token>) {
    forall t :: t in ts && t.Bare? ==> t.byte != 0x22 && t.byte != 0x5C
  }

  lemma TokenCollects(t: Token, rest: Bytes)
    requires t.Bare? ==> t.byte != 0x22 && t.byte != 0x5C
    ensures Collect(TokenForm(t) + rest) == Before([TokenValue(t)], Collect(rest))
  {
    assert (TokenForm(t) + rest)[|TokenForm(t)|..] == rest;
  }

  lemma TokensFirst(ts: seq<Token>, after: Bytes)
    requires ts != []
    ensures TokenForms(ts) + after == TokenForm(ts[0]) + (TokenForms(ts[1..]) + after)
  {
    Regroup(TokenForm(ts[0]), TokenForms(ts[1..]), after);
  }

  lemma {:induction false} TokensCollect(ts: seq<Token>, after: Bytes)
    requires BareAreClean(ts) && after != [] && after[0] == QUOTE
    ensures Collect(TokenForms(ts) + after) == Success(Map(TokenValue, ts), after)
  {
    if ts == [] {
      assert TokenForms(ts) + after == after;
    } else {
      var rest := TokenForms(ts[1..]) + after;
      TokensCollect(ts[1..], after);
      assert ts[0] in ts;
      TokenCollects(ts[0], rest);
      TokensFirst(ts, after);
      MapFirst(TokenValue, ts);
    }
  }

  lemma {:induction false} CollectsTokens(b: Bytes) returns (ts: seq<Token>)
    requires Collect(b).Success?
    ensures BareAreClean(ts) && b == TokenForms(ts) + Collect(b).rest
    ensures Collect(b).rest != [] && Collect(b).rest[0] == QUOTE
    decreases |b|
  {
    if b[0] == QUOTE {
      ts := [];
      assert b == [] + b;
    } else {
      var first := if b[0] == BACKSLASH then Slashed(b[1]) else Bare(b[0]);
      var n := if b[0] == BACKSLASH then 2 else 1;
      var rest := CollectsTokens(b[n..]);
      ts := [first] + rest;
      assert ts[1..] == rest && b == b[..n] + b[n..];
      assert b[..n] == TokenForm(first);
    }
  }

  /** Any bytes in quotes, each as it is or after a backslash, are read as what they
      stand for: `n`, `r` and `t` after a backslash as line feed, carriage return and
      tab, and any other byte as itself. */
  lemma TokensRead(ts: seq<Token>, tail: Bytes)
    requires BareAreClean(ts)
    ensures PString([0x22] + (TokenForms(ts) + ([0x22] + tail))) == Success(Map(TokenValue, ts), tail)
  {
    var body := TokenForms(ts) + ([QUOTE] + tail);
    TokensCollect(ts, [QUOTE] + tail);
    ContentIsCollect(body, []);
    assert [] + Map(TokenValue, ts) == Map(TokenValue, ts);
    ByteReads(QUOTE, body);
    ByteReads(QUOTE, tail);
  }

  /** Nothing else is read as a string. */
  lemma StringsAreTokens(b: Bytes) returns (ts: seq<Token>)
    requires PString(b).Success?
    ensures BareAreClean(ts) && b == [0x22] + (TokenForms(ts) + ([0x22] + PString(b).rest))
  {
    ContentIsCollect(b[1..], []);
    ts := CollectsTokens(b[1..]);
    var after := Collect(b[1..]).rest;
    assert b == [0x22] + b[1..] && after == [0x22] + after[1..];
  }

  /** A written byte as a token. */
  function TokenOf(b: Byte): Token {
    if b == 0x22 || b == 0x5C then Slashed(b)
    else if b == 0x0A then Slashed(0x6E)
    else if b == 0x0D then Slashed(0x72)
    else if b == 0x09 then Slashed(0x74)
    else Bare(b)
  }

  lemma {:induction false} FormIsTokens(s: Bytes)
    ensures SpellEach(ByteForm, s) == TokenForms(Map(TokenOf, s))
  {
    if s != [] {
      FormIsTokens(s[1..]);
      assert Map(TokenOf, s)[1..] == Map(TokenOf, s[1..]);
    }
  }

  lemma TokensMean(s: Bytes)
    ensures BareAreClean(Map(TokenOf, s)) && Map(TokenValue, Map(TokenOf, s)) == s
  {
  }

  lemma StringReads(s: Bytes, tail: Bytes)
    ensures PString(StringForm(s) + tail) == Success(s, tail)
  {
    FormIsTokens(s);
    TokensMean(s);
    TokensRead(Map(TokenOf, s), tail);
    Nested([0x22], SpellEach(ByteForm, s), [0x22], tail);
  }

  lemma TextReads(t: Text, tail: Bytes)
    ensures PText(TextForm(t) + tail) == Success(t, tail)
  {
    StringReads(Utf8.Encode(t), tail);
    Utf8.DecodesEncoded(t);
  }

  lemma ByteReads(b: Byte, tail: Bytes)
    ensures PByte(b, [b] + tail) == Success((), tail)
  {
    assert ([b] + tail)[1..] == tail;
  }

  // ---- Lists ------------------------------------------------------------

  /** A parser reads each item its writer writes as the item's canonical form, or
      refuses it when it is not good; and no item looks like a list's end. */
  ghost predicate Reads<A(!new), B(!new)>(item: Parser<B>, write: (A, Bytes) -> Bytes, good: A -> bool, canon: A -> B) {
    && Consumes(item)
    && (forall x, tail {:trigger write(x, tail)} ::
          && item(write(x, tail)) == (if good(x) then Success(canon(x), tail) else Failure)
          && write(x, tail) != [] && write(x, tail)[0] != CLOSE_LIST)
    && forall tail :: item([CLOSE_LIST] + tail) == Failure
  }

  ghost predicate All<A(!new)>(good: A -> bool, xs: seq<A>) {
    forall x :: x in xs ==> good(x)
  }

  lemma {:induction false} MoreReads<A(!new), B(!new)>(item: Parser<B>, write: (A, Bytes) -> Bytes, good: A -> bool,
                                       canon: A -> B,
                                              xs: seq<A>, done: seq<B>, tail: Bytes)
    requires Reads(item, write, good, canon) && xs != []
    ensures var after := [CLOSE_LIST] + tail;
            More(item, [COMMA] + Items(write, xs, after), done) ==
            if All(good, xs) then Success(done + Map(canon, xs), after) else Failure
  {
    var after := [CLOSE_LIST] + tail;
    var rest := if |xs| == 1 then after else [COMMA] + Items(write, xs[1..], after);
    assert Items(write, xs, after) == write(xs[0], rest);
    ByteReads(COMMA, write(xs[0], rest));
    assert All(good, xs) == (good(xs[0]) && All(good, xs[1..])) by {
      assert xs == [xs[0]] + xs[1..];
    }
    if good(xs[0]) {
      var done' := done + [canon(xs[0])];
      assert done' + Map(canon, xs[1..]) == done + Map(canon, xs);
      if |xs| == 1 {
        assert More(item, after, done') == Success(done', after);
        assert done + Map(canon, xs) == done';
      } else {
        MoreReads(item, write, good, canon, xs[1..], done', tail);
      }
    }
  }

  lemma SepByReads<A(!new), B(!new)>(item: Parser<B>, write: (A, Bytes) -> Bytes, good: A -> bool, canon: A -> B,
                     xs: seq<A>, tail: Bytes)
    requires Reads(item, write, good, canon) && xs != []
    ensures var after := [CLOSE_LIST] + tail;
            var items := Items(write, xs, after);
            PSepBy(item, items) ==
            if All(good, xs) then Success(Map(canon, xs), after)
            else if good(xs[0]) then Failure
            else Success([], items)
  {
    var after := [CLOSE_LIST] + tail;
    var rest := if |xs| == 1 then after else [COMMA] + Items(write, xs[1..], after);
    assert Items(write, xs, after) == write(xs[0], rest);
    assert xs == [xs[0]] + xs[1..];
    if good(xs[0]) {
      assert PSepBy(item, Items(write, xs, after)) == More(item, rest, [canon(xs[0])]);
      if |xs| == 1 {
        assert More(item, after, [canon(xs[0])]) == Success([canon(xs[0])], after);
        assert Map(canon, xs) == [canon(xs[0])];
      } else {
        MapFirst(canon, xs);
        MoreReads(item, write, good, canon, xs[1..], [canon(xs[0])], tail);
      }
    }
  }

  /** A list is read exactly when every item is good. */
  lemma ListReads<A(!new), B(!new)>(item: Parser<B>, write: (A, Bytes) -> Bytes, good: A -> bool, canon: A -> B,
                    xs: seq<A>, tail: Bytes)
    requires Reads(item, write, good, canon)
    ensures PList(item, List(write, xs, tail)) == if All(good, xs) then Success(Map(canon, xs), tail) else Failure
  {
    var after := [CLOSE_LIST] + tail;
    var items := Items(write, xs, after);
    ByteReads(OPEN_LIST, items);
    ByteReads(CLOSE_LIST, tail);
    if xs == [] {
      assert item(items) == Failure;
      assert Map(canon, xs) == [];
    } else {
      SepByReads(item, write, good, canon, xs, tail);
      if !good(xs[0]) {
        assert exists rest :: items == write(xs[0], rest) by {
          assert items == write(xs[0], if |xs| == 1 then after else [COMMA] + Items(write, xs[1..], after));
        }
      }
    }
  }

  /** A writer that puts a form in front of what follows. */
  function Then<A(!new)>(form: A -> Bytes): (w: (A, Bytes) -> Bytes)
    ensures forall x, tail :: w(x, tail) == form(x) + tail
  {
    (x, tail) => form(x) + tail
  }

  lemma FormsRead<A(!new), B(!new)>(item: Parser<B>, form: A -> Bytes, good: A -> bool, canon: A -> B, xs: seq<A>,
                                    tail: Bytes)
    requires Reads(item, Then(form), good, canon)
    ensures PList(item, ListForm(form, xs) + tail) == if All(good, xs) then Success(Map(canon, xs), tail) else Failure
  {
    ListReads(item, Then(form), good, canon, xs, tail);
    ListWrites(Then(form), Same, form, xs, tail);
    MapSame(xs);
  }

  // ---- Fields -----------------------------------------------------------

  predicate Any<A>(x: A) { true }

  lemma StringsRead(strings: seq<Bytes>, tail: Bytes)
    ensures (TextConsumes(); PList(PString, ListForm(StringForm, strings) + tail) == Success(strings, tail))
  {
    TextConsumes();
    forall t, after
      ensures PString(Then(StringForm)(t, after)) == Success(t, after)
      ensures Then(StringForm)(t, after) != [] && Then(StringForm)(t, after)[0] == 0x22
    {
      StringReads(t, after);
    }
    FormsRead(PString, StringForm, Any, Same, strings, tail);
    MapSame(strings);
  }

  lemma TextsRead(texts: seq<Text>, tail: Bytes)
    ensures (TextConsumes(); PList(PText, ListForm(TextForm, texts) + tail) == Success(texts, tail))
  {
    TextConsumes();
    forall t, after
      ensures PText(Then(TextForm)(t, after)) == Success(t, after)
      ensures Then(TextForm)(t, after) != [] && Then(TextForm)(t, after)[0] == 0x22
    {
      TextReads(t, after);
    }
    FormsRead(PText, TextForm, Any, Same, texts, tail);
    MapSame(texts);
  }

  /** The store path a text spells, where it spells one. */
  function PathIn(parsed: Option<StorePath>): StorePath {
    match parsed
    case Some(p) => p
    case None => 0
  }

  function PathOf(s: Spelling): (f: Text -> StorePath)
    ensures forall t :: s.parse(t).Some? ==> f(t) == s.parse(t).value
  {
    t => PathIn(s.parse(t))
  }

  function IsPath(s: Spelling): (f: Text -> bool)
    ensures forall t :: f(t) <==> s.parse(t).Some?
  {
    t => s.parse(t).Some?
  }

  function OutputOk(s: Spelling): (f: OutputPart -> bool)
    ensures forall o :: f(o) <==> s.nameOk(o.name) && s.parse(o.path).Some?
  {
    (o: OutputPart) => s.nameOk(o.name) && s.parse(o.path).Some?
  }

  function ReadOutput(s: Spelling): (f: OutputPart -> Output)
    ensures forall o :: f(o) == Output(o.name, PathOf(s)(o.path), o.hashAlgo, o.hash)
  {
    (o: OutputPart) => Output(o.name, PathOf(s)(o.path), o.hashAlgo, o.hash)
  }

  /** An output is read exactly when its name is allowed and its path is one. */
  lemma OutputReads(s: Spelling, o: OutputPart, tail: Bytes)
    ensures POutput(s, OutputForm(o) + tail) ==
            if OutputOk(s)(o) then Success(ReadOutput(s)(o), tail) else Failure
  {
    var b4 := TextForm(o.hash) + ([CLOSE] + tail);
    var b3 := TextForm(o.hashAlgo) + ([COMMA] + b4);
    var b2 := TextForm(o.path) + ([COMMA] + b3);
    var b1 := TextForm(o.name) + ([COMMA] + b2);
    FourFields(TextForm(o.name), TextForm(o.path), TextForm(o.hashAlgo), TextForm(o.hash), tail);
    ByteReads(OPEN, b1);
    TextReads(o.name, [COMMA] + b2);
    ByteReads(COMMA, b2);
    TextReads(o.path, [COMMA] + b3);
    ByteReads(COMMA, b3);
    TextReads(o.hashAlgo, [COMMA] + b4);
    ByteReads(COMMA, b4);
    TextReads(o.hash, [CLOSE] + tail);
    ByteReads(CLOSE, tail);
  }

  function InputOk(s: Spelling): (f: InputPart -> bool)
    ensures forall input :: f(input) <==> s.parse(input.0).Some?
  {
    (input: InputPart) => s.parse(input.0).Some?
  }

  function ReadInput(s: Spelling): (f: InputPart -> (StorePath, seq<Text>))
    ensures forall input :: f(input) == (PathOf(s)(input.0), input.1)
  {
    (input: InputPart) => (PathOf(s)(input.0), input.1)
  }

  lemma InputDrvReads(s: Spelling, input: InputPart, tail: Bytes)
    ensures PInputDrv(s, InputForm(input) + tail) ==
            if InputOk(s)(input) then Success(ReadInput(s)(input), tail) else Failure
  {
    var b2 := ListForm(TextForm, input.1) + ([CLOSE] + tail);
    var b1 := TextForm(input.0) + ([COMMA] + b2);
    TwoFields(TextForm(input.0), ListForm(TextForm, input.1), tail);
    ByteReads(OPEN, b1);
    TextReads(input.0, [COMMA] + b2);
    ByteReads(COMMA, b2);
    TextsRead(input.1, [CLOSE] + tail);
    ByteReads(CLOSE, tail);
  }

  lemma EnvPairReads(pair: (Text, Bytes), tail: Bytes)
    ensures PEnvPair(EnvForm(pair) + tail) == Success(pair, tail)
  {
    var b2 := StringForm(pair.1) + ([CLOSE] + tail);
    var b1 := TextForm(pair.0) + ([COMMA] + b2);
    TwoFields(TextForm(pair.0), StringForm(pair.1), tail);
    ByteReads(OPEN, b1);
    TextReads(pair.0, [COMMA] + b2);
    ByteReads(COMMA, b2);
    StringReads(pair.1, [CLOSE] + tail);
    ByteReads(CLOSE, tail);
  }

  // ---- Sections ---------------------------------------------------------

  lemma OutputsRead(s: Spelling, outputs: seq<OutputPart>, tail: Bytes)
    ensures PList(OutputParser(s), ListForm(OutputForm, outputs) + tail) ==
            if All(OutputOk(s), outputs) then Success(Map(ReadOutput(s), outputs), tail) else Failure
  {
    var write := Then(OutputForm);
    forall o, after
      ensures POutput(s, write(o, after)) == if OutputOk(s)(o) then Success(ReadOutput(s)(o), after) else Failure
      ensures write(o, after) != [] && write(o, after)[0] == OPEN
    {
      OutputReads(s, o, after);
    }
    FormsRead(OutputParser(s), OutputForm, OutputOk(s), ReadOutput(s), outputs, tail);
  }

  lemma InputDrvsRead(s: Spelling, inputs: seq<InputPart>, tail: Bytes)
    ensures PList(InputDrvParser(s), ListForm(InputForm, inputs) + tail) ==
            if All(InputOk(s), inputs) then Success(Map(ReadInput(s), inputs), tail) else Failure
  {
    var write := Then(InputForm);
    forall input, after
      ensures PInputDrv(s, write(input, after)) ==
              if InputOk(s)(input) then Success(ReadInput(s)(input), after) else Failure
      ensures write(input, after) != [] && write(input, after)[0] == OPEN
    {
      InputDrvReads(s, input, after);
    }
    FormsRead(InputDrvParser(s), InputForm, InputOk(s), ReadInput(s), inputs, tail);
  }

  lemma InputSrcsRead(s: Spelling, sources: seq<Text>, tail: Bytes)
    ensures PList(InputSrcParser(s), ListForm(TextForm, sources) + tail) ==
            if All(IsPath(s), sources) then Success(Map(PathOf(s), sources), tail) else Failure
  {
    var item, write := InputSrcParser(s), Then(TextForm);
    assert Reads<Text, StorePath>(item, write, IsPath(s), PathOf(s)) by {
      forall t, after
        ensures item(write(t, after)) == if IsPath(s)(t) then Success(PathOf(s)(t), after) else Failure
        ensures write(t, after) != [] && write(t, after)[0] != CLOSE_LIST
      {
        TextReads(t, after);
      }
    }
    FormsRead<Text, StorePath>(item, TextForm, IsPath(s), PathOf(s), sources, tail);
  }

  lemma EnvReads(env: seq<(Text, Bytes)>, tail: Bytes)
    ensures PList(EnvPairParser(), ListForm(EnvForm, env) + tail) == Success(env, tail)
  {
    var write := Then(EnvForm);
    forall pair, after
      ensures PEnvPair(write(pair, after)) == Success(pair, after)
      ensures write(pair, after) != [] && write(pair, after)[0] == OPEN
    {
      EnvPairReads(pair, after);
    }
    FormsRead(EnvPairParser(), EnvForm, Any, Same, env, tail);
    MapSame(env);
  }

  // ---- Documents --------------------------------------------------------

  lemma BuildReads(s: Spelling, p: Parts, tail: Bytes)
    ensures PBuild(s, BuildForm(p, tail)) ==
            if All(IsPath(s), p.sources)
            then Success((Map(PathOf(s), p.sources), p.system, p.builder, p.args, p.env), tail)
            else Failure
  {
    TextConsumes();
    var b5 := ListForm(EnvForm, p.env) + ([CLOSE] + tail);
    var b4 := ListForm(StringForm, p.args) + ([COMMA] + b5);
    var b3 := StringForm(p.builder) + ([COMMA] + b4);
    var b2 := TextForm(p.system) + ([COMMA] + b3);
    var b1 := ListForm(TextForm, p.sources) + ([COMMA] + b2);
    ByteReads(COMMA, b1);
    InputSrcsRead(s, p.sources, [COMMA] + b2);
    ByteReads(COMMA, b2);
    TextReads(p.system, [COMMA] + b3);
    ByteReads(COMMA, b3);
    StringReads(p.builder, [COMMA] + b4);
    ByteReads(COMMA, b4);
    StringsRead(p.args, [COMMA] + b5);
    ByteReads(COMMA, b5);
    EnvReads(p.env, [CLOSE] + tail);
    ByteReads(CLOSE, tail);
  }

  /** Every output's name is allowed, and every path is one. */
  ghost predicate Readable(s: Spelling, p: Parts) {
    All(OutputOk(s), p.outputs) && All(InputOk(s), p.inputs) && All(IsPath(s), p.sources)
  }

  /** What a document is read as: a repeated input's names come together, later ones
      first, and of a repeated variable the last value stays. */
  function DerivationOf(s: Spelling, p: Parts): Derivation {
    Derivation(Map(ReadOutput(s), p.outputs), FromListWith(JoinNames, Map(ReadInput(s), p.inputs)),
               Map(PathOf(s), p.sources), TextToPlatform(p.system), p.builder, p.args, FromListWith(Later, p.env))
  }

  lemma FieldsRead(s: Spelling, p: Parts, tail: Bytes)
    ensures PFields(s, ListForm(OutputForm, p.outputs) + ([0x2C] + (ListForm(InputForm, p.inputs)
                       + BuildForm(p, tail)))) ==
            if Readable(s, p) then Success(DerivationOf(s, p), tail) else Failure
  {
    var build := BuildForm(p, tail);
    var b2 := ListForm(InputForm, p.inputs) + build;
    OutputsRead(s, p.outputs, [COMMA] + b2);
    ByteReads(COMMA, b2);
    InputDrvsRead(s, p.inputs, build);
    BuildReads(s, p, tail);
  }

  lemma PrefixReads(prefix: Bytes, b: Bytes)
    ensures PBytes(prefix, prefix + b) == Success((), b)
  {
    assert (prefix + b)[|prefix|..] == b;
  }

  /** Any document in the format is read, in whatever order it lists things, exactly
      when its names are allowed, its paths are paths and nothing follows it. */
  lemma DocumentReads(s: Spelling, p: Parts, extra: Bytes)
    ensures FromATerm(s, DocumentForm(p) + extra) ==
            if Readable(s, p) && extra == [] then Some(DerivationOf(s, p)) else None
  {
    SevenFields(p, extra);
    PrefixReads(DERIVE, ListForm(OutputForm, p.outputs) + ([0x2C] + (ListForm(InputForm, p.inputs)
                        + BuildForm(p, extra))));
    FieldsRead(s, p, extra);
  }

  /** The names a list of inputs gives for one of them, later ones first. */
  function NamesFor(inputs: seq<(StorePath, seq<Text>)>, p: StorePath): seq<Text> {
    if inputs == [] then []
    else
      var last := inputs[|inputs| - 1];
      (if last.0 == p then last.1 else []) + NamesFor(inputs[..|inputs| - 1], p)
  }

  lemma {:induction false} InputsJoin(inputs: seq<(StorePath, seq<Text>)>, p: StorePath)
    ensures p in FromListWith(JoinNames, inputs) <==> exists i :: 0 <= i < |inputs| && inputs[i].0 == p
    ensures NamesFor(inputs, p) == if p in FromListWith(JoinNames, inputs) then FromListWith(JoinNames, inputs)[p]
            else []
  {
    if inputs != [] {
      var rest := inputs[..|inputs| - 1];
      InputsJoin(rest, p);
      assert forall i :: 0 <= i < |rest| ==> rest[i] == inputs[i];
      assert inputs[|inputs| - 1].1 + [] == inputs[|inputs| - 1].1;
    }
  }

  /** The last value given for a variable is its value. */
  lemma {:induction false} LastStays(env: seq<(Text, Bytes)>, i: nat)
    requires i < |env| && forall j :: i < j < |env| ==> env[j].0 != env[i].0
    ensures env[i].0 in FromListWith(Later, env) && FromListWith(Later, env)[env[i].0] == env[i].1
  {
    if i < |env| - 1 {
      LastStays(env[..|env| - 1], i);
    }
  }

  // ---- Derivations ------------------------------------------------------

  ghost predicate NamesOk(s: Spelling, outputs: seq<Output>) {
    forall o :: o in outputs ==> s.nameOk(o.name)
  }

  /** Each input's output names sorted, each once. */
  function CanonInputs(inputs: map<StorePath, seq<Text>>): map<StorePath, seq<Text>> {
    map p | p in inputs :: SortNub(inputs[p])
  }

  /** Outputs by name, sources by path text, names of outputs wanted sorted and
      each once, the platform by its own name. */
  function Canon(text: StorePath -> Text, d: Derivation): Derivation {
    d.(outputs := SortBy(OutputName, d.outputs),
       inputDrvs := CanonInputs(d.inputDrvs),
       inputSrcs := SortBy(text, d.inputSrcs),
       platform := TextToPlatform(PlatformToText(d.platform)))
  }

  lemma OutputsBack(s: Spelling, outputs: seq<Output>)
    requires s.RoundTrips()
    ensures var parts := Map(ToOutputPart(s.text, false), outputs);
            && Map(ReadOutput(s), parts) == outputs
            && (All(OutputOk(s), parts) <==> NamesOk(s, outputs))
  {
    var parts := Map(ToOutputPart(s.text, false), outputs);
    forall i | 0 <= i < |outputs|
      ensures OutputOk(s)(parts[i]) <==> s.nameOk(outputs[i].name)
      ensures ReadOutput(s)(parts[i]) == outputs[i]
    {
      assert s.parse(s.text(outputs[i].path)) == Some(outputs[i].path);
    }
    if All(OutputOk(s), parts) {
      forall o | o in outputs
        ensures s.nameOk(o.name)
      {
        var i :| 0 <= i < |outputs| && outputs[i] == o;
        assert parts[i] in parts;
      }
    }
  }

  lemma SourcesBack(s: Spelling, srcs: seq<StorePath>)
    requires s.RoundTrips()
    ensures All(IsPath(s), Map(s.text, srcs)) && Map(PathOf(s), Map(s.text, srcs)) == srcs
  {
    forall i | 0 <= i < |srcs|
      ensures IsPath(s)(Map(s.text, srcs)[i]) && PathOf(s)(Map(s.text, srcs)[i]) == srcs[i]
    {
      assert s.parse(s.text(srcs[i])) == Some(srcs[i]);
    }
  }

  lemma PartsReadable(s: Spelling, d: Derivation)
    requires s.RoundTrips()
    ensures Readable(s, PartsOf(s.text, false, None, d)) <==> NamesOk(s, d.outputs)
  {
    OutputsBack(s, SortBy(OutputName, d.outputs));
    SourcesBack(s, SortBy(s.text, d.inputSrcs));
    SortedNamesOk(s, d.outputs);
    InputsReadable(s, d.inputDrvs);
  }

  lemma SortedNamesOk(s: Spelling, outputs: seq<Output>)
    ensures NamesOk(s, SortBy(OutputName, outputs)) <==> NamesOk(s, outputs)
  {
  }

  lemma InputsReadable(s: Spelling, inputs: map<StorePath, seq<Text>>)
    requires s.RoundTrips()
    ensures All(InputOk(s), InputParts(s.text, None, inputs))
  {
    var pairs, parts := Pairs(AtMost, inputs), InputParts(s.text, None, inputs);
    forall i | 0 <= i < |parts|
      ensures InputOk(s)(parts[i])
    {
      assert s.parse(s.text(pairs[i].0)).Some?;
    }
  }

  lemma InputPartsBack(s: Spelling, inputs: map<StorePath, seq<Text>>)
    requires s.RoundTrips()
    ensures Map(ReadInput(s), InputParts(s.text, None, inputs)) == Pairs(AtMost, CanonInputs(inputs))
  {
    var pairs, canon := Pairs(AtMost, inputs), Pairs(AtMost, CanonInputs(inputs));
    var back := Map(ReadInput(s), InputParts(s.text, None, inputs));
    assert CanonInputs(inputs).Keys == inputs.Keys;
    assert |back| == |pairs| == |canon|;
    forall i | 0 <= i < |pairs|
      ensures back[i] == canon[i]
    {
      assert s.parse(s.text(pairs[i].0)) == Some(pairs[i].0);
      assert back[i] == (pairs[i].0, SortNub(pairs[i].1));
    }
  }

  lemma InputsBack(s: Spelling, inputs: map<StorePath, seq<Text>>)
    requires s.RoundTrips()
    ensures FromListWith(JoinNames, Map(ReadInput(s), InputParts(s.text, None, inputs))) == CanonInputs(inputs)
  {
    InputPartsBack(s, inputs);
    PairsJoin(Map(ReadInput(s), InputParts(s.text, None, inputs)), CanonInputs(inputs));
  }

  lemma PairsJoin(pairs: seq<(StorePath, seq<Text>)>, inputs: map<StorePath, seq<Text>>)
    requires pairs == Pairs(AtMost, inputs)
    ensures FromListWith(JoinNames, pairs) == inputs
  {
    FromPairs(AtMost, JoinNames, inputs);
  }

  lemma PartsBack(s: Spelling, d: Derivation)
    requires s.RoundTrips()
    ensures DerivationOf(s, PartsOf(s.text, false, None, d)) == Canon(s.text, d)
  {
    var p := PartsOf(s.text, false, None, d);
    TextsOrdered();
    OutputsBack(s, SortBy(OutputName, d.outputs));
    SourcesBack(s, SortBy(s.text, d.inputSrcs));
    InputsBack(s, d.inputDrvs);
    PlatformsByName(d.platform, "");
    FromPairs(AtMostText, Later, d.env);
  }

  /** Reading a written derivation gives its canonical form back, exactly when
      every output name is allowed. */
  lemma ReadsWritten(s: Spelling, d: Derivation)
    requires s.RoundTrips()
    ensures FromATerm(s, ToATerm(s.text, d)) == if NamesOk(s, d.outputs) then Some(Canon(s.text, d)) else None
  {
    var p := PartsOf(s.text, false, None, d);
    WritesDocument(s.text, false, None, d);
    DocumentReads(s, p, []);
    assert DocumentForm(p) + [] == DocumentForm(p);
    PartsReadable(s, d);
    PartsBack(s, d);
  }

  lemma SortNubTwice(names: seq<Text>)
    ensures SortNub(SortNub(names)) == SortNub(names)
  {
    assert Elements(SortNub(names)) == Elements(names);
  }

  lemma InputsAlike(text: StorePath -> Text, inputs: map<StorePath, seq<Text>>)
    ensures InputParts(text, None, CanonInputs(inputs)) == InputParts(text, None, inputs)
  {
    assert CanonInputs(inputs).Keys == inputs.Keys;
    forall p | p in inputs
      ensures SortNub(CanonInputs(inputs)[p]) == SortNub(inputs[p])
    {
      SortNubTwice(inputs[p]);
    }
  }

  /** The canonical form is written as the derivation itself is. */
  lemma CanonWritesAlike(text: StorePath -> Text, d: Derivation)
    ensures ToATerm(text, Canon(text, d)) == ToATerm(text, d)
  {
    SortByIsStable(OutputName, d.outputs);
    SortedStays(OutputName, SortBy(OutputName, d.outputs));
    SortByIsStable(text, d.inputSrcs);
    SortedStays(text, SortBy(text, d.inputSrcs));
    InputsAlike(text, d.inputDrvs);
    PlatformsByName(d.platform, "");
    PlatformsByName(Canon(text, d).platform, "");
    WritesDocument(text, false, None, d);
    WritesDocument(text, false, None, Canon(text, d));
  }

  /** The bytes determine a derivation up to its canonical form, and no further. */
  lemma BytesDetermine(s: Spelling, d: Derivation, e: Derivation)
    requires s.RoundTrips()
    ensures ToATerm(s.text, d) == ToATerm(s.text, e) <==> Canon(s.text, d) == Canon(s.text, e)
  {
    CanonWritesAlike(s.text, d);
    CanonWritesAlike(s.text, e);
    var anyName := s.(nameOk := Any);
    ReadsWritten(anyName, d);
    ReadsWritten(anyName, e);
  }
}
