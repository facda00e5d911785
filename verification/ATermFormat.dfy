/** The `.drv` format by its bytes (src/Nix/Derivation.hs), stated apart from the
    code that writes and reads it. */
module ATermFormat {
  import opened Basics
  import opened Escaping
  import opened Derivations
  import opened Sorting
  import opened TextOrder
  import opened ATerm
  import Utf8

  // ---- Strings, lists and tuples ----------------------------------------

  /** A byte in a string: five are escaped, any other stands for itself. */
  function ByteForm(b: Byte): Bytes {
    if b == 0x22 then [0x5C, 0x22]
    else if b == 0x5C then [0x5C, 0x5C]
    else if b == 0x0A then [0x5C, 0x6E]
    else if b == 0x0D then [0x5C, 0x72]
    else if b == 0x09 then [0x5C, 0x74]
    else [b]
  }

  function StringForm(s: Bytes): Bytes {
    [0x22] + SpellEach(ByteForm, s) + [0x22]
  }

  function TextForm(t: Text): Bytes {
    StringForm(Utf8.Encode(t))
  }

  /** Items with commas between them. */
  function Commas<A>(form: A -> Bytes, xs: seq<A>): Bytes {
    if |xs| == 0 then []
    else if |xs| == 1 then form(xs[0])
    else form(xs[0]) + [0x2C] + Commas(form, xs[1..])
  }

  function ListForm<A>(form: A -> Bytes, xs: seq<A>): Bytes {
    [0x5B] + Commas(form, xs) + [0x5D]
  }

  function Plain(b: Bytes): Bytes { b }

  function TupleForm(fields: seq<Bytes>): Bytes {
    [0x28] + Commas(Plain, fields) + [0x29]
  }

  // ---- Documents --------------------------------------------------------

  datatype OutputPart = OutputPart(name: Text, path: Text, hashAlgo: Text, hash: Text)

  /** An input: its path or hash, and the outputs wanted of it. */
  type InputPart = (Text, seq<Text>)

  /** What a document says, in the order it says it. */
  datatype Parts = Parts(outputs: seq<OutputPart>, inputs: seq<InputPart>, sources: seq<Text>, system: Text,
                         builder: Bytes, args: seq<Bytes>, env: seq<(Text, Bytes)>)

  function OutputForm(o: OutputPart): Bytes {
    TupleForm([TextForm(o.name), TextForm(o.path), TextForm(o.hashAlgo), TextForm(o.hash)])
  }

  function InputForm(input: InputPart): Bytes {
    TupleForm([TextForm(input.0), ListForm(TextForm, input.1)])
  }

  function EnvForm(pair: (Text, Bytes)): Bytes {
    TupleForm([TextForm(pair.0), StringForm(pair.1)])
  }

  /** `Derive([outputs],[inputDrvs],[inputSrcs],platform,builder,[args],[env])` */
  function DocumentForm(p: Parts): Bytes {
    [0x44, 0x65, 0x72, 0x69, 0x76, 0x65] + TupleForm([
      ListForm(OutputForm, p.outputs), ListForm(InputForm, p.inputs), ListForm(TextForm, p.sources),
      TextForm(p.system), StringForm(p.builder), ListForm(StringForm, p.args), ListForm(EnvForm, p.env)])
  }

  // ---- Platforms --------------------------------------------------------

  const SYSTEMS: map<Platform, Text> := map[
    X86_64_Linux := "x86_64-linux", X86_64_Darwin := "x86_64-darwin", Aarch64_Darwin := "aarch64-darwin",
    X86_64_Windows := "x86_64-windows", Aarch64_Linux := "aarch64-linux", I686_Linux := "i686-linux",
    I686_Windows := "i686-windows"]

  function SystemOf(p: Platform): Text {
    if p.OtherPlatform? then p.system else SYSTEMS[p]
  }

  /** Seven platforms have names of their own, which are read as those platforms;
      any other name is read as a platform of that name. */
  lemma PlatformsByName(p: Platform, t: Text)
    ensures PlatformToText(p) == SystemOf(p)
    ensures TextToPlatform(t) == p <==> SystemOf(p) == t && (p.OtherPlatform? ==> t !in SYSTEMS.Values)
  {
    forall q | q in SYSTEMS
      ensures PlatformToText(q) == SYSTEMS[q]
    {
    }
    var known := TextToPlatform(t);
    if !known.OtherPlatform? {
      assert SYSTEMS[known] == t;
    }
  }

  // ---- What a derivation's document says --------------------------------

  function ToOutputPart(text: StorePath -> Text, mask: bool): (f: Output -> OutputPart)
    ensures forall o :: f(o) == OutputPart(o.name, if mask then "" else text(o.path), o.hashAlgo, o.hash)
  {
    (o: Output) => OutputPart(o.name, if mask then "" else text(o.path), o.hashAlgo, o.hash)
  }

  function ToInputPart(text: StorePath -> Text): (f: ((StorePath, seq<Text>)) -> InputPart)
    ensures forall input :: f(input) == (text(input.0), SortNub(input.1))
  {
    (input: (StorePath, seq<Text>)) => (text(input.0), SortNub(input.1))
  }

  function ToSubPart(sub: (Text, set<Text>)): InputPart {
    (sub.0, AscendingTexts(sub.1))
  }

  function InputParts(text: StorePath -> Text, inputSubst: Option<seq<(Text, seq<Text>)>>,
                      drvs: map<StorePath, seq<Text>>): seq<InputPart> {
    TextsOrdered();
    match inputSubst
    case None => Map(ToInputPart(text), Pairs(AtMost, drvs))
    case Some(subs) => Map(ToSubPart, Pairs(AtMostText, Merged(subs)))
  }

  /** Outputs by name, inputs by path or hash, sources by path, environment by key. */
  function PartsOf(text: StorePath -> Text, mask: bool, inputSubst: Option<seq<(Text, seq<Text>)>>,
                   d: Derivation): Parts {
    TextsOrdered();
    Parts(Map(ToOutputPart(text, mask), SortBy(OutputName, d.outputs)),
          InputParts(text, inputSubst, d.inputDrvs),
          Map(text, SortBy(text, d.inputSrcs)),
          SystemOf(d.platform), d.builder, d.args, Pairs(AtMostText, d.env))
  }

  // ---- The writer writes the format -------------------------------------

  /** Copying the clean runs in bulk writes each byte's form. */
  lemma EscapeIsForm(s: Bytes)
    ensures Escape(s) == SpellEach(ByteForm, s)
  {
    RunsAreEach(Special, Spelled, s);
    SpelledAlike(s);
  }

  lemma {:induction false} SpelledAlike(s: Bytes)
    ensures SpellEach(Spelled, s) == SpellEach(ByteForm, s)
  {
    if s != [] {
      SpelledAlike(s[1..]);
      assert Spelled(s[0]) == ByteForm(s[0]);
    }
  }

  lemma StrWrites(s: Bytes, tail: Bytes)
    ensures Str(s, tail) == StringForm(s) + tail
  {
    EscapeIsForm(s);
    Nested([0x22], Escape(s), [0x22], tail);
  }

  lemma TextWrites(t: Text, tail: Bytes)
    ensures StrT(t, tail) == TextForm(t) + tail
  {
    StrWrites(Utf8.Encode(t), tail);
  }

  lemma CommasThen<A>(form: A -> Bytes, xs: seq<A>, tail: Bytes)
    requires |xs| > 1
    ensures Commas(form, xs) + tail == form(xs[0]) + ([0x2C] + (Commas(form, xs[1..]) + tail))
  {
    Nested(form(xs[0]), [0x2C], Commas(form, xs[1..]), tail);
  }

  lemma {:induction false} ItemsWrite<A(!new), B>(write: (A, Bytes) -> Bytes, part: A -> B, form: B -> Bytes,
                                                  xs: seq<A>, tail: Bytes)
    requires forall x, after :: write(x, after) == form(part(x)) + after
    ensures Items(write, xs, tail) == Commas(form, Map(part, xs)) + tail
  {
    var parts := Map(part, xs);
    if |xs| == 0 {
      assert Commas(form, parts) + tail == tail;
    } else if |xs| > 1 {
      ItemsWrite(write, part, form, xs[1..], tail);
      assert parts[1..] == Map(part, xs[1..]);
      CommasThen(form, parts, tail);
    }
  }

  lemma ListWrites<A(!new), B>(write: (A, Bytes) -> Bytes, part: A -> B, form: B -> Bytes, xs: seq<A>, tail: Bytes)
    requires forall x, after :: write(x, after) == form(part(x)) + after
    ensures List(write, xs, tail) == ListForm(form, Map(part, xs)) + tail
  {
    ItemsWrite(write, part, form, xs, [0x5D] + tail);
    Nested([0x5B], Commas(form, Map(part, xs)), [0x5D], tail);
  }

  lemma TwoFields(a: Bytes, b: Bytes, tail: Bytes)
    ensures TupleForm([a, b]) + tail == [0x28] + (a + ([0x2C] + (b + ([0x29] + tail))))
  {
    Nested([0x28], Commas(Plain, [a, b]), [0x29], tail);
    CommasThen(Plain, [a, b], [0x29] + tail);
  }

  lemma FourFields(a: Bytes, b: Bytes, c: Bytes, d: Bytes, tail: Bytes)
    ensures TupleForm([a, b, c, d]) + tail ==
            [0x28] + (a + ([0x2C] + (b + ([0x2C] + (c + ([0x2C] + (d + ([0x29] + tail))))))))
  {
    Nested([0x28], Commas(Plain, [a, b, c, d]), [0x29], tail);
    CommasThen(Plain, [a, b, c, d], [0x29] + tail);
    CommasThen(Plain, [b, c, d], [0x29] + tail);
    CommasThen(Plain, [c, d], [0x29] + tail);
    assert [a, b, c, d][1..] == [b, c, d] && [b, c, d][1..] == [c, d] && [c, d][1..] == [d];
  }

  lemma OutputWrites(text: StorePath -> Text, mask: bool, o: Output, tail: Bytes)
    ensures WriteOutput(text, mask, o, tail) == OutputForm(ToOutputPart(text, mask)(o)) + tail
  {
    var part := ToOutputPart(text, mask)(o);
    TextWrites(part.hash, [0x29] + tail);
    TextWrites(part.hashAlgo, [0x2C] + StrT(part.hash, [0x29] + tail));
    TextWrites(part.path, [0x2C] + StrT(part.hashAlgo, [0x2C] + StrT(part.hash, [0x29] + tail)));
    TextWrites(part.name, [0x2C] + StrT(part.path, [0x2C] + StrT(part.hashAlgo, [0x2C] + StrT(part.hash,
      [0x29] + tail))));
    FourFields(TextForm(part.name), TextForm(part.path), TextForm(part.hashAlgo), TextForm(part.hash), tail);
  }

  function Same<A>(x: A): A { x }

  lemma MapSame<A>(xs: seq<A>)
    ensures Map(Same, xs) == xs
  {
  }

  lemma TextsWrite(texts: seq<Text>, tail: Bytes)
    ensures List(StrT, texts, tail) == ListForm(TextForm, texts) + tail
  {
    forall t, after
      ensures StrT(t, after) == TextForm(Same(t)) + after
    {
      TextWrites(t, after);
    }
    ListWrites(StrT, Same, TextForm, texts, tail);
    MapSame(texts);
  }

  lemma InputWrites(name: Text, outs: seq<Text>, tail: Bytes)
    ensures [OPEN] + StrT(name, [COMMA] + List(StrT, outs, [CLOSE] + tail)) == InputForm((name, outs)) + tail
  {
    TextsWrite(outs, [0x29] + tail);
    TextWrites(name, [0x2C] + List(StrT, outs, [0x29] + tail));
    TwoFields(TextForm(name), ListForm(TextForm, outs), tail);
  }

  lemma EnvPairWrites(pair: (Text, Bytes), tail: Bytes)
    ensures WriteEnvPair(pair, tail) == EnvForm(Same(pair)) + tail
  {
    StrWrites(pair.1, [0x29] + tail);
    TextWrites(pair.0, [0x2C] + Str(pair.1, [0x29] + tail));
    TwoFields(TextForm(pair.0), StringForm(pair.1), tail);
  }

  lemma OutputsWrite(text: StorePath -> Text, mask: bool, outputs: seq<Output>, tail: Bytes)
    ensures WriteOutputs(text, mask, outputs, tail) ==
            ListForm(OutputForm, Map(ToOutputPart(text, mask), SortBy(OutputName, outputs))) + tail
  {
    forall o, after
      ensures OutputWriter(text, mask)(o, after) == OutputForm(ToOutputPart(text, mask)(o)) + after
    {
      OutputWrites(text, mask, o, after);
    }
    ListWrites(OutputWriter(text, mask), ToOutputPart(text, mask), OutputForm, SortBy(OutputName, outputs), tail);
  }

  lemma InputsWrite(text: StorePath -> Text, inputSubst: Option<seq<(Text, seq<Text>)>>,
                    drvs: map<StorePath, seq<Text>>, tail: Bytes)
    ensures ListForm(InputForm, InputParts(text, inputSubst, drvs)) + tail ==
            match inputSubst
            case None => WriteInputDrvs(text, drvs, tail)
            case Some(subs) => WriteSubs(subs, tail)
  {
    TextsOrdered();
    match inputSubst
    case None =>
      forall input, after
        ensures InputDrvWriter(text)(input, after) == InputForm(ToInputPart(text)(input)) + after
      {
        InputWrites(text(input.0), SortNub(input.1), after);
      }
      ListWrites(InputDrvWriter(text), ToInputPart(text), InputForm, Pairs(AtMost, drvs), tail);
    case Some(subs) =>
      forall sub, after
        ensures WriteSub(sub, after) == InputForm(ToSubPart(sub)) + after
      {
        InputWrites(sub.0, AscendingTexts(sub.1), after);
      }
      ListWrites(WriteSub, ToSubPart, InputForm, Pairs(AtMostText, Merged(subs)), tail);
  }

  lemma SourcesWrite(text: StorePath -> Text, srcs: seq<StorePath>, tail: Bytes)
    ensures WriteInputSrcs(text, srcs, tail) == ListForm(TextForm, Map(text, SortBy(text, srcs))) + tail
  {
    forall p: StorePath, after
      ensures InputSrcWriter(text)(p, after) == TextForm(text(p)) + after
    {
      TextWrites(text(p), after);
    }
    ListWrites<StorePath, Text>(InputSrcWriter(text), text, TextForm, SortBy(text, srcs), tail);
  }

  lemma ArgsWrite(args: seq<Bytes>, tail: Bytes)
    ensures List(Str, args, tail) == ListForm(StringForm, args) + tail
  {
    forall s, after
      ensures Str(s, after) == StringForm(Same(s)) + after
    {
      StrWrites(s, after);
    }
    ListWrites(Str, Same, StringForm, args, tail);
    MapSame(args);
  }

  lemma EnvWrites(env: map<Text, Bytes>, tail: Bytes)
    ensures (TextsOrdered(); WriteEnv(env, tail) == ListForm(EnvForm, Pairs(AtMostText, env)) + tail)
  {
    TextsOrdered();
    forall pair, after
      ensures WriteEnvPair(pair, after) == EnvForm(Same(pair)) + after
    {
      EnvPairWrites(pair, after);
    }
    ListWrites(WriteEnvPair, Same, EnvForm, Pairs(AtMostText, env), tail);
    MapSame(Pairs(AtMostText, env));
  }

  /** A document's fields after the inputs, and what closes it. */
  function BuildForm(p: Parts, tail: Bytes): Bytes {
    [0x2C] + (ListForm(TextForm, p.sources) + ([0x2C] + (TextForm(p.system) + ([0x2C] + (StringForm(p.builder) +
      ([0x2C] + (ListForm(StringForm, p.args) + ([0x2C] + (ListForm(EnvForm, p.env) + ([0x29] + tail))))))))))
  }

  lemma BuildWrites(text: StorePath -> Text, mask: bool, inputSubst: Option<seq<(Text, seq<Text>)>>, d: Derivation)
    ensures WriteBuild(text, d, []) == BuildForm(PartsOf(text, mask, inputSubst, d), [])
  {
    var p := PartsOf(text, mask, inputSubst, d);
    TextsOrdered();
    var b5 := [0x2C] + WriteEnv(d.env, [0x29] + []);
    var b4 := [0x2C] + List(Str, d.args, b5);
    var b3 := [0x2C] + Str(d.builder, b4);
    var b2 := [0x2C] + StrT(PlatformToText(d.platform), b3);
    EnvWrites(d.env, [0x29] + []);
    ArgsWrite(d.args, b5);
    StrWrites(d.builder, b4);
    PlatformsByName(d.platform, "");
    TextWrites(p.system, b3);
    SourcesWrite(text, d.inputSrcs, b2);
  }

  lemma ThreeCommas(a: Bytes, b: Bytes, c: Bytes, after: Bytes)
    ensures Commas(Plain, [a, b, c]) + after == a + ([0x2C] + (b + ([0x2C] + (c + after))))
  {
    CommasThen(Plain, [a, b, c], after);
    CommasThen(Plain, [b, c], after);
    assert [a, b, c][1..] == [b, c] && [b, c][1..] == [c];
  }

  lemma FourMore(a: Bytes, b: Bytes, c: Bytes, d: Bytes, rest: seq<Bytes>, after: Bytes)
    requires rest != []
    ensures Commas(Plain, [a, b, c, d] + rest) + after ==
            a + ([0x2C] + (b + ([0x2C] + (c + ([0x2C] + (d + ([0x2C] + (Commas(Plain, rest) + after))))))))
  {
    CommasThen(Plain, [a, b, c, d] + rest, after);
    CommasThen(Plain, [b, c, d] + rest, after);
    CommasThen(Plain, [c, d] + rest, after);
    CommasThen(Plain, [d] + rest, after);
    assert ([a, b, c, d] + rest)[1..] == [b, c, d] + rest && ([b, c, d] + rest)[1..] == [c, d] + rest;
    assert ([c, d] + rest)[1..] == [d] + rest && ([d] + rest)[1..] == rest;
  }

  lemma SevenCommas(a: Bytes, b: Bytes, c: Bytes, d: Bytes, e: Bytes, f: Bytes, g: Bytes, after: Bytes)
    ensures Commas(Plain, [a, b, c, d, e, f, g]) + after ==
            a + ([0x2C] + (b + ([0x2C] +
              (c + ([0x2C] + (d + ([0x2C] + (e + ([0x2C] + (f + ([0x2C] + (g + after))))))))))))
  {
    assert [a, b, c, d, e, f, g] == [a, b, c, d] + [e, f, g];
    FourMore(a, b, c, d, [e, f, g], after);
    ThreeCommas(e, f, g, after);
  }

  lemma SevenFields(p: Parts, tail: Bytes)
    ensures DocumentForm(p) + tail ==
            DERIVE + (ListForm(OutputForm, p.outputs) + ([0x2C] + (ListForm(InputForm, p.inputs) + BuildForm(p, tail))))
  {
    var a, b, c := ListForm(OutputForm, p.outputs), ListForm(InputForm, p.inputs), ListForm(TextForm, p.sources);
    var d, e := TextForm(p.system), StringForm(p.builder);
    var f, g := ListForm(StringForm, p.args), ListForm(EnvForm, p.env);
    DocumentOpens(p, [a, b, c, d, e, f, g], tail);
    SevenCommas(a, b, c, d, e, f, g, [0x29] + tail);
  }

  lemma DocumentOpens(p: Parts, fields: seq<Bytes>, tail: Bytes)
    requires fields == [ListForm(OutputForm, p.outputs), ListForm(InputForm, p.inputs),
                        ListForm(TextForm, p.sources), TextForm(p.system), StringForm(p.builder),
                        ListForm(StringForm, p.args), ListForm(EnvForm, p.env)]
    ensures DocumentForm(p) + tail == DERIVE + (Commas(Plain, fields) + ([0x29] + tail))
  {
    DeriveBytes();
    Opening([0x44, 0x65, 0x72, 0x69, 0x76, 0x65], Commas(Plain, fields), tail);
  }

  lemma Opening(word: Bytes, inner: Bytes, tail: Bytes)
    ensures word + ([0x28] + inner + [0x29]) + tail == (word + [0x28]) + (inner + ([0x29] + tail))
  {
  }

  lemma DeriveBytes()
    ensures DERIVE == [0x44, 0x65, 0x72, 0x69, 0x76, 0x65] + [0x28]
  {
    Utf8.EncodesFirst('(', []);
    Utf8.EncodesFirst('e', "(");
    Utf8.EncodesFirst('v', "e(");
    Utf8.EncodesFirst('i', "ve(");
    Utf8.EncodesFirst('r', "ive(");
    Utf8.EncodesFirst('e', "rive(");
    Utf8.EncodesFirst('D', "erive(");
  }

  /** A derivation's bytes are the document that says what it is, with output paths
      left blank or inputs named by their hashes where that is asked for. */
  lemma WritesDocument(text: StorePath -> Text, mask: bool, inputSubst: Option<seq<(Text, seq<Text>)>>, d: Derivation)
    ensures ToATermForHash(text, mask, inputSubst, d) == DocumentForm(PartsOf(text, mask, inputSubst, d))
  {
    var p := PartsOf(text, mask, inputSubst, d);
    var build := WriteBuild(text, d, []);
    BuildWrites(text, mask, inputSubst, d);
    InputsWrite(text, inputSubst, d.inputDrvs, build);
    OutputsWrite(text, mask, d.outputs, [0x2C] + (ListForm(InputForm, p.inputs) + build));
    SevenFields(p, []);
    assert DocumentForm(p) + [] == DocumentForm(p);
  }
}
