/** The form a derivation is hashed in for its own output paths
    (src/Nix/Derivation.hs): paths blank, inputs named by their modulo hashes. */
module ModuloForm {
  import opened Basics
  import opened Derivations
  import opened Sorting
  import opened TextOrder
  import opened ATerm
  import opened ATermFormat
  import opened ATermRoundTrip

  type Sub = (Text, seq<Text>)

  // ---- The merged inputs ------------------------------------------------

  function UnionJoin(later: set<Text>, earlier: set<Text>): set<Text> {
    later + earlier
  }

  ghost predicate Names(subs: seq<Sub>, key: Text) {
    exists i :: 0 <= i < |subs| && subs[i].0 == key
  }

  ghost predicate Wants(subs: seq<Sub>, key: Text, out: Text) {
    exists i :: 0 <= i < |subs| && subs[i].0 == key && out in subs[i].1
  }

  /** Merging keeps every hash, with all the outputs wanted under it. */
  lemma {:induction false} MergedMeans(subs: seq<Sub>, key: Text)
    ensures key in Merged(subs) <==> Names(subs, key)
    ensures key in Merged(subs) ==> forall out :: out in Merged(subs)[key] <==> Wants(subs, key, out)
  {
    if subs != [] {
      var rest, last := subs[..|subs| - 1], subs[|subs| - 1];
      MergedMeans(rest, key);
      MergedNext(subs);
      assert Names(subs, key) <==> last.0 == key || Names(rest, key) by {
        assert forall i :: 0 <= i < |rest| ==> subs[i] == rest[i];
      }
      forall out
        ensures Wants(subs, key, out) <==> (last.0 == key && out in last.1) || Wants(rest, key, out)
      {
        assert forall i :: 0 <= i < |rest| ==> subs[i] == rest[i];
      }
      assert key !in Merged(rest) ==> forall out :: !Wants(rest, key, out);
    }
  }

  lemma MergedNext(subs: seq<Sub>)
    requires subs != []
    ensures var rest, last := Merged(subs[..|subs| - 1]), subs[|subs| - 1];
            Merged(subs) == rest[last.0 := if last.0 in rest then Elements(last.1) + rest[last.0] else Elements(last.1)]
  {
    assert Map(WithSet, subs)[..|subs| - 1] == Map(WithSet, subs[..|subs| - 1]);
  }

  /** Substitutions that name the same hashes and want the same outputs of each
      are merged alike, in whatever order and however often they say so. */
  lemma MergedAlike(subs: seq<Sub>, subs': seq<Sub>)
    requires forall key :: Names(subs, key) <==> Names(subs', key)
    requires forall key, out :: Wants(subs, key, out) <==> Wants(subs', key, out)
    ensures Merged(subs) == Merged(subs')
  {
    forall key
      ensures key in Merged(subs) <==> key in Merged(subs')
      ensures key in Merged(subs) ==> Merged(subs)[key] == Merged(subs')[key]
    {
      MergedMeans(subs, key);
      MergedMeans(subs', key);
    }
  }

  // ---- Reading the form back --------------------------------------------

  function Blank(o: Output): Output {
    o.(path := 0)
  }

  /** Any path text is a path, so blank ones are read too. */
  function Blanking(text: StorePath -> Text): Spelling {
    Spelling(text, _ => Some(0), Any)
  }

  lemma BlankOutputsRead(text: StorePath -> Text, outputs: seq<Output>, tail: Bytes)
    ensures var parts := Map(ToOutputPart(text, true), outputs);
            PList(OutputParser(Blanking(text)), ListForm(OutputForm, parts) + tail) ==
              Success(Map(Blank, outputs), tail)
  {
    var s, parts := Blanking(text), Map(ToOutputPart(text, true), outputs);
    OutputsRead(s, parts, tail);
    assert Map(ReadOutput(s), parts) == Map(Blank, outputs);
  }

  function PSub(b: Bytes): (r: Parse<Sub, Bytes>)
    ensures r.Success? ==> |r.rest| <= |b|
  {
    TextConsumes();
    var (_, b) :- PByte(OPEN, b);
    var (key, b) :- PText(b);
    var (_, b) :- PByte(COMMA, b);
    var (outs, b) :- PList(PText, b);
    var (_, b) :- PByte(CLOSE, b);
    Success((key, outs), b)
  }

  function SubParser(): (p: Parser<Sub>)
    ensures Consumes(p) && forall b :: p(b) == PSub(b)
  {
    b => PSub(b)
  }

  lemma SubReads(sub: Sub, tail: Bytes)
    ensures PSub(InputForm(sub) + tail) == Success(sub, tail)
  {
    var b2 := ListForm(TextForm, sub.1) + ([CLOSE] + tail);
    var b1 := TextForm(sub.0) + ([COMMA] + b2);
    TwoFields(TextForm(sub.0), ListForm(TextForm, sub.1), tail);
    ByteReads(OPEN, b1);
    TextReads(sub.0, [COMMA] + b2);
    ByteReads(COMMA, b2);
    TextsRead(sub.1, [CLOSE] + tail);
    ByteReads(CLOSE, tail);
  }

  lemma SubsRead(subs: seq<Sub>, tail: Bytes)
    ensures PList(SubParser(), ListForm(InputForm, subs) + tail) == Success(subs, tail)
  {
    var write := Then(InputForm);
    forall sub, after
      ensures PSub(write(sub, after)) == Success(sub, after) && write(sub, after) != [] && write(sub, after)[0] == OPEN
    {
      SubReads(sub, after);
    }
    FormsRead(SubParser(), InputForm, Any, Same, subs, tail);
    MapSame(subs);
  }

  lemma ListedInjective(ps: seq<(Text, set<Text>)>, ps': seq<(Text, set<Text>)>)
    requires Map(ToSubPart, ps) == Map(ToSubPart, ps')
    ensures ps == ps'
  {
    assert |ps| == |Map(ToSubPart, ps)| == |Map(ToSubPart, ps')| == |ps'|;
    forall i | 0 <= i < |ps|
      ensures ps[i] == ps'[i]
    {
      assert ToSubPart(ps[i]) == Map(ToSubPart, ps)[i] == Map(ToSubPart, ps')[i] == ToSubPart(ps'[i]);
      assert Elements(AscendingTexts(ps[i].1)) == ps[i].1 && Elements(AscendingTexts(ps'[i].1)) == ps'[i].1;
    }
  }

  /** The entries written determine the merged map. */
  lemma ListedDetermine(m: map<Text, set<Text>>, m': map<Text, set<Text>>)
    requires TotalOrder(AtMostText)
    requires Map(ToSubPart, Pairs(AtMostText, m)) == Map(ToSubPart, Pairs(AtMostText, m'))
    ensures m == m'
  {
    var ps, ps' := Pairs(AtMostText, m), Pairs(AtMostText, m');
    ListedInjective(ps, ps');
    FromPairs(AtMostText, UnionJoin, m);
    FromPairs(AtMostText, UnionJoin, m');
  }

  // ---- What the form determines -----------------------------------------

  /** The same but for output paths and inputs. */
  predicate SameModulo(text: StorePath -> Text, d: Derivation, e: Derivation) {
    && Map(Blank, SortBy(OutputName, d.outputs)) == Map(Blank, SortBy(OutputName, e.outputs))
    && SortBy(text, d.inputSrcs) == SortBy(text, e.inputSrcs)
    && PlatformToText(d.platform) == PlatformToText(e.platform)
    && d.builder == e.builder && d.args == e.args && d.env == e.env
  }

  function Form(text: StorePath -> Text, subs: seq<Sub>, d: Derivation): Bytes {
    ToATermForHash(text, true, Some(subs), d)
  }

  /** The form determines a derivation but for its output paths, and its inputs but
      for how they are merged; and those are all it depends on. */
  lemma FormDetermines(s: Spelling, subs: seq<Sub>, d: Derivation, subs': seq<Sub>, e: Derivation)
    requires s.RoundTrips()
    ensures Form(s.text, subs, d) == Form(s.text, subs', e) <==>
            SameModulo(s.text, d, e) && Merged(subs) == Merged(subs')
  {
    WritesDocument(s.text, true, Some(subs), d);
    WritesDocument(s.text, true, Some(subs'), e);
    if Form(s.text, subs, d) == Form(s.text, subs', e) {
      FormReads(s, subs, d, subs', e);
    }
    if SameModulo(s.text, d, e) && Merged(subs) == Merged(subs') {
      PlatformsByName(d.platform, "");
      PlatformsByName(e.platform, "");
      BlankPartsAlike(s.text, SortBy(OutputName, d.outputs), SortBy(OutputName, e.outputs));
    }
  }

  lemma BlankPartsAlike(text: StorePath -> Text, outputs: seq<Output>, outputs': seq<Output>)
    ensures Map(ToOutputPart(text, true), outputs) == Map(ToOutputPart(text, true), outputs') <==>
            Map(Blank, outputs) == Map(Blank, outputs')
  {
    var parts, parts' := Map(ToOutputPart(text, true), outputs), Map(ToOutputPart(text, true), outputs');
    var blanks, blanks' := Map(Blank, outputs), Map(Blank, outputs');
    if |outputs| == |outputs'| {
      forall i | 0 <= i < |outputs|
        ensures parts[i] == parts'[i] <==> blanks[i] == blanks'[i]
      {
      }
    } else {
      assert |parts| != |parts'| && |blanks| != |blanks'|;
    }
  }

  /** Documents with the same bytes and with blank output paths say the same. */
  lemma DocumentsSayAlike(s: Spelling, p: Parts, outputs: seq<Output>, q: Parts, outputs': seq<Output>)
    requires p.outputs == Map(ToOutputPart(s.text, true), outputs)
             && q.outputs == Map(ToOutputPart(s.text, true), outputs')
    requires All(IsPath(s), p.sources) && All(IsPath(s), q.sources) && DocumentForm(p) == DocumentForm(q)
    ensures Map(Blank, outputs) == Map(Blank, outputs') && p.inputs == q.inputs
    ensures Map(PathOf(s), p.sources) == Map(PathOf(s), q.sources)
    ensures p.system == q.system && p.builder == q.builder && p.args == q.args && p.env == q.env
  {
    var build, build' := BuildForm(p, []), BuildForm(q, []);
    var inputs, inputs' := ListForm(InputForm, p.inputs) + build, ListForm(InputForm, q.inputs) + build';
    SevenFields(p, []);
    SevenFields(q, []);
    PrefixReads(DERIVE, ListForm(OutputForm, p.outputs) + ([COMMA] + inputs));
    PrefixReads(DERIVE, ListForm(OutputForm, q.outputs) + ([COMMA] + inputs'));
    BlankOutputsRead(s.text, outputs, [COMMA] + inputs);
    BlankOutputsRead(s.text, outputs', [COMMA] + inputs');
    ByteReads(COMMA, inputs);
    ByteReads(COMMA, inputs');
    SubsRead(p.inputs, build);
    SubsRead(q.inputs, build');
    BuildReads(s, p, []);
    BuildReads(s, q, []);
  }

  lemma FormReads(s: Spelling, subs: seq<Sub>, d: Derivation, subs': seq<Sub>, e: Derivation)
    requires s.RoundTrips()
    requires DocumentForm(PartsOf(s.text, true, Some(subs), d)) == DocumentForm(PartsOf(s.text, true, Some(subs'), e))
    ensures SameModulo(s.text, d, e) && Merged(subs) == Merged(subs')
  {
    TextsOrdered();
    var p, q := PartsOf(s.text, true, Some(subs), d), PartsOf(s.text, true, Some(subs'), e);
    SourcesBack(s, SortBy(s.text, d.inputSrcs));
    SourcesBack(s, SortBy(s.text, e.inputSrcs));
    DocumentsSayAlike(s, p, SortBy(OutputName, d.outputs), q, SortBy(OutputName, e.outputs));
    ListedDetermine(Merged(subs), Merged(subs'));
    PlatformsByName(d.platform, "");
    PlatformsByName(e.platform, "");
    FromPairs(AtMostText, Later, d.env);
    FromPairs(AtMostText, Later, e.env);
  }

  /** Neither the outputs' own paths nor the order or repetition of the inputs
      changes the form. */
  lemma FormIgnores(s: Spelling, subs: seq<Sub>, subs': seq<Sub>, d: Derivation, repath: Output -> StorePath)
    requires s.RoundTrips()
    requires forall key :: Names(subs, key) <==> Names(subs', key)
    requires forall key, out :: Wants(subs, key, out) <==> Wants(subs', key, out)
    ensures var moved := (o: Output) => o.(path := repath(o));
            Form(s.text, subs', d.(outputs := Map(moved, d.outputs))) == Form(s.text, subs, d)
  {
    var moved := (o: Output) => o.(path := repath(o));
    MergedAlike(subs, subs');
    SortByCommutes(OutputName, moved, d.outputs);
    var sorted := SortBy(OutputName, d.outputs);
    assert Map(Blank, Map(moved, sorted)) == Map(Blank, sorted);
    FormDetermines(s, subs', d.(outputs := Map(moved, d.outputs)), subs, d);
  }
}
