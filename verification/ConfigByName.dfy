/** Settings by the literal names that set them and the bytes that spell their
    values (src/Nix/Config.hs). */
module ConfigByName {
  import opened Basics
  import opened ConfigIncludes
  import opened ConfigSettings

  /** The names of a setting, its alias among them. */
  function NamesOf(s: Setting): set<Text> {
    match s
    case ListSetting(Substituters) => {"substituters", "binary-caches"}
    case ListSetting(TrustedKeys) => {"trusted-public-keys", "binary-cache-public-keys"}
    case ListSetting(AllowedUris) => {"allowed-uris"}
    case BoolSetting(Fallback) => {"fallback", "build-fallback"}
    case BoolSetting(RestrictEval) => {"restrict-eval"}
    case BoolSetting(PureEval) => {"pure-eval"}
    case BoolSetting(TraceVerbose) => {"trace-verbose"}
    case MaxCallDepth => {"max-call-depth"}
  }

  predicate Plainly(name: Text, s: Setting) {
    name in NamesOf(s)
  }

  /** A name that appends: `extra-` and then one of a list's own. */
  predicate Extra(name: Text, s: Setting) {
    s.ListSetting? && |name| >= 6 && name[..6] == "extra-" && name[6..] in NamesOf(s)
  }

  /** `true`, `yes` and `1`. */
  const TRUE_SPELLINGS: set<Bytes> := {[0x74, 0x72, 0x75, 0x65], [0x79, 0x65, 0x73], [0x31]}

  /** `false`, `no` and `0`. */
  const FALSE_SPELLINGS: set<Bytes> := {[0x66, 0x61, 0x6C, 0x73, 0x65], [0x6E, 0x6F], [0x30]}

  lemma FlagSpellings(value: Bytes)
    ensures ParseBool(value) ==
            if value in TRUE_SPELLINGS then Some(true) else if value in FALSE_SPELLINGS then Some(false) else None
  {
    assert Bytewise("true") == [0x74, 0x72, 0x75, 0x65];
    assert Bytewise("yes") == [0x79, 0x65, 0x73];
    assert Bytewise("1") == [0x31];
    assert Bytewise("false") == [0x66, 0x61, 0x6C, 0x73, 0x65];
    assert Bytewise("no") == [0x6E, 0x6F];
    assert Bytewise("0") == [0x30];
  }

  lemma BaseNames(name: Text, s: Setting)
    ensures BaseSetting(name) == Some(s) <==> Plainly(name, s)
  {
  }

  lemma NoNameIsExtra(name: Text, s: Setting)
    requires Plainly(name, s)
    ensures !("extra-" <= name)
  {
    assert "extra-"[1] == 'x';
  }

  /** A setting is set outright by its own names and appended to by those after
      `extra-`, which only lists have; no other name does anything. */
  lemma NamesSet(name: Text, s: Setting)
    ensures ResolveName(name) == Some((s, Replace)) <==> Plainly(name, s)
    ensures ResolveName(name) == Some((s, Append)) <==> Extra(name, s)
  {
    BaseNames(name, s);
    if Plainly(name, s) {
      NoNameIsExtra(name, s);
    }
    if |name| >= 6 {
      BaseNames(name[6..], s);
      assert "extra-" <= name <==> name[..6] == "extra-";
    }
  }

  /** A value a setting can take. */
  ghost predicate Fits(value: Bytes, s: Setting) {
    match s
    case ListSetting(_) => ListItems(value).Some?
    case BoolSetting(_) => value in TRUE_SPELLINGS || value in FALSE_SPELLINGS
    case MaxCallDepth => exists n :: Denotes(value, n)
  }

  ghost predicate AllFit(a: Assignment) {
    forall s :: Plainly(a.name, s) || Extra(a.name, s) ==> Fits(a.value, s)
  }

  lemma AcceptedFits(a: Assignment)
    ensures NixRules().Accepted(a) <==> AllFit(a)
  {
    FlagSpellings(a.value);
    forall n: nat
      ensures ParseUnsigned(a.value) == Some(n) <==> Denotes(a.value, n)
    {
      UnsignedMeans(a.value, n);
    }
    forall s
      ensures ResolveName(a.name) == Some((s, Replace)) <==> Plainly(a.name, s)
      ensures ResolveName(a.name) == Some((s, Append)) <==> Extra(a.name, s)
    {
      NamesSet(a.name, s);
    }
    match ResolveName(a.name) {
      case Some((s, mode)) => assert mode == Replace || mode == Append;
      case None =>
    }
  }

  /** The first `n` assignments end with the last that sets a setting outright. */
  ghost predicate LastSet(as_: seq<Assignment>, s: Setting, n: nat) {
    && n <= |as_| && (n > 0 ==> Plainly(as_[n - 1].name, s))
    && forall i :: n <= i < |as_| ==> !Plainly(as_[i].name, s)
  }

  /** What is appended to a list, in order. */
  function ExtraItems(as_: seq<Assignment>, f: ListField): seq<Text> {
    if as_ == [] then []
    else
      var last := as_[|as_| - 1];
      ExtraItems(as_[..|as_| - 1], f) + if Extra(last.name, ListSetting(f)) then NixRules().ItemsOf(last) else []
  }

  lemma {:induction false} AppendedIsExtra(as_: seq<Assignment>, f: ListField)
    ensures NixRules().Appended(as_, f) == ExtraItems(as_, f)
  {
    if as_ != [] {
      AppendedIsExtra(as_[..|as_| - 1], f);
      NamesSet(as_[|as_| - 1].name, ListSetting(f));
    }
  }

  lemma LastIsSettled(as_: seq<Assignment>, s: Setting, n: nat)
    requires LastSet(as_, s, n)
    ensures n == NixRules().Settled(as_, s)
  {
    forall i | 0 <= i < |as_|
      ensures NixRules().Sets(as_[i], s, Replace) <==> Plainly(as_[i].name, s)
    {
      NamesSet(as_[i].name, s);
    }
  }

  /** Resolution succeeds exactly when every value fits the setting its name is of. */
  lemma ResolvesExactly(callDepth: nat, as_: seq<Assignment>)
    ensures Resolve(callDepth, as_).Some? <==> forall i :: 0 <= i < |as_| ==> AllFit(as_[i])
  {
    NixRules().FoldSucceeds(Defaults(callDepth), as_);
    forall i | 0 <= i < |as_|
      ensures NixRules().Accepted(as_[i]) <==> AllFit(as_[i])
    {
      AcceptedFits(as_[i]);
    }
  }

  /** A flag is on exactly when the last assignment under one of its names spells it
      true, and off when there is none or the last spells it false. */
  lemma FlagByName(callDepth: nat, as_: seq<Assignment>, c: Settings, f: BoolField, n: nat)
    requires Resolve(callDepth, as_) == Some(c) && LastSet(as_, BoolSetting(f), n)
    ensures c.flags(f) <==> n > 0 && as_[n - 1].value in TRUE_SPELLINGS
    ensures !c.flags(f) <==> n == 0 || as_[n - 1].value in FALSE_SPELLINGS
  {
    LastIsSettled(as_, BoolSetting(f), n);
    ResolvedFlag(callDepth, as_, c, f, n);
    if n > 0 {
      FlagFits(callDepth, as_, f, n - 1);
      FlagReads(as_[n - 1].value);
    }
  }

  lemma FlagFits(callDepth: nat, as_: seq<Assignment>, f: BoolField, i: nat)
    requires Resolve(callDepth, as_).Some? && i < |as_| && Plainly(as_[i].name, BoolSetting(f))
    ensures as_[i].value in TRUE_SPELLINGS || as_[i].value in FALSE_SPELLINGS
  {
    ResolvesExactly(callDepth, as_);
    assert AllFit(as_[i]);
    assert Fits(as_[i].value, BoolSetting(f));
  }

  lemma FlagReads(value: Bytes)
    requires value in TRUE_SPELLINGS || value in FALSE_SPELLINGS
    ensures ParseBool(value) == Some(true) <==> value in TRUE_SPELLINGS
    ensures value in FALSE_SPELLINGS <==> value !in TRUE_SPELLINGS
  {
    FlagSpellings(value);
    SpellingsApart();
  }

  lemma SpellingsApart()
    ensures TRUE_SPELLINGS !! FALSE_SPELLINGS
  {
    forall t | t in TRUE_SPELLINGS
      ensures t !in FALSE_SPELLINGS
    {
      assert t[0] == 0x74 || t[0] == 0x79 || t[0] == 0x31;
    }
  }

  /** A list is what the last assignment under one of its names gives, then what
      later ones append. */
  lemma ListByName(callDepth: nat, as_: seq<Assignment>, c: Settings, f: ListField, n: nat)
    requires Resolve(callDepth, as_) == Some(c) && LastSet(as_, ListSetting(f), n)
    ensures c.lists(f) == (if n == 0 then [] else NixRules().ItemsOf(as_[n - 1])) + ExtraItems(as_[n..], f)
  {
    NixRules().ListMeans(Defaults(callDepth), as_, f);
    LastIsSettled(as_, ListSetting(f), n);
    AppendedIsExtra(as_[n..], f);
  }

  /** The call depth is the number the last assignment of it spells. */
  lemma DepthByName(callDepth: nat, as_: seq<Assignment>, c: Settings, n: nat)
    requires Resolve(callDepth, as_) == Some(c) && LastSet(as_, MaxCallDepth, n)
    ensures if n == 0 then c.maxCallDepth == callDepth else Denotes(as_[n - 1].value, c.maxCallDepth)
  {
    LastIsSettled(as_, MaxCallDepth, n);
    ResolvedDepth(callDepth, as_, c, n);
    if n > 0 {
      UnsignedMeans(as_[n - 1].value, c.maxCallDepth);
    }
  }
}
