/** Folding configuration assignments into settings (src/Nix/Config.hs): the last
    plain assignment replaces, `extra-` ones append, whatever alias they use. */
module ConfigSettings {
  import opened Basics
  import opened ConfigIncludes
  import Utf8

  datatype ListField = Substituters | TrustedKeys | AllowedUris

  datatype BoolField = Fallback | RestrictEval | PureEval | TraceVerbose

  datatype Setting = ListSetting(list: ListField) | BoolSetting(flag: BoolField) | MaxCallDepth

  datatype ApplyMode = Replace | Append

  datatype Settings = Settings(lists: ListField -> seq<Text>, flags: BoolField -> bool, maxCallDepth: nat)

  const MAX_WORD32: nat := 0xFFFF_FFFF

  /** Nothing substituted, trusted or allowed, every flag off. */
  function Defaults(callDepth: nat): Settings {
    Settings(_ => [], _ => false, callDepth)
  }

  // ---- Names ------------------------------------------------------------

  function BaseSetting(name: Text): Option<Setting> {
    if name == "substituters" || name == "binary-caches" then Some(ListSetting(Substituters))
    else if name == "trusted-public-keys" || name == "binary-cache-public-keys" then Some(ListSetting(TrustedKeys))
    else if name == "allowed-uris" then Some(ListSetting(AllowedUris))
    else if name == "fallback" || name == "build-fallback" then Some(BoolSetting(Fallback))
    else if name == "restrict-eval" then Some(BoolSetting(RestrictEval))
    else if name == "pure-eval" then Some(BoolSetting(PureEval))
    else if name == "trace-verbose" then Some(BoolSetting(TraceVerbose))
    else if name == "max-call-depth" then Some(MaxCallDepth)
    else None
  }

  /** What a name sets and how: `extra-` goes with lists only. */
  function ResolveName(name: Text): Option<(Setting, ApplyMode)> {
    var extra := "extra-";
    if extra <= name then
      match BaseSetting(name[|extra|..])
      case Some(ListSetting(f)) => Some((ListSetting(f), Append))
      case _ => None
    else match BaseSetting(name)
      case Some(s) => Some((s, Replace))
      case None => None
  }

  // ---- Values -----------------------------------------------------------

  predicate IsSeparator(b: Byte) {
    b == ' ' as int || b == '\t' as int || b == '\r' as int || b == '\n' as int
  }

  /** The maximal runs of bytes that are not separators. */
  function Tokens(value: Bytes): seq<Bytes>
    decreases |value|
  {
    if value == [] then []
    else
      var n := Clean(IsSeparator, value);
      if n == 0 then Tokens(value[1..])
      else [value[..n]] + Tokens(value[n..])
  }

  function DecodeAll(tokens: seq<Bytes>): Option<seq<Text>> {
    if tokens == [] then Some([])
    else match (Utf8.Decode(tokens[0]), DecodeAll(tokens[1..]))
      case (Some(first), Some(rest)) => Some([first] + rest)
      case _ => None
  }

  function ListItems(value: Bytes): Option<seq<Text>> {
    DecodeAll(Tokens(value))
  }

  function Bytewise(t: Text): (b: Bytes)
    requires forall i :: 0 <= i < |t| ==> t[i] as int < 0x80
    ensures |b| == |t| && forall i :: 0 <= i < |t| ==> b[i] == t[i] as int
  {
    seq(|t|, i requires 0 <= i < |t| => t[i] as int)
  }

  function ParseBool(value: Bytes): Option<bool> {
    if value == Bytewise("true") || value == Bytewise("yes") || value == Bytewise("1") then Some(true)
    else if value == Bytewise("false") || value == Bytewise("no") || value == Bytewise("0") then Some(false)
    else None
  }

  predicate IsDigit(b: Byte) {
    '0' as int <= b <= '9' as int
  }

  predicate AllDigits(ds: Bytes) {
    forall i :: 0 <= i < |ds| ==> IsDigit(ds[i])
  }

  function Value(ds: Bytes): nat
    requires AllDigits(ds)
  {
    if ds == [] then 0 else Value(ds[..|ds| - 1]) * 10 + (ds[|ds| - 1] as int - '0' as int)
  }

  function DecimalInteger(ds: Bytes): Option<nat> {
    if ds != [] && AllDigits(ds) then Some(Value(ds)) else None
  }

  /** What a binary unit letter multiplies by. */
  function UnitMultiplier(b: Byte): Option<nat> {
    if b == 'K' as int || b == 'k' as int then Some(1024)
    else if b == 'M' as int || b == 'm' as int then Some(1024 * 1024)
    else if b == 'G' as int || b == 'g' as int then Some(1024 * 1024 * 1024)
    else if b == 'T' as int || b == 't' as int then Some(1024 * 1024 * 1024 * 1024)
    else None
  }

  function ParseUnsigned(value: Bytes): Option<nat> {
    var unsigned := if value != [] && value[0] == '+' as int then value[1..] else value;
    match UnitValue(unsigned)
    case Some(n) => if n <= MAX_WORD32 then Some(n) else None
    case None => None
  }

  function UnitValue(ds: Bytes): Option<nat> {
    if ds != [] && UnitMultiplier(ds[|ds| - 1]).Some? then
      match DecimalInteger(ds[..|ds| - 1])
      case Some(n) => Some(n * UnitMultiplier(ds[|ds| - 1]).value)
      case None => None
    else DecimalInteger(ds)
  }

  // ---- Applying ---------------------------------------------------------

  /** How names are resolved and values read. */
  datatype Rules = Rules(
    resolve: Text -> Option<(Setting, ApplyMode)>,
    items: Bytes -> Option<seq<Text>>,
    flag: Bytes -> Option<bool>,
    number: Bytes -> Option<nat>)
  {
    function Apply(c: Settings, a: Assignment): Option<Settings> {
      match resolve(a.name)
      case None => Some(c)
      case Some((ListSetting(f), mode)) =>
        (match items(a.value)
         case None => None
         case Some(new_) => Some(SetList(c, f, if mode == Replace then new_ else c.lists(f) + new_)))
      case Some((BoolSetting(f), _)) =>
        (match flag(a.value)
         case None => None
         case Some(on) => Some(SetFlag(c, f, on)))
      case Some((MaxCallDepth, _)) =>
        (match number(a.value)
         case None => None
         case Some(limit) => Some(c.(maxCallDepth := limit)))
    }

    function Fold(c: Settings, as_: seq<Assignment>): Option<Settings>
      decreases as_
    {
      if as_ == [] then Some(c)
      else match Apply(c, as_[0])
        case None => None
        case Some(next) => Fold(next, as_[1..])
    }

    // ---- What the fold means --------------------------------------------

    /** A value its setting can take. */
    predicate Accepted(a: Assignment) {
      match resolve(a.name)
      case None => true
      case Some((ListSetting(_), _)) => items(a.value).Some?
      case Some((BoolSetting(_), _)) => flag(a.value).Some?
      case Some((MaxCallDepth, _)) => number(a.value).Some?
    }

    predicate Sets(a: Assignment, s: Setting, mode: ApplyMode) {
      resolve(a.name) == Some((s, mode))
    }

    /** How many assignments there are up to and with the last one that sets a
        setting outright. */
    function Settled(as_: seq<Assignment>, s: Setting): (n: nat)
      ensures n <= |as_| && (n > 0 ==> Sets(as_[n - 1], s, Replace))
      ensures forall i :: n <= i < |as_| ==> !Sets(as_[i], s, Replace)
    {
      if as_ == [] then 0
      else if Sets(as_[|as_| - 1], s, Replace) then |as_|
      else Settled(as_[..|as_| - 1], s)
    }

    /** The items an assignment gives. */
    function ItemsOf(a: Assignment): seq<Text> {
      if items(a.value).Some? then items(a.value).value else []
    }

    /** The items some assignments append to a list, in order. */
    function Appended(as_: seq<Assignment>, f: ListField): seq<Text> {
      if as_ == [] then []
      else
        var last := as_[|as_| - 1];
        Appended(as_[..|as_| - 1], f) + if Sets(last, ListSetting(f), Append) then ItemsOf(last) else []
    }

    /** Folding succeeds exactly when every value given to a known setting is one it
        can take. */
    lemma {:induction false} FoldSucceeds(c: Settings, as_: seq<Assignment>)
      ensures Fold(c, as_).Some? <==> forall i :: 0 <= i < |as_| ==> Accepted(as_[i])
      decreases as_
    {
      if as_ != [] {
        if Apply(c, as_[0]).Some? {
          FoldSucceeds(Apply(c, as_[0]).value, as_[1..]);
          assert forall i :: 0 < i < |as_| ==> as_[i] == as_[1..][i - 1];
          assert forall i :: 0 <= i < |as_| - 1 ==> as_[1..][i] == as_[i + 1];
        }
      }
    }

    /** The fold takes the last assignment last. */
    lemma {:induction false} FoldLast(c: Settings, as_: seq<Assignment>)
      requires as_ != [] && Fold(c, as_).Some?
      ensures var init := as_[..|as_| - 1];
              Fold(c, init).Some? && Apply(Fold(c, init).value, as_[|as_| - 1]) == Fold(c, as_)
      decreases as_
    {
      if |as_| > 1 {
        FoldLast(Apply(c, as_[0]).value, as_[1..]);
        assert as_[1..][..|as_| - 2] == as_[..|as_| - 1][1..];
      } else {
        assert as_[..0] == [] && as_[1..] == [];
      }
    }

    /** A list's items: those of its last plain assignment under any of its names, or
        what it held, then those of every later `extra-` one, in order. */
    function ListValue(held: seq<Text>, as_: seq<Assignment>, f: ListField): seq<Text> {
      var n := Settled(as_, ListSetting(f));
      (if n == 0 then held else ItemsOf(as_[n - 1])) + Appended(as_[n..], f)
    }

    lemma {:induction false} ListMeans(c: Settings, as_: seq<Assignment>, f: ListField)
      requires Fold(c, as_).Some?
      ensures Fold(c, as_).value.lists(f) == ListValue(c.lists(f), as_, f)
    {
      if as_ == [] {
        assert c.lists(f) + [] == c.lists(f);
      } else {
        var init := as_[..|as_| - 1];
        FoldLast(c, as_);
        ListMeans(c, init, f);
        ApplyToList(Fold(c, init).value, as_[|as_| - 1], f);
        ListValueNext(c.lists(f), as_, f);
      }
    }

    lemma ListValueNext(held: seq<Text>, as_: seq<Assignment>, f: ListField)
      requires as_ != []
      ensures var (init, last) := (as_[..|as_| - 1], as_[|as_| - 1]);
              ListValue(held, as_, f) ==
              if Sets(last, ListSetting(f), Replace) then ItemsOf(last)
              else ListValue(held, init, f) + if Sets(last, ListSetting(f), Append) then ItemsOf(last) else []
    {
      var (init, last, n) := (as_[..|as_| - 1], as_[|as_| - 1], Settled(as_, ListSetting(f)));
      var added := if Sets(last, ListSetting(f), Append) then ItemsOf(last) else [];
      if n < |as_| {
        AppendedLast(as_, f);
        var start := if n == 0 then held else ItemsOf(as_[n - 1]);
        assert ListValue(held, as_, f) == start + (Appended(init[n..], f) + added);
        assert ListValue(held, init, f) == start + Appended(init[n..], f);
        Regroup(start, Appended(init[n..], f), added);
      } else {
        assert as_[|as_|..] == [];
        assert ListValue(held, as_, f) == ItemsOf(last) + [];
      }
    }

    lemma ApplyToList(c: Settings, a: Assignment, f: ListField)
      requires Apply(c, a).Some?
      ensures Apply(c, a).value.lists(f) ==
              if Sets(a, ListSetting(f), Replace) then ItemsOf(a)
              else c.lists(f) + if Sets(a, ListSetting(f), Append) then ItemsOf(a) else []
    {
      assert c.lists(f) + [] == c.lists(f);
    }

    /** An assignment that does not set a list outright at most appends to it. */
    lemma AppendedLast(as_: seq<Assignment>, f: ListField)
      requires as_ != [] && Settled(as_, ListSetting(f)) < |as_|
      ensures var (init, last, n) := (as_[..|as_| - 1], as_[|as_| - 1], Settled(as_, ListSetting(f)));
              && n == Settled(init, ListSetting(f)) && (n > 0 ==> init[n - 1] == as_[n - 1])
              && Appended(as_[n..], f) ==
                 Appended(init[n..], f) + if Sets(last, ListSetting(f), Append) then ItemsOf(last) else []
    {
      var n := Settled(as_, ListSetting(f));
      assert as_[n..][..|as_[n..]| - 1] == as_[..|as_| - 1][n..] && as_[n..][|as_[n..]| - 1] == as_[|as_| - 1];
    }

    /** Only lists are ever appended to. */
    ghost predicate FlagsReplace() {
      forall name {:trigger resolve(name)} ::
        resolve(name).Some? && resolve(name).value.1 == Append ==> resolve(name).value.0.ListSetting?
    }

    /** A flag is what its last assignment says, or what it was. */
    lemma {:induction false} FlagMeans(c: Settings, as_: seq<Assignment>, f: BoolField)
      requires Fold(c, as_).Some?
      requires FlagsReplace()
      ensures var n := Settled(as_, BoolSetting(f));
              Some(Fold(c, as_).value.flags(f)) == if n == 0 then Some(c.flags(f)) else flag(as_[n - 1].value)
    {
      if as_ != [] {
        FoldLast(c, as_);
        FlagMeans(c, as_[..|as_| - 1], f);
        ApplyToFlag(Fold(c, as_[..|as_| - 1]).value, as_[|as_| - 1], f);
      }
    }

    lemma ApplyToFlag(c: Settings, a: Assignment, f: BoolField)
      requires Apply(c, a).Some? && !Sets(a, BoolSetting(f), Append)
      ensures Some(Apply(c, a).value.flags(f)) ==
              if Sets(a, BoolSetting(f), Replace) then flag(a.value) else Some(c.flags(f))
    {
      match resolve(a.name) {
        case Some((BoolSetting(g), mode)) =>
          assert mode == Replace || mode == Append;
        case _ =>
      }
    }

    /** The call depth is what its last assignment says, or what it was. */
    lemma {:induction false} DepthMeans(c: Settings, as_: seq<Assignment>)
      requires Fold(c, as_).Some?
      requires FlagsReplace()
      ensures var n := Settled(as_, MaxCallDepth);
              Some(Fold(c, as_).value.maxCallDepth) == if n == 0 then Some(c.maxCallDepth) else number(as_[n - 1].value)
    {
      if as_ != [] {
        FoldLast(c, as_);
        DepthMeans(c, as_[..|as_| - 1]);
      }
    }
  }

  function SetList(c: Settings, f: ListField, new_: seq<Text>): Settings {
    c.(lists := g => if g == f then new_ else c.lists(g))
  }

  function SetFlag(c: Settings, f: BoolField, on: bool): Settings {
    c.(flags := g => if g == f then on else c.flags(g))
  }

  /** The program's own names and values. */
  function NixRules(): Rules {
    Rules(ResolveName, ListItems, ParseBool, ParseUnsigned)
  }

  function Resolve(callDepth: nat, as_: seq<Assignment>): Option<Settings> {
    NixRules().Fold(Defaults(callDepth), as_)
  }

  /** `extra-` never names a flag or a number. */
  lemma ExtraIsForLists(name: Text)
    ensures var r := ResolveName(name); r.Some? && r.value.1 == Append ==> r.value.0.ListSetting?
  {
  }

  predicate IsExtra(name: Text) {
    "extra-" <= name
  }

  /** Assignments under `extra-` names alone only ever lengthen lists: they keep what
      each list holds in front, and leave every flag and number as it was. */
  lemma {:induction false} ExtrasOnlyLengthen(c: Settings, as_: seq<Assignment>)
    requires (forall a :: a in as_ ==> IsExtra(a.name)) && NixRules().Fold(c, as_).Some?
    ensures var s := NixRules().Fold(c, as_).value;
            && (forall f :: c.lists(f) <= s.lists(f))
            && (forall f :: s.flags(f) == c.flags(f)) && s.maxCallDepth == c.maxCallDepth
    decreases as_
  {
    if as_ != [] {
      assert as_[0] in as_;
      var next := NixRules().Apply(c, as_[0]).value;
      ExtrasOnlyLengthen(next, as_[1..]);
      var s := NixRules().Fold(next, as_[1..]).value;
      forall f
        ensures c.lists(f) <= s.lists(f)
      {
        assert c.lists(f) <= next.lists(f);
      }
    }
  }

  lemma FlagsOnlyReplace()
    ensures NixRules().FlagsReplace()
  {
    forall name
      ensures ResolveName(name).Some? && ResolveName(name).value.1 == Append ==> ResolveName(name).value.0.ListSetting?
    {
      ExtraIsForLists(name);
    }
  }

  lemma ResolvedFlag(callDepth: nat, as_: seq<Assignment>, c: Settings, f: BoolField, n: nat)
    requires Resolve(callDepth, as_) == Some(c) && n == NixRules().Settled(as_, BoolSetting(f))
    ensures c.flags(f) == (n > 0 && ParseBool(as_[n - 1].value) == Some(true))
  {
    FlagsOnlyReplace();
    NixRules().FlagMeans(Defaults(callDepth), as_, f);
  }

  lemma ResolvedDepth(callDepth: nat, as_: seq<Assignment>, c: Settings, n: nat)
    requires Resolve(callDepth, as_) == Some(c) && n == NixRules().Settled(as_, MaxCallDepth)
    ensures Some(c.maxCallDepth) == if n == 0 then Some(callDepth) else ParseUnsigned(as_[n - 1].value)
  {
    FlagsOnlyReplace();
    NixRules().DepthMeans(Defaults(callDepth), as_);
  }

  // ---- What the values mean ---------------------------------------------

  /** No space, tab, carriage return or line feed. */
  predicate IsToken(t: Bytes) {
    t != [] && forall i :: 0 <= i < |t| ==> t[i] !in {0x20, 0x09, 0x0D, 0x0A}
  }

  /** Tokens joined by single spaces, as a line's value is. */
  function Joined(ts: seq<Bytes>): Bytes {
    if ts == [] then [] else if |ts| == 1 then ts[0] else ts[0] + ([0x20] + Joined(ts[1..]))
  }

  lemma {:induction false} CleanToken(t: Bytes, rest: Bytes)
    requires (forall i :: 0 <= i < |t| ==> !IsSeparator(t[i])) && (rest == [] || IsSeparator(rest[0]))
    ensures Clean(IsSeparator, t + rest) == |t|
  {
    if t == [] {
      assert t + rest == rest;
    } else {
      assert (t + rest)[1..] == t[1..] + rest;
      CleanToken(t[1..], rest);
    }
  }

  lemma FirstToken(t: Bytes, rest: Bytes)
    requires IsToken(t) && (rest == [] || IsSeparator(rest[0]))
    ensures Tokens(t + rest) == [t] + Tokens(rest)
  {
    CleanToken(t, rest);
    assert (t + rest)[..|t|] == t && (t + rest)[|t|..] == rest;
  }

  lemma SkipsSeparator(rest: Bytes)
    ensures Tokens([' ' as int] + rest) == Tokens(rest)
  {
    var whole: Bytes := [' ' as int] + rest;
    assert Clean(IsSeparator, whole) == 0 && whole[1..] == rest;
  }

  /** The tokens a line's value was joined from are the ones it is split into. */
  lemma {:induction false} TokensOfJoined(ts: seq<Bytes>)
    requires forall i :: 0 <= i < |ts| ==> IsToken(ts[i])
    ensures Tokens(Joined(ts)) == ts
  {
    if |ts| == 1 {
      FirstToken(ts[0], []);
      assert ts[0] + [] == ts[0] && ts == [ts[0]];
    } else if |ts| > 1 {
      var rest := Joined(ts[1..]);
      FirstToken(ts[0], [' ' as int] + rest);
      SkipsSeparator(rest);
      TokensOfJoined(ts[1..]);
      assert ts == [ts[0]] + ts[1..];
    }
  }

  /** The power of 1024 a unit letter stands for. */
  const UNITS: map<Byte, nat> := map[
    0x4B := 1, 0x6B := 1, 0x4D := 2, 0x6D := 2, 0x47 := 3, 0x67 := 3, 0x54 := 4, 0x74 := 4]

  function Power(base: nat, exponent: nat): nat {
    if exponent == 0 then 1 else base * Power(base, exponent - 1)
  }

  lemma UnitsMean(b: Byte)
    ensures UnitMultiplier(b) == if b in UNITS then Some(Power(1024, UNITS[b])) else None
  {
    assert Power(1024, 1) == 1024;
    assert Power(1024, 2) == 1024 * 1024;
    assert Power(1024, 3) == 1024 * 1024 * 1024;
    assert Power(1024, 4) == 1024 * 1024 * 1024 * 1024;
  }

  ghost predicate Decimals(ds: Bytes) {
    forall i :: 0 <= i < |ds| ==> 0x30 <= ds[i] <= 0x39
  }

  /** What decimal digits stand for, by their places. */
  function Decimal(ds: Bytes): nat
    requires Decimals(ds)
  {
    if ds == [] then 0 else (ds[0] - 0x30) * Power(10, |ds| - 1) + Decimal(ds[1..])
  }

  lemma {:induction false} ValueIsDecimal(ds: Bytes)
    requires Decimals(ds)
    ensures AllDigits(ds) && Value(ds) == Decimal(ds)
  {
    if ds != [] {
      ValueIsDecimal(ds[..|ds| - 1]);
      DecimalLast(ds);
    }
  }

  lemma {:induction false} DecimalLast(ds: Bytes)
    requires Decimals(ds) && ds != []
    ensures Decimal(ds) == 10 * Decimal(ds[..|ds| - 1]) + (ds[|ds| - 1] - 0x30)
  {
    if |ds| > 1 {
      var init := ds[..|ds| - 1];
      DecimalLast(ds[1..]);
      assert ds[1..][..|ds| - 2] == init[1..];
      TenTimes(ds[0] - 0x30, Power(10, |init| - 1));
    } else {
      assert Power(10, 0) == 1 && ds[1..] == [] && ds[..0] == [];
    }
  }

  lemma TenTimes(digit: nat, power: nat)
    ensures digit * (10 * power) == 10 * (digit * power)
  {
  }

  /** A spelling of a number: perhaps a plus sign, some digits, perhaps a unit. */
  function Spelling(plus: bool, digits: Bytes, unit: Option<Byte>): Bytes {
    (if plus then [0x2B] else []) + digits + (if unit.Some? then [unit.value] else [])
  }

  /** What a spelling comes to. */
  function Amount(digits: Bytes, unit: Option<Byte>): nat
    requires Decimals(digits) && (unit.Some? ==> unit.value in UNITS)
  {
    if unit.None? then Decimal(digits) else Decimal(digits) * Power(1024, UNITS[unit.value])
  }

  ghost predicate Spells(value: Bytes, plus: bool, digits: Bytes, unit: Option<Byte>) {
    digits != [] && Decimals(digits) && (unit.Some? ==> unit.value in UNITS) && value == Spelling(plus, digits, unit)
  }

  /** A value that spells a 32-bit number. */
  ghost predicate Denotes(value: Bytes, n: nat) {
    exists plus, digits, unit :: Spells(value, plus, digits, unit) && Amount(digits, unit) == n < 0x1_0000_0000
  }

  /** A number is read exactly from its spellings, when it fits 32 bits. */
  lemma UnsignedMeans(value: Bytes, n: nat)
    ensures ParseUnsigned(value) == Some(n) <==> Denotes(value, n)
  {
    if ParseUnsigned(value) == Some(n) {
      var plus := value[0] == 0x2B;
      var ds := if plus then value[1..] else value;
      var last := ds[|ds| - 1];
      UnitsMean(last);
      if last in UNITS {
        ValueIsDecimal(ds[..|ds| - 1]);
        assert Spells(value, plus, ds[..|ds| - 1], Some(last));
      } else {
        ValueIsDecimal(ds);
        assert Spells(value, plus, ds, None);
      }
    }
    forall plus, digits, unit | Spells(value, plus, digits, unit) && Amount(digits, unit) == n <= MAX_WORD32
      ensures ParseUnsigned(value) == Some(n)
    {
      SpellingReads(plus, digits, unit);
    }
  }

  lemma SpellingReads(plus: bool, digits: Bytes, unit: Option<Byte>)
    requires Spells(Spelling(plus, digits, unit), plus, digits, unit)
    ensures ParseUnsigned(Spelling(plus, digits, unit)) ==
            if Amount(digits, unit) <= MAX_WORD32 then Some(Amount(digits, unit)) else None
  {
    var ds := digits + if unit.Some? then [unit.value] else [];
    var value := Spelling(plus, digits, unit);
    assert value == (if plus then [0x2B] else []) + ds;
    assert ds[0] == digits[0] && IsDigit(digits[0]);
    if plus {
      assert value[1..] == ds;
    } else {
      assert value == ds;
    }
    UnitReads(digits, unit);
  }

  lemma UnitReads(digits: Bytes, unit: Option<Byte>)
    requires digits != [] && Decimals(digits) && (unit.Some? ==> unit.value in UNITS)
    ensures UnitValue(digits + if unit.Some? then [unit.value] else []) == Some(Amount(digits, unit))
  {
    var ds := digits + if unit.Some? then [unit.value] else [];
    UnitsMean(ds[|ds| - 1]);
    ValueIsDecimal(digits);
    if unit.Some? {
      assert ds[..|ds| - 1] == digits;
    } else {
      assert ds == digits && IsDigit(ds[|ds| - 1]);
    }
  }
}
