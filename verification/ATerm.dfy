/** The `.drv` file format, written and read (src/Nix/Derivation.hs). */
module ATerm {
  import opened Basics
  import opened Escaping
  import opened Derivations
  import opened Sorting
  import opened TextOrder
  import Utf8

  // ---- Platforms --------------------------------------------------------

  function PlatformToText(p: Platform): Text {
    match p
    case X86_64_Linux => "x86_64-linux"
    case X86_64_Darwin => "x86_64-darwin"
    case Aarch64_Darwin => "aarch64-darwin"
    case X86_64_Windows => "x86_64-windows"
    case Aarch64_Linux => "aarch64-linux"
    case I686_Linux => "i686-linux"
    case I686_Windows => "i686-windows"
    case OtherPlatform(t) => t
  }

  function TextToPlatform(t: Text): (p: Platform)
    ensures PlatformToText(p) == t
  {
    if t == "x86_64-linux" then X86_64_Linux
    else if t == "x86_64-darwin" then X86_64_Darwin
    else if t == "aarch64-darwin" then Aarch64_Darwin
    else if t == "x86_64-windows" then X86_64_Windows
    else if t == "aarch64-linux" then Aarch64_Linux
    else if t == "i686-linux" then I686_Linux
    else if t == "i686-windows" then I686_Windows
    else OtherPlatform(t)
  }

  // ---- Writing ----------------------------------------------------------
  // Each writer puts its bytes in front of `tail`, as byte builders do.

  const QUOTE: Byte := 0x22
  const BACKSLASH: Byte := 0x5C
  const NEWLINE: Byte := 0x0A
  const RETURN: Byte := 0x0D
  const TAB: Byte := 0x09
  const COMMA: Byte := 0x2C
  const OPEN: Byte := 0x28
  const CLOSE: Byte := 0x29
  const OPEN_LIST: Byte := 0x5B
  const CLOSE_LIST: Byte := 0x5D

  predicate Special(b: Byte) {
    b == BACKSLASH || b == QUOTE || b == NEWLINE || b == RETURN || b == TAB
  }

  function EscapeOne(b: Byte): Bytes
    requires Special(b)
  {
    if b == BACKSLASH then [BACKSLASH, BACKSLASH]
    else if b == QUOTE then [BACKSLASH, QUOTE]
    else if b == NEWLINE then [BACKSLASH, 'n' as int]
    else if b == RETURN then [BACKSLASH, 'r' as int]
    else [BACKSLASH, 't' as int]
  }

  /** A byte as it stands in a written string. */
  function Spelled(b: Byte): Bytes {
    if Special(b) then EscapeOne(b) else [b]
  }

  /** The five specials escaped, the clean runs between them as they are. */
  function Escape(s: Bytes): Bytes {
    CopyRuns(Special, Spelled, s)
  }

  function Str(s: Bytes, tail: Bytes): Bytes {
    [QUOTE] + (Escape(s) + ([QUOTE] + tail))
  }

  function StrT(t: Text, tail: Bytes): Bytes {
    Str(Utf8.Encode(t), tail)
  }

  function Items<A>(write: (A, Bytes) -> Bytes, xs: seq<A>, tail: Bytes): Bytes {
    if xs == [] then tail
    else if |xs| == 1 then write(xs[0], tail)
    else write(xs[0], [COMMA] + Items(write, xs[1..], tail))
  }

  function List<A>(write: (A, Bytes) -> Bytes, xs: seq<A>, tail: Bytes): Bytes {
    [OPEN_LIST] + Items(write, xs, [CLOSE_LIST] + tail)
  }

  function WriteOutput(text: StorePath -> Text, mask: bool, o: Output, tail: Bytes): Bytes {
    [OPEN] + StrT(o.name, [COMMA] + StrT(if mask then "" else text(o.path),
      [COMMA] + StrT(o.hashAlgo, [COMMA] + StrT(o.hash, [CLOSE] + tail))))
  }

  function OutputWriter(text: StorePath -> Text, mask: bool): (w: (Output, Bytes) -> Bytes)
    ensures forall o, tail :: w(o, tail) == WriteOutput(text, mask, o, tail)
  {
    (o, tail) => WriteOutput(text, mask, o, tail)
  }

  function OutputName(o: Output): Text {
    o.name
  }

  function WriteOutputs(text: StorePath -> Text, mask: bool, outputs: seq<Output>, tail: Bytes): Bytes {
    List(OutputWriter(text, mask), SortBy(OutputName, outputs), tail)
  }

  /** Names sorted, each once. */
  function SortNub(names: seq<Text>): seq<Text> {
    AscendingTexts(Elements(names))
  }

  function WriteInputDrv(text: StorePath -> Text, input: (StorePath, seq<Text>), tail: Bytes): Bytes {
    [OPEN] + StrT(text(input.0), [COMMA] + List(StrT, SortNub(input.1), [CLOSE] + tail))
  }

  function WriteInputDrvs(text: StorePath -> Text, drvs: map<StorePath, seq<Text>>, tail: Bytes): Bytes {
    List(InputDrvWriter(text), Pairs(AtMost, drvs), tail)
  }

  function InputDrvWriter(text: StorePath -> Text): (w: ((StorePath, seq<Text>), Bytes) -> Bytes)
    ensures forall d, tail :: w(d, tail) == WriteInputDrv(text, d, tail)
  {
    (d, tail) => WriteInputDrv(text, d, tail)
  }

  /** The outputs wanted of each input, by its modulo hash; inputs that share a
      hash are one. */
  function Merged(subs: seq<(Text, seq<Text>)>): map<Text, set<Text>> {
    FromListWith((later: set<Text>, earlier: set<Text>) => later + earlier, Map(WithSet, subs))
  }

  function WithSet(sub: (Text, seq<Text>)): (Text, set<Text>) {
    (sub.0, Elements(sub.1))
  }

  function WriteSub(sub: (Text, set<Text>), tail: Bytes): Bytes {
    [OPEN] + StrT(sub.0, [COMMA] + List(StrT, AscendingTexts(sub.1), [CLOSE] + tail))
  }

  function WriteSubs(subs: seq<(Text, seq<Text>)>, tail: Bytes): Bytes {
    TextsOrdered();
    List(WriteSub, Pairs(AtMostText, Merged(subs)), tail)
  }

  function WriteInputSrcs(text: StorePath -> Text, srcs: seq<StorePath>, tail: Bytes): Bytes {
    List(InputSrcWriter(text), SortBy(text, srcs), tail)
  }

  function InputSrcWriter(text: StorePath -> Text): (w: (StorePath, Bytes) -> Bytes)
    ensures forall p: StorePath, tail :: w(p, tail) == StrT(text(p), tail)
  {
    (p, tail) => StrT(text(p), tail)
  }

  function WriteEnvPair(pair: (Text, Bytes), tail: Bytes): Bytes {
    [OPEN] + StrT(pair.0, [COMMA] + Str(pair.1, [CLOSE] + tail))
  }

  function WriteEnv(env: map<Text, Bytes>, tail: Bytes): Bytes {
    TextsOrdered();
    List(WriteEnvPair, Pairs(AtMostText, env), tail)
  }

  const DERIVE: Bytes := Utf8.Encode("Derive(")

  /** The part after the input derivations. */
  function WriteBuild(text: StorePath -> Text, d: Derivation, tail: Bytes): Bytes {
    [COMMA] + WriteInputSrcs(text, d.inputSrcs,
      [COMMA] + StrT(PlatformToText(d.platform),
        [COMMA] + Str(d.builder, [COMMA] + List(Str, d.args, [COMMA] + WriteEnv(d.env, [CLOSE] + tail)))))
  }

  /** A derivation's bytes for hashing: perhaps with output paths left blank,
      perhaps with its inputs named by their modulo hashes. */
  function ToATermForHash(text: StorePath -> Text, mask: bool, inputSubst: Option<seq<(Text, seq<Text>)>>,
                          d: Derivation): Bytes
  {
    DERIVE + WriteFields(text, mask, inputSubst, d)
  }

  function WriteFields(text: StorePath -> Text, mask: bool, inputSubst: Option<seq<(Text, seq<Text>)>>,
                       d: Derivation): Bytes
  {
    var build := WriteBuild(text, d, []);
    WriteOutputs(text, mask, d.outputs,
      [COMMA] + match inputSubst
                case None => WriteInputDrvs(text, d.inputDrvs, build)
                case Some(subs) => WriteSubs(subs, build))
  }

  function ToATerm(text: StorePath -> Text, d: Derivation): Bytes {
    ToATermForHash(text, false, None, d)
  }

  // ---- Reading ----------------------------------------------------------

  /** How store paths are spelled, and which output names are allowed. */
  datatype Spelling = Spelling(text: StorePath -> Text, parse: Text -> Option<StorePath>, nameOk: Text -> bool) {
    ghost predicate RoundTrips() {
      forall p: StorePath :: parse(text(p)) == Some(p)
    }
  }

  type Parser<!A> = Bytes -> Parse<A, Bytes>

  /** What a parser leaves is no longer than what it was given. */
  ghost predicate Consumes<A(!new)>(p: Parser<A>) {
    forall b {:trigger p(b)} :: p(b).Success? ==> |p(b).rest| <= |b|
  }

  function PByte(expected: Byte, b: Bytes): (r: Parse<(), Bytes>)
    ensures r.Success? ==> |r.rest| < |b|
  {
    if b != [] && b[0] == expected then Success((), b[1..]) else Failure
  }

  function PBytes(prefix: Bytes, b: Bytes): Parse<(), Bytes> {
    if prefix <= b then Success((), b[|prefix|..]) else Failure
  }

  predicate Ends(b: Byte) {
    b == QUOTE || b == BACKSLASH
  }

  /** The byte an escape stands for; an unknown one stands for itself. */
  function Unescaped(b: Byte): Byte {
    if b == 'n' as int then NEWLINE
    else if b == 'r' as int then RETURN
    else if b == 't' as int then TAB
    else b
  }

  /** The contents of a string up to its closing quote, after `done`. */
  function Content(b: Bytes, done: Bytes): (r: Parse<Bytes, Bytes>)
    ensures r.Success? ==> |r.rest| <= |b|
    decreases |b|
  {
    var n := Clean(Ends, b);
    if n == |b| then Failure
    else if b[n] == QUOTE then Success(done + b[..n], b[n..])
    else if n + 1 == |b| then Failure
    else Content(b[n + 2..], done + b[..n] + [Unescaped(b[n + 1])])
  }

  function PString(b: Bytes): (r: Parse<Bytes, Bytes>)
    ensures r.Success? ==> |r.rest| < |b|
  {
    var (_, b) :- PByte(QUOTE, b);
    var (content, b) :- Content(b, []);
    var (_, b) :- PByte(QUOTE, b);
    Success(content, b)
  }

  function PText(b: Bytes): (r: Parse<Text, Bytes>)
    ensures r.Success? ==> |r.rest| < |b|
  {
    var (content, b) :- PString(b);
    match Utf8.Decode(content)
    case Some(t) => Success(t, b)
    case None => Failure
  }

  function PList<A(!new)>(item: Parser<A>, b: Bytes): (r: Parse<seq<A>, Bytes>)
    requires Consumes(item)
    ensures r.Success? ==> |r.rest| < |b|
  {
    var (_, b) :- PByte(OPEN_LIST, b);
    var (items, b) :- PSepBy(item, b);
    var (_, b) :- PByte(CLOSE_LIST, b);
    Success(items, b)
  }

  /** No items when the first cannot be read. */
  function PSepBy<A(!new)>(item: Parser<A>, b: Bytes): (r: Parse<seq<A>, Bytes>)
    requires Consumes(item)
    ensures r.Success? ==> |r.rest| <= |b|
  {
    match item(b)
    case Failure => Success([], b)
    case Success(first, rest) => More(item, rest, [first])
  }

  function More<A(!new)>(item: Parser<A>, b: Bytes, done: seq<A>): (r: Parse<seq<A>, Bytes>)
    requires Consumes(item)
    ensures r.Success? ==> |r.rest| <= |b|
    decreases |b|
  {
    match PByte(COMMA, b)
    case Failure => Success(done, b)
    case Success(_, afterSep) =>
      var (x, rest) :- item(afterSep);
      More(item, rest, done + [x])
  }

  function POutput(s: Spelling, b: Bytes): (r: Parse<Output, Bytes>)
    ensures r.Success? ==> |r.rest| <= |b|
  {
    var (_, b) :- PByte(OPEN, b);
    var (name, b) :- PText(b);
    var (_, b) :- PByte(COMMA, b);
    var (path, b) :- PText(b);
    var (_, b) :- PByte(COMMA, b);
    var (hashAlgo, b) :- PText(b);
    var (_, b) :- PByte(COMMA, b);
    var (hash, b) :- PText(b);
    var (_, b) :- PByte(CLOSE, b);
    if !s.nameOk(name) then Failure
    else match s.parse(path)
      case Some(p) => Success(Output(name, p, hashAlgo, hash), b)
      case None => Failure
  }

  function PInputDrv(s: Spelling, b: Bytes): (r: Parse<(StorePath, seq<Text>), Bytes>)
    ensures r.Success? ==> |r.rest| <= |b|
  {
    TextConsumes();
    var (_, b) :- PByte(OPEN, b);
    var (path, b) :- PText(b);
    var (_, b) :- PByte(COMMA, b);
    var (outs, b) :- PList(PText, b);
    var (_, b) :- PByte(CLOSE, b);
    match s.parse(path)
    case Some(p) => Success((p, outs), b)
    case None => Failure
  }

  lemma TextConsumes()
    ensures Consumes(PText) && Consumes(PString)
  {
    assert forall b :: PText(b).Success? ==> |PText(b).rest| <= |b|;
    assert forall b :: PString(b).Success? ==> |PString(b).rest| <= |b|;
  }

  function PInputSrc(s: Spelling, b: Bytes): (r: Parse<StorePath, Bytes>)
    ensures r.Success? ==> |r.rest| <= |b|
  {
    var (path, b) :- PText(b);
    match s.parse(path)
    case Some(p) => Success(p, b)
    case None => Failure
  }

  function PEnvPair(b: Bytes): (r: Parse<(Text, Bytes), Bytes>)
    ensures r.Success? ==> |r.rest| <= |b|
  {
    var (_, b) :- PByte(OPEN, b);
    var (key, b) :- PText(b);
    var (_, b) :- PByte(COMMA, b);
    var (value, b) :- PString(b);
    var (_, b) :- PByte(CLOSE, b);
    Success((key, value), b)
  }

  function OutputParser(s: Spelling): (p: Parser<Output>)
    ensures Consumes(p) && forall b :: p(b) == POutput(s, b)
  {
    b => POutput(s, b)
  }

  function InputDrvParser(s: Spelling): (p: Parser<(StorePath, seq<Text>)>)
    ensures Consumes(p) && forall b :: p(b) == PInputDrv(s, b)
  {
    b => PInputDrv(s, b)
  }

  function InputSrcParser(s: Spelling): (p: Parser<StorePath>)
    ensures Consumes(p) && forall b :: p(b) == PInputSrc(s, b)
  {
    b => PInputSrc(s, b)
  }

  function EnvPairParser(): (p: Parser<(Text, Bytes)>)
    ensures Consumes(p) && forall b :: p(b) == PEnvPair(b)
  {
    b => PEnvPair(b)
  }

  /** Later names of a repeated input come before earlier ones. */
  function JoinNames(later: seq<Text>, earlier: seq<Text>): seq<Text> {
    later + earlier
  }

  /** The later value of a repeated key. */
  function Later(later: Bytes, earlier: Bytes): Bytes {
    later
  }

  /** The part after the input derivations: sources, platform, builder, arguments
      and environment. */
  function PBuild(s: Spelling, b: Bytes): Parse<(seq<StorePath>, Text, Bytes, seq<Bytes>, seq<(Text, Bytes)>), Bytes> {
    TextConsumes();
    var (_, b) :- PByte(COMMA, b);
    var (inputSrcs, b) :- PList(InputSrcParser(s), b);
    var (_, b) :- PByte(COMMA, b);
    var (platform, b) :- PText(b);
    var (_, b) :- PByte(COMMA, b);
    var (builder, b) :- PString(b);
    var (_, b) :- PByte(COMMA, b);
    var (args, b) :- PList(PString, b);
    var (_, b) :- PByte(COMMA, b);
    var (env, b) :- PList(EnvPairParser(), b);
    var (_, b) :- PByte(CLOSE, b);
    Success((inputSrcs, platform, builder, args, env), b)
  }

  function PDerivation(s: Spelling, b: Bytes): Parse<Derivation, Bytes> {
    var (_, b) :- PBytes(DERIVE, b);
    PFields(s, b)
  }

  function PFields(s: Spelling, b: Bytes): Parse<Derivation, Bytes> {
    var (outputs, b) :- PList(OutputParser(s), b);
    var (_, b) :- PByte(COMMA, b);
    var (inputDrvs, b) :- PList(InputDrvParser(s), b);
    var ((inputSrcs, platform, builder, args, env), b) :- PBuild(s, b);
    Success(Derivation(outputs, FromListWith(JoinNames, inputDrvs), inputSrcs, TextToPlatform(platform),
                       builder, args, FromListWith(Later, env)), b)
  }

  function FromATerm(s: Spelling, b: Bytes): Option<Derivation> {
    match PDerivation(s, b)
    case Success(d, rest) => if rest == [] then Some(d) else None
    case Failure => None
  }
}
