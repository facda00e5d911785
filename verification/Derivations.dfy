/** Derivations as the build works on them (src/Nix/Derivation.hs). */
module Derivations {
  import opened Basics

  datatype Platform =
    | X86_64_Linux
    | X86_64_Darwin
    | Aarch64_Darwin
    | X86_64_Windows
    | Aarch64_Linux
    | I686_Linux
    | I686_Windows
    | OtherPlatform(system: Text)

  datatype Output = Output(name: Text, path: StorePath, hashAlgo: Text, hash: Text)

  datatype Derivation = Derivation(
    outputs: seq<Output>,
    inputDrvs: map<StorePath, seq<Text>>,
    inputSrcs: seq<StorePath>,
    platform: Platform,
    builder: Bytes,
    args: seq<Bytes>,
    env: map<Text, Bytes>)
  {
    function OutputPaths(): seq<StorePath> {
      Map((o: Output) => o.path, outputs)
    }
  }
}
