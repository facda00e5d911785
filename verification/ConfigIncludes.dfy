/** Include expansion in configuration files (src/Nix/Config.hs): each include is
    replaced by the included file's own expansion, and a file may not come back
    beneath itself. */
module ConfigIncludes {
  import opened Basics

  /** A name is the text its bytes spell; no known one is past ASCII. */
  datatype Assignment = Assignment(name: Text, value: Bytes)

  datatype IncludeMode = Required | Optional

  datatype Line = Assign(assignment: Assignment) | Include(mode: IncludeMode, target: Bytes)

  /** A host path, compared as it is spelled. */
  type Path = nat

  datatype Fault = Syntax | Unspellable | NotAbsolute | Cycle | Unreadable

  /** The files there are to read, by their parsed lines (none for a file that does
      not parse), and where an include points: nowhere the host can spell, or
      nowhere absolute, or a path. */
  datatype Host = Host(files: map<Path, Option<seq<Line>>>, spells: Bytes -> bool,
                       resolve: (Path, Bytes) -> Option<Path>)

  /** The lines of the file at the head of the chain of files being expanded. */
  function ExpandLines(h: Host, chain: seq<Path>, lines: seq<Line>): Result<seq<Assignment>, Fault>
    requires chain != []
    decreases |h.files.Keys - Elements(chain)|, |lines|, 1
  {
    if lines == [] then Ok([])
    else match ExpandLine(h, chain, lines)
      case Err(fault) => Err(fault)
      case Ok(first) =>
        match ExpandLines(h, chain, lines[1..])
        case Err(fault) => Err(fault)
        case Ok(rest) => Ok(first + rest)
  }

  /** The first of some lines. */
  function ExpandLine(h: Host, chain: seq<Path>, lines: seq<Line>): Result<seq<Assignment>, Fault>
    requires chain != [] && lines != []
    decreases |h.files.Keys - Elements(chain)|, |lines|, 0
  {
    match lines[0]
    case Assign(a) => Ok([a])
    case Include(mode, target) =>
      if !h.spells(target) then
        if mode == Optional then Ok([]) else Err(Unspellable)
      else match h.resolve(chain[0], target)
        case None => Err(NotAbsolute)
        case Some(path) =>
          if path in chain then Err(Cycle)
          else if path !in h.files then
            if mode == Optional then Ok([]) else Err(Unreadable)
          else match h.files[path]
            case None => Err(Syntax)
            case Some(included) =>
              FewerLeft(h.files.Keys, chain, path);
              ExpandLines(h, [path] + chain, included)
  }

  /** Going beneath a file leaves one fewer to go beneath. */
  lemma FewerLeft(files: set<Path>, chain: seq<Path>, path: Path)
    requires path in files && path !in chain
    ensures |files - Elements([path] + chain)| < |files - Elements(chain)|
  {
    assert files - Elements([path] + chain) == (files - Elements(chain)) - {path};
    assert path in files - Elements(chain);
  }

  /** A source under its name. */
  function Expand(h: Host, name: Path, lines: Option<seq<Line>>): Result<seq<Assignment>, Fault> {
    match lines
    case None => Err(Syntax)
    case Some(ls) => ExpandLines(h, [name], ls)
  }

  // ---- Splicing ---------------------------------------------------------

  /** What became of a line. */
  datatype Part = One(assignment: Assignment) | Skipped | Spliced(tree: Tree)

  /** A file with every include in it followed. */
  datatype Tree = Tree(path: Path, parts: seq<Part>)

  /** What a file contributes: its assignments, and its includes' in their place. */
  function Fringe(t: Tree): seq<Assignment>
    decreases t
  {
    FringeFrom(t, 0)
  }

  function FringeFrom(t: Tree, i: nat): seq<Assignment>
    requires i <= |t.parts|
    decreases t, |t.parts| - i
  {
    if i == |t.parts| then [] else PartFringe(t.parts[i]) + FringeFrom(t, i + 1)
  }

  function PartFringe(p: Part): seq<Assignment>
    decreases p
  {
    match p
    case One(a) => [a]
    case Skipped => []
    case Spliced(tree) => Fringe(tree)
  }

  /** A tree follows a file's lines, each include as the host says it points. */
  predicate Follows(h: Host, lines: seq<Line>, t: Tree)
    decreases t
  {
    |t.parts| == |lines| && forall i :: 0 <= i < |lines| ==> PartFollows(h, t.path, lines[i], t.parts[i])
  }

  predicate PartFollows(h: Host, from: Path, line: Line, p: Part)
    decreases p
  {
    match line
    case Assign(a) => p == One(a)
    case Include(mode, target) =>
      if !h.spells(target) then mode == Optional && p == Skipped
      else match h.resolve(from, target)
        case None => false
        case Some(path) =>
          if path !in h.files then mode == Optional && p == Skipped
          else h.files[path].Some? && p.Spliced? && p.tree.path == path && Follows(h, h.files[path].value, p.tree)
  }

  /** There is only one way to follow a file's includes. */
  lemma {:induction false} OneTree(h: Host, lines: seq<Line>, s: Tree, t: Tree)
    requires s.path == t.path && Follows(h, lines, s) && Follows(h, lines, t)
    ensures s == t
    decreases s
  {
    forall i | 0 <= i < |lines|
      ensures s.parts[i] == t.parts[i]
    {
      assert PartFollows(h, s.path, lines[i], s.parts[i]) && PartFollows(h, t.path, lines[i], t.parts[i]);
      if s.parts[i].Spliced? {
        OneTree(h, h.files[s.parts[i].tree.path].value, s.parts[i].tree, t.parts[i].tree);
      }
    }
    assert s.parts == t.parts;
  }

  /** The host as a source's expansion sees it: under the source's own name is the
      source. */
  function Seen(h: Host, name: Path, lines: seq<Line>): Host {
    h.(files := h.files[name := Some(lines)])
  }

  // ---- Expanding follows a tree -----------------------------------------

  /** A chain of trees, each within the next, each following its own file. */
  ghost predicate Within(h: Host, chain: seq<Path>, above: seq<Tree>) {
    && |above| == |chain| > 0
    && (forall i :: 0 <= i < |chain| ==> TreeOf(h, chain[i], above[i]))
    && forall i :: 0 < i < |chain| ==> above[0] < above[i]
  }

  /** A tree that follows the file at a path. */
  predicate TreeOf(h: Host, path: Path, t: Tree) {
    t.path == path && path in h.files && h.files[path].Some? && Follows(h, h.files[path].value, t)
  }

  /** No tree spliced beneath a chain is one of the chain's files. */
  lemma NeverBeneathItself(h: Host, chain: seq<Path>, above: seq<Tree>, i: nat)
    requires Within(h, chain, above) && i < |above[0].parts| && above[0].parts[i].Spliced?
    ensures above[0].parts[i].tree.path !in chain
    ensures Within(h, [above[0].parts[i].tree.path] + chain, [above[0].parts[i].tree] + above)
  {
    var t := above[0].parts[i].tree;
    var lines := h.files[chain[0]].value;
    assert PartFollows(h, chain[0], lines[i], above[0].parts[i]);
    assert t < above[0];
    forall j | 0 <= j < |chain|
      ensures t < above[j] && chain[j] != t.path
    {
      if chain[j] == t.path {
        OneTree(h, h.files[t.path].value, t, above[j]);
      }
    }
  }

  /** A source with a tree expands to the tree's fringe. */
  lemma {:induction false} TreeExpands(h: Host, name: Path, top: seq<Line>, chain: seq<Path>, above: seq<Tree>, i: nat)
    requires name in chain && Within(Seen(h, name, top), chain, above) && i <= |above[0].parts|
    ensures ExpandLines(h, chain, Seen(h, name, top).files[chain[0]].value[i..]) == Ok(FringeFrom(above[0], i))
    decreases |h.files.Keys - Elements(chain)|, |above[0].parts| - i, 1
  {
    var lines := Seen(h, name, top).files[chain[0]].value;
    if i < |lines| {
      LineExpands(h, name, top, chain, above, i);
      assert lines[i..][1..] == lines[i + 1..];
      TreeExpands(h, name, top, chain, above, i + 1);
    }
  }

  lemma {:induction false} LineExpands(h: Host, name: Path, top: seq<Line>, chain: seq<Path>, above: seq<Tree>, i: nat)
    requires name in chain && Within(Seen(h, name, top), chain, above) && i < |above[0].parts|
    ensures ExpandLine(h, chain, Seen(h, name, top).files[chain[0]].value[i..]) == Ok(PartFringe(above[0].parts[i]))
    decreases |h.files.Keys - Elements(chain)|, |above[0].parts| - i, 0
  {
    var seen, part := Seen(h, name, top), above[0].parts[i];
    var lines := seen.files[chain[0]].value;
    assert PartFollows(seen, chain[0], lines[i], part);
    assert lines[i..][0] == lines[i];
    if part.Spliced? {
      var path := part.tree.path;
      NeverBeneathItself(seen, chain, above, i);
      FewerLeft(h.files.Keys, chain, path);
      TreeExpands(h, name, top, [path] + chain, [part.tree] + above, 0);
      assert h.files[path].value[0..] == h.files[path].value;
    }
  }

  lemma {:induction false} FringeShift(path: Path, first: Part, parts: seq<Part>, i: nat)
    requires i <= |parts|
    ensures FringeFrom(Tree(path, [first] + parts), i + 1) == FringeFrom(Tree(path, parts), i)
    decreases |parts| - i
  {
    if i < |parts| {
      FringeShift(path, first, parts, i + 1);
    }
  }

  /** The tree an expansion followed. */
  lemma {:induction false} ExpandedTree(h: Host, name: Path, top: seq<Line>, chain: seq<Path>, lines: seq<Line>)
      returns (t: Tree)
    requires chain != [] && name in chain && ExpandLines(h, chain, lines).Ok?
    ensures t.path == chain[0] && Follows(Seen(h, name, top), lines, t)
    ensures Fringe(t) == ExpandLines(h, chain, lines).value
    decreases |h.files.Keys - Elements(chain)|, |lines|, 1
  {
    if lines == [] {
      t := Tree(chain[0], []);
    } else {
      var part := ExpandedPart(h, name, top, chain, lines);
      var rest := ExpandedTree(h, name, top, chain, lines[1..]);
      t := Tree(chain[0], [part] + rest.parts);
      FringeShift(chain[0], part, rest.parts, 0);
      assert rest == Tree(chain[0], rest.parts);
      forall i | 0 <= i < |lines|
        ensures PartFollows(Seen(h, name, top), chain[0], lines[i], t.parts[i])
      {
        if i > 0 {
          assert lines[1..][i - 1] == lines[i]
                 && PartFollows(Seen(h, name, top), chain[0], lines[1..][i - 1], rest.parts[i - 1]);
        }
      }
    }
  }

  lemma {:induction false} ExpandedPart(h: Host, name: Path, top: seq<Line>, chain: seq<Path>, lines: seq<Line>)
      returns (part: Part)
    requires chain != [] && name in chain && lines != [] && ExpandLine(h, chain, lines).Ok?
    ensures PartFollows(Seen(h, name, top), chain[0], lines[0], part)
    ensures PartFringe(part) == ExpandLine(h, chain, lines).value
    decreases |h.files.Keys - Elements(chain)|, |lines|, 0
  {
    match lines[0] {
      case Assign(a) =>
        part := One(a);
      case Include(mode, target) =>
        part := Skipped;
        if h.spells(target) && h.resolve(chain[0], target).value in h.files {
          var path := h.resolve(chain[0], target).value;
          FewerLeft(h.files.Keys, chain, path);
          var tree := ExpandedTree(h, name, top, [path] + chain, h.files[path].value);
          part := Spliced(tree);
        }
    }
  }

  /** A source expands exactly when its includes can all be followed to a finite
      tree, and then to the tree's fringe: each include's expansion in its place. */
  lemma ExpandsAsTree(h: Host, name: Path, lines: seq<Line>)
    ensures Expand(h, name, Some(lines)).Ok? <==> exists t :: TreeOf(Seen(h, name, lines), name, t)
    ensures forall t :: TreeOf(Seen(h, name, lines), name, t) ==> Expand(h, name, Some(lines)) == Ok(Fringe(t))
  {
    if Expand(h, name, Some(lines)).Ok? {
      var t := ExpandedTree(h, name, lines, [name], lines);
      assert TreeOf(Seen(h, name, lines), name, t);
    }
    forall t | TreeOf(Seen(h, name, lines), name, t)
      ensures Expand(h, name, Some(lines)) == Ok(Fringe(t))
    {
      TreeExpands(h, name, lines, [name], [t], 0);
      assert lines[0..] == lines;
    }
  }

  // ---- Why an expansion fails -------------------------------------------

  ghost predicate Includes(h: Host, from: Path, path: Path) {
    from in h.files && h.files[from].Some? && exists i :: 0 <= i < |h.files[from].value| && IncludesAt(h, from, path, i)
  }

  ghost predicate IncludesAt(h: Host, from: Path, path: Path, i: nat)
    requires from in h.files && h.files[from].Some? && i < |h.files[from].value|
  {
    var line := h.files[from].value[i];
    line.Include? && h.spells(line.target) && h.resolve(from, line.target) == Some(path)
  }

  /** Files each included by the next. */
  ghost predicate IncludeChain(h: Host, chain: seq<Path>) {
    chain != [] && forall i {:trigger LinkAt(h, chain, i)} :: 0 < i < |chain| ==> LinkAt(h, chain, i)
  }

  ghost predicate LinkAt(h: Host, chain: seq<Path>, i: nat)
    requires 0 < i < |chain|
  {
    Includes(h, chain[i], chain[i - 1])
  }

  /** A host and what a source's expansion sees differ only in the source itself. */
  ghost predicate Sees(h: Host, seen: Host, name: Path) {
    && seen.spells == h.spells && seen.resolve == h.resolve
    && forall p :: p != name && p in h.files ==> p in seen.files && seen.files[p] == h.files[p]
  }

  lemma {:induction false} CycleIsReal(h: Host, seen: Host, name: Path, chain: seq<Path>, lines: seq<Line>, k: nat)
    returns (closed: seq<Path>, path: Path)
    requires Sees(h, seen, name) && IncludeChain(seen, chain) && name in chain
    requires chain[0] in seen.files && seen.files[chain[0]] == Some(lines) && k <= |lines|
    requires ExpandLines(h, chain, lines[k..]) == Err(Cycle)
    ensures IncludeChain(seen, closed) && Includes(seen, closed[0], path) && path in closed
    ensures closed[|closed| - 1] == chain[|chain| - 1]
    decreases |h.files.Keys - Elements(chain)|, |lines| - k, 1
  {
    CycleHere(h, chain, lines[k..]);
    if ExpandLine(h, chain, lines[k..]).Ok? {
      assert lines[k..][1..] == lines[k + 1..];
      closed, path := CycleIsReal(h, seen, name, chain, lines, k + 1);
    } else {
      var included := CycleAt(h, seen, name, chain, lines, k);
      closed, path := CycleBelow(h, seen, name, chain, included);
    }
  }

  lemma {:induction false} CycleBelow(h: Host, seen: Host, name: Path, chain: seq<Path>, included: Path)
    returns (closed: seq<Path>, path: Path)
    requires Sees(h, seen, name) && IncludeChain(seen, chain) && name in chain && Includes(seen, chain[0], included)
    requires included in chain || (included in h.files && h.files[included].Some?
                                   && ExpandLines(h, [included] + chain, h.files[included].value) == Err(Cycle))
    ensures IncludeChain(seen, closed) && Includes(seen, closed[0], path) && path in closed
    ensures closed[|closed| - 1] == chain[|chain| - 1]
    decreases |h.files.Keys - Elements(chain)|, 0, 0
  {
    closed, path := chain, included;
    if included !in chain {
      var lines := h.files[included].value;
      FewerLeft(h.files.Keys, chain, included);
      ChainGrows(seen, chain, included);
      assert lines[0..] == lines;
      closed, path := CycleIsReal(h, seen, name, [included] + chain, lines, 0);
    }
  }

  lemma CycleHere(h: Host, chain: seq<Path>, lines: seq<Line>)
    requires chain != [] && ExpandLines(h, chain, lines) == Err(Cycle)
    ensures lines != []
    ensures if ExpandLine(h, chain, lines).Ok? then ExpandLines(h, chain, lines[1..]) == Err(Cycle)
            else ExpandLine(h, chain, lines) == Err(Cycle)
  {
  }

  /** The line an expansion fails at for a cycle includes a file that is on the chain
      or fails for one itself. */
  lemma CycleAt(h: Host, seen: Host, name: Path, chain: seq<Path>, lines: seq<Line>, k: nat) returns (path: Path)
    requires Sees(h, seen, name) && chain != [] && name in chain
    requires chain[0] in seen.files && seen.files[chain[0]] == Some(lines) && k < |lines|
    requires ExpandLine(h, chain, lines[k..]) == Err(Cycle)
    ensures Includes(seen, chain[0], path)
    ensures path in chain || (path in h.files && h.files[path].Some?
            && ExpandLines(h, [path] + chain, h.files[path].value) == Err(Cycle))
  {
    assert lines[k..][0] == lines[k];
    path := h.resolve(chain[0], lines[k].target).value;
    assert IncludesAt(seen, chain[0], path, k);
  }

  lemma ChainGrows(h: Host, chain: seq<Path>, path: Path)
    requires IncludeChain(h, chain) && Includes(h, chain[0], path)
    ensures IncludeChain(h, [path] + chain) && ([path] + chain)[|chain|] == chain[|chain| - 1]
  {
    var deeper := [path] + chain;
    forall i | 0 < i < |deeper|
      ensures LinkAt(h, deeper, i)
    {
      assert i > 1 ==> LinkAt(h, chain, i - 1);
    }
  }

  /** A source refused for a cycle does lead, include by include, to a file that
      includes one of those above it. */
  lemma CycleFaultIsReal(h: Host, name: Path, lines: seq<Line>)
    requires Expand(h, name, Some(lines)) == Err(Cycle)
    ensures exists closed, path ::
              && IncludeChain(Seen(h, name, lines), closed) && closed[|closed| - 1] == name
              && Includes(Seen(h, name, lines), closed[0], path) && path in closed
  {
    assert lines[0..] == lines;
    var closed, path := CycleIsReal(h, Seen(h, name, lines), name, [name], lines, 0);
  }
}
