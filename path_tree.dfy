/** The routing path tree and `pathParseAndRetrieve`
    (src/osvr/Routing/PathParseAndRetrieve.cpp).

    The tree is an arena of nodes: a node is identified by its index, the root
    is node 0, every other node records the index of its parent and a map from
    child name to child index.  Nodes are only ever appended, and a child is
    always appended after its parent, so parent indices are smaller than child
    indices and the parent relation has no cycles. */
module PathTree {
  import opened Wrappers
  import opened RoutingExceptions

  /** The path separator, as a character and as a one-character string
      (inc/osvr/Routing/Constants.h). */
  const PathSeparatorCharacter: char := '/'
  const PathSeparator: string := [PathSeparatorCharacter]

  /** What a node holds (the path element variant). */
  datatype ElementKind =
    | NullElement
    | PluginElement
    | DeviceElement
    | SensorElement
    | AliasElement(target: string)
    | StringElement(value: string)

  datatype PathNode = PathNode(name: string, kind: ElementKind, parent: Option<nat>, children: map<string, nat>)

  const RootIndex: nat := 0

  /** The arena holding only an unnamed, untyped root. */
  function FreshTree(): (ns: seq<PathNode>)
    ensures WellFormed(ns) && |ns| == 1
  {
    [PathNode("", NullElement, None, map[])]
  }

  // ---------------------------------------------------------------------
  // Splitting a string on the separator, as boost's split_iterator does.

  predicate NoSeparator(s: string)
  {
    forall i :: 0 <= i < |s| ==> s[i] != PathSeparatorCharacter
  }

  /** The index of the first separator in `s`, if any. */
  function IndexOfSeparator(s: string): (r: Option<nat>)
    ensures r.None? <==> NoSeparator(s)
    ensures r.Some? ==> r.value < |s| && s[r.value] == PathSeparatorCharacter && NoSeparator(s[..r.value])
  {
    if s == [] then None
    else if s[0] == PathSeparatorCharacter then Some(0)
    else match IndexOfSeparator(s[1..])
      case None => None
      case Some(i) =>
        assert s[..i + 1] == [s[0]] + s[1..][..i];
        Some(i + 1)
  }

  /** The pieces of `s` between separators.  Like boost's split_iterator it
      always yields one more piece than there are separators, so the empty
      string yields one empty piece and a trailing separator yields a final
      empty piece. */
  function Split(s: string): (r: seq<string>)
    ensures |r| >= 1
    ensures forall c :: c in r ==> NoSeparator(c)
    decreases |s|
  {
    match IndexOfSeparator(s)
    case None => [s]
    case Some(i) => [s[..i]] + Split(s[i + 1..])
  }

  /** Puts pieces back together with separators between them. */
  function Join(cs: seq<string>): string
    requires |cs| >= 1
    decreases |cs|
  {
    if |cs| == 1 then cs[0] else cs[0] + PathSeparator + Join(cs[1..])
  }

  lemma SeparatorAfter(a: string, b: string)
    requires NoSeparator(a)
    ensures IndexOfSeparator(a + PathSeparator + b) == Some(|a|)
  {
    var s := a + PathSeparator + b;
    assert s[|a|] == PathSeparatorCharacter;
    assert s[..|a|] == a;
  }

  lemma {:induction false} JoinSplit(s: string)
    ensures Join(Split(s)) == s
    decreases |s|
  {
    match IndexOfSeparator(s)
    case None =>
    case Some(i) =>
      var t := Split(s[i + 1..]);
      JoinSplit(s[i + 1..]);
      assert Split(s) == [s[..i]] + t;
      assert ([s[..i]] + t)[1..] == t;
      assert Join(Split(s)) == s[..i] + PathSeparator + Join(t);
      assert s == s[..i] + PathSeparator + s[i + 1..];
  }

  lemma {:induction false} SplitJoin(cs: seq<string>)
    requires |cs| >= 1
    requires forall c :: c in cs ==> NoSeparator(c)
    ensures Split(Join(cs)) == cs
    decreases |cs|
  {
    if |cs| > 1 {
      var s := Join(cs);
      SeparatorAfter(cs[0], Join(cs[1..]));
      assert s[..|cs[0]|] == cs[0];
      assert s[|cs[0]| + 1..] == Join(cs[1..]);
      SplitJoin(cs[1..]);
      assert cs == [cs[0]] + cs[1..];
    }
  }

  predicate DoubleSeparatorAt(s: string, i: int)
    requires 0 <= i < |s| - 1
  {
    s[i] == PathSeparatorCharacter && s[i + 1] == PathSeparatorCharacter
  }

  predicate NoDoubleSeparator(s: string)
  {
    forall i :: 0 <= i < |s| - 1 ==> !DoubleSeparatorAt(s, i)
  }

  /** A string whose every piece is non-empty: it is not empty, does not start
      or end with a separator and never has two separators in a row. */
  predicate NoEmptySegment(s: string)
  {
    && s != []
    && s[0] != PathSeparatorCharacter
    && s[|s| - 1] != PathSeparatorCharacter
    && NoDoubleSeparator(s)
  }

  lemma SplitNonEmptyIff(s: string)
    ensures "" !in Split(s) <==> NoEmptySegment(s)
  {
    if NoEmptySegment(s) {
      NoEmptySegmentSplits(s);
    }
    if "" !in Split(s) {
      NonEmptySplitHasNoEmptySegment(s);
    }
  }

  lemma {:induction false} NoEmptySegmentSplits(s: string)
    requires NoEmptySegment(s)
    ensures "" !in Split(s)
    decreases |s|
  {
    match IndexOfSeparator(s)
    case None =>
      assert Split(s) == [s];
    case Some(i) =>
      var t := s[i + 1..];
      assert i > 0;
      assert |t| > 0 && t[0] != PathSeparatorCharacter by {
        assert !DoubleSeparatorAt(s, i);
      }
      assert t[|t| - 1] == s[|s| - 1];
      forall j | 0 <= j < |t| - 1
        ensures !DoubleSeparatorAt(t, j)
      {
        assert !DoubleSeparatorAt(s, i + 1 + j);
      }
      NoEmptySegmentSplits(t);
      assert Split(s) == [s[..i]] + Split(t);
  }

  lemma {:induction false} NonEmptySplitHasNoEmptySegment(s: string)
    requires "" !in Split(s)
    ensures NoEmptySegment(s)
    decreases |s|
  {
    match IndexOfSeparator(s)
    case None =>
      assert Split(s) == [s];
    case Some(i) =>
      var t := s[i + 1..];
      assert Split(s) == [s[..i]] + Split(t);
      assert s[..i] in Split(s);
      assert forall c :: c in Split(t) ==> c in Split(s);
      NonEmptySplitHasNoEmptySegment(t);
      assert s[0] == s[..i][0];
      assert s[|s| - 1] == t[|t| - 1];
      forall j | 0 <= j < |s| - 1
        ensures !DoubleSeparatorAt(s, j)
      {
        if j < i {
          assert s[j] == s[..i][j];
        } else if j == i {
          assert s[j + 1] == t[0];
        } else {
          assert !DoubleSeparatorAt(t, j - i - 1);
        }
      }
  }

  // ---------------------------------------------------------------------
  // Well-formed arenas.

  /** Child `n` of node `i` points back at `i` and carries the name `n`. */
  ghost predicate ChildLink(ns: seq<PathNode>, i: nat, n: string)
    requires i < |ns| && n in ns[i].children
  {
    var c := ns[i].children[n];
    0 < c < |ns| && ns[c].parent == Some(i) && ns[c].name == n
  }

  /** Node `c` has an earlier parent that lists it under its name. */
  ghost predicate ParentLink(ns: seq<PathNode>, c: nat)
    requires c < |ns|
  {
    var p := ns[c].parent;
    && p.Some?
    && p.value < c
    && ns[c].name in ns[p.value].children
    && ns[p.value].children[ns[c].name] == c
  }

  ghost predicate WellFormed(ns: seq<PathNode>)
  {
    && |ns| > 0
    && ns[RootIndex].parent.None?
    && (forall c :: 0 < c < |ns| ==> ParentLink(ns, c))
    && (forall i, n {:trigger ChildLink(ns, i, n)} :: 0 <= i < |ns| && n in ns[i].children ==> ChildLink(ns, i, n))
  }

  ghost predicate SubMap(m: map<string, nat>, m': map<string, nat>)
  {
    forall n {:trigger n in m} :: n in m ==> n in m' && m'[n] == m[n]
  }

  /** `ns'` keeps every node of `ns` with its name, its parent and its
      children, and may add nodes and children.  Element kinds may differ. */
  ghost predicate Extends(ns: seq<PathNode>, ns': seq<PathNode>)
  {
    && |ns| <= |ns'|
    && forall i {:trigger ns'[i]} :: 0 <= i < |ns| ==>
        && ns'[i].name == ns[i].name
        && ns'[i].parent == ns[i].parent
        && SubMap(ns[i].children, ns'[i].children)
  }

  lemma ExtendsTransitive(a: seq<PathNode>, b: seq<PathNode>, c: seq<PathNode>)
    requires Extends(a, b) && Extends(b, c)
    ensures Extends(a, c)
  {
  }

  /** The names on the way from the root down to node `i`. */
  ghost function PathOf(ns: seq<PathNode>, i: nat): seq<string>
    requires WellFormed(ns) && i < |ns|
    decreases i
  {
    if i == RootIndex then []
    else
      assert ParentLink(ns, i);
      PathOf(ns, ns[i].parent.value) + [ns[i].name]
  }

  lemma {:induction false} PathOfExtends(ns: seq<PathNode>, ns': seq<PathNode>, i: nat)
    requires WellFormed(ns) && WellFormed(ns') && Extends(ns, ns') && i < |ns|
    ensures PathOf(ns', i) == PathOf(ns, i)
    decreases i
  {
    if i != RootIndex {
      assert ParentLink(ns, i);
      PathOfExtends(ns, ns', ns[i].parent.value);
    }
  }

  /** `getOrCreateChildByName`: the existing child of `parent` called `name`,
      or else a new untyped, childless node appended to the arena. */
  function GetOrCreateChild(ns: seq<PathNode>, parent: nat, name: string): (r: (seq<PathNode>, nat))
    requires WellFormed(ns) && parent < |ns|
    ensures WellFormed(r.0) && Extends(ns, r.0)
    ensures 0 < r.1 < |r.0| && r.0[r.1].parent == Some(parent) && r.0[r.1].name == name
    ensures name in r.0[parent].children && r.0[parent].children[name] == r.1
    ensures name in ns[parent].children ==> r.0 == ns
    ensures name !in ns[parent].children ==>
      |r.0| == |ns| + 1 && r.1 == |ns| && r.0[r.1].kind == NullElement && r.0[r.1].children == map[]
    ensures forall i {:trigger r.0[i]} :: 0 <= i < |ns| ==> r.0[i].kind == ns[i].kind
  {
    if name in ns[parent].children then
      assert ChildLink(ns, parent, name);
      (ns, ns[parent].children[name])
    else
      var p := ns[parent];
      var ns' := ns[parent := p.(children := p.children[name := |ns|])] + [PathNode(name, NullElement, Some(parent), map[])];
      assert forall c :: 0 < c < |ns| ==> ParentLink(ns, c);
      assert forall c :: 0 < c < |ns'| ==> ParentLink(ns', c) by {
        forall c | 0 < c < |ns'| ensures ParentLink(ns', c) {
          if c < |ns| {
            assert ParentLink(ns, c);
            var q := ns[c].parent.value;
            if q == parent {
              assert ns[c].name in ns[parent].children;
            }
          }
        }
      }
      assert forall i, n :: 0 <= i < |ns'| && n in ns'[i].children ==> ChildLink(ns', i, n) by {
        forall i, n | 0 <= i < |ns'| && n in ns'[i].children ensures ChildLink(ns', i, n) {
          if !(i == parent && n == name) {
            assert ChildLink(ns, i, n);
          }
        }
      }
      (ns', |ns|)
  }

  /** The get-or-create walk of `pathParseAndRetrieve`: starting at `from`,
      step to (or create) the child named by each component in turn. */
  function Walk(ns: seq<PathNode>, from: nat, comps: seq<string>): (r: (seq<PathNode>, nat))
    requires WellFormed(ns) && from < |ns|
    ensures WellFormed(r.0) && Extends(ns, r.0) && r.1 < |r.0|
    ensures |r.0| <= |ns| + |comps|
    ensures forall i {:trigger r.0[i]} :: 0 <= i < |ns| ==> r.0[i].kind == ns[i].kind
    decreases |comps|
  {
    if comps == [] then (ns, from)
    else
      var mid := Walk(ns, from, comps[..|comps| - 1]);
      var r := GetOrCreateChild(mid.0, mid.1, comps[|comps| - 1]);
      ExtendsTransitive(ns, mid.0, r.0);
      r
  }

  /** One more component is one more get-or-create step. */
  lemma WalkStep(ns: seq<PathNode>, from: nat, comps: seq<string>, i: nat, at: seq<PathNode>, node: nat)
    requires WellFormed(ns) && from < |ns| && i < |comps|
    requires (at, node) == Walk(ns, from, comps[..i])
    ensures WellFormed(at) && node < |at|
    ensures Walk(ns, from, comps[..i + 1]) == GetOrCreateChild(at, node, comps[i])
  {
    assert comps[..i + 1][..i] == comps[..i];
  }

  lemma {:induction false} WalkPath(ns: seq<PathNode>, from: nat, comps: seq<string>)
    requires WellFormed(ns) && from < |ns|
    ensures PathOf(Walk(ns, from, comps).0, Walk(ns, from, comps).1) == PathOf(ns, from) + comps
    decreases |comps|
  {
    if comps != [] {
      var prefix := comps[..|comps| - 1];
      var mid := Walk(ns, from, prefix);
      var r := Walk(ns, from, comps);
      WalkPath(ns, from, prefix);
      PathOfExtends(mid.0, r.0, mid.1);
      assert PathOf(r.0, r.1) == PathOf(r.0, mid.1) + [comps[|comps| - 1]];
      assert comps == prefix + [comps[|comps| - 1]];
    }
  }

  /** Every node a walk creates lies on the walked path: its root path is
      the start node's path followed by a non-empty prefix of the components. */
  lemma {:induction false} WalkAddsOnlyPathNodes(ns: seq<PathNode>, from: nat, comps: seq<string>, n: nat)
    requires WellFormed(ns) && from < |ns|
    requires |ns| <= n < |Walk(ns, from, comps).0|
    ensures exists j :: 1 <= j <= |comps| && PathOf(Walk(ns, from, comps).0, n) == PathOf(ns, from) + comps[..j]
    decreases |comps|
  {
    var prefix := comps[..|comps| - 1];
    var mid := Walk(ns, from, prefix);
    var r := Walk(ns, from, comps);
    if n < |mid.0| {
      WalkAddsOnlyPathNodes(ns, from, prefix, n);
      var j :| 1 <= j <= |prefix| && PathOf(mid.0, n) == PathOf(ns, from) + prefix[..j];
      PathOfExtends(mid.0, r.0, n);
      assert prefix[..j] == comps[..j];
    } else {
      assert n == r.1;
      WalkPath(ns, from, comps);
      assert comps[..|comps|] == comps;
    }
  }

  /** Walking again over an arena that already contains a walk's result
      (or any extension of it) finds the same node and adds nothing. */
  lemma {:induction false} WalkStable(ns: seq<PathNode>, from: nat, comps: seq<string>, ns2: seq<PathNode>)
    requires WellFormed(ns) && from < |ns|
    requires WellFormed(ns2) && Extends(Walk(ns, from, comps).0, ns2)
    ensures from < |ns2| && Walk(ns2, from, comps) == (ns2, Walk(ns, from, comps).1)
    decreases |comps|
  {
    if comps != [] {
      var prefix := comps[..|comps| - 1];
      var name := comps[|comps| - 1];
      var mid := Walk(ns, from, prefix);
      var r := Walk(ns, from, comps);
      ExtendsTransitive(mid.0, r.0, ns2);
      WalkStable(ns, from, prefix, ns2);
      assert ParentLink(r.0, r.1);
      assert ns2[mid.1].children[name] == r.1;
    }
  }

  /** The walk along an existing node's own path ends at that node and
      creates nothing. */
  lemma {:induction false} WalkFindsExisting(ns: seq<PathNode>, i: nat)
    requires WellFormed(ns) && i < |ns|
    ensures Walk(ns, RootIndex, PathOf(ns, i)) == (ns, i)
    decreases i
  {
    if i != RootIndex {
      assert ParentLink(ns, i);
      var p := ns[i].parent.value;
      var comps := PathOf(ns, i);
      WalkFindsExisting(ns, p);
      assert comps[..|comps| - 1] == PathOf(ns, p);
    }
  }

  /** No two nodes of a well-formed arena have the same path: siblings have
      distinct names. */
  lemma PathOfInjective(ns: seq<PathNode>, i: nat, j: nat)
    requires WellFormed(ns) && i < |ns| && j < |ns|
    requires PathOf(ns, i) == PathOf(ns, j)
    ensures i == j
  {
    WalkFindsExisting(ns, i);
    WalkFindsExisting(ns, j);
  }

  // ---------------------------------------------------------------------
  // pathParseAndRetrieve as a function of the arena.

  /** The part of an absolute path between the leading separator and one
      trailing separator, if there is one. */
  function TrimmedRange(path: string): (r: string)
    requires |path| >= 2 && path[0] == PathSeparatorCharacter
    ensures |r| <= |path| - 1
  {
    var theEnd := if path[|path| - 1] == PathSeparatorCharacter then |path| - 1 else |path|;
    path[1..theEnd]
  }

  function Components(path: string): seq<string>
    requires |path| >= 2 && path[0] == PathSeparatorCharacter
  {
    Split(TrimmedRange(path))
  }

  /** The position of the first empty component, or the count if none is. */
  function FirstEmpty(cs: seq<string>): (k: nat)
    ensures k <= |cs|
    ensures forall j :: 0 <= j < k ==> cs[j] != ""
    ensures k < |cs| ==> cs[k] == ""
  {
    if cs == [] then 0
    else if cs[0] == "" then 0
    else 1 + FirstEmpty(cs[1..])
  }

  /** `pathParseAndRetrieve(path, root)`: the arena afterwards and the node
      found or created, or the error raised. */
  function Resolve(ns: seq<PathNode>, path: string): (r: (seq<PathNode>, Result<nat, RoutingError>))
    requires WellFormed(ns)
    ensures WellFormed(r.0) && Extends(ns, r.0)
    ensures forall i {:trigger r.0[i]} :: 0 <= i < |ns| ==> r.0[i].kind == ns[i].kind
    ensures r.1.Ok? ==> r.1.value < |r.0|
    ensures r.1.Err? ==> r.1.error in {EmptyPath, PathNotAbsolute(path), EmptyPathComponent(path)}
    ensures r.1 == Err(EmptyPath) <==> path == ""
    ensures r.1 == Err(PathNotAbsolute(path)) <==> path != "" && path[0] != PathSeparatorCharacter
    ensures r.1.Err? && r.1.error != EmptyPathComponent(path) ==> r.0 == ns
  {
    if path == "" then (ns, Err(EmptyPath))
    else if path == PathSeparator then (ns, Ok(RootIndex))
    else if path[0] != PathSeparatorCharacter then (ns, Err(PathNotAbsolute(path)))
    else
      var comps := Components(path);
      var k := FirstEmpty(comps);
      var w := Walk(ns, RootIndex, comps[..k]);
      if k < |comps| then (w.0, Err(EmptyPathComponent(path))) else (w.0, Ok(w.1))
  }

  /** The trimmed range of an absolute path has only non-empty pieces
      exactly when the path never has two separators in a row. */
  lemma TrimmedRangeNoEmptySegmentIff(path: string)
    requires |path| >= 2 && path[0] == PathSeparatorCharacter
    ensures NoEmptySegment(TrimmedRange(path)) <==> NoDoubleSeparator(path)
  {
    var t := TrimmedRange(path);
    var trailing := path[|path| - 1] == PathSeparatorCharacter;
    assert forall j :: 0 <= j < |t| ==> t[j] == path[j + 1];
    if NoDoubleSeparator(path) {
      assert t != [] by {
        if trailing { assert !DoubleSeparatorAt(path, |path| - 2); }
      }
      assert t[0] != PathSeparatorCharacter by { assert !DoubleSeparatorAt(path, 0); }
      assert t[|t| - 1] != PathSeparatorCharacter by {
        if trailing { assert !DoubleSeparatorAt(path, |path| - 2); }
      }
      forall j | 0 <= j < |t| - 1 ensures !DoubleSeparatorAt(t, j) {
        assert !DoubleSeparatorAt(path, j + 1);
      }
    }
    if NoEmptySegment(t) {
      forall j | 0 <= j < |path| - 1 ensures !DoubleSeparatorAt(path, j) {
        if j == 0 {
          assert path[1] == t[0];
        } else if j < |t| {
          assert !DoubleSeparatorAt(t, j - 1);
        } else if j == |t| {
          assert path[j] == t[|t| - 1];
        }
      }
    }
  }

  /** A path resolves without error exactly when it is the root path or it
      starts with a separator and never has two separators in a row. */
  lemma ResolveSucceedsIff(ns: seq<PathNode>, path: string)
    requires WellFormed(ns)
    ensures Resolve(ns, path).1.Ok? <==>
      path == PathSeparator || (path != "" && path[0] == PathSeparatorCharacter && NoDoubleSeparator(path))
  {
    if path != "" && path != PathSeparator && path[0] == PathSeparatorCharacter {
      SplitNonEmptyIff(TrimmedRange(path));
      TrimmedRangeNoEmptySegmentIff(path);
      var comps := Components(path);
      assert Resolve(ns, path).1.Ok? <==> FirstEmpty(comps) == |comps|;
    }
  }

  /** On success the node's path from the root is exactly the components of
      the path, none of them empty, and at most one node was added per
      component.  The root path resolves to the root and adds nothing. */
  lemma ResolveReachesComponents(ns: seq<PathNode>, path: string)
    requires WellFormed(ns)
    ensures path == PathSeparator ==> Resolve(ns, path) == (ns, Ok(RootIndex))
    ensures path != PathSeparator && Resolve(ns, path).1.Ok? ==>
      && |path| >= 2 && path[0] == PathSeparatorCharacter
      && "" !in Components(path)
      && PathOf(Resolve(ns, path).0, Resolve(ns, path).1.value) == Components(path)
      && |Resolve(ns, path).0| <= |ns| + |Components(path)|
  {
    if path != PathSeparator && Resolve(ns, path).1.Ok? {
      var comps := Components(path);
      assert FirstEmpty(comps) == |comps|;
      assert comps[..|comps|] == comps;
      WalkPath(ns, RootIndex, comps);
    }
  }

  /** The nodes a walk along the first `k` components creates from the root
      are the nodes of the root paths of those components' non-empty prefixes. */
  lemma WalkPrefixAddsOnlyPathNodes(ns: seq<PathNode>, comps: seq<string>, k: nat)
    requires WellFormed(ns) && k <= |comps|
    ensures forall n :: |ns| <= n < |Walk(ns, RootIndex, comps[..k]).0| ==>
      exists j :: 1 <= j <= k && PathOf(Walk(ns, RootIndex, comps[..k]).0, n) == comps[..j]
  {
    var c := comps[..k];
    var w := Walk(ns, RootIndex, c);
    assert PathOf(ns, RootIndex) == [];
    forall n | |ns| <= n < |w.0|
      ensures exists j :: 1 <= j <= k && PathOf(w.0, n) == comps[..j]
    {
      WalkAddsOnlyPathNodes(ns, RootIndex, c, n);
      var j :| 1 <= j <= |c| && PathOf(w.0, n) == PathOf(ns, RootIndex) + c[..j];
      assert c[..j] == comps[..j];
    }
  }

  /** A path whose walk stops at an empty component keeps the nodes it made
      for the components before it: they are not rolled back. */
  lemma EmptyComponentKeepsPrefix(ns: seq<PathNode>, path: string)
    requires WellFormed(ns)
    requires Resolve(ns, path).1 == Err(EmptyPathComponent(path))
    ensures |path| >= 2 && path[0] == PathSeparatorCharacter
    ensures var k := FirstEmpty(Components(path));
      k < |Components(path)| &&
      exists n :: 0 <= n < |Resolve(ns, path).0| && PathOf(Resolve(ns, path).0, n) == Components(path)[..k]
    ensures |Resolve(ns, path).0| <= |ns| + FirstEmpty(Components(path))
    ensures forall n :: |ns| <= n < |Resolve(ns, path).0| ==>
      exists j :: 1 <= j <= FirstEmpty(Components(path)) && PathOf(Resolve(ns, path).0, n) == Components(path)[..j]
  {
    var comps := Components(path);
    var k := FirstEmpty(comps);
    var w := Walk(ns, RootIndex, comps[..k]);
    assert Resolve(ns, path) == (w.0, Err(EmptyPathComponent(path)));
    WalkPath(ns, RootIndex, comps[..k]);
    assert PathOf(w.0, w.1) == comps[..k];
    WalkPrefixAddsOnlyPathNodes(ns, comps, k);
  }

  /** Resolving over an extension of an earlier result gives the same answer
      and adds nothing. */
  lemma ResolveStable(ns: seq<PathNode>, path: string, ns2: seq<PathNode>)
    requires WellFormed(ns) && WellFormed(ns2) && Extends(Resolve(ns, path).0, ns2)
    ensures Resolve(ns2, path) == (ns2, Resolve(ns, path).1)
  {
    if path != "" && path != PathSeparator && path[0] == PathSeparatorCharacter {
      var comps := Components(path);
      WalkStable(ns, RootIndex, comps[..FirstEmpty(comps)], ns2);
    }
  }

  /** Resolving the same path twice returns the identical node (or the same
      error) and the second call creates no nodes. */
  lemma ResolveIdempotent(ns: seq<PathNode>, path: string)
    requires WellFormed(ns)
    ensures Resolve(Resolve(ns, path).0, path) == Resolve(ns, path)
  {
    ResolveStable(ns, path, Resolve(ns, path).0);
  }

  /** Exactly one trailing separator is trimmed silently: `p + "/"` resolves
      like `p` for an absolute `p` that does not already end in one. */
  lemma ResolveTrailingSeparator(ns: seq<PathNode>, path: string)
    requires WellFormed(ns)
    requires path != "" && path[0] == PathSeparatorCharacter && path[|path| - 1] != PathSeparatorCharacter
    ensures Resolve(ns, path + PathSeparator).0 == Resolve(ns, path).0
    ensures Resolve(ns, path).1.Ok? ==> Resolve(ns, path + PathSeparator).1 == Resolve(ns, path).1
    ensures Resolve(ns, path).1.Err? ==> Resolve(ns, path + PathSeparator).1 == Err(EmptyPathComponent(path + PathSeparator))
  {
    var p := path + PathSeparator;
    assert TrimmedRange(p) == TrimmedRange(path);
  }

  /** `"/a//"` still has an empty component after the trailing separator is
      trimmed; the node for `a` is created all the same. */
  lemma DoubleTrailingSeparatorIsEmptyComponent(ns: seq<PathNode>)
    requires WellFormed(ns)
    ensures Resolve(ns, "/a//").1 == Err(EmptyPathComponent("/a//"))
    ensures exists n :: 0 <= n < |Resolve(ns, "/a//").0| && PathOf(Resolve(ns, "/a//").0, n) == ["a"]
  {
    var path := "/a//";
    assert TrimmedRange(path) == "a/" == "a" + PathSeparator + "";
    SeparatorAfter("a", "");
    assert Split("") == [""];
    assert "a/"[..1] == "a" && "a/"[2..] == "";
    assert Split("a/") == ["a", ""];
    EmptyComponentKeepsPrefix(ns, path);
  }

  /** The arena with node `i` holding element `kind`; names, parents and
      children are untouched. */
  function WithElement(ns: seq<PathNode>, i: nat, kind: ElementKind): (r: seq<PathNode>)
    requires WellFormed(ns) && i < |ns|
    ensures WellFormed(r) && Extends(ns, r) && Extends(r, ns) && |r| == |ns|
    ensures r[i].kind == kind
    ensures forall j :: 0 <= j < |ns| && j != i ==> r[j] == ns[j]
  {
    var r := ns[i := ns[i].(kind := kind)];
    assert forall c :: 0 < c < |r| ==> ParentLink(r, c) by {
      forall c | 0 < c < |r| ensures ParentLink(r, c) {
        assert ParentLink(ns, c);
      }
    }
    assert forall j, n :: 0 <= j < |r| && n in r[j].children ==> ChildLink(r, j, n) by {
      forall j, n | 0 <= j < |r| && n in r[j].children ensures ChildLink(r, j, n) {
        assert ChildLink(ns, j, n);
      }
    }
    r
  }

  // ---------------------------------------------------------------------
  // The tree object.

  class PathTree {
    var nodes: seq<PathNode>

    ghost predicate Valid()
      reads this
    {
      WellFormed(nodes)
    }

    /** A tree holding only its root. */
    constructor ()
      ensures Valid() && nodes == FreshTree()
    {
      nodes := FreshTree();
    }

    /** Node `parent`'s child called `name`, created if it is missing. */
    method GetOrCreateChildByName(parent: nat, name: string) returns (child: nat)
      requires Valid() && parent < |nodes|
      modifies this
      ensures Valid()
      ensures (nodes, child) == GetOrCreateChild(old(nodes), parent, name)
    {
      ghost var spec := GetOrCreateChild(nodes, parent, name);
      var p := nodes[parent];
      if name in p.children {
        child := p.children[name];
      } else {
        child := |nodes|;
        nodes := nodes[parent := p.(children := p.children[name := child])] + [PathNode(name, NullElement, Some(parent), map[])];
      }
      assert nodes == spec.0;
    }

    /** Assigns the element held by node `i`; the shape of the tree stays. */
    method SetElement(i: nat, kind: ElementKind)
      requires Valid() && i < |nodes|
      modifies this
      ensures Valid()
      ensures nodes == WithElement(old(nodes), i, kind)
    {
      nodes := nodes[i := nodes[i].(kind := kind)];
      assert nodes == WithElement(old(nodes), i, kind);
    }

    /** `pathParseAndRetrieve(path, root)`: validates the path, trims one
        trailing separator and walks down from the root, creating each
        missing node, until the path ends or an empty component is met. */
    method PathParseAndRetrieve(path: string, root: nat) returns (r: Result<nat, RoutingError>)
      requires Valid() && root < |nodes| && nodes[root].parent.None?
      modifies this
      ensures Valid()
      ensures (nodes, r) == Resolve(old(nodes), path)
    {
      assert root == RootIndex || ParentLink(nodes, root);
      if path == "" {
        return Err(EmptyPath);
      }
      if path == PathSeparator {
        return Ok(root);
      }
      if path[0] != PathSeparatorCharacter {
        return Err(PathNotAbsolute(path));
      }
      var len := |path|;
      var theEnd := if path[len - 1] == PathSeparatorCharacter then len - 1 else len;
      var components := Split(path[1..theEnd]);
      assert components == Components(path);
      ghost var k := FirstEmpty(components);
      ghost var ns0 := nodes;
      var ret := root;
      var i := 0;
      while i < |components|
        invariant 0 <= i <= |components|
        invariant (nodes, ret) == Walk(ns0, root, components[..i])
        invariant i <= k
      {
        var component := components[i];
        if component == "" {
          assert k == i;
          return Err(EmptyPathComponent(path));
        }
        assert i < k;
        WalkStep(ns0, root, components, i, nodes, ret);
        ret := GetOrCreateChildByName(ret, component);
        assert (nodes, ret) == Walk(ns0, root, components[..i + 1]);
        i := i + 1;
      }
      assert k == |components| && components[..i] == components;
      return Ok(ret);
    }

    /** `getNodeByPath`: resolves an absolute path from this tree's root. */
    method GetNodeByPath(path: string) returns (r: Result<nat, RoutingError>)
      requires Valid()
      modifies this
      ensures Valid()
      ensures (nodes, r) == Resolve(old(nodes), path)
    {
      r := PathParseAndRetrieve(path, RootIndex);
    }
  }
}
