/** ac_trie: the builder that owns the root and inserts patterns. A pattern
    is a sequence of tokens; inserting it walks and extends the trie from the
    root and marks the node it ends on with the pattern's payload. */
module AcTrie {
  import opened Wrappers
  import opened SortedSearch
  import opened TrieNodes

  // ---------------------------------------------------------------------
  // paths and the trie invariant

  /** The node reached from `n` by following direct edges along `w`, or
      None when some edge is missing. */
  function Walk<P>(a: Arena<P>, n: nat, w: seq<int>): (r: Option<nat>)
    requires n < |a|
    ensures r.Some? ==> r.value < |a|
    decreases |w|
  {
    if |w| == 0 then Some(n)
    else
      match Get(a[n], w[0])
      case None => None
      case Some(c) => if c < |a| then Walk(a, c, w[1..]) else None
  }

  ghost predicate IsSuffix(u: seq<int>, w: seq<int>) {
    |u| <= |w| && w[|w| - |u|..] == u
  }

  ghost predicate ProperSuffix(u: seq<int>, w: seq<int>) {
    |u| < |w| && IsSuffix(u, w)
  }

  /** What the trie invariant asks of node `x` under labelling `L`: it is not
      a root unless it is node 0, each of its edges extends its path by the
      edge's token, its failure link (unless it is the root) names a node
      whose path is a proper suffix of its own, and walking its path from the
      root reaches it. */
  ghost predicate NodeOk<P>(a: Arena<P>, L: seq<seq<int>>, x: nat)
    requires NodeWF(a, x) && |L| == |a|
  {
    && (x != RootIndex ==> !a[x].kind.Root?)
    && (forall i | 0 <= i < |a[x].edges| ::
          L[a[x].edges[i].child] == L[x] + [a[x].edges[i].token])
    && (x != RootIndex ==> ProperSuffix(L[a[x].fail], L[x]))
    && Walk(a, RootIndex, L[x]) == Some(x)
  }

  /** The trie invariant, witnessed by a labelling `L` giving each node its
      token path from the root: the arena is well formed, the root is node 0
      with the empty path and its failure link is itself, and every node
      satisfies NodeOk. */
  ghost predicate Valid<P>(a: Arena<P>, L: seq<seq<int>>) {
    && WellFormed(a)
    && |L| == |a| && L[RootIndex] == []
    && a[RootIndex].kind.Root? && a[RootIndex].fail == RootIndex
    && (forall x | 0 <= x < |a| :: NodeOk(a, L, x))
  }

  /** The child under token `k` carries its parent's path extended by `k`. */
  lemma ChildLabel<P>(a: Arena<P>, L: seq<seq<int>>, x: nat, k: int)
    requires Valid(a, L) && x < |a| && Get(a[x], k).Some?
    ensures 0 < Get(a[x], k).value < |a|
    ensures L[Get(a[x], k).value] == L[x] + [k]
  {
    assert NodeOk(a, L, x);
    var i :| 0 <= i < |a[x].edges| && a[x].edges[i] == Edge(k, Get(a[x], k).value);
  }

  /** A non-root node's failure link names a node with a proper suffix of its path. */
  lemma FailLabel<P>(a: Arena<P>, L: seq<seq<int>>, x: nat)
    requires Valid(a, L) && 0 < x < |a|
    ensures a[x].fail < |a| && ProperSuffix(L[a[x].fail], L[x]) && 0 < |L[x]|
    ensures !a[x].kind.Root?
  {
    assert NodeOk(a, L, x);
  }

  /** Every node is reached by walking its path from the root. */
  lemma Reached<P>(a: Arena<P>, L: seq<seq<int>>, x: nat)
    requires Valid(a, L) && x < |a|
    ensures Walk(a, RootIndex, L[x]) == Some(x)
  {
    assert NodeOk(a, L, x);
  }

  /** Entries `i` and `i + 1` of `c` are a non-root node and its failure link. */
  ghost predicate ChainStep<P>(a: Arena<P>, c: seq<nat>, i: nat) {
    i + 1 < |c| && c[i] < |a| && c[i] != RootIndex && c[i + 1] == a[c[i]].fail
  }

  /** The failure chain of `x`: `x`, its failure link, that node's link,
      and so on, ending at the first root reached. */
  ghost function FailChain<P>(a: Arena<P>, L: seq<seq<int>>, x: nat): (c: seq<nat>)
    requires Valid(a, L) && x < |a|
    ensures 0 < |c| && c[0] == x && c[|c| - 1] == RootIndex
    ensures forall i | 0 <= i < |c| :: c[i] < |a|
    ensures forall i | 0 <= i < |c| - 1 :: ChainStep(a, c, i)
    decreases |L[x]|
  {
    if x == RootIndex then [x]
    else
      FailLabel(a, L, x);
      var rest := FailChain(a, L, a[x].fail);
      var c := [x] + rest;
      forall i | 0 <= i < |c| - 1
        ensures ChainStep(a, c, i)
      {
        if i > 0 {
          assert ChainStep(a, rest, i - 1);
        }
      }
      c
  }

  /** Node `x` has a child under `k`. */
  ghost predicate HasChild<P>(a: Arena<P>, x: nat, k: int) {
    x < |a| && Get(a[x], k).Some?
  }

  /** Entry `i` of `c` is the first with a child under `k`. */
  ghost predicate FirstWithChild<P>(a: Arena<P>, c: seq<nat>, k: int, i: nat) {
    && i < |c| && HasChild(a, c[i], k)
    && forall j | 0 <= j < i :: !HasChild(a, c[j], k)
  }

  /** Two nodes of a valid trie never share a path. */
  lemma DistinctNodesDistinctLabels<P>(a: Arena<P>, L: seq<seq<int>>, x: nat, y: nat)
    requires Valid(a, L) && x < |a| && y < |a| && x != y
    ensures L[x] != L[y]
  {
    Reached(a, L, x);
    Reached(a, L, y);
  }

  /** Of two suffixes of one sequence, the shorter is a suffix of the longer. */
  lemma SuffixOfSuffix(u: seq<int>, v: seq<int>, w: seq<int>)
    requires IsSuffix(u, w) && IsSuffix(v, w) && |u| <= |v|
    ensures IsSuffix(u, v)
  {
    assert v[|v| - |u|..] == w[|w| - |v|..][|v| - |u|..];
  }

  lemma SuffixTransitive(u: seq<int>, v: seq<int>, w: seq<int>)
    requires IsSuffix(u, v) && IsSuffix(v, w)
    ensures IsSuffix(u, w)
  {
    assert w[|w| - |u|..] == w[|w| - |v|..][|v| - |u|..];
  }

  lemma SuffixSnoc(u: seq<int>, w: seq<int>, k: int)
    requires IsSuffix(u, w)
    ensures IsSuffix(u + [k], w + [k])
  {
    assert (w + [k])[|w + [k]| - |u + [k]|..] == w[|w| - |u|..] + [k];
  }

  /** Walking `u` and then one more token is walking `u + [k]`. */
  lemma {:induction false} WalkSnoc<P>(a: Arena<P>, n: nat, u: seq<int>, k: int)
    requires n < |a|
    ensures Walk(a, n, u + [k]) ==
              match Walk(a, n, u)
              case None => None
              case Some(x) =>
                match Get(a[x], k)
                case None => None
                case Some(c) => if c < |a| then Some(c) else None
    decreases |u|
  {
    if |u| == 0 {
      assert u + [k] == [k];
      assert [k][1..] == [];
    } else {
      assert (u + [k])[0] == u[0];
      assert (u + [k])[1..] == u[1..] + [k];
      match Get(a[n], u[0])
      case None =>
      case Some(c) =>
        if c < |a| {
          WalkSnoc(a, c, u[1..], k);
        }
    }
  }

  lemma ConsConcat(u: seq<int>, w: seq<int>)
    requires |w| > 0
    ensures u + [w[0]] + w[1..] == u + w
  {
    assert [w[0]] + w[1..] == w;
  }

  lemma SnocLast(w: seq<int>)
    requires |w| > 0
    ensures w[..|w| - 1] + [w[|w| - 1]] == w
  {
  }

  /** In a valid trie the node a walk reaches carries the walked path. */
  lemma {:induction false} WalkLabel<P>(a: Arena<P>, L: seq<seq<int>>, n: nat, w: seq<int>)
    requires Valid(a, L) && n < |a| && Walk(a, n, w).Some?
    ensures L[Walk(a, n, w).value] == L[n] + w
    decreases |w|
  {
    if |w| > 0 {
      var c := Get(a[n], w[0]).value;
      ChildLabel(a, L, n, w[0]);
      WalkLabel(a, L, c, w[1..]);
      ConsConcat(L[n], w);
    }
  }

  /** Walks that succeed in an arena succeed the same way in any extension. */
  lemma {:induction false} WalkExtends<P>(a: Arena<P>, b: Arena<P>, n: nat, w: seq<int>)
    requires Extends(a, b) && n < |a| && Walk(a, n, w).Some?
    ensures Walk(b, n, w) == Walk(a, n, w)
    decreases |w|
  {
    if |w| > 0 {
      var c := Get(a[n], w[0]).value;
      assert KeepsEdge(a, b, n, w[0]);
      WalkExtends(a, b, c, w[1..]);
    }
  }

  /** In a valid trie two paths reaching the same node are the same path:
      every node stands for exactly one pattern prefix. */
  lemma PathsAreUnique<P>(a: Arena<P>, L: seq<seq<int>>, u: seq<int>, w: seq<int>)
    requires Valid(a, L)
    requires Walk(a, RootIndex, u).Some? && Walk(a, RootIndex, u) == Walk(a, RootIndex, w)
    ensures u == w
  {
    WalkLabel(a, L, RootIndex, u);
    WalkLabel(a, L, RootIndex, w);
    assert [] + u == u && [] + w == w;
  }

  // ---------------------------------------------------------------------
  // construction

  /** ac_trie(): a trie holding only the root, whose failure link is itself. */
  function NewTrie<P>(): (a: Arena<P>)
    ensures |a| == 1 && a[RootIndex].kind.Root? && a[RootIndex].fail == RootIndex
    ensures Valid(a, [[]])
  {
    [NewRoot()]
  }

  /** Node `x` has the same kind in both arenas. */
  ghost predicate KeepsKind<P>(a: Arena<P>, b: Arena<P>, x: nat) {
    x < |a| && x < |b| && b[x].kind == a[x].kind
  }

  /** Node `x` has the same failure link in both arenas. */
  ghost predicate KeepsFail<P>(a: Arena<P>, b: Arena<P>, x: nat) {
    x < |a| && x < |b| && b[x].fail == a[x].fail
  }

  /** Node `x` has the root as failure link. */
  ghost predicate HasRootFail<P>(b: Arena<P>, x: nat) {
    x < |b| && b[x].fail == RootIndex
  }

  /** Node `x` is a branch node with the root as failure link. */
  ghost predicate FreshBranch<P>(b: Arena<P>, x: nat) {
    HasRootFail(b, x) && b[x].kind.Branch?
  }

  lemma PrefixAppend<T>(L: seq<T>, e: T)
    ensures L <= L + [e]
  {
    assert (L + [e])[..|L|] == L;
  }

  lemma PrefixTransitive<T>(L0: seq<T>, L1: seq<T>, L2: seq<T>)
    requires L0 <= L1 && L1 <= L2
    ensures L0 <= L2
  {
  }

  /** Appending a leaf under token `k` of `p` keeps the trie valid, the leaf
      labelled with the parent's path extended by `k`. */
  lemma AttachValid<P>(a: Arena<P>, L: seq<seq<int>>, p: nat, k: int, child: Node<P>)
    requires Valid(a, L) && p < |a| && Get(a[p], k).None?
    requires child.edges == [] && child.fail == RootIndex && !child.kind.Root?
    ensures WellFormed(a + [child])
    ensures Valid(Attach(a, p, k, child), L + [L[p] + [k]])
  {
    WellFormedAppendLeaf(a, child);
    var r := Attach(a, p, k, child);
    var L' := L + [L[p] + [k]];
    if p != RootIndex {
      assert SameAt(a, r, RootIndex);
    }
    forall x | 0 <= x < |r|
      ensures NodeOk(r, L', x)
    {
      AttachNodeOk(a, L, p, k, child, x);
    }
  }

  lemma AttachNodeOk<P>(a: Arena<P>, L: seq<seq<int>>, p: nat, k: int, child: Node<P>, x: nat)
    requires Valid(a, L) && p < |a| && Get(a[p], k).None? && x <= |a|
    requires child.edges == [] && child.fail == RootIndex && !child.kind.Root?
    requires WellFormed(a + [child])
    ensures NodeWF(Attach(a, p, k, child), x)
    ensures NodeOk(Attach(a, p, k, child), L + [L[p] + [k]], x)
  {
    if x < |a| {
      AttachOldNodeOk(a, L, p, k, child, x);
    } else {
      AttachNewNodeOk(a, L, p, k, child, x);
    }
  }

  lemma AttachOldNodeOk<P>(a: Arena<P>, L: seq<seq<int>>, p: nat, k: int, child: Node<P>, x: nat)
    requires Valid(a, L) && p < |a| && Get(a[p], k).None? && x < |a|
    requires WellFormed(a + [child])
    ensures NodeWF(Attach(a, p, k, child), x)
    ensures NodeOk(Attach(a, p, k, child), L + [L[p] + [k]], x)
  {
    var r := Attach(a, p, k, child);
    var L' := L + [L[p] + [k]];
    assert NodeOk(a, L, x) && NodeWF(a, x) && NodeWF(r, x);
    assert L'[x] == L[x] && L'[a[x].fail] == L[a[x].fail];
    PrefixAppend(L, L[p] + [k]);
    if x == p {
      AttachParentEdges(a, L, p, k, child);
    } else {
      assert SameAt(a, r, x);
      OldEdgesLabelled(a, L, r, L', x);
    }
    WalkExtends(a, r, RootIndex, L[x]);
  }

  /** The parent's edges, old and new, stay labelled. */
  lemma AttachParentEdges<P>(a: Arena<P>, L: seq<seq<int>>, p: nat, k: int, child: Node<P>)
    requires Valid(a, L) && p < |a| && Get(a[p], k).None?
    requires WellFormed(a + [child])
    ensures var r := Attach(a, p, k, child);
            var L' := L + [L[p] + [k]];
            |L'| == |r| && NodeWF(r, p) &&
            forall i | 0 <= i < |r[p].edges| :: L'[r[p].edges[i].child] == L'[p] + [r[p].edges[i].token]
  {
    var r := Attach(a, p, k, child);
    var L' := L + [L[p] + [k]];
    assert NodeOk(a, L, p) && NodeWF(a, p) && NodeWF(r, p);
    forall i | 0 <= i < |r[p].edges|
      ensures L'[r[p].edges[i].child] == L'[p] + [r[p].edges[i].token]
    {
      AttachParentEdge(a, L, p, k, r, L', r[p].edges[i]);
    }
  }

  /** One edge of the parent after attaching: the new one, or an old one. */
  lemma AttachParentEdge<P>(a: Arena<P>, L: seq<seq<int>>, p: nat, k: int, r: Arena<P>, L': seq<seq<int>>, e: Edge)
    requires Valid(a, L) && p < |a| && NodeOk(a, L, p) && NodeWF(a, p)
    requires L' == L + [L[p] + [k]]
    requires e == Edge(k, |a|) || e in a[p].edges
    ensures e.child < |L'| && L'[e.child] == L'[p] + [e.token]
  {
    if e != Edge(k, |a|) {
      var j :| 0 <= j < |a[p].edges| && a[p].edges[j] == e;
    }
  }

  /** A node whose edges are unchanged keeps them labelled under an
      extended labelling. */
  lemma OldEdgesLabelled<P>(a: Arena<P>, L: seq<seq<int>>, r: Arena<P>, L': seq<seq<int>>, x: nat)
    requires Valid(a, L) && x < |a| && SameAt(a, r, x) && L <= L' && |L'| == |r|
    requires NodeWF(r, x)
    ensures forall i | 0 <= i < |r[x].edges| :: L'[r[x].edges[i].child] == L'[x] + [r[x].edges[i].token]
  {
    assert NodeOk(a, L, x) && NodeWF(a, x);
    forall i | 0 <= i < |r[x].edges|
      ensures L'[r[x].edges[i].child] == L'[x] + [r[x].edges[i].token]
    {
      assert r[x].edges[i] == a[x].edges[i];
      assert L'[a[x].edges[i].child] == L[a[x].edges[i].child];
    }
  }

  lemma AttachNewNodeOk<P>(a: Arena<P>, L: seq<seq<int>>, p: nat, k: int, child: Node<P>, x: nat)
    requires Valid(a, L) && p < |a| && Get(a[p], k).None? && x == |a|
    requires child.edges == [] && child.fail == RootIndex && !child.kind.Root?
    requires WellFormed(a + [child])
    ensures NodeWF(Attach(a, p, k, child), x)
    ensures NodeOk(Attach(a, p, k, child), L + [L[p] + [k]], x)
  {
    var r := Attach(a, p, k, child);
    var L' := L + [L[p] + [k]];
    assert NodeWF(r, x);
    assert L'[x] == L[p] + [k] && L'[RootIndex] == [];
    Reached(a, L, p);
    WalkExtends(a, r, RootIndex, L[p]);
    WalkSnoc(r, RootIndex, L[p], k);
  }

  /** trie_node::add(key, fail) with the root as provisional failure link
      keeps the trie valid; the returned child carries the parent's path
      extended by `k`. */
  lemma AddBranchValid<P>(a: Arena<P>, L: seq<seq<int>>, p: nat, k: int) returns (L': seq<seq<int>>)
    requires Valid(a, L) && p < |a|
    ensures Valid(AddBranch(a, p, k, RootIndex).0, L')
    ensures L <= L'
    ensures L'[AddBranch(a, p, k, RootIndex).1] == L[p] + [k]
    ensures forall x | |L| <= x < |L'| :: L'[x] == L[p] + [k]
  {
    match Get(a[p], k)
    case Some(c) =>
      ChildLabel(a, L, p, k);
      L' := L;
    case None =>
      AttachValid(a, L, p, k, Node(Branch, [], RootIndex));
      L' := L + [L[p] + [k]];
      PrefixAppend(L, L[p] + [k]);
  }

  /** The walk of all but the last token of a pattern: each token's child is
      found or created as a branch node with the root as failure link. Old
      nodes keep their kinds and failure links. */
  function AddPath<P>(a: Arena<P>, p: nat, w: seq<int>): (r: (Arena<P>, nat))
    requires WellFormed(a) && p < |a|
    ensures WellFormed(r.0) && Extends(a, r.0) && r.1 < |r.0|
    ensures Walk(r.0, p, w) == Some(r.1)
    ensures forall x | 0 <= x < |a| :: KeepsKind(a, r.0, x) && KeepsFail(a, r.0, x)
    ensures forall x | |a| <= x < |r.0| :: FreshBranch(r.0, x)
    decreases |w|
  {
    if |w| == 0 then (a, p)
    else
      var (a1, c) := AddBranch(a, p, w[0], RootIndex);
      var r := AddPath(a1, c, w[1..]);
      AddBranchKeeps(a, p, w[0], a1);
      AddPathStep(a, a1, r.0);
      ExtendsTransitive(a, a1, r.0);
      assert KeepsEdge(a1, r.0, p, w[0]);
      r
  }

  /** AddBranch keeps the kind and failure link of every old node, and any
      node it adds is a branch with the root as failure link. */
  lemma AddBranchKeeps<P>(a: Arena<P>, p: nat, k: int, a1: Arena<P>)
    requires WellFormed(a) && p < |a| && a1 == AddBranch(a, p, k, RootIndex).0
    ensures |a| <= |a1|
    ensures forall x | 0 <= x < |a| :: KeepsKind(a, a1, x) && KeepsFail(a, a1, x)
    ensures forall x | |a| <= x < |a1| :: FreshBranch(a1, x)
  {
    if Get(a[p], k).None? {
      forall x | 0 <= x < |a|
        ensures KeepsKind(a, a1, x) && KeepsFail(a, a1, x)
      {
        if x != p {
          assert SameAt(a, a1, x);
        }
      }
      forall x | |a| <= x < |a1|
        ensures FreshBranch(a1, x)
      {
        assert x == |a|;
      }
    } else {
      assert |a1| == |a|;
    }
  }

  /** Keeping old kinds and failure links, and adding only fresh branches,
      compose. */
  lemma AddPathStep<P>(a: Arena<P>, a1: Arena<P>, r: Arena<P>)
    requires |a| <= |a1| <= |r|
    requires forall x | 0 <= x < |a| :: KeepsKind(a, a1, x) && KeepsFail(a, a1, x)
    requires forall x | |a| <= x < |a1| :: FreshBranch(a1, x)
    requires forall x | 0 <= x < |a1| :: KeepsKind(a1, r, x) && KeepsFail(a1, r, x)
    requires forall x | |a1| <= x < |r| :: FreshBranch(r, x)
    ensures forall x | 0 <= x < |a| :: KeepsKind(a, r, x) && KeepsFail(a, r, x)
    ensures forall x | |a| <= x < |r| :: FreshBranch(r, x)
  {
    forall x | 0 <= x < |a|
      ensures KeepsKind(a, r, x) && KeepsFail(a, r, x)
    {
      assert KeepsKind(a, a1, x) && KeepsFail(a, a1, x);
      assert KeepsKind(a1, r, x) && KeepsFail(a1, r, x);
    }
    forall x | |a| <= x < |r|
      ensures FreshBranch(r, x)
    {
      if x < |a1| {
        assert FreshBranch(a1, x);
        assert KeepsKind(a1, r, x) && KeepsFail(a1, r, x);
      }
    }
  }

  lemma {:induction false} AddPathValid<P>(a: Arena<P>, L: seq<seq<int>>, p: nat, w: seq<int>) returns (L': seq<seq<int>>)
    requires Valid(a, L) && p < |a|
    ensures Valid(AddPath(a, p, w).0, L')
    ensures L <= L'
    ensures L'[AddPath(a, p, w).1] == L[p] + w
    ensures forall x | |L| <= x < |L'| :: L'[x] <= L[p] + w
    decreases |w|
  {
    if |w| == 0 {
      L' := L;
      assert L[p] + w == L[p];
    } else {
      var (a1, c) := AddBranch(a, p, w[0], RootIndex);
      var L1 := AddBranchValid(a, L, p, w[0]);
      L' := AddPathValid(a1, L1, c, w[1..]);
      PrefixTransitive(L, L1, L');
      ConsConcat(L[p], w);
      forall x | |L| <= x < |L'|
        ensures L'[x] <= L[p] + w
      {
        if x < |L1| {
          assert L'[x] == L1[x];
          PrefixCons(L[p], w);
        }
      }
    }
  }

  lemma PrefixCons(u: seq<int>, w: seq<int>)
    requires |w| > 0
    ensures u + [w[0]] <= u + w
  {
    assert (u + w)[..|u| + 1] == u + [w[0]];
  }

  /** ac_trie::add(word, value). An empty pattern changes nothing. Otherwise
      the pattern's path from the root afterwards ends on a match node
      carrying `value`; every path present before is still present and
      leads to the same node; no failure link changes and new nodes get the
      root as failure link; no node but the pattern's own changes kind. */
  function Add<P>(a: Arena<P>, w: seq<int>, v: P): (r: Arena<P>)
    requires WellFormed(a)
    ensures WellFormed(r) && Extends(a, r)
    ensures |w| == 0 ==> r == a
    ensures |w| > 0 ==> Walk(r, RootIndex, w).Some? && r[Walk(r, RootIndex, w).value].kind == Match(v)
    ensures forall x | 0 <= x < |a| :: KeepsFail(a, r, x)
    ensures forall x | |a| <= x < |r| :: HasRootFail(r, x)
    ensures forall x | 0 <= x < |a| && (|w| == 0 || Walk(r, RootIndex, w) != Some(x)) :: KeepsKind(a, r, x)
    ensures forall x | |a| <= x < |r| && Walk(r, RootIndex, w) != Some(x) :: r[x].kind.Branch?
  {
    if |w| == 0 then
      assert forall x | 0 <= x < |a| :: KeepsFail(a, a, x) && KeepsKind(a, a, x);
      a
    else
      var prefix := w[..|w| - 1];
      var (a1, p) := AddPath(a, RootIndex, prefix);
      var child := NewPayload(RootIndex, v);
      WellFormedAppendLeaf(a1, child);
      var r := AddShim(a1, p, w[|w| - 1], child);
      SnocLast(w);
      AddShimFacts(a, a1, p, prefix, w[|w| - 1], v);
      r
  }

  lemma AddShimFacts<P>(a: Arena<P>, a1: Arena<P>, p: nat, prefix: seq<int>, k: int, v: P)
    requires WellFormed(a) && WellFormed(a1) && Extends(a, a1) && p < |a1|
    requires Walk(a1, RootIndex, prefix) == Some(p)
    requires forall x | 0 <= x < |a| :: KeepsKind(a, a1, x) && KeepsFail(a, a1, x)
    requires forall x | |a| <= x < |a1| :: FreshBranch(a1, x)
    requires WellFormed(a1 + [NewPayload(RootIndex, v)])
    ensures var r := AddShim(a1, p, k, NewPayload(RootIndex, v));
            && Extends(a, r)
            && Walk(r, RootIndex, prefix + [k]).Some?
            && r[Walk(r, RootIndex, prefix + [k]).value].kind == Match(v)
            && (forall x | 0 <= x < |a| :: KeepsFail(a, r, x))
            && (forall x | |a| <= x < |r| :: HasRootFail(r, x))
            && (forall x | 0 <= x < |a| && Walk(r, RootIndex, prefix + [k]) != Some(x) :: KeepsKind(a, r, x))
            && (forall x | |a| <= x < |r| && Walk(r, RootIndex, prefix + [k]) != Some(x) :: r[x].kind.Branch?)
  {
    var child := NewPayload(RootIndex, v);
    var r := AddShim(a1, p, k, child);
    ExtendsTransitive(a, a1, r);
    AddShimWalk(a1, p, prefix, k, child);
    AddShimFails(a, a1, p, k, child);
    forall x | 0 <= x < |a| && Walk(r, RootIndex, prefix + [k]) != Some(x)
      ensures KeepsKind(a, r, x)
    {
      assert KeepsKind(a, a1, x);
      AddShimKeeps(a1, p, k, child, x);
    }
    AddShimNewKinds(a, a1, p, k, child);
  }

  /** A node AddShim leaves among the new ones, unless the token leads to
      it, is still a fresh branch. */
  lemma AddShimNewKinds<P>(a: Arena<P>, a1: Arena<P>, p: nat, k: int, child: Node<P>)
    requires WellFormed(a1) && p < |a1| && WellFormed(a1 + [child]) && |a| <= |a1|
    requires forall x | |a| <= x < |a1| :: FreshBranch(a1, x)
    ensures var r := AddShim(a1, p, k, child);
            forall x | |a| <= x < |r| && Get(r[p], k) != Some(x) :: r[x].kind.Branch?
  {
    var r := AddShim(a1, p, k, child);
    forall x | |a| <= x < |r| && Get(r[p], k) != Some(x)
      ensures r[x].kind.Branch?
    {
      AddShimNewKind(a, a1, p, k, child, x);
    }
  }

  lemma AddShimNewKind<P>(a: Arena<P>, a1: Arena<P>, p: nat, k: int, child: Node<P>, x: nat)
    requires WellFormed(a1) && p < |a1| && WellFormed(a1 + [child]) && |a| <= |a1|
    requires forall x | |a| <= x < |a1| :: FreshBranch(a1, x)
    requires |a| <= x < |AddShim(a1, p, k, child)|
    requires Get(AddShim(a1, p, k, child)[p], k) != Some(x)
    ensures AddShim(a1, p, k, child)[x].kind.Branch?
  {
    var r := AddShim(a1, p, k, child);
    AddShimGrows(a1, p, k, child);
    if |r| == |a1| + 1 {
      assert Get(r[p], k) == Some(|a1|);
      assert x != |a1|;
    }
    assert x < |a1|;
    assert FreshBranch(a1, x);
    AddShimKeeps(a1, p, k, child, x);
  }

  /** AddShim grows the arena only when it attaches the new node under the
      token. */
  lemma AddShimGrows<P>(a: Arena<P>, p: nat, k: int, child: Node<P>)
    requires WellFormed(a) && p < |a| && WellFormed(a + [child])
    ensures |AddShim(a, p, k, child)| <= |a| + 1
    ensures |AddShim(a, p, k, child)| == |a| + 1 ==> Get(AddShim(a, p, k, child)[p], k) == Some(|a|)
  {
    match Get(a[p], k)
    case None =>
    case Some(c) =>
  }

  /** After AddShim the path extended by the token ends on the node the
      token leads to, which carries the new node's kind. */
  lemma AddShimWalk<P>(a: Arena<P>, p: nat, prefix: seq<int>, k: int, child: Node<P>)
    requires WellFormed(a) && p < |a| && WellFormed(a + [child])
    requires Walk(a, RootIndex, prefix) == Some(p)
    ensures var r := AddShim(a, p, k, child);
            && Walk(r, RootIndex, prefix + [k]) == Get(r[p], k)
            && Get(r[p], k).Some?
            && r[Get(r[p], k).value].kind == child.kind
  {
    var r := AddShim(a, p, k, child);
    WalkExtends(a, r, RootIndex, prefix);
    WalkSnoc(r, RootIndex, prefix, k);
    match Get(a[p], k)
    case None =>
      assert Get(r[p], k) == Some(|a|) && r[|a|] == child;
    case Some(c) =>
      assert Get(r[p], k) == Some(c) && r[c].kind == child.kind;
  }

  /** AddShim keeps old failure links and gives new nodes the root's. */
  lemma AddShimFails<P>(a: Arena<P>, a1: Arena<P>, p: nat, k: int, child: Node<P>)
    requires WellFormed(a1) && p < |a1| && WellFormed(a1 + [child]) && |a| <= |a1|
    requires child.fail == RootIndex
    requires forall x | 0 <= x < |a| :: KeepsKind(a, a1, x) && KeepsFail(a, a1, x)
    requires forall x | |a| <= x < |a1| :: FreshBranch(a1, x)
    ensures var r := AddShim(a1, p, k, child);
            && (forall x | 0 <= x < |a| :: KeepsFail(a, r, x))
            && (forall x | |a| <= x < |r| :: HasRootFail(r, x))
  {
    var r := AddShim(a1, p, k, child);
    forall x | 0 <= x < |a|
      ensures KeepsFail(a, r, x)
    {
      assert KeepsFail(a, a1, x);
      AddShimKeeps(a1, p, k, child, x);
    }
    forall x | |a| <= x < |r|
      ensures HasRootFail(r, x)
    {
      AddShimNewFail(a, a1, p, k, child, x);
    }
  }

  lemma AddShimNewFail<P>(a: Arena<P>, a1: Arena<P>, p: nat, k: int, child: Node<P>, x: nat)
    requires WellFormed(a1) && p < |a1| && WellFormed(a1 + [child]) && |a| <= |a1|
    requires child.fail == RootIndex
    requires forall x | |a| <= x < |a1| :: FreshBranch(a1, x)
    requires |a| <= x < |AddShim(a1, p, k, child)|
    ensures HasRootFail(AddShim(a1, p, k, child), x)
  {
    if x < |a1| {
      assert FreshBranch(a1, x);
      AddShimKeeps(a1, p, k, child, x);
    } else {
      AddShimLast(a1, p, k, child);
    }
  }

  /** A node AddShim appends is the new node. */
  lemma AddShimLast<P>(a: Arena<P>, p: nat, k: int, child: Node<P>)
    requires WellFormed(a) && p < |a| && WellFormed(a + [child])
    ensures |AddShim(a, p, k, child)| <= |a| + 1
    ensures |AddShim(a, p, k, child)| == |a| + 1 ==> AddShim(a, p, k, child)[|a|] == child
  {
  }

  /** AddShim leaves every old failure link alone, and every old node's kind
      except the one the token leads to. */
  lemma AddShimKeeps<P>(a: Arena<P>, p: nat, k: int, child: Node<P>, x: nat)
    requires WellFormed(a) && p < |a| && WellFormed(a + [child]) && x < |a|
    ensures x < |AddShim(a, p, k, child)|
    ensures AddShim(a, p, k, child)[x].fail == a[x].fail
    ensures Get(AddShim(a, p, k, child)[p], k) != Some(x) ==> AddShim(a, p, k, child)[x].kind == a[x].kind
  {
    var r := AddShim(a, p, k, child);
    if x != p && Get(a[p], k) != Some(x) {
      assert SameAt(a, r, x);
    }
  }

  /** Inserting keeps the trie valid, under a labelling that extends the old
      one. */
  lemma AddValid<P>(a: Arena<P>, L: seq<seq<int>>, w: seq<int>, v: P) returns (L': seq<seq<int>>)
    requires Valid(a, L)
    ensures Valid(Add(a, w, v), L')
    ensures L <= L'
    ensures forall x | |L| <= x < |L'| :: L'[x] <= w
  {
    if |w| == 0 {
      L' := L;
    } else {
      var prefix := w[..|w| - 1];
      var (a1, p) := AddPath(a, RootIndex, prefix);
      var child := NewPayload(RootIndex, v);
      WellFormedAppendLeaf(a1, child);
      L' := AddSteps(a, L, w, v);
      assert Add(a, w, v) == AddShim(a1, p, w[|w| - 1], child);
    }
  }

  /** The two steps of a non-empty insertion, the path and the last token,
      keep the trie valid under a labelling by prefixes of the word. */
  lemma AddSteps<P>(a: Arena<P>, L: seq<seq<int>>, w: seq<int>, v: P) returns (L': seq<seq<int>>)
    requires Valid(a, L) && |w| > 0
    requires WellFormed(AddPath(a, RootIndex, w[..|w| - 1]).0 + [NewPayload(RootIndex, v)])
    ensures var (a1, p) := AddPath(a, RootIndex, w[..|w| - 1]);
            Valid(AddShim(a1, p, w[|w| - 1], NewPayload(RootIndex, v)), L')
    ensures L <= L'
    ensures forall x | |L| <= x < |L'| :: L'[x] <= w
  {
    var prefix := w[..|w| - 1];
    var (a1, p) := AddPath(a, RootIndex, prefix);
    var L1 := AddPathValid(a, L, RootIndex, prefix);
    L' := AddShimValid(a1, L1, p, w[|w| - 1], NewPayload(RootIndex, v));
    assert L[RootIndex] + prefix == prefix;
    AddValidNewLabels(L, L1, L', L1[p], w);
  }

  /** The last step of insertion keeps the trie valid; the one new node, if
      any, is labelled with its parent's path and the token. */
  lemma AddShimValid<P>(a: Arena<P>, L: seq<seq<int>>, p: nat, k: int, child: Node<P>) returns (L': seq<seq<int>>)
    requires Valid(a, L) && p < |a|
    requires child.edges == [] && child.fail == RootIndex && !child.kind.Root?
    requires WellFormed(a + [child])
    ensures Valid(AddShim(a, p, k, child), L')
    ensures L <= L'
    ensures forall x | |L| <= x < |L'| :: L'[x] == L[p] + [k]
  {
    match Get(a[p], k)
    case None =>
      AttachValid(a, L, p, k, child);
      L' := L + [L[p] + [k]];
      PrefixAppend(L, L[p] + [k]);
    case Some(c) =>
      ChildInRange(a, p, k);
      PromoteValid(a, L, c, child.kind);
      L' := L;
  }

  lemma AddValidNewLabels(L: seq<seq<int>>, L1: seq<seq<int>>, L': seq<seq<int>>, lp: seq<int>, w: seq<int>)
    requires |w| > 0 && lp == w[..|w| - 1] && L <= L1 && L1 <= L'
    requires forall x | |L| <= x < |L1| :: L1[x] <= lp
    requires forall x | |L1| <= x < |L'| :: L'[x] == lp + [w[|w| - 1]]
    ensures L <= L'
    ensures forall x | |L| <= x < |L'| :: L'[x] <= w
  {
    SnocLast(w);
    forall x | |L| <= x < |L'|
      ensures L'[x] <= w
    {
      if x < |L1| {
        assert L'[x] == L1[x];
      }
    }
  }

  /** Promotion in place keeps the trie valid. */
  lemma PromoteValid<P>(a: Arena<P>, L: seq<seq<int>>, c: nat, kind: Kind<P>)
    requires Valid(a, L) && 0 < c < |a| && !kind.Root?
    ensures Valid(Promote(a, c, kind), L)
  {
    var r := Promote(a, c, kind);
    assert SameAt(a, r, RootIndex);
    forall x | 0 <= x < |a|
      ensures NodeOk(r, L, x)
    {
      PromoteNodeOk(a, L, c, kind, x);
    }
  }

  lemma PromoteNodeOk<P>(a: Arena<P>, L: seq<seq<int>>, c: nat, kind: Kind<P>, x: nat)
    requires Valid(a, L) && 0 < c < |a| && !kind.Root? && x < |a|
    ensures NodeWF(Promote(a, c, kind), x)
    ensures NodeOk(Promote(a, c, kind), L, x)
  {
    var r := Promote(a, c, kind);
    assert NodeOk(a, L, x) && NodeWF(r, x);
    if x != c {
      assert SameAt(a, r, x);
    }
    assert r[x].edges == a[x].edges && r[x].fail == a[x].fail;
    WalkExtends(a, r, RootIndex, L[x]);
  }

  /** Every pattern inserted before an insertion of a different pattern
      keeps its node and that node's kind (and so its payload). */
  lemma AddKeepsOtherPatterns<P>(a: Arena<P>, L: seq<seq<int>>, w: seq<int>, v: P, u: seq<int>)
    requires Valid(a, L) && u != w && Walk(a, RootIndex, u).Some?
    ensures Walk(Add(a, w, v), RootIndex, u) == Walk(a, RootIndex, u)
    ensures Add(a, w, v)[Walk(a, RootIndex, u).value].kind == a[Walk(a, RootIndex, u).value].kind
  {
    var r := Add(a, w, v);
    var L' := AddValid(a, L, w, v);
    WalkExtends(a, r, RootIndex, u);
    if |w| > 0 && Walk(r, RootIndex, w) == Walk(r, RootIndex, u) {
      PathsAreUnique(r, L', u, w);
    }
    assert KeepsKind(a, r, Walk(a, RootIndex, u).value);
  }

  /** Inserting a pattern adds no path but prefixes of the pattern: a path
      the new trie has is either one the old trie had or a prefix of the
      pattern. */
  lemma AddOnlyAddsPrefixes<P>(a: Arena<P>, L: seq<seq<int>>, w: seq<int>, v: P, u: seq<int>)
    requires Valid(a, L) && Walk(Add(a, w, v), RootIndex, u).Some?
    ensures Walk(a, RootIndex, u).Some? || u <= w
  {
    var r := Add(a, w, v);
    var L' := AddValid(a, L, w, v);
    var y := Walk(r, RootIndex, u).value;
    WalkLabel(r, L', RootIndex, u);
    assert L'[y] == u;
    if y < |a| {
      assert L'[y] == L[y];
      Reached(a, L, y);
    }
  }

  /** Re-inserting a pattern keeps the last payload. */
  lemma AddTwiceKeepsLast<P>(a: Arena<P>, w: seq<int>, v1: P, v2: P)
    requires WellFormed(a) && |w| > 0
    ensures var r := Add(Add(a, w, v1), w, v2);
            Walk(r, RootIndex, w).Some? && r[Walk(r, RootIndex, w).value].kind == Match(v2)
            && Walk(r, RootIndex, w) == Walk(Add(a, w, v1), RootIndex, w)
  {
    var a1 := Add(a, w, v1);
    WalkExtends(a1, Add(a1, w, v2), RootIndex, w);
  }
}
