/** ac_trie::compile: the breadth-first pass that sets every failure link.
    The root's children keep the root as failure link; every deeper node gets
    the link that compile_visitor::visit computes from its parent's link. */
module AcCompile {
  import opened Wrappers
  import opened SortedSearch
  import opened TrieNodes
  import opened AcTrie

  /** The failure loop of compile_visitor::visit for a child under token
      `k`, started from the parent's failure link `state`: probe `state` for
      a `k` child (the root standing for "none"); stop when one is found or
      when the probed state's own failure link is the root, else move along
      that link. The root is probed only when the walk starts there. */
  function FailFor<P>(a: Arena<P>, L: seq<seq<int>>, state: nat, k: int): (f: nat)
    requires Valid(a, L) && state < |a|
    ensures f < |a|
    ensures Get(a[state], k).Some? ==> f == Get(a[state], k).value
    ensures state == RootIndex ==> f == GetOr(a[RootIndex], k, RootIndex)
    decreases |L[state]|
  {
    GetOrRoot(a, state, k);
    var probe := GetOr(a[state], k, RootIndex);
    var next := a[state].fail;
    if next == RootIndex || probe != RootIndex then
      probe
    else
      FailLabel(a, L, state);
      FailFor(a, L, next, k)
  }

  /** A node FailFor returns, unless it is the root, is reached by `k` from
      a node whose path is a suffix of the starting state's path. */
  lemma {:induction false} FailForLabel<P>(a: Arena<P>, L: seq<seq<int>>, state: nat, k: int)
    requires Valid(a, L) && state < |a|
    ensures var f := FailFor(a, L, state, k);
            f != RootIndex ==>
              && 0 < |L[f]| && L[f][|L[f]| - 1] == k
              && IsSuffix(L[f][..|L[f]| - 1], L[state])
    decreases |L[state]|
  {
    var f := FailFor(a, L, state, k);
    var next := a[state].fail;
    if Get(a[state], k).Some? {
      ChildLabel(a, L, state, k);
      SuffixOfItself(L[state], k);
    } else if next != RootIndex {
      FailLabel(a, L, state);
      FailForLabel(a, L, next, k);
      if f != RootIndex {
        SuffixTransitive(L[f][..|L[f]| - 1], L[next], L[state]);
      }
    }
  }

  /** The nodes the failure loop as written probes: the failure chain of
      the starting state without its closing root, unless the chain is the
      root alone. */
  ghost function Probed<P>(a: Arena<P>, L: seq<seq<int>>, state: nat): (c: seq<nat>)
    requires Valid(a, L) && state < |a|
  {
    var c := FailChain(a, L, state);
    if |c| == 1 then c else c[..|c| - 1]
  }

  /** The failure loop as written returns the `k` child of the first probed
      node that has one, and the root exactly when none has: the root itself
      is probed only when the loop starts there. */
  lemma {:induction false} FailForFollowsFailChain<P>(a: Arena<P>, L: seq<seq<int>>, state: nat, k: int)
    requires Valid(a, L) && state < |a|
    ensures var c := Probed(a, L, state);
            var f := FailFor(a, L, state, k);
            && (state == RootIndex ==> c == [RootIndex])
            && (state != RootIndex ==> RootIndex !in c)
            && (forall i | 0 <= i < |c| && FirstWithChild(a, c, k, i) :: Get(a[c[i]], k) == Some(f))
            && (f == RootIndex <==> forall i | 0 <= i < |c| :: !HasChild(a, c[i], k))
    decreases |L[state]|
  {
    var chain := FailChain(a, L, state);
    var c := Probed(a, L, state);
    var f := FailFor(a, L, state, k);
    var next := a[state].fail;
    if state == RootIndex {
      assert c == [RootIndex];
      ProbeOne(a, state, k, f);
    } else {
      FailLabel(a, L, state);
      var rest := FailChain(a, L, next);
      assert chain == [state] + rest;
      ProbedAvoidsRoot(a, chain);
      if next == RootIndex {
        assert rest == [RootIndex] && c == [state];
        ProbeOne(a, state, k, f);
      } else if Get(a[state], k).Some? {
        ChildInRange(a, state, k);
        ChainHead(a, c, k);
      } else {
        GetOrRoot(a, state, k);
        FailForFollowsFailChain(a, L, next, k);
        var cr := Probed(a, L, next);
        assert |rest| > 1;
        assert c == [state] + cr;
        ChainTail(a, cr, state, k, f);
      }
    }
  }

  /** A probe of a single node: its `k` child, or the root. */
  lemma ProbeOne<P>(a: Arena<P>, x: nat, k: int, f: nat)
    requires WellFormed(a) && x < |a| && f == GetOr(a[x], k, RootIndex)
    ensures (forall i | 0 <= i < 1 && FirstWithChild(a, [x], k, i) :: Get(a[[x][i]], k) == Some(f))
    ensures (f == RootIndex <==> forall i | 0 <= i < 1 :: !HasChild(a, [x][i], k))
  {
    GetOrRoot(a, x, k);
    if Get(a[x], k).Some? {
      assert HasChild(a, [x][0], k);
    }
  }

  /** Every node of a failure chain but the last is not the root. */
  lemma ProbedAvoidsRoot<P>(a: Arena<P>, c: seq<nat>)
    requires 0 < |c| && forall i | 0 <= i < |c| - 1 :: ChainStep(a, c, i)
    ensures RootIndex !in c[..|c| - 1]
  {
    forall i | 0 <= i < |c| - 1
      ensures c[i] != RootIndex
    {
      assert ChainStep(a, c, i);
    }
  }

  /** When the first node of a chain has a `k` child, it is the first such
      node. */
  lemma ChainHead<P>(a: Arena<P>, c: seq<nat>, k: int)
    requires 0 < |c| && HasChild(a, c[0], k)
    ensures FirstWithChild(a, c, k, 0)
    ensures forall i | 0 <= i < |c| && FirstWithChild(a, c, k, i) :: i == 0
    ensures !forall i | 0 <= i < |c| :: !HasChild(a, c[i], k)
  {
  }

  /** Prefixing a chain with a node that has no `k` child keeps the answer
      `r` that the chain gives: the child of its first node with one, or the
      root when there is none. */
  lemma ChainTail<P>(a: Arena<P>, rest: seq<nat>, x: nat, k: int, r: nat)
    requires !HasChild(a, x, k)
    requires forall i | 0 <= i < |rest| && FirstWithChild(a, rest, k, i) :: Get(a[rest[i]], k) == Some(r)
    requires r == RootIndex <==> forall i | 0 <= i < |rest| :: !HasChild(a, rest[i], k)
    ensures var c := [x] + rest;
            && (forall i | 0 <= i < |c| && FirstWithChild(a, c, k, i) :: Get(a[c[i]], k) == Some(r))
            && (r == RootIndex <==> forall i | 0 <= i < |c| :: !HasChild(a, c[i], k))
  {
    var c := [x] + rest;
    forall i | 0 <= i < |c| && FirstWithChild(a, c, k, i)
      ensures Get(a[c[i]], k) == Some(r)
    {
      ChainTailFirst(a, rest, x, k, i);
    }
    ChainTailNone(a, rest, x, k);
  }

  lemma ChainTailFirst<P>(a: Arena<P>, rest: seq<nat>, x: nat, k: int, i: nat)
    requires !HasChild(a, x, k) && FirstWithChild(a, [x] + rest, k, i)
    ensures 0 < i && FirstWithChild(a, rest, k, i - 1) && ([x] + rest)[i] == rest[i - 1]
  {
    var h := (y: nat) => HasChild(a, y, k);
    FirstShift(h, x, rest, i);
    assert forall j | 0 <= j < i - 1 :: !h(rest[j]);
  }

  /** Dropping a first entry that fails `h` moves the first entry that
      holds one place down. */
  lemma FirstShift(h: nat -> bool, x: nat, rest: seq<nat>, i: nat)
    requires !h(x) && i < |rest| + 1 && h(([x] + rest)[i])
    requires forall j | 0 <= j < i :: !h(([x] + rest)[j])
    ensures 0 < i && ([x] + rest)[i] == rest[i - 1] && h(rest[i - 1])
    ensures forall j | 0 <= j < i - 1 :: !h(rest[j])
  {
    var c := [x] + rest;
    assert c[0] == x;
    forall j | 0 <= j < i - 1
      ensures !h(rest[j])
    {
      assert c[j + 1] == rest[j];
    }
  }

  lemma ChainTailNone<P>(a: Arena<P>, rest: seq<nat>, x: nat, k: int)
    requires !HasChild(a, x, k)
    ensures (forall i | 0 <= i < |rest| :: !HasChild(a, rest[i], k)) <==>
            (forall i | 0 <= i < |rest| + 1 :: !HasChild(a, ([x] + rest)[i], k))
  {
    var c := [x] + rest;
    if forall i | 0 <= i < |rest| :: !HasChild(a, rest[i], k) {
      forall i | 0 <= i < |c|
        ensures !HasChild(a, c[i], k)
      {
        if i > 0 {
          assert c[i] == rest[i - 1];
        }
      }
    } else {
      var i :| 0 <= i < |rest| && HasChild(a, rest[i], k);
      assert c[i + 1] == rest[i];
    }
  }

  lemma SuffixOfItself(u: seq<int>, k: int)
    ensures (u + [k])[..|u + [k]| - 1] == u && IsSuffix(u, u)
  {
    assert (u + [k])[..|u|] == u;
  }

  /** A failure link FailFor computes for a child of a non-root node names
      a node whose path is a proper suffix of the child's path. */
  lemma FailForIsProperSuffix<P>(a: Arena<P>, L: seq<seq<int>>, n: nat, k: int)
    requires Valid(a, L) && 0 < n < |a|
    ensures a[n].fail < |a|
    ensures ProperSuffix(L[FailFor(a, L, a[n].fail, k)], L[n] + [k])
  {
    FailLabel(a, L, n);
    var fl := a[n].fail;
    var f := FailFor(a, L, fl, k);
    FailForLabel(a, L, fl, k);
    if f == RootIndex {
      EmptyProperSuffix(L[n], k);
    } else {
      assert ProperSuffix(L[fl], L[n]);
      assert IsSuffix(L[f][..|L[f]| - 1], L[fl]);
      SnocProperSuffix(L[f], L[fl], L[n], k);
    }
  }

  // ---------------------------------------------------------------------
  // the failure loop as evidently intended

  /** The failure loop of compile_visitor::visit with the root probed too:
      probe `state` for a `k` child; return it if there is one, return the
      root if `state` is the root, else move along `state`'s link. */
  function FailForIntended<P>(a: Arena<P>, L: seq<seq<int>>, state: nat, k: int): (f: nat)
    requires Valid(a, L) && state < |a|
    ensures f < |a|
    ensures Get(a[state], k).Some? ==> f == Get(a[state], k).value
    decreases |L[state]|
  {
    GetOrRoot(a, state, k);
    var probe := GetOr(a[state], k, RootIndex);
    if probe != RootIndex || state == RootIndex then
      probe
    else
      FailLabel(a, L, state);
      FailForIntended(a, L, a[state].fail, k)
  }

  /** Node `x`'s failure link names the longest proper suffix of its path
      that is a node of the trie. */
  ghost predicate LongestLink<P>(a: Arena<P>, L: seq<seq<int>>, x: nat) {
    && x < |a| && |L| == |a| && a[x].fail < |a|
    && (x != RootIndex ==>
          forall y | 0 <= y < |a| && ProperSuffix(L[y], L[x]) :: |L[y]| <= |L[a[x].fail]|)
  }

  /** If the links of all nodes no deeper than `state` are longest, the
      corrected loop from `state` finds a `k` child at least as deep as that
      of any node whose path is a suffix of `state`'s. */
  lemma {:induction false} FailForIntendedReaches<P>(a: Arena<P>, L: seq<seq<int>>, state: nat, k: int, z: nat)
    requires Valid(a, L) && state < |a| && z < |a|
    requires forall x | 0 <= x < |a| && |L[x]| <= |L[state]| :: LongestLink(a, L, x)
    requires IsSuffix(L[z], L[state]) && Get(a[z], k).Some?
    ensures |L[z]| + 1 <= |L[FailForIntended(a, L, state, k)]|
    decreases |L[state]|
  {
    var f := FailForIntended(a, L, state, k);
    if Get(a[state], k).Some? {
      ChildLabel(a, L, state, k);
    } else {
      assert z != state;
      DistinctNodesDistinctLabels(a, L, z, state);
      assert L[state][|L[state]| - |L[z]|..] == L[z];
      assert |L[z]| < |L[state]|;
      assert state != RootIndex;
      FailLabel(a, L, state);
      var next := a[state].fail;
      GetOrRoot(a, state, k);
      assert f == FailForIntended(a, L, next, k);
      assert LongestLink(a, L, state);
      SuffixOfSuffix(L[z], L[next], L[state]);
      FailForIntendedReaches(a, L, next, k, z);
    }
  }

  /** A node the corrected loop returns, unless it is the root, is reached
      by `k` from a node whose path is a suffix of the starting state's. */
  lemma {:induction false} FailForIntendedLabel<P>(a: Arena<P>, L: seq<seq<int>>, state: nat, k: int)
    requires Valid(a, L) && state < |a|
    ensures var f := FailForIntended(a, L, state, k);
            f != RootIndex ==>
              && 0 < |L[f]| && L[f][|L[f]| - 1] == k
              && IsSuffix(L[f][..|L[f]| - 1], L[state])
    decreases |L[state]|
  {
    if Get(a[state], k).Some? {
      ChildLabel(a, L, state, k);
      SuffixOfItself(L[state], k);
    } else if state != RootIndex {
      FailLabel(a, L, state);
      FailForIntendedLabel(a, L, a[state].fail, k);
      FailForIntendedLabelStep(a, L, state, k);
    }
  }

  /** The step of FailForIntendedLabel along a failure link. */
  lemma FailForIntendedLabelStep<P>(a: Arena<P>, L: seq<seq<int>>, state: nat, k: int)
    requires Valid(a, L) && 0 < state < |a| && Get(a[state], k).None?
    requires a[state].fail < |a|
    requires var g := FailForIntended(a, L, a[state].fail, k);
             g != RootIndex ==>
               && 0 < |L[g]| && L[g][|L[g]| - 1] == k
               && IsSuffix(L[g][..|L[g]| - 1], L[a[state].fail])
    ensures var f := FailForIntended(a, L, state, k);
            f != RootIndex ==>
              && 0 < |L[f]| && L[f][|L[f]| - 1] == k
              && IsSuffix(L[f][..|L[f]| - 1], L[state])
  {
    var next := a[state].fail;
    FailLabel(a, L, state);
    GetOrRoot(a, state, k);
    var f := FailForIntended(a, L, state, k);
    assert f == FailForIntended(a, L, next, k);
    if f != RootIndex {
      SuffixTransitive(L[f][..|L[f]| - 1], L[next], L[state]);
    }
  }

  /** With the root probed, and the links of the parent and every shallower
      node longest, the link compile gives the child of `n` under `k` names
      the longest proper suffix of the child's path that is a node of the
      trie. */
  lemma FailForIntendedIsLongest<P>(a: Arena<P>, L: seq<seq<int>>, n: nat, k: int)
    requires Valid(a, L) && 0 < n < |a|
    requires forall x | 0 <= x < |a| && |L[x]| <= |L[n]| :: LongestLink(a, L, x)
    ensures a[n].fail < |a|
    ensures var f := FailForIntended(a, L, a[n].fail, k);
            && ProperSuffix(L[f], L[n] + [k])
            && forall y | 0 <= y < |a| && ProperSuffix(L[y], L[n] + [k]) :: |L[y]| <= |L[f]|
  {
    FailLabel(a, L, n);
    var fl := a[n].fail;
    var f := FailForIntended(a, L, fl, k);
    FailForIntendedLabel(a, L, fl, k);
    if f == RootIndex {
      EmptyProperSuffix(L[n], k);
    } else {
      SnocProperSuffix(L[f], L[fl], L[n], k);
    }
    forall y | 0 <= y < |a| && ProperSuffix(L[y], L[n] + [k])
      ensures |L[y]| <= |L[f]|
    {
      if |L[y]| > 0 {
        LongerSuffixBound(a, L, n, k, y);
      }
    }
  }

  lemma LongerSuffixBound<P>(a: Arena<P>, L: seq<seq<int>>, n: nat, k: int, y: nat)
    requires Valid(a, L) && 0 < n < |a| && y < |a|
    requires forall x | 0 <= x < |a| && |L[x]| <= |L[n]| :: LongestLink(a, L, x)
    requires ProperSuffix(L[y], L[n] + [k]) && 0 < |L[y]|
    ensures a[n].fail < |a|
    ensures |L[y]| <= |L[FailForIntended(a, L, a[n].fail, k)]|
  {
    FailLabel(a, L, n);
    var fl := a[n].fail;
    var z := SuffixParent(a, L, n, k, y);
    assert LongestLink(a, L, n);
    SuffixOfSuffix(L[z], L[fl], L[n]);
    FailForIntendedReaches(a, L, fl, k, z);
  }

  /** A node whose path is a non-empty proper suffix of the path of `n`'s
      child under `k` hangs under `k` from a node whose path is a suffix of
      `n`'s. */
  lemma SuffixParent<P>(a: Arena<P>, L: seq<seq<int>>, n: nat, k: int, y: nat) returns (z: nat)
    requires Valid(a, L) && n < |a| && y < |a|
    requires ProperSuffix(L[y], L[n] + [k]) && 0 < |L[y]|
    ensures z < |a| && |L[z]| + 1 == |L[y]| && Get(a[z], k).Some?
    ensures ProperSuffix(L[z], L[n])
  {
    var u := L[y][..|L[y]| - 1];
    SuffixDropLast(L[y], L[n], k);
    SnocLast(L[y]);
    Reached(a, L, y);
    WalkSnoc(a, RootIndex, u, k);
    z := Walk(a, RootIndex, u).value;
    WalkLabel(a, L, RootIndex, u);
    assert L[z] == u;
  }

  /** A non-empty proper suffix of `w + [k]` ends in `k`, and the rest of it
      is a proper suffix of `w`. */
  lemma SuffixDropLast(v: seq<int>, w: seq<int>, k: int)
    requires ProperSuffix(v, w + [k]) && 0 < |v|
    ensures v[|v| - 1] == k && ProperSuffix(v[..|v| - 1], w)
  {
    var u := v[..|v| - 1];
    assert (w + [k])[|w + [k]| - |v|..] == w[|w| - |u|..] + [k];
  }

  lemma EmptyProperSuffix(w: seq<int>, k: int)
    ensures ProperSuffix([], w + [k])
  {
    assert (w + [k])[|w + [k]|..] == [];
  }

  /** A path ending in `k` whose rest is a suffix of a proper suffix of `w`
      is a proper suffix of `w + [k]`. */
  lemma SnocProperSuffix(v: seq<int>, s: seq<int>, w: seq<int>, k: int)
    requires 0 < |v| && v[|v| - 1] == k && IsSuffix(v[..|v| - 1], s) && ProperSuffix(s, w)
    ensures ProperSuffix(v, w + [k])
  {
    var u := v[..|v| - 1];
    SuffixTransitive(u, s, w);
    SuffixSnoc(u, w, k);
    assert u + [k] == v;
  }

  /** Setting a non-root node's failure link to a node with a proper suffix
      of its path keeps the trie valid. */
  lemma SetFailValid<P>(a: Arena<P>, L: seq<seq<int>>, c: nat, f: nat)
    requires Valid(a, L) && 0 < c < |a| && f < |a| && ProperSuffix(L[f], L[c])
    ensures Valid(SetFail(a, c, f), L)
  {
    var r := SetFail(a, c, f);
    assert SameAt(a, r, RootIndex);
    forall x | 0 <= x < |r|
      ensures NodeOk(r, L, x)
    {
      SetFailNodeOk(a, L, c, f, x);
    }
  }

  lemma SetFailNodeOk<P>(a: Arena<P>, L: seq<seq<int>>, c: nat, f: nat, x: nat)
    requires Valid(a, L) && 0 < c < |a| && f < |a| && ProperSuffix(L[f], L[c]) && x < |a|
    ensures NodeWF(SetFail(a, c, f), x)
    ensures NodeOk(SetFail(a, c, f), L, x)
  {
    var r := SetFail(a, c, f);
    assert NodeOk(a, L, x) && NodeWF(r, x);
    if x != c {
      assert SameAt(a, r, x);
    }
    assert r[x].edges == a[x].edges && r[x].kind == a[x].kind;
    WalkExtends(a, r, RootIndex, L[x]);
  }

  /** Node `x` has the same kind and children in both arenas. */
  ghost predicate SameShapeAt<P>(a: Arena<P>, b: Arena<P>, x: nat) {
    x < |a| && x < |b| && b[x].kind == a[x].kind && b[x].edges == a[x].edges
  }

  /** Two arenas differ at most in failure links. */
  ghost predicate SameShape<P>(a: Arena<P>, b: Arena<P>) {
    |a| == |b| && forall x | 0 <= x < |a| :: SameShapeAt(a, b, x)
  }

  lemma SameShapeTransitive<P>(a: Arena<P>, b: Arena<P>, c: Arena<P>)
    requires SameShape(a, b) && SameShape(b, c)
    ensures SameShape(a, c)
  {
    forall x | 0 <= x < |a|
      ensures SameShapeAt(a, c, x)
    {
      assert SameShapeAt(a, b, x) && SameShapeAt(b, c, x);
    }
  }

  /** A node whose path has at most one token: the root or one of its
      children. */
  ghost predicate Shallow(L: seq<seq<int>>, x: nat) {
    x < |L| && |L[x]| <= 1
  }

  /** add_children_visitor: the child of every edge, in edge order. */
  function Children(edges: seq<Edge>): (cs: seq<nat>)
    ensures |cs| == |edges|
    ensures forall i | 0 <= i < |edges| :: cs[i] == edges[i].child
  {
    seq(|edges|, i requires 0 <= i < |edges| => edges[i].child)
  }

  lemma ChildrenStep(queue: seq<nat>, edges: seq<Edge>, i: nat)
    requires i < |edges|
    ensures queue + [edges[i].child] + Children(edges[i + 1..]) == queue + Children(edges[i..])
  {
    assert Children(edges[i..]) == [edges[i].child] + Children(edges[i + 1..]);
  }

  /** In `r`, the child of edge `j` of node `n` in `a` has the failure link
      FailFor computes in `a` from `fail` for that edge's token. */
  ghost predicate GetsLink<P>(a: Arena<P>, L: seq<seq<int>>, n: nat, fail: nat, j: nat, r: Arena<P>) {
    && Valid(a, L) && n < |a| && fail < |a| && j < |a[n].edges|
    && a[n].edges[j].child < |r|
    && r[a[n].edges[j].child].fail == FailFor(a, L, fail, a[n].edges[j].token)
  }

  /** compile_visitor::visit over the children of node `n`, from the `i`-th
      edge on, with `fail` the parent's failure link taken when the visitor
      was made: each child is appended to the queue and given the failure
      link FailFor computes from `fail` for its token. The trie stays valid,
      only failure links change, and no other node's link changes, in
      particular none with a path of at most one token. */
  function VisitChildren<P>(a: Arena<P>, L: seq<seq<int>>, n: nat, fail: nat, i: nat, queue: seq<nat>)
    : (r: (Arena<P>, seq<nat>))
    requires Valid(a, L) && 0 < n < |a| && fail == a[n].fail && i <= |a[n].edges|
    ensures Valid(r.0, L) && SameShape(a, r.0)
    ensures r.1 == queue + Children(a[n].edges[i..])
    ensures forall j | i <= j < |a[n].edges| :: GetsLink(a, L, n, fail, j, r.0)
    ensures forall x | 0 <= x < |a| && x !in Children(a[n].edges[i..]) :: KeepsFail(a, r.0, x)
    ensures forall x | 0 <= x < |a| && Shallow(L, x) :: KeepsFail(a, r.0, x)
    decreases |a[n].edges| - i
  {
    if i == |a[n].edges| then
      assert a[n].edges[i..] == [];
      SameShapeRefl(a);
      KeepsFailRefl(a);
      (a, queue)
    else
      var e := a[n].edges[i];
      VisitStep(a, L, n, i);
      var f := FailFor(a, L, fail, e.token);
      var a1 := SetFail(a, e.child, f);
      SetFailValid(a, L, e.child, f);
      assert SameAt(a, a1, n);
      var r := VisitChildren(a1, L, n, fail, i + 1, queue + [e.child]);
      ChildrenStep(queue, a[n].edges, i);
      VisitStepShape(a, a1, r.0, L, e.child, f);
      VisitStepLinks(a, a1, r.0, L, n, i);
      r
  }

  /** One step of VisitChildren hands every later child the link it would
      have got without the step, keeps the step's own link, and touches no
      node outside the children from `i` on. */
  lemma VisitStepLinks<P>(a: Arena<P>, a1: Arena<P>, r: Arena<P>, L: seq<seq<int>>, n: nat, i: nat)
    requires Valid(a, L) && 0 < n < |a| && i < |a[n].edges|
    requires a[n].fail < |a| && a[n].edges[i].child < |a|
    requires a1 == SetFail(a, a[n].edges[i].child, FailFor(a, L, a[n].fail, a[n].edges[i].token))
    requires Valid(a1, L) && a1[n] == a[n] && SameShape(a1, r)
    requires forall j | i + 1 <= j < |a1[n].edges| :: GetsLink(a1, L, n, a[n].fail, j, r)
    requires forall x | 0 <= x < |a1| && x !in Children(a1[n].edges[i + 1..]) :: KeepsFail(a1, r, x)
    ensures forall j | i <= j < |a[n].edges| :: GetsLink(a, L, n, a[n].fail, j, r)
    ensures forall x | 0 <= x < |a| && x !in Children(a[n].edges[i..]) :: KeepsFail(a, r, x)
  {
    ChildrenSplit(a, L, n, i);
    VisitStepGets(a, a1, r, L, n, i);
    VisitStepKeeps(a, a1, r, L, n, i);
  }

  /** The children from the `i`-th edge on are its child followed by the
      later ones, and it is not among them. */
  lemma ChildrenSplit<P>(a: Arena<P>, L: seq<seq<int>>, n: nat, i: nat)
    requires Valid(a, L) && n < |a| && i < |a[n].edges|
    ensures Children(a[n].edges[i..]) == [a[n].edges[i].child] + Children(a[n].edges[i + 1..])
    ensures a[n].edges[i].child !in Children(a[n].edges[i + 1..])
  {
    var c := a[n].edges[i].child;
    var later := Children(a[n].edges[i + 1..]);
    assert a[n].edges[i..] == [a[n].edges[i]] + a[n].edges[i + 1..];
    if c in later {
      var j :| 0 <= j < |later| && later[j] == c;
      assert a[n].edges[i + 1..][j] == a[n].edges[i + 1 + j];
      ChildrenDistinct(a, L, n, i, i + 1 + j);
    }
  }

  lemma VisitStepGets<P>(a: Arena<P>, a1: Arena<P>, r: Arena<P>, L: seq<seq<int>>, n: nat, i: nat)
    requires Valid(a, L) && 0 < n < |a| && i < |a[n].edges|
    requires a[n].fail < |a| && a[n].edges[i].child < |a|
    requires a1 == SetFail(a, a[n].edges[i].child, FailFor(a, L, a[n].fail, a[n].edges[i].token))
    requires Valid(a1, L) && a1[n] == a[n] && SameShape(a1, r)
    requires forall j | i + 1 <= j < |a1[n].edges| :: GetsLink(a1, L, n, a[n].fail, j, r)
    requires KeepsFail(a1, r, a[n].edges[i].child)
    ensures forall j | i <= j < |a[n].edges| :: GetsLink(a, L, n, a[n].fail, j, r)
  {
    forall j | i <= j < |a[n].edges|
      ensures GetsLink(a, L, n, a[n].fail, j, r)
    {
      if j > i {
        assert GetsLink(a1, L, n, a[n].fail, j, r);
        SetFailKeepsFailFor(a, a1, L, n, i, a[n].edges[j].token);
      }
    }
  }

  lemma VisitStepKeeps<P>(a: Arena<P>, a1: Arena<P>, r: Arena<P>, L: seq<seq<int>>, n: nat, i: nat)
    requires Valid(a, L) && 0 < n < |a| && i < |a[n].edges|
    requires a[n].fail < |a| && a[n].edges[i].child < |a|
    requires a1 == SetFail(a, a[n].edges[i].child, FailFor(a, L, a[n].fail, a[n].edges[i].token))
    requires a1[n] == a[n] && SameShape(a1, r)
    requires forall x | 0 <= x < |a1| && x !in Children(a1[n].edges[i + 1..]) :: KeepsFail(a1, r, x)
    ensures forall x | 0 <= x < |a| && x !in Children(a[n].edges[i..]) :: KeepsFail(a, r, x)
  {
    var c := a[n].edges[i].child;
    ChildrenSplit(a, L, n, i);
    forall x | 0 <= x < |a| && x !in Children(a[n].edges[i..])
      ensures KeepsFail(a, r, x)
    {
      assert x != c && x !in Children(a[n].edges[i + 1..]);
      assert SameAt(a, a1, x) && KeepsFail(a1, r, x);
    }
  }

  /** Setting the link of a child of `n` does not change what FailFor
      computes from `n`'s own link: FailFor only reads nodes with shorter
      paths than the child. */
  lemma SetFailKeepsFailFor<P>(a: Arena<P>, a1: Arena<P>, L: seq<seq<int>>, n: nat, i: nat, k: int)
    requires Valid(a, L) && 0 < n < |a| && i < |a[n].edges|
    requires a[n].fail < |a| && a[n].edges[i].child < |a|
    requires a1 == SetFail(a, a[n].edges[i].child, FailFor(a, L, a[n].fail, a[n].edges[i].token))
    requires Valid(a1, L)
    ensures FailFor(a1, L, a[n].fail, k) == FailFor(a, L, a[n].fail, k)
  {
    var c := a[n].edges[i].child;
    VisitStep(a, L, n, i);
    FailLabel(a, L, n);
    assert |L[c]| == |L[n]| + 1 by {
      assert NodeOk(a, L, n);
    }
    forall x | 0 <= x < |a| && |L[x]| <= |L[a[n].fail]|
      ensures KeepsFail(a, a1, x)
    {
      assert x != c;
      assert SameAt(a, a1, x);
    }
    assert SameShape(a, a1) by {
      forall x | 0 <= x < |a|
        ensures SameShapeAt(a, a1, x)
      {
        if x != c {
          assert SameAt(a, a1, x);
        }
      }
    }
    FailForFrame(a, a1, L, a[n].fail, k);
  }

  /** FailFor from `s` reads only child lists, which SameShape keeps, and
      the links of nodes whose paths are no longer than `s`'s. */
  lemma {:induction false} FailForFrame<P>(a: Arena<P>, b: Arena<P>, L: seq<seq<int>>, s: nat, k: int)
    requires Valid(a, L) && Valid(b, L) && SameShape(a, b) && s < |a|
    requires forall x | 0 <= x < |a| && |L[x]| <= |L[s]| :: KeepsFail(a, b, x)
    ensures FailFor(a, L, s, k) == FailFor(b, L, s, k)
    decreases |L[s]|
  {
    assert SameShapeAt(a, b, s) && KeepsFail(a, b, s);
    GetSameEdges(a[s], b[s], k);
    if a[s].fail != RootIndex && GetOr(a[s], k, RootIndex) == RootIndex {
      FailLabel(a, L, s);
      FailForFrame(a, b, L, a[s].fail, k);
    }
  }

  /** get depends only on the child list. */
  lemma GetSameEdges<P>(m: Node<P>, n: Node<P>, k: int)
    requires m.edges == n.edges
    ensures Get(m, k) == Get(n, k) && GetOr(m, k, RootIndex) == GetOr(n, k, RootIndex)
  {
  }

  /** Distinct edges of a node in a valid trie lead to distinct children. */
  lemma ChildrenDistinct<P>(a: Arena<P>, L: seq<seq<int>>, n: nat, j: nat, j': nat)
    requires Valid(a, L) && n < |a| && j < j' < |a[n].edges|
    ensures a[n].edges[j].child != a[n].edges[j'].child
  {
    assert NodeOk(a, L, n) && NodeWF(a, n);
    var ts := Tokens(a[n].edges);
    assert ts[j] < ts[j'];
    var u := L[n] + [a[n].edges[j].token];
    var v := L[n] + [a[n].edges[j'].token];
    assert u[|L[n]|] != v[|L[n]|];
  }

  /** The child of edge `i` of a non-root node is not shallow, and its new
      failure link names a node with a proper suffix of its path. */
  lemma VisitStep<P>(a: Arena<P>, L: seq<seq<int>>, n: nat, i: nat)
    requires Valid(a, L) && 0 < n < |a| && i < |a[n].edges|
    ensures 0 < a[n].edges[i].child < |a| && a[n].fail < |a|
    ensures !Shallow(L, a[n].edges[i].child) && a[n].edges[i].child != n
    ensures ProperSuffix(L[FailFor(a, L, a[n].fail, a[n].edges[i].token)], L[a[n].edges[i].child])
  {
    var e := a[n].edges[i];
    assert NodeWF(a, n) && NodeOk(a, L, n);
    FailLabel(a, L, n);
    FailForIsProperSuffix(a, L, n, e.token);
  }

  lemma VisitStepShape<P>(a: Arena<P>, a1: Arena<P>, r: Arena<P>, L: seq<seq<int>>, c: nat, f: nat)
    requires WellFormed(a) && c < |a| && f < |a| && a1 == SetFail(a, c, f) && |L| == |a|
    requires !Shallow(L, c)
    requires SameShape(a1, r)
    requires forall x | 0 <= x < |a1| && Shallow(L, x) :: KeepsFail(a1, r, x)
    ensures SameShape(a, r)
    ensures forall x | 0 <= x < |a| && Shallow(L, x) :: KeepsFail(a, r, x)
  {
    forall x | 0 <= x < |a|
      ensures SameShapeAt(a, r, x)
    {
      assert SameShapeAt(a1, r, x);
      if x != c {
        assert SameAt(a, a1, x);
      }
    }
    forall x | 0 <= x < |a| && Shallow(L, x)
      ensures KeepsFail(a, r, x)
    {
      assert KeepsFail(a1, r, x) && SameAt(a, a1, x);
    }
  }

  lemma SameShapeRefl<P>(a: Arena<P>)
    ensures SameShape(a, a)
  {
    assert forall x | 0 <= x < |a| :: SameShapeAt(a, a, x);
  }

  lemma KeepsFailRefl<P>(a: Arena<P>)
    ensures forall x | 0 <= x < |a| :: KeepsFail(a, a, x)
  {
  }

  /** The queue loop of compile: pop the front node and visit its children.
      `fuel` bounds the number of pops. */
  function CompileQueue<P>(a: Arena<P>, L: seq<seq<int>>, queue: seq<nat>, fuel: nat): (r: Arena<P>)
    requires Valid(a, L)
    requires forall q | q in queue :: 0 < q < |a|
    ensures Valid(r, L) && SameShape(a, r)
    ensures forall x | 0 <= x < |a| && Shallow(L, x) :: KeepsFail(a, r, x)
    decreases fuel
  {
    if |queue| == 0 || fuel == 0 then
      SameShapeRefl(a);
      KeepsFailRefl(a);
      a
    else
      var n := queue[0];
      assert queue[0] in queue;
      var (a1, q1) := VisitChildren(a, L, n, a[n].fail, 0, queue[1..]);
      QueueInRange(a, L, n, queue, a1, q1);
      var r := CompileQueue(a1, L, q1, fuel - 1);
      SameShapeTransitive(a, a1, r);
      KeepsFailCompose(a, a1, r, L);
      r
  }

  lemma QueueInRange<P>(a: Arena<P>, L: seq<seq<int>>, n: nat, queue: seq<nat>, a1: Arena<P>, q1: seq<nat>)
    requires Valid(a, L) && 0 < n < |a| && |queue| > 0
    requires forall q | q in queue :: 0 < q < |a|
    requires SameShape(a, a1) && q1 == queue[1..] + Children(a[n].edges[0..])
    ensures forall q | q in q1 :: 0 < q < |a1|
  {
    assert NodeWF(a, n);
    var cs := Children(a[n].edges[0..]);
    forall q | q in q1
      ensures 0 < q < |a1|
    {
      if q in queue[1..] {
        var j :| 0 <= j < |queue| - 1 && queue[1..][j] == q;
        assert queue[j + 1] in queue;
      } else {
        assert q in cs;
        var j :| 0 <= j < |cs| && cs[j] == q;
        assert q == a[n].edges[j].child;
      }
    }
  }

  lemma KeepsFailCompose<P>(a: Arena<P>, b: Arena<P>, c: Arena<P>, L: seq<seq<int>>)
    requires |a| == |b| == |c|
    requires forall x | 0 <= x < |a| && Shallow(L, x) :: KeepsFail(a, b, x)
    requires forall x | 0 <= x < |b| && Shallow(L, x) :: KeepsFail(b, c, x)
    ensures forall x | 0 <= x < |a| && Shallow(L, x) :: KeepsFail(a, c, x)
  {
    forall x | 0 <= x < |a| && Shallow(L, x)
      ensures KeepsFail(a, c, x)
    {
      assert KeepsFail(a, b, x) && KeepsFail(b, c, x);
    }
  }

  /** ac_trie::compile: queue the root's children, then run the queue loop.
      The trie stays valid, so every failure link names a node whose path is
      a proper suffix of its own; no kind and no child list changes; the
      root and its children keep their failure links (the root's is itself,
      and add gave its children the root). */
  function Compile<P>(a: Arena<P>, L: seq<seq<int>>): (r: Arena<P>)
    requires Valid(a, L)
    ensures Valid(r, L) && SameShape(a, r)
    ensures r[RootIndex].fail == RootIndex
    ensures forall x | 0 <= x < |a| && Shallow(L, x) :: KeepsFail(a, r, x)
  {
    assert NodeWF(a, RootIndex);
    CompileQueue(a, L, Children(a[RootIndex].edges), |a|)
  }
}
