/** trie_node: one vertex of the Aho–Corasick trie. Nodes live in an arena
    (a sequence addressed by index, the root at index 0); a node holds its
    kind, its child list sorted by token, and its failure link, each child and
    the failure link being arena indices. */
module TrieNodes {
  import opened Wrappers
  import opened SortedSearch

  /** The three node classes: the root (RootNode), a plain branch node
      (trie_node), and a match node carrying a payload (Payload). */
  datatype Kind<P> = Root | Branch | Match(payload: P)

  /** One node_shim: the token on the edge and the child it leads to. */
  datatype Edge = Edge(token: int, child: nat)

  datatype Node<P> = Node(kind: Kind<P>, edges: seq<Edge>, fail: nat)

  type Arena<P> = seq<Node<P>>

  const RootIndex: nat := 0

  /** The error value() throws on a root or branch node. */
  datatype NodeError = InvalidValue

  function Tokens(edges: seq<Edge>): (ts: seq<int>)
    ensures |ts| == |edges|
    ensures forall i | 0 <= i < |edges| :: ts[i] == edges[i].token
  {
    seq(|edges|, i requires 0 <= i < |edges| => edges[i].token)
  }

  /** A child list sorted by token with no token twice. */
  ghost predicate SortedEdges(edges: seq<Edge>) {
    StrictlySorted(Tokens(edges))
  }

  /** Arena well-formedness: a root exists, every child list is sorted, and
      every child index and failure link names a node; no edge leads back to
      the root. */
  ghost predicate WellFormed<P>(a: Arena<P>) {
    |a| > 0 && forall x | 0 <= x < |a| :: NodeWF(a, x)
  }

  /** Node `x` exists, its child list is sorted, its failure link names a
      node, and each of its children names a node other than the root. */
  ghost predicate NodeWF<P>(a: Arena<P>, x: nat) {
    && x < |a|
    && SortedEdges(a[x].edges)
    && a[x].fail < |a|
    && forall i | 0 <= i < |a[x].edges| :: 0 < a[x].edges[i].child < |a|
  }

  // ---------------------------------------------------------------------
  // lookup

  /** comp: the three-way comparison of a probed token against an edge's
      token, negative when the probe sorts first. */
  function Comp(e: Edge, value: int): (r: int)
    ensures r < 0 <==> value < e.token
    ensures r == 0 <==> value == e.token
    ensures r > 0 <==> e.token < value
  {
    if value < e.token then -1
    else if value == e.token then 0
    else 1
  }

  /** The first edge the comparator does not place below the probe. */
  function FirstNotBelow(edges: seq<Edge>, k: int): (r: nat)
    ensures r == LowerBound(Tokens(edges), k)
    decreases |edges|
  {
    if |edges| == 0 || Comp(edges[0], k) <= 0 then 0
    else
      assert Tokens(edges[1..]) == Tokens(edges)[1..];
      1 + FirstNotBelow(edges[1..], k)
  }

  /** The child-list search through comp: the lower-bound position of `k`
      and whether the edge there carries `k`. It is the generic search over
      the edges' tokens. */
  function FindEdge(edges: seq<Edge>, k: int): (r: PosFound)
    ensures r == Search(Tokens(edges), k)
  {
    var p := FirstNotBelow(edges, k);
    PosFound(p, p < |edges| && Comp(edges[p], k) == 0)
  }

  /** get(key): the child under token `k`, or null. On a sorted child list
      it is found exactly when some edge carries `k`. */
  function Get<P>(n: Node<P>, k: int): (r: Option<nat>)
    ensures r.Some? ==> exists i | 0 <= i < |n.edges| :: n.edges[i] == Edge(k, r.value)
    ensures SortedEdges(n.edges) ==> (r.Some? <==> k in Tokens(n.edges))
    ensures SortedEdges(n.edges) ==>
              forall i | 0 <= i < |n.edges| && n.edges[i].token == k :: r == Some(n.edges[i].child)
  {
    var f := FindEdge(n.edges, k);
    if f.found then
      assert n.edges[f.pos] == Edge(k, n.edges[f.pos].child);
      Some(n.edges[f.pos].child)
    else None
  }

  /** get(key, def): the child under `k`, or `def` when there is none. */
  function GetOr<P>(n: Node<P>, k: int, def: nat): (r: nat)
    ensures Get(n, k).Some? ==> r == Get(n, k).value
    ensures Get(n, k).None? ==> r == def
  {
    match Get(n, k)
    case Some(c) => c
    case None => def
  }

  /** empty(): true for root and branch nodes, false for payload nodes. */
  function IsEmpty<P>(n: Node<P>): (b: bool)
    ensures b <==> n.kind.Root? || n.kind.Branch?
  {
    !n.kind.Match?
  }

  /** value(): the payload of a payload node; on any other node
      `trie_node::value` throws "Invalid value". */
  function Value<P>(n: Node<P>): (r: Result<P, NodeError>)
    ensures r.Ok? <==> !IsEmpty(n)
    ensures r.Ok? ==> n.kind == Match(r.value)
    ensures r.Err? ==> r.error == InvalidValue
  {
    match n.kind
    case Match(p) => Ok(p)
    case _ => Err(InvalidValue)
  }

  /** The root as the trie constructor makes it: no children, and its
      failure link set to itself. */
  function NewRoot<P>(): (n: Node<P>)
    ensures n.kind.Root? && n.edges == [] && n.fail == RootIndex
    ensures IsEmpty(n) && Value(n).Err?
  {
    Node(Root, [], RootIndex)
  }

  /** A Payload node: a match carrying `v`, no children, failure link `fail`. */
  function NewPayload<P>(fail: nat, v: P): (n: Node<P>)
    ensures !IsEmpty(n) && Value(n) == Ok(v)
    ensures n.edges == [] && n.fail == fail
  {
    Node(Match(v), [], fail)
  }

  // ---------------------------------------------------------------------
  // insertion

  /** Every lookup that succeeds in `a` succeeds the same way in `b`: no node
      was removed and no edge redirected, only nodes and edges added. */
  ghost predicate Extends<P>(a: Arena<P>, b: Arena<P>) {
    |a| <= |b| && forall x, k | 0 <= x < |a| :: KeepsEdge(a, b, x, k)
  }

  /** The lookup of `k` at node `x`, if it succeeds in `a`, gives the same
      child in `b`. */
  ghost predicate KeepsEdge<P>(a: Arena<P>, b: Arena<P>, x: nat, k: int)
    requires x < |a| <= |b|
  {
    Get(a[x], k).Some? ==> Get(b[x], k) == Get(a[x], k)
  }

  /** Node `x` is the same in both arenas. */
  ghost predicate SameAt<P>(a: Arena<P>, b: Arena<P>, x: nat) {
    x < |a| && x < |b| && b[x] == a[x]
  }

  lemma ExtendsTransitive<P>(a: Arena<P>, b: Arena<P>, c: Arena<P>)
    requires Extends(a, b) && Extends(b, c)
    ensures Extends(a, c)
  {
    forall x, k | 0 <= x < |a|
      ensures KeepsEdge(a, c, x, k)
    {
      assert KeepsEdge(a, b, x, k) && KeepsEdge(b, c, x, k);
    }
  }

  /** An arena that agrees with `a` on every old node except possibly `p`,
      where it keeps every lookup, extends `a`. */
  lemma ExtendsBy<P>(a: Arena<P>, b: Arena<P>, p: nat)
    requires |a| <= |b| && p < |a|
    requires forall x | 0 <= x < |a| && x != p :: SameAt(a, b, x)
    requires forall k | Get(a[p], k).Some? :: Get(b[p], k) == Get(a[p], k)
    ensures Extends(a, b)
  {
    forall x, k | 0 <= x < |a|
      ensures KeepsEdge(a, b, x, k)
    {
      if x != p {
        assert SameAt(a, b, x);
      }
    }
  }

  /** After inserting an edge for an absent token at its lower bound, the
      list stays sorted, the new token leads to the new child, and every
      other token leads where it led before. */
  lemma InsertEdgeLookup<P>(n: Node<P>, k: int, c: nat)
    requires SortedEdges(n.edges) && k !in Tokens(n.edges)
    ensures var n' := n.(edges := InsertAt(n.edges, LowerBound(Tokens(n.edges), k), Edge(k, c)));
            && SortedEdges(n'.edges)
            && Get(n', k) == Some(c)
            && forall k' | k' != k :: Get(n', k') == Get(n, k')
  {
    var p := LowerBound(Tokens(n.edges), k);
    var es := InsertAt(n.edges, p, Edge(k, c));
    var n' := n.(edges := es);
    TokensInsert(n.edges, p, Edge(k, c));
    InsertAtLowerBoundSorted(Tokens(n.edges), k);
    InsertAtMembers(Tokens(n.edges), p, k);
    GetAt(n', p);
    forall k' | k' != k
      ensures Get(n', k') == Get(n, k')
    {
      InsertEdgeOther(n, k, c, k');
    }
  }

  lemma InsertEdgeOther<P>(n: Node<P>, k: int, c: nat, k': int)
    requires SortedEdges(n.edges) && k !in Tokens(n.edges) && k' != k
    requires SortedEdges(InsertAt(n.edges, LowerBound(Tokens(n.edges), k), Edge(k, c)))
    ensures Get(n.(edges := InsertAt(n.edges, LowerBound(Tokens(n.edges), k), Edge(k, c))), k') == Get(n, k')
  {
    var p := LowerBound(Tokens(n.edges), k);
    var es := InsertAt(n.edges, p, Edge(k, c));
    var n' := n.(edges := es);
    if Get(n, k').Some? {
      var i :| 0 <= i < |n.edges| && n.edges[i] == Edge(k', Get(n, k').value);
      if i < p {
        assert es[i] == n.edges[i];
        GetAt(n', i);
      } else {
        assert es[i + 1] == n.edges[i];
        GetAt(n', i + 1);
      }
    } else {
      TokensInsert(n.edges, p, Edge(k, c));
      InsertAtMembers(Tokens(n.edges), p, k);
      assert k' !in Tokens(es);
    }
  }

  /** The tokens of a list with an inserted edge. */
  lemma TokensInsert(edges: seq<Edge>, p: nat, e: Edge)
    requires p <= |edges|
    ensures Tokens(InsertAt(edges, p, e)) == InsertAt(Tokens(edges), p, e.token)
  {
  }

  /** On a sorted list, the token of any edge leads to that edge's child. */
  lemma GetAt<P>(n: Node<P>, i: nat)
    requires SortedEdges(n.edges) && i < |n.edges|
    ensures Get(n, n.edges[i].token) == Some(n.edges[i].child)
  {
  }

  /** In a well-formed arena a child found under any token names a node
      other than the root. */
  lemma ChildInRange<P>(a: Arena<P>, p: nat, k: int)
    requires WellFormed(a) && p < |a| && Get(a[p], k).Some?
    ensures 0 < Get(a[p], k).value < |a|
  {
    assert NodeWF(a, p);
  }

  /** get(key, root) in a well-formed arena: the root comes back exactly
      when there is no child under `k`. */
  lemma GetOrRoot<P>(a: Arena<P>, p: nat, k: int)
    requires WellFormed(a) && p < |a|
    ensures GetOr(a[p], k, RootIndex) < |a|
    ensures GetOr(a[p], k, RootIndex) != RootIndex <==> Get(a[p], k).Some?
  {
    if Get(a[p], k).Some? {
      ChildInRange(a, p, k);
    }
  }

  /** Node `n` with an edge to `c` under `k` inserted at the sorted position. */
  function InsertEdge<P>(n: Node<P>, k: int, c: nat): (r: Node<P>)
    ensures r.kind == n.kind && r.fail == n.fail
    ensures |r.edges| == |n.edges| + 1
    ensures forall i | 0 <= i < |r.edges| :: r.edges[i] == Edge(k, c) || r.edges[i] in n.edges
    ensures var p := LowerBound(Tokens(n.edges), k);
            && r.edges[..p] == n.edges[..p]
            && r.edges[p] == Edge(k, c)
            && r.edges[p + 1..] == n.edges[p..]
  {
    var pos := LowerBound(Tokens(n.edges), k);
    InsertAtMembers(n.edges, pos, Edge(k, c));
    var r := n.(edges := InsertAt(n.edges, pos, Edge(k, c)));
    assert forall i | 0 <= i < |r.edges| :: r.edges[i] in InsertAt(n.edges, pos, Edge(k, c));
    r
  }

  /** Append `child` to the arena and hang it under token `k` of node `p`, at
      the sorted position (the not-found branch of both trie_node::add). */
  function Attach<P>(a: Arena<P>, p: nat, k: int, child: Node<P>): (r: Arena<P>)
    requires WellFormed(a) && p < |a| && Get(a[p], k).None?
    requires WellFormed(a + [child])
    ensures WellFormed(r) && Extends(a, r)
    ensures |r| == |a| + 1 && r[|a|] == child
    ensures Get(r[p], k) == Some(|a|)
    ensures r[p] == InsertEdge(a[p], k, |a|)
    ensures forall k' | k' != k :: Get(r[p], k') == Get(a[p], k')
    ensures forall x | 0 <= x < |a| && x != p :: SameAt(a, r, x)
  {
    var r := (a + [child])[p := InsertEdge(a[p], k, |a|)];
    AttachFacts(a, p, k, child, r);
    r
  }

  lemma AttachFacts<P>(a: Arena<P>, p: nat, k: int, child: Node<P>, r: Arena<P>)
    requires WellFormed(a) && p < |a| && Get(a[p], k).None?
    requires WellFormed(a + [child])
    requires r == (a + [child])[p := InsertEdge(a[p], k, |a|)]
    ensures WellFormed(r) && Extends(a, r)
    ensures Get(r[p], k) == Some(|a|)
    ensures forall k' | k' != k :: Get(r[p], k') == Get(a[p], k')
    ensures forall x | 0 <= x < |a| && x != p :: SameAt(a, r, x)
  {
    assert NodeWF(a, p);
    InsertEdgeLookup(a[p], k, |a|);
    forall x | 0 <= x < |a| && x != p
      ensures SameAt(a, r, x)
    {
      assert r[x] == (a + [child])[x];
    }
    forall x | 0 <= x < |r|
      ensures NodeWF(r, x)
    {
      if x == p {
        AttachParentWellFormed(a, p, k, child, r);
      } else if x < |a| {
        assert NodeWF(a, x) && SameAt(a, r, x);
      } else {
        assert NodeWF(a + [child], x) && r[x] == (a + [child])[x];
      }
    }
    ExtendsBy(a, r, p);
  }

  /** The parent of an attached child stays well formed. */
  lemma AttachParentWellFormed<P>(a: Arena<P>, p: nat, k: int, child: Node<P>, r: Arena<P>)
    requires WellFormed(a) && p < |a|
    requires r == (a + [child])[p := InsertEdge(a[p], k, |a|)]
    requires SortedEdges(r[p].edges)
    ensures NodeWF(r, p)
  {
    assert NodeWF(a, p);
    forall i | 0 <= i < |r[p].edges|
      ensures 0 < r[p].edges[i].child < |r|
    {
      if r[p].edges[i] != Edge(k, |a|) {
        var j :| 0 <= j < |a[p].edges| && a[p].edges[j] == r[p].edges[i];
      }
    }
  }

  /** A fresh leaf whose failure link names a node can be appended. */
  lemma WellFormedAppendLeaf<P>(a: Arena<P>, child: Node<P>)
    requires WellFormed(a) && child.edges == [] && child.fail < |a|
    ensures WellFormed(a + [child])
  {
    var b := a + [child];
    forall x | 0 <= x < |b|
      ensures NodeWF(b, x)
    {
      if x < |a| {
        assert NodeWF(a, x) && b[x] == a[x];
      }
    }
  }

  /** trie_node::add(key, fail): the existing child under `k` is returned with
      nothing changed; otherwise a new branch node carrying failure link
      `fail` is inserted under `k` at the sorted position and returned. */
  function AddBranch<P>(a: Arena<P>, p: nat, k: int, fail: nat): (r: (Arena<P>, nat))
    requires WellFormed(a) && p < |a| && fail < |a|
    ensures WellFormed(r.0) && Extends(a, r.0)
    ensures r.1 < |r.0| && Get(r.0[p], k) == Some(r.1)
    ensures Get(a[p], k).Some? ==> r == (a, Get(a[p], k).value)
    ensures Get(a[p], k).None? ==>
              && |r.0| == |a| + 1 && r.1 == |a|
              && r.0[r.1] == Node(Branch, [], fail)
              && r.0[p].kind == a[p].kind && r.0[p].fail == a[p].fail
              && (forall k' | k' != k :: Get(r.0[p], k') == Get(a[p], k'))
              && (forall x | 0 <= x < |a| && x != p :: SameAt(a, r.0, x))
  {
    match Get(a[p], k)
    case Some(c) =>
      ChildInRange(a, p, k);
      (a, c)
    case None =>
      WellFormedAppendLeaf(a, Node(Branch, [], fail));
      (Attach(a, p, k, Node(Branch, [], fail)), |a|)
  }

  /** trie_node::add(node_shim): a child under a fresh token is inserted at
      the sorted position. Under a token already present the existing node is
      promoted: it takes the new node's kind and keeps its own children and
      failure link, at the same index, and nothing else changes. */
  function AddShim<P>(a: Arena<P>, p: nat, k: int, child: Node<P>): (r: Arena<P>)
    requires WellFormed(a) && p < |a|
    requires WellFormed(a + [child])
    ensures WellFormed(r) && Extends(a, r)
    ensures Get(a[p], k).None? ==>
              && |r| == |a| + 1 && r[|a|] == child
              && Get(r[p], k) == Some(|a|)
              && r[p].kind == a[p].kind && r[p].fail == a[p].fail
              && (forall k' | k' != k :: Get(r[p], k') == Get(a[p], k'))
              && (forall x | 0 <= x < |a| && x != p :: SameAt(a, r, x))
    ensures Get(a[p], k).Some? ==>
              var c := Get(a[p], k).value;
              && |r| == |a| && Get(r[p], k) == Some(c) && 0 < c < |a|
              && r[c] == Node(child.kind, a[c].edges, a[c].fail)
              && (forall x | 0 <= x < |a| && x != c :: SameAt(a, r, x))
  {
    match Get(a[p], k)
    case None => Attach(a, p, k, child)
    case Some(c) =>
      ChildInRange(a, p, k);
      Promote(a, c, child.kind)
  }

  /** Promotion: node `c` takes kind `kind`, keeping its index, children and
      failure link. The arena stays well formed, every lookup is kept and no
      other node changes. */
  function Promote<P>(a: Arena<P>, c: nat, kind: Kind<P>): (r: Arena<P>)
    requires WellFormed(a) && c < |a|
    ensures WellFormed(r) && Extends(a, r)
    ensures |r| == |a| && r[c] == Node(kind, a[c].edges, a[c].fail)
    ensures forall x | 0 <= x < |a| && x != c :: SameAt(a, r, x)
  {
    var r := a[c := Node(kind, a[c].edges, a[c].fail)];
    forall x | 0 <= x < |r|
      ensures NodeWF(r, x)
    {
      assert NodeWF(a, x) && r[x].edges == a[x].edges && r[x].fail == a[x].fail;
    }
    ExtendsBy(a, r, c);
    r
  }

  /** fail(f): node `c` gets failure link `f`; its kind and children, and
      every other node, are left alone. */
  function SetFail<P>(a: Arena<P>, c: nat, f: nat): (r: Arena<P>)
    requires WellFormed(a) && c < |a| && f < |a|
    ensures WellFormed(r) && Extends(a, r) && |r| == |a|
    ensures r[c].fail == f && r[c].kind == a[c].kind && r[c].edges == a[c].edges
    ensures forall x | 0 <= x < |a| && x != c :: SameAt(a, r, x)
  {
    var r := a[c := a[c].(fail := f)];
    forall x | 0 <= x < |r|
      ensures NodeWF(r, x)
    {
      assert NodeWF(a, x) && r[x].edges == a[x].edges;
    }
    ExtendsBy(a, r, c);
    r
  }
}
