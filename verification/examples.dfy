/** Small concrete tries that pin down how the modelled code behaves on
    particular inputs. Tokens are character codes: 'a' 97, 'b' 98, 'd' 100,
    'e' 101, 'h' 104, 's' 115. */
module AcExamples {
  import opened Wrappers
  import opened TrieNodes
  import opened AcTrie
  import opened AcCompile
  import opened AcAutomaton

  // ---------------------------------------------------------------------
  // building blocks for concrete tries

  /** The part of the trie invariant at node `x` that does not involve
      walking from the root: kind, failure-link suffix and edge labels. */
  ghost predicate LocalOk<P>(a: Arena<P>, L: seq<seq<int>>, x: nat)
    requires x < |a| && |L| == |a|
  {
    && (x != RootIndex ==> !a[x].kind.Root? && a[x].fail < |a| && ProperSuffix(L[a[x].fail], L[x]))
    && forall i | 0 <= i < |a[x].edges| ::
         a[x].edges[i].child < |a| && L[a[x].edges[i].child] == L[x] + [a[x].edges[i].token]
  }

  /** A well-formed arena whose nodes are locally consistent and reached by
      their paths satisfies the trie invariant. */
  lemma ValidFromParts<P>(a: Arena<P>, L: seq<seq<int>>)
    requires WellFormed(a) && |L| == |a| && L[RootIndex] == []
    requires a[RootIndex].kind.Root? && a[RootIndex].fail == RootIndex
    requires forall x | 0 <= x < |a| :: LocalOk(a, L, x)
    requires forall x | 0 <= x < |a| :: Walk(a, RootIndex, L[x]) == Some(x)
    ensures Valid(a, L)
  {
    forall x | 0 <= x < |a|
      ensures NodeOk(a, L, x)
    {
      assert NodeWF(a, x) && LocalOk(a, L, x);
    }
  }

  /** Child lists of up to three edges with ascending tokens are sorted. */
  lemma SortedUpToThree(edges: seq<Edge>)
    requires |edges| <= 3
    requires forall i | 0 < i < |edges| :: edges[i - 1].token < edges[i].token
    ensures SortedEdges(edges)
  {
    var ts := Tokens(edges);
    forall i, j | 0 <= i < j < |ts|
      ensures ts[i] < ts[j]
    {
      if j == i + 2 {
        assert ts[i] < ts[i + 1];
      }
    }
  }

  /** One step of a walk: following the edge for `k` out of `n` to `c`. */
  lemma WalkCons<P>(a: Arena<P>, n: nat, k: int, c: nat, w: seq<int>)
    requires n < |a| && Get(a[n], k) == Some(c) && c < |a|
    ensures Walk(a, n, [k] + w) == Walk(a, c, w)
  {
    assert ([k] + w)[1..] == w;
  }

  /** A transition along an existing edge follows it. */
  lemma NextByEdge<P>(a: Arena<P>, L: seq<seq<int>>, s: nat, ch: int, c: nat)
    requires Valid(a, L) && s < |a| && Get(a[s], ch) == Some(c)
    ensures Next(Automaton(a, s), L, ch).state == c
  {
  }

  // ---------------------------------------------------------------------
  // "he" and "she"

  /** A hand-built trie of the patterns "he" (payload 1) and "she"
      (payload 2): nodes root, h, he, s, sh, she. Its links are the ones
      compile's failure loop gives (HeSheCompileLinks): "sh" links to "h"
      and "she" to "he". */
  function HeShe(): (a: Arena<int>)
    ensures |a| == 6
  {
    [ Node(Root, [Edge(104, 1), Edge(115, 3)], 0),
      Node(Branch, [Edge(101, 2)], 0),
      Node(Match(1), [], 0),
      Node(Branch, [Edge(104, 4)], 0),
      Node(Branch, [Edge(101, 5)], 1),
      Node(Match(2), [], 2) ]
  }

  function HeSheLabels(): (L: seq<seq<int>>)
    ensures |L| == 6
  {
    [[], [104], [104, 101], [115], [115, 104], [115, 104, 101]]
  }

  lemma HeSheWellFormed()
    ensures WellFormed(HeShe())
  {
    var a := HeShe();
    forall x | 0 <= x < 6
      ensures NodeWF(a, x)
    {
      SortedUpToThree(a[x].edges);
    }
  }

  /** get finds every edge of the trie. */
  lemma HeSheEdge(x: nat, i: nat)
    requires x < 6 && i < |HeShe()[x].edges|
    ensures Get(HeShe()[x], HeShe()[x].edges[i].token) == Some(HeShe()[x].edges[i].child)
  {
    HeSheWellFormed();
    assert NodeWF(HeShe(), x);
    GetAt(HeShe()[x], i);
  }

  lemma HeSheWalk1()
    ensures Walk(HeShe(), RootIndex, [104]) == Some(1)
  {
    HeSheEdge(0, 0);
    WalkCons(HeShe(), 0, 104, 1, []);
  }

  lemma HeSheWalk2()
    ensures Walk(HeShe(), RootIndex, [104, 101]) == Some(2)
  {
    HeSheEdge(0, 0);
    HeSheEdge(1, 0);
    WalkCons(HeShe(), 1, 101, 2, []);
    WalkCons(HeShe(), 0, 104, 1, [101]);
  }

  lemma HeSheWalk3()
    ensures Walk(HeShe(), RootIndex, [115]) == Some(3)
  {
    HeSheEdge(0, 1);
    WalkCons(HeShe(), 0, 115, 3, []);
  }

  lemma HeSheWalk4()
    ensures Walk(HeShe(), RootIndex, [115, 104]) == Some(4)
  {
    HeSheEdge(0, 1);
    HeSheEdge(3, 0);
    WalkCons(HeShe(), 3, 104, 4, []);
    WalkCons(HeShe(), 0, 115, 3, [104]);
  }

  lemma HeSheWalk5()
    ensures Walk(HeShe(), RootIndex, [115, 104, 101]) == Some(5)
  {
    HeSheEdge(0, 1);
    HeSheEdge(3, 0);
    HeSheEdge(4, 0);
    WalkCons(HeShe(), 4, 101, 5, []);
    WalkCons(HeShe(), 3, 104, 4, [101]);
    WalkCons(HeShe(), 0, 115, 3, [104, 101]);
  }

  /** Walking each node's path from the root reaches it. */
  lemma HeSheWalks()
    ensures forall x | 0 <= x < 6 :: Walk(HeShe(), RootIndex, HeSheLabels()[x]) == Some(x)
  {
    forall x | 0 <= x < 6
      ensures Walk(HeShe(), RootIndex, HeSheLabels()[x]) == Some(x)
    {
      HeSheWalkAt(x);
    }
  }

  lemma HeSheWalkAt(x: nat)
    requires x < 6
    ensures Walk(HeShe(), RootIndex, HeSheLabels()[x]) == Some(x)
  {
    var L := HeSheLabels();
    if x == 0 {
    } else if x == 1 {
      assert L[1] == [104];
      HeSheWalk1();
    } else if x == 2 {
      assert L[2] == [104, 101];
      HeSheWalk2();
    } else if x == 3 {
      assert L[3] == [115];
      HeSheWalk3();
    } else if x == 4 {
      assert L[4] == [115, 104];
      HeSheWalk4();
    } else {
      assert L[5] == [115, 104, 101];
      HeSheWalk5();
    }
  }

  lemma HeSheLocal()
    ensures forall x | 0 <= x < 6 :: LocalOk(HeShe(), HeSheLabels(), x)
  {
    forall x | 0 <= x < 6
      ensures LocalOk(HeShe(), HeSheLabels(), x)
    {
      HeSheLocalAt(x);
    }
  }

  lemma HeSheLocalAt(x: nat)
    requires x < 6
    ensures LocalOk(HeShe(), HeSheLabels(), x)
  {
    var L := HeSheLabels();
    if x == 0 {
      assert L[1] == L[0] + [104] && L[3] == L[0] + [115];
    } else if x == 1 {
      assert L[2] == L[1] + [101] && ProperSuffix(L[0], L[1]);
    } else if x == 2 {
      assert ProperSuffix(L[0], L[2]);
    } else if x == 3 {
      assert L[4] == L[3] + [104] && ProperSuffix(L[0], L[3]);
    } else if x == 4 {
      assert L[5] == L[4] + [101] && L[4][2 - 1..] == L[1];
    } else {
      assert L[5][3 - 2..] == L[2];
    }
  }

  lemma HeSheValid()
    ensures Valid(HeShe(), HeSheLabels())
  {
    HeSheWellFormed();
    HeSheLocal();
    HeSheWalks();
    ValidFromParts(HeShe(), HeSheLabels());
  }

  /** compile's failure loop gives the three nodes below depth one the links
      the trie carries: "he" the root, "sh" the node "h", "she" the node
      "he". */
  lemma HeSheCompileLinks()
    ensures (HeSheValid(); FailFor(HeShe(), HeSheLabels(), HeShe()[1].fail, 101) == HeShe()[2].fail)
    ensures (HeSheValid(); FailFor(HeShe(), HeSheLabels(), HeShe()[3].fail, 104) == HeShe()[4].fail)
    ensures (HeSheValid(); FailFor(HeShe(), HeSheLabels(), HeShe()[4].fail, 101) == HeShe()[5].fail)
  {
    HeSheValid();
    var a, L := HeShe(), HeSheLabels();
    assert a[1].fail == 0 && a[2].fail == 0 && a[3].fail == 0;
    assert a[4].fail == 1 && a[5].fail == 2;
    HeSheNoRootE();
    assert FailFor(a, L, 0, 101) == 0;
    HeSheEdge(0, 0);
    assert FailFor(a, L, 0, 104) == 1;
    HeSheEdge(1, 0);
    assert FailFor(a, L, 1, 101) == 2;
  }

  /** The root has no child under 'e'. */
  lemma HeSheNoRootE()
    ensures Get(HeShe()[0], 101) == None
  {
    HeSheWellFormed();
    assert NodeWF(HeShe(), 0);
  }

  /** The three transitions along "she" follow direct edges. */
  lemma HeSheNexts()
    ensures (HeSheValid(); Next(Automaton(HeShe(), 0), HeSheLabels(), 115).state == 3)
    ensures (HeSheValid(); Next(Automaton(HeShe(), 3), HeSheLabels(), 104).state == 4)
    ensures (HeSheValid(); Next(Automaton(HeShe(), 4), HeSheLabels(), 101).state == 5)
  {
    HeSheValid();
    HeSheEdge(0, 1);
    HeSheEdge(3, 0);
    HeSheEdge(4, 0);
    NextByEdge(HeShe(), HeSheLabels(), 0, 115, 3);
    NextByEdge(HeShe(), HeSheLabels(), 3, 104, 4);
    NextByEdge(HeShe(), HeSheLabels(), 4, 101, 5);
  }

  /** Reading "she" from the root ends on the node "she". */
  lemma HeSheScan()
    ensures (HeSheValid(); Scan(CreateAutomaton(HeShe()), HeSheLabels(), [115, 104, 101]).state == 5)
  {
    HeSheValid();
    HeSheNexts();
    var a := HeShe();
    var L := HeSheLabels();
    assert [115, 104, 101][1..] == [104, 101] && [104, 101][1..] == [101] && [101][1..] == [];
    assert Scan(Automaton(a, 5), L, []) == Automaton(a, 5);
    assert Scan(Automaton(a, 4), L, [101]) == Automaton(a, 5);
    assert Scan(Automaton(a, 3), L, [104, 101]) == Automaton(a, 5);
  }

  /** On the node "she", visit_all as intended reports "she" and then "he",
      while visit_all as written reports the payload of "she" twice. */
  lemma HeSheVisitAll()
    ensures (HeSheValid(); VisitAll(Automaton(HeShe(), 5), HeSheLabels()) == [2, 1])
    ensures (HeSheValid(); VisitAllAsWritten(Automaton(HeShe(), 5), HeSheLabels()) == Some([2, 2]))
  {
    HeSheValid();
    var a := HeShe();
    var L := HeSheLabels();
    assert MatchChain(a, L, 2) == [1];
    assert MatchChain(a, L, 5) == [2, 1];
    VisitAllAsWrittenRepeatsState(Automaton(a, 5), L, 2);
    assert seq(2, _ => 2) == [2, 2];
  }

  /** On the node "sh", a plain node whose chain sh, h, root holds no
      match node, visit_all as written ends without a report and without
      reaching the cast. */
  lemma HeSheShVisitAll()
    ensures (HeSheValid(); VisitAllAsWritten(Automaton(HeShe(), 4), HeSheLabels()) == Some([]))
  {
    HeSheValid();
    var a := HeShe();
    var L := HeSheLabels();
    assert MatchChain(a, L, 1) == [];
    assert MatchChain(a, L, 4) == [];
  }

  // ---------------------------------------------------------------------
  // "abd", "b" and "d"

  /** A hand-built trie of the patterns "abd" (payload 1), "b" (2) and "d"
      (3): nodes root, a, b, d, ab, abd. Its links are the ones compile's
      failure loop gives (CompileLinkOfAb, CompileLinkOfAbd): "ab" falls
      back to "b" and "abd" to the root. */
  function Abd(): (a: Arena<int>)
    ensures |a| == 6
  {
    [ Node(Root, [Edge(97, 1), Edge(98, 2), Edge(100, 3)], 0),
      Node(Branch, [Edge(98, 4)], 0),
      Node(Match(2), [], 0),
      Node(Match(3), [], 0),
      Node(Branch, [Edge(100, 5)], 2),
      Node(Match(1), [], 0) ]
  }

  function AbdLabels(): (L: seq<seq<int>>)
    ensures |L| == 6
  {
    [[], [97], [98], [100], [97, 98], [97, 98, 100]]
  }

  lemma AbdWellFormed()
    ensures WellFormed(Abd())
  {
    var a := Abd();
    forall x | 0 <= x < 6
      ensures NodeWF(a, x)
    {
      SortedUpToThree(a[x].edges);
    }
  }

  /** get finds every edge of the trie. */
  lemma AbdEdge(x: nat, i: nat)
    requires x < 6 && i < |Abd()[x].edges|
    ensures Get(Abd()[x], Abd()[x].edges[i].token) == Some(Abd()[x].edges[i].child)
  {
    AbdWellFormed();
    assert NodeWF(Abd(), x);
    GetAt(Abd()[x], i);
  }

  /** The node "b" has no child under 'd'. */
  lemma AbdNoBd()
    ensures Get(Abd()[2], 100) == None
  {
    AbdWellFormed();
    assert NodeWF(Abd(), 2);
  }

  lemma AbdWalk1()
    ensures Walk(Abd(), RootIndex, [97]) == Some(1)
  {
    AbdEdge(0, 0);
    WalkCons(Abd(), 0, 97, 1, []);
  }

  lemma AbdWalk2()
    ensures Walk(Abd(), RootIndex, [98]) == Some(2)
  {
    AbdEdge(0, 1);
    WalkCons(Abd(), 0, 98, 2, []);
  }

  lemma AbdWalk3()
    ensures Walk(Abd(), RootIndex, [100]) == Some(3)
  {
    AbdEdge(0, 2);
    WalkCons(Abd(), 0, 100, 3, []);
  }

  lemma AbdWalk4()
    ensures Walk(Abd(), RootIndex, [97, 98]) == Some(4)
  {
    AbdEdge(0, 0);
    AbdEdge(1, 0);
    WalkCons(Abd(), 1, 98, 4, []);
    WalkCons(Abd(), 0, 97, 1, [98]);
  }

  lemma AbdWalk5()
    ensures Walk(Abd(), RootIndex, [97, 98, 100]) == Some(5)
  {
    AbdEdge(0, 0);
    AbdEdge(1, 0);
    AbdEdge(4, 0);
    WalkCons(Abd(), 4, 100, 5, []);
    WalkCons(Abd(), 1, 98, 4, [100]);
    WalkCons(Abd(), 0, 97, 1, [98, 100]);
  }

  /** Walking each node's path from the root reaches it. */
  lemma AbdWalks()
    ensures forall x | 0 <= x < 6 :: Walk(Abd(), RootIndex, AbdLabels()[x]) == Some(x)
  {
    forall x | 0 <= x < 6
      ensures Walk(Abd(), RootIndex, AbdLabels()[x]) == Some(x)
    {
      AbdWalkAt(x);
    }
  }

  lemma AbdWalkAt(x: nat)
    requires x < 6
    ensures Walk(Abd(), RootIndex, AbdLabels()[x]) == Some(x)
  {
    var L := AbdLabels();
    if x == 0 {
    } else if x == 1 {
      assert L[1] == [97];
      AbdWalk1();
    } else if x == 2 {
      assert L[2] == [98];
      AbdWalk2();
    } else if x == 3 {
      assert L[3] == [100];
      AbdWalk3();
    } else if x == 4 {
      assert L[4] == [97, 98];
      AbdWalk4();
    } else {
      assert L[5] == [97, 98, 100];
      AbdWalk5();
    }
  }

  lemma AbdLocal()
    ensures forall x | 0 <= x < 6 :: LocalOk(Abd(), AbdLabels(), x)
  {
    forall x | 0 <= x < 6
      ensures LocalOk(Abd(), AbdLabels(), x)
    {
      AbdLocalAt(x);
    }
  }

  lemma AbdLocalAt(x: nat)
    requires x < 6
    ensures LocalOk(Abd(), AbdLabels(), x)
  {
    var L := AbdLabels();
    if x == 0 {
      assert L[1] == L[0] + [97] && L[2] == L[0] + [98] && L[3] == L[0] + [100];
    } else if x == 1 {
      assert L[4] == L[1] + [98] && ProperSuffix(L[0], L[1]);
    } else if x == 2 {
      assert ProperSuffix(L[0], L[2]);
    } else if x == 3 {
      assert ProperSuffix(L[0], L[3]);
    } else if x == 4 {
      assert L[5] == L[4] + [100] && L[4][2 - 1..] == L[2];
    } else {
      assert ProperSuffix(L[0], L[5]);
    }
  }

  lemma AbdValid()
    ensures Valid(Abd(), AbdLabels())
  {
    AbdWellFormed();
    AbdLocal();
    AbdWalks();
    ValidFromParts(Abd(), AbdLabels());
  }

  /** compile's failure loop gives "ab" the link "b": it probes the root,
      the link of "a", for 'b'. */
  lemma CompileLinkOfAb()
    ensures (AbdValid(); FailFor(Abd(), AbdLabels(), Abd()[1].fail, 98) == 2)
  {
    AbdValid();
    assert Abd()[1].fail == 0;
    AbdEdge(0, 1);
    assert Get(Abd()[0], 98) == Some(2);
  }

  /** compile's failure loop gives "abd" the root: it probes "b", the link
      of "ab", finds no edge for 'd', and stops because the link of "b" is
      the root, without probing the root itself. */
  lemma CompileLinkOfAbd()
    ensures (AbdValid(); FailFor(Abd(), AbdLabels(), Abd()[4].fail, 100) == RootIndex)
  {
    AbdValid();
    AbdNoBd();
  }

  /** Yet "d" is a pattern of the trie whose path is a non-empty proper
      suffix of "abd", so the longest-suffix link of "abd" is "d", not the
      root. This happens although the links of "ab" and of every shallower
      node are longest, which is all FailForIntendedIsLongest asks. */
  lemma CompileMissesLongestSuffix()
    ensures (AbdValid(); FailFor(Abd(), AbdLabels(), Abd()[4].fail, 100) == RootIndex)
    ensures Walk(Abd(), RootIndex, [100]) == Some(3) && Abd()[3].kind == Match(3)
    ensures ProperSuffix(AbdLabels()[3], AbdLabels()[5]) && |AbdLabels()[3]| > 0
    ensures forall x | 0 <= x < 6 && |AbdLabels()[x]| <= |AbdLabels()[4]| :: LongestLink(Abd(), AbdLabels(), x)
  {
    CompileLinkOfAbd();
    AbdWalk3();
    AbdDIsSuffix();
    AbdLinksLongest();
  }

  /** "d" is a non-empty proper suffix of "abd". */
  lemma AbdDIsSuffix()
    ensures ProperSuffix(AbdLabels()[3], AbdLabels()[5]) && |AbdLabels()[3]| > 0
  {
    var L := AbdLabels();
    assert L[5][3 - 1..] == L[3];
  }

  /** The nodes no deeper than "ab" have longest links: the root's children
      have only the empty proper suffix, and "ab" links to "b". */
  lemma AbdLinksLongest()
    ensures forall x | 0 <= x < 6 && |AbdLabels()[x]| <= |AbdLabels()[4]| :: LongestLink(Abd(), AbdLabels(), x)
  {
    forall x | 0 <= x < 6 && |AbdLabels()[x]| <= |AbdLabels()[4]|
      ensures LongestLink(Abd(), AbdLabels(), x)
    {
      AbdLinkLongestAt(x);
    }
  }

  lemma AbdLinkLongestAt(x: nat)
    requires x < 6 && |AbdLabels()[x]| <= 2
    ensures LongestLink(Abd(), AbdLabels(), x)
  {
    var a := Abd();
    var L := AbdLabels();
    assert x != 5;
    if x == 4 {
      assert |L[a[4].fail]| == 1;
    } else if x != RootIndex {
      assert |L[x]| == 1 && a[x].fail == RootIndex;
    }
  }

  /** compile's failure loop with the root probed gives "abd" the link "d":
      it probes "b", then the root, which has a 'd' child. */
  lemma AbdIntendedLink()
    ensures (AbdValid(); FailForIntended(Abd(), AbdLabels(), Abd()[4].fail, 100) == 3)
  {
    AbdValid();
    AbdNoBd();
    AbdEdge(0, 2);
  }

  /** The three transitions along "abd" follow direct edges. */
  lemma AbdNexts()
    ensures (AbdValid(); Next(Automaton(Abd(), 0), AbdLabels(), 97).state == 1)
    ensures (AbdValid(); Next(Automaton(Abd(), 1), AbdLabels(), 98).state == 4)
    ensures (AbdValid(); Next(Automaton(Abd(), 4), AbdLabels(), 100).state == 5)
  {
    AbdValid();
    AbdEdge(0, 0);
    AbdEdge(1, 0);
    AbdEdge(4, 0);
    NextByEdge(Abd(), AbdLabels(), 0, 97, 1);
    NextByEdge(Abd(), AbdLabels(), 1, 98, 4);
    NextByEdge(Abd(), AbdLabels(), 4, 100, 5);
  }

  /** Reading "abd" from the root ends on "abd". */
  lemma AbdScan()
    ensures (AbdValid(); Scan(CreateAutomaton(Abd()), AbdLabels(), [97, 98, 100]).state == 5)
  {
    AbdValid();
    AbdNexts();
    var a := Abd();
    var L := AbdLabels();
    assert [97, 98, 100][1..] == [98, 100] && [98, 100][1..] == [100] && [100][1..] == [];
    assert Scan(Automaton(a, 5), L, []) == Automaton(a, 5);
    assert Scan(Automaton(a, 4), L, [100]) == Automaton(a, 5);
    assert Scan(Automaton(a, 1), L, [98, 100]) == Automaton(a, 5);
  }

  /** On "abd", visit_all (as intended) reports only "abd": the pattern "d",
      which also ends there, is missed. */
  lemma AbdVisitAllMissesD()
    ensures (AbdValid(); VisitAll(Automaton(Abd(), 5), AbdLabels()) == [1])
  {
    AbdValid();
    assert MatchChain(Abd(), AbdLabels(), 5) == [1];
  }
}
