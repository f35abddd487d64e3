/** ac_trie::Automaton: a cursor over a trie. Its state is a node; `next`
    moves it by one token along an edge or, failing that, along failure
    links; `visit` and `visit_all` report the payloads the state stands for;
    `word` probes a whole key. */
module AcAutomaton {
  import opened Wrappers
  import opened TrieNodes
  import opened AcTrie
  import opened AcCompile

  datatype Automaton<P> = Automaton(trie: Arena<P>, state: nat)

  /** The cursor sits on a node of a valid trie. */
  ghost predicate Ready<P>(m: Automaton<P>, L: seq<seq<int>>) {
    Valid(m.trie, L) && m.state < |m.trie|
  }

  /** create_automaton and the Automaton constructor: a cursor on the root,
      which stands for no match. */
  function CreateAutomaton<P>(a: Arena<P>): (m: Automaton<P>)
    requires |a| > 0
    ensures m.trie == a && m.state == RootIndex
    ensures Visit(m) == None
  {
    Automaton(a, RootIndex)
  }

  // ---------------------------------------------------------------------
  // next

  /** The loop of next(ch) from `node`: take the `ch` edge if there is one;
      otherwise stay at the root if already there, else retry from the
      failure link. */
  function NextFrom<P>(a: Arena<P>, L: seq<seq<int>>, node: nat, ch: int): (r: nat)
    requires Valid(a, L) && node < |a|
    ensures r < |a|
    ensures Get(a[node], ch).Some? ==> r == Get(a[node], ch).value
    ensures r == RootIndex ==> Get(a[node], ch).None? && Get(a[RootIndex], ch).None?
    decreases |L[node]|
  {
    match Get(a[node], ch)
    case Some(c) =>
      ChildInRange(a, node, ch);
      c
    case None =>
      if node == RootIndex then RootIndex
      else
        FailLabel(a, L, node);
        NextFrom(a, L, a[node].fail, ch)
  }

  /** The state next(ch) reaches carries a suffix of the current state's
      path extended by `ch`. */
  lemma {:induction false} NextFromIsSuffix<P>(a: Arena<P>, L: seq<seq<int>>, node: nat, ch: int)
    requires Valid(a, L) && node < |a|
    ensures IsSuffix(L[NextFrom(a, L, node, ch)], L[node] + [ch])
    decreases |L[node]|
  {
    var r := NextFrom(a, L, node, ch);
    match Get(a[node], ch)
    case Some(c) =>
      ChildLabel(a, L, node, ch);
      assert (L[node] + [ch])[0..] == L[node] + [ch];
    case None =>
      if node == RootIndex {
        assert L[r] == [];
        EmptyIsSuffix(L[node] + [ch]);
      } else {
        FailLabel(a, L, node);
        NextFromIsSuffix(a, L, a[node].fail, ch);
        SuffixSnoc(L[a[node].fail], L[node], ch);
        SuffixTransitive(L[r], L[a[node].fail] + [ch], L[node] + [ch]);
      }
  }

  /** From the root, next(ch) takes the root's `ch` edge or stays at the
      root; any other state it reaches is entered by a `ch` edge, so its path
      ends in `ch`. */
  lemma {:induction false} NextFromEndsInToken<P>(a: Arena<P>, L: seq<seq<int>>, node: nat, ch: int)
    requires Valid(a, L) && node < |a|
    ensures node == RootIndex ==> NextFrom(a, L, node, ch) == GetOr(a[RootIndex], ch, RootIndex)
    ensures var r := NextFrom(a, L, node, ch);
            r != RootIndex ==> 0 < |L[r]| && L[r][|L[r]| - 1] == ch
    decreases |L[node]|
  {
    match Get(a[node], ch)
    case Some(c) =>
      ChildLabel(a, L, node, ch);
    case None =>
      if node != RootIndex {
        FailLabel(a, L, node);
        NextFromEndsInToken(a, L, a[node].fail, ch);
      }
  }

  /** next(ch) follows failure links: its result is the `ch` child of the
      first node on the state's failure chain that has one, and the root
      exactly when no node on the chain, the root included, has one. */
  lemma {:induction false} NextFromFollowsFailChain<P>(a: Arena<P>, L: seq<seq<int>>, node: nat, ch: int)
    requires Valid(a, L) && node < |a|
    ensures var c := FailChain(a, L, node);
            var r := NextFrom(a, L, node, ch);
            && (forall i | 0 <= i < |c| && FirstWithChild(a, c, ch, i) :: Get(a[c[i]], ch) == Some(r))
            && (r == RootIndex <==> forall i | 0 <= i < |c| :: !HasChild(a, c[i], ch))
    decreases |L[node]|
  {
    var c := FailChain(a, L, node);
    var r := NextFrom(a, L, node, ch);
    if Get(a[node], ch).Some? {
      ChildInRange(a, node, ch);
      ChainHead(a, c, ch);
    } else if node == RootIndex {
      assert c == [RootIndex];
    } else {
      FailLabel(a, L, node);
      var f := a[node].fail;
      var rest := FailChain(a, L, f);
      NextFromFollowsFailChain(a, L, f, ch);
      assert c == [node] + rest;
      assert r == NextFrom(a, L, f, ch);
      ChainTail(a, rest, node, ch, r);
    }
  }

  lemma EmptyIsSuffix(w: seq<int>)
    ensures IsSuffix([], w)
  {
  }

  /** next(ch): the cursor moves to NextFrom of its state. From a state with
      a `ch` edge it takes that edge; it lands on the root only when the
      root has no `ch` edge either; the new state's path is a suffix of the
      old path extended by `ch`. */
  function Next<P>(m: Automaton<P>, L: seq<seq<int>>, ch: int): (r: Automaton<P>)
    requires Ready(m, L)
    ensures Ready(r, L) && r.trie == m.trie
    ensures Get(m.trie[m.state], ch).Some? ==> r.state == Get(m.trie[m.state], ch).value
    ensures r.state == RootIndex ==> Get(m.trie[RootIndex], ch).None?
    ensures IsSuffix(L[r.state], L[m.state] + [ch])
  {
    NextFromIsSuffix(m.trie, L, m.state, ch);
    m.(state := NextFrom(m.trie, L, m.state, ch))
  }

  /** next's loop and compile's failure loop with the root probed are the
      same search: from any state they reach the same node. */
  lemma {:induction false} NextFromIsIntendedLink<P>(a: Arena<P>, L: seq<seq<int>>, node: nat, ch: int)
    requires Valid(a, L) && node < |a|
    ensures NextFrom(a, L, node, ch) == FailForIntended(a, L, node, ch)
    decreases |L[node]|
  {
    GetOrRoot(a, node, ch);
    if Get(a[node], ch).None? && node != RootIndex {
      FailLabel(a, L, node);
      NextFromIsIntendedLink(a, L, a[node].fail, ch);
    }
  }

  /** next(ch) on the cursor follows its state's failure chain: the new
      state is the `ch` child of the first node on the chain that has one,
      and the root exactly when no node on the chain has one. */
  lemma NextFollowsFailChain<P>(m: Automaton<P>, L: seq<seq<int>>, ch: int)
    requires Ready(m, L)
    ensures var c := FailChain(m.trie, L, m.state);
            var s := Next(m, L, ch).state;
            && (forall i | 0 <= i < |c| && FirstWithChild(m.trie, c, ch, i) :: Get(m.trie[c[i]], ch) == Some(s))
            && (s == RootIndex <==> forall i | 0 <= i < |c| :: !HasChild(m.trie, c[i], ch))
  {
    NextFromFollowsFailChain(m.trie, L, m.state, ch);
  }

  /** A text fed to next token by token. */
  function Scan<P>(m: Automaton<P>, L: seq<seq<int>>, text: seq<int>): (r: Automaton<P>)
    requires Ready(m, L)
    ensures Ready(r, L) && r.trie == m.trie
    decreases |text|
  {
    if |text| == 0 then m
    else Scan(Next(m, L, text[0]), L, text[1..])
  }

  /** After a text is fed from any state, the state's path is a suffix of
      the old path followed by the text; fed from the root, a suffix of the
      text itself. */
  lemma {:induction false} ScanStateIsSuffix<P>(m: Automaton<P>, L: seq<seq<int>>, text: seq<int>)
    requires Ready(m, L)
    ensures IsSuffix(L[Scan(m, L, text).state], L[m.state] + text)
    decreases |text|
  {
    if |text| == 0 {
      SuffixOfSelf(L[m.state], text);
    } else {
      var m1 := Next(m, L, text[0]);
      ScanStateIsSuffix(m1, L, text[1..]);
      SuffixAppend(L[m1.state], L[m.state] + [text[0]], text[1..]);
      SuffixTransitive(L[Scan(m, L, text).state], L[m1.state] + text[1..], L[m.state] + [text[0]] + text[1..]);
      ConsConcat(L[m.state], text);
    }
  }

  lemma SuffixOfSelf(u: seq<int>, text: seq<int>)
    requires |text| == 0
    ensures IsSuffix(u, u + text)
  {
    assert u + text == u;
    assert u[0..] == u;
  }

  lemma SuffixAppend(u: seq<int>, w: seq<int>, t: seq<int>)
    requires IsSuffix(u, w)
    ensures IsSuffix(u + t, w + t)
  {
    assert (w + t)[|w + t| - |u + t|..] == w[|w| - |u|..] + t;
  }

  // ---------------------------------------------------------------------
  // empty and visit

  /** empty(): whether the state is a root or branch node, that is, whether
      value() would fail on it. */
  function Empty<P>(m: Automaton<P>): (b: bool)
    requires m.state < |m.trie|
    ensures b <==> Value(m.trie[m.state]).Err?
  {
    IsEmpty(m.trie[m.state])
  }

  /** visit(visitor): the payload handed to the visitor, if any. There is
      one exactly when the state is not the root and is a match node. */
  function Visit<P>(m: Automaton<P>): (r: Option<P>)
    requires m.state < |m.trie|
    ensures r.Some? <==> m.state != RootIndex && !Empty(m)
    ensures r.Some? ==> m.trie[m.state].kind == Match(r.value)
  {
    if m.state != RootIndex && !IsEmpty(m.trie[m.state]) then
      Some(m.trie[m.state].kind.payload)
    else None
  }

  /** Every payload visit reports while scanning a text from the root
      belongs to a pattern path that ends the text read so far. */
  lemma VisitReportsSuffixPattern<P>(a: Arena<P>, L: seq<seq<int>>, text: seq<int>)
    requires Valid(a, L)
    ensures var m := Scan(CreateAutomaton(a), L, text);
            Visit(m).Some? ==>
              && 0 < |L[m.state]| && IsSuffix(L[m.state], text)
              && Walk(a, RootIndex, L[m.state]) == Some(m.state)
              && a[m.state].kind == Match(Visit(m).value)
  {
    var m0 := CreateAutomaton(a);
    var m := Scan(m0, L, text);
    ScanStateIsSuffix(m0, L, text);
    assert L[RootIndex] + text == text;
    Reached(a, L, m.state);
    if m.state != RootIndex {
      FailLabel(a, L, m.state);
    }
  }

  // ---------------------------------------------------------------------
  // visit_all

  /** visit_all as intended: the payloads of the match nodes on the failure
      chain from `node` down to, but not including, the root, in chain
      order. */
  function MatchChain<P>(a: Arena<P>, L: seq<seq<int>>, node: nat): (r: seq<P>)
    requires Valid(a, L) && node < |a|
    ensures |r| <= |L[node]|
    ensures node == RootIndex ==> r == []
    ensures node != RootIndex && a[node].kind.Match? ==> |r| > 0 && r[0] == a[node].kind.payload
    decreases |L[node]|
  {
    if node == RootIndex then []
    else
      FailLabel(a, L, node);
      var rest := MatchChain(a, L, a[node].fail);
      if a[node].kind.Match? then [a[node].kind.payload] + rest else rest
  }

  /** The payloads of the match nodes of a sequence of nodes, in order;
      every other node, the root among them, contributes nothing. */
  ghost function MatchPayloads<P>(a: Arena<P>, c: seq<nat>): (r: seq<P>)
    ensures |r| <= |c|
    decreases |c|
  {
    if |c| == 0 then []
    else if c[0] < |a| && a[c[0]].kind.Match? then [a[c[0]].kind.payload] + MatchPayloads(a, c[1..])
    else MatchPayloads(a, c[1..])
  }

  /** MatchChain walks the whole failure chain of `node`: it reports the
      payload of every match node on the chain, in chain order, and nothing
      for the root that ends it. */
  lemma {:induction false} MatchChainFollowsFailChain<P>(a: Arena<P>, L: seq<seq<int>>, node: nat)
    requires Valid(a, L) && node < |a|
    ensures MatchChain(a, L, node) == MatchPayloads(a, FailChain(a, L, node))
    decreases |L[node]|
  {
    var c := FailChain(a, L, node);
    if node == RootIndex {
      assert c == [RootIndex] && c[1..] == [];
      assert a[RootIndex].kind.Root?;
    } else {
      FailLabel(a, L, node);
      var rest := FailChain(a, L, a[node].fail);
      assert c == [node] + rest;
      assert c[1..] == rest;
      MatchChainFollowsFailChain(a, L, a[node].fail);
    }
  }

  /** A payload MatchChain reports is carried by a match node whose path is
      a non-empty suffix of the start node's path. */
  lemma {:induction false} MatchChainSound<P>(a: Arena<P>, L: seq<seq<int>>, node: nat, i: nat)
    requires Valid(a, L) && node < |a| && i < |MatchChain(a, L, node)|
    ensures exists x | 0 < x < |a| ::
              a[x].kind == Match(MatchChain(a, L, node)[i]) && IsSuffix(L[x], L[node])
    decreases |L[node]|
  {
    FailLabel(a, L, node);
    var f := a[node].fail;
    var r := MatchChain(a, L, node);
    if a[node].kind.Match? && i == 0 {
      assert (L[node])[0..] == L[node];
      assert a[node].kind == Match(r[i]) && IsSuffix(L[node], L[node]);
    } else {
      var j := if a[node].kind.Match? then i - 1 else i;
      assert r[i] == MatchChain(a, L, f)[j];
      MatchChainSound(a, L, f, j);
      var x :| 0 < x < |a| && a[x].kind == Match(MatchChain(a, L, f)[j]) && IsSuffix(L[x], L[f]);
      SuffixTransitive(L[x], L[f], L[node]);
    }
  }

  /** visit_all(visitor) as intended. */
  function VisitAll<P>(m: Automaton<P>, L: seq<seq<int>>): (r: seq<P>)
    requires Ready(m, L)
    ensures |r| <= |L[m.state]|
    ensures Visit(m).Some? ==> |r| > 0 && r[0] == Visit(m).value
    ensures m.state == RootIndex ==> r == []
  {
    MatchChain(m.trie, L, m.state)
  }

  /** visit_all as written: the chain is walked and each non-empty node on
      it triggers a report, but the payload is read through a cast of the
      state, not of the chain node. When the state is itself a match node
      its payload is reported once per match node on the chain. Otherwise
      the first match node met makes the cast invalid (None), and a chain
      without match nodes ends the loop with no report and no cast. */
  function VisitAllAsWritten<P>(m: Automaton<P>, L: seq<seq<int>>): (r: Option<seq<P>>)
    requires Ready(m, L)
    ensures r.Some? ==> |r.value| == |VisitAll(m, L)|
    ensures r.Some? ==> forall i | 0 <= i < |r.value| :: m.trie[m.state].kind == Match(r.value[i])
    ensures r.None? <==> |VisitAll(m, L)| > 0 && !m.trie[m.state].kind.Match?
  {
    CastChain(m.trie, L, m.state, m.trie[m.state].kind)
  }

  /** The loop of visit_all as written, `cast` being the kind of the state
      the payload is read from. */
  function CastChain<P>(a: Arena<P>, L: seq<seq<int>>, node: nat, cast: Kind<P>): (r: Option<seq<P>>)
    requires Valid(a, L) && node < |a|
    ensures r.Some? ==> |r.value| == |MatchChain(a, L, node)|
    ensures r.Some? ==> forall i | 0 <= i < |r.value| :: cast == Match(r.value[i])
    ensures r.None? <==> |MatchChain(a, L, node)| > 0 && !cast.Match?
    decreases |L[node]|
  {
    if node == RootIndex then Some([])
    else
      FailLabel(a, L, node);
      var rest := CastChain(a, L, a[node].fail, cast);
      if !a[node].kind.Match? then rest
      else if !cast.Match? then None
      else match rest
        case None => None
        case Some(ps) => Some([cast.payload] + ps)
  }

  /** visit_all, as intended and as written, walks the failure chain of the
      state: the intended one reports the payload of each match node on
      it, in order; the one as written makes exactly as many reports, each
      the state's own payload. */
  lemma VisitAllFollowsFailChain<P>(m: Automaton<P>, L: seq<seq<int>>)
    requires Ready(m, L)
    ensures VisitAll(m, L) == MatchPayloads(m.trie, FailChain(m.trie, L, m.state))
    ensures var w := VisitAllAsWritten(m, L);
            && (w.None? <==> |MatchPayloads(m.trie, FailChain(m.trie, L, m.state))| > 0 && !m.trie[m.state].kind.Match?)
            && (w.Some? ==> |w.value| == |MatchPayloads(m.trie, FailChain(m.trie, L, m.state))|)
  {
    MatchChainFollowsFailChain(m.trie, L, m.state);
  }

  /** The loop as written reports once per match node on the chain. */
  lemma CastChainFollowsFailChain<P>(a: Arena<P>, L: seq<seq<int>>, node: nat, cast: Kind<P>)
    requires Valid(a, L) && node < |a|
    ensures var r := CastChain(a, L, node, cast);
            r.Some? ==> |r.value| == |MatchPayloads(a, FailChain(a, L, node))|
  {
    MatchChainFollowsFailChain(a, L, node);
  }

  // ---------------------------------------------------------------------
  // word

  /** The longest path in a labelling. */
  ghost function MaxLen(L: seq<seq<int>>): (n: nat)
    ensures forall i | 0 <= i < |L| :: |L[i]| <= n
  {
    if |L| == 0 then 0
    else
      var rest := MaxLen(L[1..]);
      assert forall i | 1 <= i < |L| :: L[i] == L[1..][i - 1];
      if |L[0]| > rest then |L[0]| else rest
  }

  /** The inner loop of word as written: the cursor never advances, so the
      first token is looked up again and again, following `ch` edges until
      a node without one is met, where the loop returns false. It stops
      because every step lengthens the path. */
  function ChaseToken<P>(a: Arena<P>, L: seq<seq<int>>, node: nat, ch: int): (stop: nat)
    requires Valid(a, L) && node < |a|
    ensures stop < |a| && Get(a[stop], ch).None?
    ensures |L[node]| <= |L[stop]|
    decreases MaxLen(L) - |L[node]|
  {
    match Get(a[node], ch)
    case None => node
    case Some(c) =>
      ChildLabel(a, L, node, ch);
      ChaseToken(a, L, c, ch)
  }

  /** word(key) as written. An empty key, or a first token after which
      next lands on the root, gives false. A one-token key gives empty()
      of the new state, true on a branch node. A longer key always ends
      in the inner loop returning false. The cursor keeps the move of the
      first next. */
  function Word<P>(m: Automaton<P>, L: seq<seq<int>>, key: seq<int>): (r: (Automaton<P>, bool))
    requires Ready(m, L)
    ensures Ready(r.0, L) && r.0.trie == m.trie
    ensures |key| == 0 ==> r == (m, false)
    ensures |key| > 0 ==> r.0 == Next(m, L, key[0])
    ensures |key| != 1 ==> !r.1
    ensures |key| == 1 ==> (r.1 <==> r.0.state != RootIndex && !r.0.trie[r.0.state].kind.Match?)
  {
    if |key| == 0 then (m, false)
    else
      var m1 := Next(m, L, key[0]);
      if m1.state == RootIndex then (m1, false)
      else if |key| == 1 then (m1, Empty(m1))
      else
        var _ := ChaseToken(m1.trie, L, m1.state, key[0]);
        (m1, false)
  }

  /** word(key) as intended: the first token through next, every later
      token along a direct edge, true when the key is used up on a match
      node; the cursor then moves to that node, and otherwise keeps the
      move of the first next. */
  function WordIntended<P>(m: Automaton<P>, L: seq<seq<int>>, key: seq<int>): (r: (Automaton<P>, bool))
    requires Ready(m, L)
    ensures Ready(r.0, L) && r.0.trie == m.trie
    ensures r.1 ==> 0 < |key| && r.0.trie[r.0.state].kind.Match?
    ensures r.1 ==> L[r.0.state] == L[Next(m, L, key[0]).state] + key[1..]
  {
    if |key| == 0 then (m, false)
    else
      var m1 := Next(m, L, key[0]);
      if m1.state == RootIndex then (m1, false)
      else match Walk(m1.trie, m1.state, key[1..])
        case None => (m1, false)
        case Some(x) =>
          WalkLabel(m1.trie, L, m1.state, key[1..]);
          if IsEmpty(m1.trie[x]) then (m1, false) else (m1.(state := x), true)
  }

  /** From the root, the intended word holds exactly when the key's path
      exists and ends on a match node. */
  lemma WordIntendedFromRoot<P>(a: Arena<P>, L: seq<seq<int>>, key: seq<int>)
    requires Valid(a, L)
    ensures WordIntended(CreateAutomaton(a), L, key).1 <==>
              Walk(a, RootIndex, key).Some? && a[Walk(a, RootIndex, key).value].kind.Match?
  {
    if |key| > 0 {
      if Get(a[RootIndex], key[0]).Some? {
        WordFromRootStep(a, L, key);
      }
    }
  }

  lemma WordFromRootStep<P>(a: Arena<P>, L: seq<seq<int>>, key: seq<int>)
    requires Valid(a, L) && |key| > 0 && Get(a[RootIndex], key[0]).Some?
    ensures var c := Get(a[RootIndex], key[0]).value;
            && 0 < c < |a|
            && Next(CreateAutomaton(a), L, key[0]).state == c
            && Walk(a, RootIndex, key) == Walk(a, c, key[1..])
            && WordIntended(CreateAutomaton(a), L, key).1 == (Walk(a, c, key[1..]).Some? && !IsEmpty(a[Walk(a, c, key[1..]).value]))
  {
    ChildInRange(a, RootIndex, key[0]);
  }

  /** Two arenas that differ only in failure links have the same walks. */
  lemma {:induction false} WalkIgnoresFailLinks<P>(a: Arena<P>, b: Arena<P>, n: nat, w: seq<int>)
    requires SameShape(a, b) && n < |a|
    ensures Walk(b, n, w) == Walk(a, n, w)
    decreases |w|
  {
    if |w| > 0 {
      assert SameShapeAt(a, b, n);
      match Get(a[n], w[0])
      case None =>
      case Some(c) =>
        if c < |a| {
          WalkIgnoresFailLinks(a, b, c, w[1..]);
        }
    }
  }

  /** After a pattern is added and the trie compiled, the intended word
      probe from the root finds the pattern; word as written, for a
      pattern of two or more tokens, does not. */
  lemma AddedPatternIsWord<P>(a: Arena<P>, w: seq<int>, v: P, L: seq<seq<int>>)
    requires WellFormed(a) && |w| > 0 && Valid(Add(a, w, v), L)
    ensures WordIntended(CreateAutomaton(Compile(Add(a, w, v), L)), L, w).1
    ensures |w| >= 2 ==> !Word(CreateAutomaton(Compile(Add(a, w, v), L)), L, w).1
  {
    var b := Add(a, w, v);
    var c := Compile(b, L);
    WalkIgnoresFailLinks(b, c, RootIndex, w);
    assert SameShapeAt(b, c, Walk(b, RootIndex, w).value);
    WordIntendedFromRoot(c, L, w);
  }

  /** Every payload visit_all, as intended, reports while scanning a text
      from the root is carried by a match node reached from the root by a
      non-empty suffix of the text read so far. */
  lemma VisitAllReportsSuffixPatterns<P>(a: Arena<P>, L: seq<seq<int>>, text: seq<int>, i: nat)
    requires Valid(a, L)
    requires i < |VisitAll(Scan(CreateAutomaton(a), L, text), L)|
    ensures exists x | 0 < x < |a| ::
              && a[x].kind == Match(VisitAll(Scan(CreateAutomaton(a), L, text), L)[i])
              && 0 < |L[x]| && IsSuffix(L[x], text)
              && Walk(a, RootIndex, L[x]) == Some(x)
  {
    var m0 := CreateAutomaton(a);
    var m := Scan(m0, L, text);
    ScanStateIsSuffix(m0, L, text);
    assert L[RootIndex] + text == text;
    MatchChainSound(a, L, m.state, i);
    var x :| 0 < x < |a| && a[x].kind == Match(MatchChain(a, L, m.state)[i]) && IsSuffix(L[x], L[m.state]);
    SuffixTransitive(L[x], L[m.state], text);
    FailLabel(a, L, x);
    Reached(a, L, x);
  }

  /** visit_all as written, on a match state carrying `p`, reports `p` once
      for every payload the intended visit_all reports. */
  lemma VisitAllAsWrittenRepeatsState<P>(m: Automaton<P>, L: seq<seq<int>>, p: P)
    requires Ready(m, L) && m.trie[m.state].kind == Match(p)
    ensures VisitAllAsWritten(m, L) == Some(seq(|VisitAll(m, L)|, _ => p))
  {
    CastChainRepeats(m.trie, L, m.state, p);
  }

  lemma {:induction false} CastChainRepeats<P>(a: Arena<P>, L: seq<seq<int>>, node: nat, p: P)
    requires Valid(a, L) && node < |a|
    ensures CastChain(a, L, node, Match(p)) == Some(seq(|MatchChain(a, L, node)|, _ => p))
    decreases |L[node]|
  {
    if node != RootIndex {
      FailLabel(a, L, node);
      CastChainRepeats(a, L, a[node].fail, p);
      if a[node].kind.Match? {
        var n := |MatchChain(a, L, a[node].fail)|;
        assert [p] + seq(n, _ => p) == seq(n + 1, _ => p);
      }
    } else {
      assert seq(0, _ => p) == [];
    }
  }
}
