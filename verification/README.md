# Aho–Corasick trie and flat map of yafiyogi/cpp, in Dafny

This project models two header-only containers from the yafiyogi C++
utility library and proves properties about them.

- `yy_data::flat_map` (`yy_flat_map.h`) is an associative container. It keeps
  its keys in one sorted vector and its values in a parallel vector.
  Lookup is a binary search for the lower bound of the key. `emplace`
  inserts at that position unless the key is already present. The map
  also has `size`, `empty`, `clear`, `swap`, a lexicographic `operator<`
  and an element-wise `operator==`.
- `yy_data::ac_trie` (`yy_aho_corasick.h`) is an Aho–Corasick automaton.
  - `add` inserts a pattern: it creates one plain `trie_node` per missing
    prefix token and ends in a `Payload` node carrying the pattern's value.
  - `compile` walks the trie breadth-first and sets every node's failure
    link.
  - `create_automaton` returns an `Automaton` cursor. `next` follows
    children or failure links on each token; `visit` reports the payload of
    the current state. `visit_all` is meant to report the payloads along
    the failure chain, and `word` to test whether a key is a stored
    pattern; as written, neither does (see "## Findings").

## Modelling decisions

- **Keys and tokens** are mathematical integers. The flat map's values are
  generic. Only `operator<` fixes them to integers, since it needs an order
  on values.
- **The trie is an arena.** A trie is a `seq<Node<P>>` whose node 0 is the
  root (`RootNode`). A node carries:
  - a kind: `Root`, `Branch` (a plain `trie_node`) or `Match(payload)` (a
    `Payload`);
  - its children, as a sequence of `Edge(token, child)` sorted by token,
    like the C++ `m_children` vector of `node_shim`;
  - the index of its failure node.

  Shared pointers become indices.
- **The invariant uses a ghost labelling.** `AcTrie.Valid(a, L)` takes a
  labelling `L` that gives each node the token path leading to it from
  the root. It is passed as an extra argument that only contracts and
  proofs read, and it is never stored. Under
  `Valid`:
  - each edge extends its parent's path by its token;
  - every failure link names a node whose path is a proper suffix of the
    node's own path;
  - walking a node's path from the root reaches that node.

  The suffix property is what makes `next` terminate. It is also why every
  match reported is a suffix of the text read so far.
- **Mutation is functional.** Each mutating C++ member becomes a function
  that returns the new arena or map, with a position or flag where the C++
  returns one.
- **Callbacks become results.** A visitor callback becomes the value it
  would receive: an `Option` for `visit`, a sequence for `visit_all`, an
  `Option` entry for `lower_bound` and `find_value`.

## Model

| member | source | states |
|---|---|---|
| SortedSearch.LowerBound | yy_flat_map.h:493-513 | the lower bound of a key: every earlier key is smaller, the key at the position is not smaller, and in a sorted vector no later key is smaller |
| SortedSearch.Search | yy_flat_map.h:524-553 | the found flag holds exactly when the key is in a sorted vector and then sits at the returned position; when it is absent every key from the position on is larger |
| SortedSearch.LowerBoundUnique | yy_flat_map.h:493-513 | any position that splits the keys into smaller and not-smaller ones is the lower bound, so the lower bound is unique |
| SortedSearch.BinarySearch | yy_flat_map.h:493-513 | the loop-based binary search over a sorted vector returns exactly the lower bound |
| SortedSearch.InsertAt | yy_flat_map.h:433-447 | vector insertion: one longer, the new element at the position, earlier elements in place, later ones shifted by one |
| SortedSearch.InsertAtMembers | yy_flat_map.h:433-447 | after insertion the members are the old members plus the inserted element |
| SortedSearch.InsertAtLowerBoundSorted | yy_flat_map.h:301-325 | inserting an absent key at its lower bound keeps the keys strictly increasing |
| FlatMaps.ToMap | yy_flat_map.h:555-556 | the parallel key and value vectors denote a map whose domain is the key set; with strictly sorted keys each key maps to the value at its index |
| FlatMaps.Size | yy_flat_map.h:339-345 | the size is the length of both vectors and, for a valid map, the number of entries of the map it denotes |
| FlatMaps.ToMapSize | yy_flat_map.h:339-345 | strictly sorted keys denote a map with exactly as many entries as there are keys |
| FlatMaps.IsEmpty | yy_flat_map.h:359-362 | empty exactly when the denoted map has no entries |
| FlatMaps.Clear | yy_flat_map.h:353-357 | the cleared map is valid, empty and of size zero |
| FlatMaps.Swap | yy_flat_map.h:327-337 | swap gives each map the other's keys and values |
| FlatMaps.SwapInvolutive | yy_flat_map.h:327-337 | swap exchanges the two maps, and swapping twice restores both |
| FlatMaps.LowerBoundPos | yy_flat_map.h:109-114 | the position is the lower bound of the key, and the end flag holds exactly when it is one past the last key |
| FlatMaps.LowerBoundVisit | yy_flat_map.h:116-146 | the visitor receives the entry at the lower bound exactly when the end flag is false, and the flag holds exactly when every key is smaller than the one searched |
| FlatMaps.FindPos | yy_flat_map.h:227-232 | the position is the lower bound; found holds exactly when a sorted map contains the key, and then the key is at that position |
| FlatMaps.Find | yy_flat_map.h:155-187 | the key and value are both present or both absent; present exactly when a sorted map contains the key, and then they are the key and value at the lower-bound position |
| FlatMaps.FindValue | yy_flat_map.h:195-225 | the visitor receives a value exactly when the key is found, at the position find_pos reports |
| FlatMaps.FindAgreesWithView | yy_flat_map.h:155-187 | find returns a value exactly when the key is in the denoted map, and it is the map's value for that key |
| FlatMaps.AddEmpty | yy_flat_map.h:258-273 | a blank key and value are opened at the position in both vectors, with the entries before it unchanged and those after it shifted |
| FlatMaps.EmplaceAt | yy_flat_map.h:275-292 | the key and value are placed at the position, and that position is returned |
| FlatMaps.EmplaceAtKeepsOrder | yy_flat_map.h:275-292 | placing a key between a smaller and a larger neighbour keeps the map valid |
| FlatMaps.DoEmplace | yy_flat_map.h:433-447 | both vectors get the new element at the same index, so keys and values stay paired |
| FlatMaps.Emplace | yy_flat_map.h:301-325 | inserted exactly when the key was absent; an absent key goes in at its lower bound and the map stays valid; a present key leaves the map unchanged and returns its position |
| FlatMaps.EmplaceView | yy_flat_map.h:301-325 | the denoted map gains the new key with its value, or is unchanged when the key was present (emplace never overwrites) |
| FlatMaps.ToMapInsert | yy_flat_map.h:433-447 | inserting a key and value at the same index of both vectors updates the denoted map at that key |
| FlatMaps.EmplaceThenFind | yy_flat_map.h:301-325 | after emplace, find returns the old value when the key was present and the new one otherwise |
| FlatMaps.Equal | yy_flat_map.h:403-430 | equality holds exactly when both maps have the same keys and values, with empty maps equal only to empty maps |
| FlatMaps.EqualFrom | yy_flat_map.h:415-429 | the element loop from an index answers whether the sizes agree and the keys and values from that index on agree |
| FlatMaps.Less | yy_flat_map.h:364-401 | nothing is below an empty map, and an empty map is below every non-empty one |
| FlatMaps.LessFrom | yy_flat_map.h:376-400 | the comparison loop never puts a map below itself, and answers true only while the other map still has entries from the index on |
| FlatMaps.LessFromIsLexicographic | yy_flat_map.h:376-400 | from any index, the comparison loop is the lexicographic order on key–value pairs, ordered by key and then by value |
| FlatMaps.LessIsLexicographic | yy_flat_map.h:364-401 | operator< is the lexicographic order on the key–value pair sequences |
| FlatMaps.LexLessTrichotomy | yy_flat_map.h:364-401 | of two pair sequences, exactly one is below the other unless they are equal |
| FlatMaps.LessStrictTotal | yy_flat_map.h:364-430 | operator< is irreflexive and asymmetric, and any two maps are ordered one way or the other or are equal |
| TrieNodes.Comp | yy_aho_corasick.h:211-222 | the comparator is negative, zero or positive exactly when the searched token is below, equal to or above the child's token |
| TrieNodes.FirstNotBelow | yy_aho_corasick.h:112 | the search over the children, written here as a linear recursion through the comparator, stops at the lower bound of the token |
| TrieNodes.FindEdge | yy_aho_corasick.h:112-116 | the child search is the sorted search of the token among the child tokens |
| TrieNodes.Get | yy_aho_corasick.h:144-155 | get returns a child only along an edge with that token; over sorted children, exactly when the token is present, and then the child of that edge |
| TrieNodes.GetOr | yy_aho_corasick.h:157-167 | get with a default returns the child when there is one and the default otherwise |
| TrieNodes.GetOrRoot | yy_aho_corasick.h:157-167 | with the root as default the result is in range, and it differs from the root exactly when a child exists |
| TrieNodes.IsEmpty | yy_aho_corasick.h:195-198 | a node is empty exactly when it is the root or a plain node, and not a Payload |
| TrieNodes.Value | yy_aho_corasick.h:200-208 | value yields the payload exactly for a Payload node; on any other node it is the "Invalid value" error |
| TrieNodes.NewRoot | yy_aho_corasick.h:482-492 | a root node has no children and no payload |
| TrieNodes.NewPayload | yy_aho_corasick.h:494-520 | a Payload node is not empty, yields its payload, has no children and the given failure link |
| TrieNodes.InsertEdge | yy_aho_corasick.h:121 | the new child list is the old one with the new edge inserted at the token's lower bound: the edges before it unchanged, the ones from it on shifted by one; the kind and failure link stay |
| TrieNodes.InsertEdgeLookup | yy_aho_corasick.h:121 | after inserting at the lower bound, get finds the new child and returns the same as before for every other token |
| TrieNodes.Attach | yy_aho_corasick.h:131-134 | attaching a new child keeps the arena well formed, adds exactly that node, and changes nothing else that get can observe |
| TrieNodes.AddBranch | yy_aho_corasick.h:110-124 | add(key, fail) returns the existing child when there is one and changes nothing; otherwise it appends a fresh plain node with the given failure link under the token |
| TrieNodes.AddShim | yy_aho_corasick.h:126-142 | add(node_shim) attaches the node when the token is new; when it is present, the node reached by the token takes the new kind and keeps its children and failure link |
| TrieNodes.Promote | yy_aho_corasick.h:136-140 | the promoted node has the new kind with its old children and failure link, and every other node is unchanged |
| TrieNodes.SetFail | yy_aho_corasick.h:181-184 | setting a failure link changes only that node's link |
| TrieNodes.ExtendsTransitive | yy_aho_corasick.h:110-142 | growing the trie never removes an edge, and that is transitive |
| AcTrie.Walk | yy_aho_corasick.h:144-155 | a walk along tokens through get ends on a node of the arena |
| AcTrie.FailChain | yy_aho_corasick.h:176-179 | the chain of failure links from a node: it starts at the node, each entry but the last is a non-root node followed by its link, and it ends at the root |
| AcTrie.ChildLabel | yy_aho_corasick.h:110-124 | in a valid trie a child's path is its parent's path followed by the edge token |
| AcTrie.FailLabel | yy_aho_corasick.h:176-179 | every non-root failure link leads to a node whose path is a proper suffix |
| AcTrie.Reached | yy_aho_corasick.h:144-155 | walking a node's path from the root reaches that node |
| AcTrie.WalkLabel | yy_aho_corasick.h:144-155 | a walk from a node ends at the node whose path is the start's path followed by the tokens |
| AcTrie.WalkExtends | yy_aho_corasick.h:110-142 | adding to the trie keeps every walk that already succeeded |
| AcTrie.PathsAreUnique | yy_aho_corasick.h:110-124 | two token sequences that reach the same node are equal |
| AcTrie.NewTrie | yy_aho_corasick.h:426-430 | a new trie is just the root, whose failure link is itself, and it is valid |
| AcTrie.AttachValid | yy_aho_corasick.h:131-134 | attaching a new leaf under an absent token keeps the trie valid, labelling the leaf with the parent's path plus the token |
| AcTrie.AddBranchValid | yy_aho_corasick.h:110-124 | add(key, root) keeps the trie valid, and the returned node's path is the parent's path plus the key |
| AcTrie.AddPath | yy_aho_corasick.h:443-447 | the prefix loop returns the node reached by walking the prefix, touching only new plain nodes whose failure link is the root |
| AcTrie.AddPathValid | yy_aho_corasick.h:443-447 | the prefix loop keeps the trie valid and labels its result with the prefix |
| AcTrie.Add | yy_aho_corasick.h:437-455 | an empty word changes nothing; otherwise walking the word reaches a Payload node with the value; only the word's own node may change kind; every other new node is a plain node; old links stay and new nodes link to the root |
| AcTrie.AddOnlyAddsPrefixes | yy_aho_corasick.h:437-455 | every path of the trie after add was a path before or is a prefix of the word |
| AcTrie.AddValid | yy_aho_corasick.h:437-455 | add keeps the trie valid |
| AcTrie.PromoteValid | yy_aho_corasick.h:136-140 | promoting a non-root node to a new kind keeps the trie valid under the same labelling |
| AcTrie.AddKeepsOtherPatterns | yy_aho_corasick.h:437-455 | adding a word keeps every other word's node and its kind |
| AcTrie.AddTwiceKeepsLast | yy_aho_corasick.h:126-142 | adding the same word twice leaves it at the same node, carrying the second value |
| AcCompile.FailFor | yy_aho_corasick.h:271-283 | the search loop returns a node in range; the child under the token when the starting state has one, and the root's child or the root when it starts at the root |
| AcCompile.FailForLabel | yy_aho_corasick.h:271-283 | a non-root result's path ends in the token, and the rest of that path is a suffix of the starting state's path |
| AcCompile.FailForFollowsFailChain | yy_aho_corasick.h:271-283 | the loop returns the child of the first node with one on the failure chain of its start without the closing root, and the root when none has one; the root is probed only when the loop starts there |
| AcCompile.FailForFrame | yy_aho_corasick.h:271-283 | the loop's result depends only on child lists and on the links of nodes no deeper than its start |
| AcCompile.FailForIntended | yy_aho_corasick.h:271-283 | the loop with the root probed returns the child under the token when the start has one |
| AcCompile.FailForIntendedLabel | yy_aho_corasick.h:271-283 | a non-root result of the corrected loop ends in the token, and the rest of its path is a suffix of the start's path |
| AcCompile.FailForIntendedReaches | yy_aho_corasick.h:271-283 | if the links of all nodes no deeper than the start are longest, the corrected loop finds a child at least as deep as that of any node whose path is a suffix of the start's |
| AcCompile.FailForIntendedIsLongest | yy_aho_corasick.h:267-286 | with the parent's and shallower nodes' links longest, the corrected loop gives a child the longest proper suffix of its path that is a node |
| AcCompile.FailForIsProperSuffix | yy_aho_corasick.h:267-286 | the link compile gives a child is a node whose path is a proper suffix of the child's path |
| AcCompile.SetFailValid | yy_aho_corasick.h:285 | setting a link that satisfies the proper-suffix rule keeps the trie valid |
| AcCompile.Children | yy_aho_corasick.h:242-245 | the queued nodes are the children of the edges, one per edge, in edge order |
| AcCompile.VisitChildren | yy_aho_corasick.h:267-286 | visiting a node's children enqueues them in order; each child gets the link the failure loop computes from the parent's link for its token; no other node's link changes, nor any edge or kind; the trie stays valid |
| AcCompile.CompileQueue | yy_aho_corasick.h:463-473 | processing the queue keeps the trie valid, never changes an edge or a kind, and leaves the links of the root and its children alone |
| AcCompile.Compile | yy_aho_corasick.h:457-474 | compile keeps the trie valid and its shape unchanged, the root links to itself, and the root's children keep their root links |
| AcAutomaton.CreateAutomaton | yy_aho_corasick.h:312-316 | a new automaton starts at the root, where visit reports nothing |
| AcAutomaton.NextFrom | yy_aho_corasick.h:318-339 | next goes to the child when there is one, and ends at the root only when neither the state nor the root has a child for the token |
| AcAutomaton.NextFromFollowsFailChain | yy_aho_corasick.h:318-339 | next returns the child of the first node on the state's failure chain that has one, and the root exactly when no node on the chain, the root included, has one |
| AcAutomaton.NextFromIsIntendedLink | yy_aho_corasick.h:318-339 | next's loop and compile's loop with the root probed reach the same node from every state |
| AcAutomaton.NextFromEndsInToken | yy_aho_corasick.h:318-339 | from the root, next takes the root's edge for the token or stays at the root; any other state it reaches has a path ending in the token |
| AcAutomaton.NextFromIsSuffix | yy_aho_corasick.h:318-339 | the new state's path is a suffix of the old path followed by the token |
| AcAutomaton.Next | yy_aho_corasick.h:318-339 | next keeps the automaton on its trie, takes the child when one exists, and its new path is a suffix of the old path plus the token |
| AcAutomaton.NextFollowsFailChain | yy_aho_corasick.h:318-339 | next on the cursor moves to the child of the first node on its state's failure chain that has one, and to the root exactly when none has |
| AcAutomaton.ScanStateIsSuffix | yy_aho_corasick.h:318-339 | after reading a text from any state, the state's path is a suffix of the old path followed by the text |
| AcAutomaton.Empty | yy_aho_corasick.h:386-389 | empty exactly when the current node has no payload |
| AcAutomaton.Visit | yy_aho_corasick.h:391-401 | visit reports a payload exactly when the state is not the root and holds one, and that payload is the state's |
| AcAutomaton.VisitReportsSuffixPattern | yy_aho_corasick.h:391-401 | after reading a text from the start, any payload visit reports belongs to a stored pattern that is a non-empty suffix of the text |
| AcAutomaton.MatchChain | yy_aho_corasick.h:403-419 | the payloads along a failure chain number at most the path length, and the state's own payload comes first |
| AcAutomaton.MatchChainFollowsFailChain | yy_aho_corasick.h:403-419 | the intended loop walks the whole failure chain of the state: its reports are the payloads of the chain's Payload nodes, in chain order, and the root that ends the chain adds none |
| AcAutomaton.MatchChainSound | yy_aho_corasick.h:403-419 | every payload on the chain belongs to a node whose path is a suffix of the state's path |
| AcAutomaton.VisitAll | yy_aho_corasick.h:403-419 | visit_all as intended reports, first of all, what visit reports, and nothing at the root |
| AcAutomaton.VisitAllReportsSuffixPatterns | yy_aho_corasick.h:403-419 | after reading a text, every payload visit_all (as intended) reports belongs to a stored pattern that is a non-empty suffix of the text |
| AcAutomaton.VisitAllAsWritten | yy_aho_corasick.h:403-419 | visit_all as written makes as many reports as visit_all as intended, each through a cast of the current state, and fails exactly when there is a report to make and the current state is not a Payload |
| AcAutomaton.VisitAllFollowsFailChain | yy_aho_corasick.h:403-419 | visit_all as intended reports the payload of every Payload node on the state's failure chain, in chain order; as written it fails exactly when such a node exists and the state is not a Payload, and otherwise makes exactly one report per such node |
| AcAutomaton.CastChain | yy_aho_corasick.h:406-418 | the loop of visit_all as written yields as many reports as the intended loop, each the payload of the cast kind, and fails exactly when a Payload is met and the cast kind is not a Payload |
| AcAutomaton.CastChainFollowsFailChain | yy_aho_corasick.h:406-418 | the loop as written, when it does not fail, makes one report per Payload node on the failure chain |
| AcAutomaton.VisitAllAsWrittenRepeatsState | yy_aho_corasick.h:403-419 | when the current state is a Payload, visit_all as written reports that one payload once per report of the intended visit_all |
| AcAutomaton.ChaseToken | yy_aho_corasick.h:359-369 | word's inner loop follows the first token downward until no child has it, and never moves to a shorter path |
| AcAutomaton.Word | yy_aho_corasick.h:346-384 | word as written makes one next step and is true only for a one-token key that ends on a plain node (not a Payload) |
| AcAutomaton.WordIntended | yy_aho_corasick.h:346-384 | word as intended is true only for a non-empty key whose walk after the first next step ends on a Payload node |
| AcAutomaton.WordIntendedFromRoot | yy_aho_corasick.h:346-384 | from the start, word as intended holds exactly when walking the key from the root reaches a Payload node |
| AcAutomaton.WalkIgnoresFailLinks | yy_aho_corasick.h:457-474 | walks depend only on the edges, so compile changes no walk |
| AcAutomaton.AddedPatternIsWord | yy_aho_corasick.h:346-384 | after add and compile, word as intended accepts the added pattern, while word as written rejects it whenever it has two or more tokens |
| AcExamples.HeSheScan | yy_aho_corasick.h:318-339 | in the trie of "he" and "she", reading "she" from the start ends at the node of "she" |
| AcExamples.HeSheCompileLinks | yy_aho_corasick.h:271-283 | in the trie of "he" and "she", the failure loop gives "he" the root, "sh" the node "h" and "she" the node "he" |
| AcExamples.HeSheShVisitAll | yy_aho_corasick.h:403-419 | at "sh", a plain node with no Payload on its chain, visit_all as written ends with no report and no failure |
| AcExamples.HeSheVisitAll | yy_aho_corasick.h:403-419 | at "she", visit_all as intended reports she's payload and then he's; as written it reports she's payload twice |
| AcExamples.CompileMissesLongestSuffix | yy_aho_corasick.h:271-283 | in the trie of "abd", "b" and "d", the loop gives "abd" the root as its link, although "d" is a stored proper suffix and the links of "ab" and all shallower nodes are longest |
| AcExamples.AbdLinksLongest | yy_aho_corasick.h:267-286 | in that trie, every node no deeper than "ab" links to its longest stored proper suffix |
| AcExamples.AbdIntendedLink | yy_aho_corasick.h:271-283 | in that trie, the loop with the root probed gives "abd" the link "d" |
| AcExamples.AbdScan | yy_aho_corasick.h:318-339 | in that trie, reading "abd" ends at the node of "abd" |
| AcExamples.AbdVisitAllMissesD | yy_aho_corasick.h:403-419 | at "abd", visit_all (even as intended) reports only abd's payload and misses "d" |

## Left out

- `subject_observer.h`, `yy_utility.h` and the benchmark are context and are not part of this model. `yy_util::find` and `yy_data::lower_bound` are modelled by their promised result, the sorted lower-bound search.
- FlatMaps.LowerBoundPos, FlatMaps.FindPos, FlatMaps.Find: the position is the first key not below `k`. That is the helpers' answer only on sorted keys. Positional `emplace(pos, …)` (yy_flat_map.h:276-292) does not check order, so a map can hold keys out of order. On such keys a bisection may stop elsewhere: for keys [5, 1, 9] and `k` = 3 the model gives 0, where a bisection can give 2. The model's position and found flag need not be the helpers' there. The clauses about keys past the position, and the found-iff-present clause, are stated only for sorted keys.
- Shared ownership, allocation, `reserve`, and the `flat_map` copy and move constructors and assignments are not modelled. The `initializer_list` constructor and `operator[]` are left out as well.
- The throw paths of `flat_map::add_empty` (yy_flat_map.h:258-273) are not modelled. They fire when the vectors' own `add_empty` reports that it added nothing, for example when allocation fails. `yy_quad::simple_vector` is not part of this model, and allocation is not modelled. The "Invalid value" throw of `trie_node::value` is modelled: `TrieNodes.Value` returns it as an error value.
- `trie_node::exists` (yy_aho_corasick.h:169-174) and the one-argument `ac_trie::add` (yy_aho_corasick.h:432-435) are left out. The first returns a `bool` as a `node_ptr`, and the second calls a two-argument overload with one argument, so neither would compile if instantiated.
- TrieNodes.Promote: promotion is modelled in place. `add(node_shim)` swaps children and failure links into the new object and repoints the edge. The old object is then orphaned, holding the new node's empty children and root link. That difference shows only if a failure link already points at the old node, which needs `add` after `compile`.
- AcCompile.CompileQueue: the breadth-first loop runs on a fuel bound equal to the arena size, one queue entry per step. That the bound suffices is not proved. Nor is it proved that every non-root node gets its link or that compile is idempotent. The contracts state only the invariant that compile preserves. Each single visit is pinned down: `AcCompile.VisitChildren` states which link every child receives.
- AcCompile.Compile: its contract states only the invariant compile preserves (a valid trie with unchanged edges and kinds, and root links on the root and its children). It does not state which link each deeper node gets, for the reasons on the line above; the identity would meet it. The link compile sets is a proper suffix, but not always the longest one that is stored (see Findings). So the model does not promise that `visit_all` reports every pattern ending at the current position. `Compile` keeps the loop as written, since that is what the trie holds after `compile()`. The corrected loop `AcCompile.FailForIntended` is stated link by link and is not run through a whole breadth-first pass.
- Concurrency and the visitor objects themselves are not modelled. Visitors are represented by the values they would be passed.
- `Scan` is not a library member. It stands for a client calling `next` once per token of a text.

## Findings

| source | as written | input that shows it | evidently intended | confidence | as-written member | corrected member |
|---|---|---|---|---|---|---|
| yy_aho_corasick.h:271-283 | The failure loop of `compile_visitor::visit` moves `state` to its link and breaks as soon as that link is the root, before probing the root. The root is therefore probed only when the parent's link is the root itself. A child whose longest stored proper suffix is a child of the root gets the root as its link. | patterns "abd", "b" and "d": "abd" gets the root as its link instead of "d", although "ab" links to "b" and every shallower link is longest | probe the root before breaking, as `next` does, so that each link is the longest stored proper suffix | not executed | AcCompile.FailFor, AcCompile.FailForFollowsFailChain, AcExamples.CompileMissesLongestSuffix | AcCompile.FailForIntended, AcCompile.FailForIntendedIsLongest, AcExamples.AbdIntendedLink |
| yy_aho_corasick.h:346-384 | `word` never advances `begin` and keeps looking up the first token `ch`, so any key of two or more tokens ends in `false`. A one-token key returns `empty()`, which is true for a plain node and false for a Payload. | after `add("he")` and `compile()`, `word("he")` is false and `word("h")` is true | `word(key)` is true exactly when the key is a stored pattern | not executed | AcAutomaton.Word, AcAutomaton.AddedPatternIsWord | AcAutomaton.WordIntended, AcAutomaton.WordIntendedFromRoot |
| yy_aho_corasick.h:403-419 | `visit_all` tests each node on the failure chain but casts `m_state` rather than `node`. It therefore reports the current state's payload once per Payload on the chain, and reads a non-Payload as a `Payload` when the current state has no payload. The test is written `node.empty()` on a `shared_ptr`, which has no such member; the model reads it as `node->empty()`. | patterns "he" and "she", text "she": reports she's payload twice instead of she's then he's | report the payload of each Payload node on the failure chain | not executed | AcAutomaton.VisitAllAsWritten, AcAutomaton.VisitAllAsWrittenRepeatsState | AcAutomaton.VisitAll, AcAutomaton.VisitAllReportsSuffixPatterns |
