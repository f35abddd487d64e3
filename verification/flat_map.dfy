/** flat_map: a sorted associative container kept as two parallel vectors,
    the keys strictly ascending and looked up by binary search, the value of
    the key at index i stored at index i of the value vector. */
module FlatMaps {
  import opened Wrappers
  import opened SortedSearch

  datatype FlatMap<V> = FlatMap(keys: seq<int>, values: seq<V>)

  /** What size() asserts: one value per key. */
  ghost predicate WellSized<V>(m: FlatMap<V>) {
    |m.keys| == |m.values|
  }

  /** The container invariant: one value per key, keys strictly ascending. */
  ghost predicate Valid<V>(m: FlatMap<V>) {
    WellSized(m) && StrictlySorted(m.keys)
  }

  /** The map a flat_map stands for: each key bound to the value stored at
      the same index. */
  function ToMap<V>(keys: seq<int>, values: seq<V>): (r: map<int, V>)
    requires |keys| == |values|
    ensures forall k :: k in r <==> k in keys
    ensures StrictlySorted(keys) ==> forall i | 0 <= i < |keys| :: keys[i] in r && r[keys[i]] == values[i]
    decreases |keys|
  {
    if |keys| == 0 then map[]
    else ToMap(keys[1..], values[1..])[keys[0] := values[0]]
  }

  function View<V>(m: FlatMap<V>): map<int, V>
    requires WellSized(m)
  {
    ToMap(m.keys, m.values)
  }

  // ---------------------------------------------------------------------
  // size, empty, clear, swap

  /** size(): the number of key/value pairs. */
  function Size<V>(m: FlatMap<V>): (n: nat)
    requires WellSized(m)
    ensures n == |m.values|
    ensures StrictlySorted(m.keys) ==> n == |View(m)|
  {
    ViewSize(m);
    |m.keys|
  }

  /** The view of a well-sized map has one entry per stored key when the
      keys are distinct. */
  lemma ViewSize<V>(m: FlatMap<V>)
    requires WellSized(m)
    ensures StrictlySorted(m.keys) ==> |View(m)| == |m.keys|
  {
    if StrictlySorted(m.keys) {
      ToMapSize(m.keys, m.values);
    }
  }

  lemma {:induction false} ToMapSize<V>(keys: seq<int>, values: seq<V>)
    requires |keys| == |values| && StrictlySorted(keys)
    ensures |ToMap(keys, values)| == |keys|
    decreases |keys|
  {
    if |keys| > 0 {
      ToMapSize(keys[1..], values[1..]);
      assert keys[0] !in keys[1..];
    }
  }

  /** empty(): no keys stored. */
  function IsEmpty<V>(m: FlatMap<V>): (b: bool)
    requires WellSized(m)
    ensures b <==> View(m) == map[]
  {
    if |m.keys| == 0 then true
    else
      assert m.keys[0] in View(m);
      false
  }

  /** clear(): both vectors emptied. */
  function Clear<V>(m: FlatMap<V>): (r: FlatMap<V>)
    ensures Valid(r) && IsEmpty(r) && Size(r) == 0
  {
    FlatMap([], [])
  }

  /** swap(other): the two maps exchange their full contents. */
  function Swap<V>(m: FlatMap<V>, other: FlatMap<V>): (r: (FlatMap<V>, FlatMap<V>))
    ensures r.0 == other && r.1 == m
  {
    (FlatMap(other.keys, other.values), FlatMap(m.keys, m.values))
  }

  /** Swapping twice restores both maps. */
  lemma SwapInvolutive<V>(m: FlatMap<V>, other: FlatMap<V>)
    ensures var s := Swap(m, other); Swap(s.0, s.1) == (m, other)
  {
  }

  // ---------------------------------------------------------------------
  // lower bound and find

  /** The (pos, is_end) pair of lower_bound_pos. */
  datatype PosEnd = PosEnd(pos: nat, isEnd: bool)

  /** lower_bound_pos(k), through do_lower_bound and do_lower_bound_raw: the
      first index whose key is not less than `k`, and whether that index is
      the end. */
  function LowerBoundPos<V>(m: FlatMap<V>, k: int): (r: PosEnd)
    ensures r.pos <= |m.keys|
    ensures r.isEnd <==> r.pos == |m.keys|
    ensures forall i | 0 <= i < r.pos :: m.keys[i] < k
    ensures r.pos < |m.keys| ==> k <= m.keys[r.pos]
    ensures Sorted(m.keys) ==> forall i | r.pos <= i < |m.keys| :: k <= m.keys[i]
  {
    var p := LowerBound(m.keys, k);
    PosEnd(p, p == |m.keys|)
  }

  /** The arguments lower_bound passes to its visitor. */
  datatype Entry<V> = Entry(key: int, value: V, pos: nat)

  /** lower_bound(visitor, k): the visitor is called with the entry at the
      lower bound unless that is the end; the result is is_end. */
  function LowerBoundVisit<V>(m: FlatMap<V>, k: int): (r: (Option<Entry<V>>, bool))
    requires WellSized(m)
    ensures r.0.Some? <==> !r.1
    ensures r.1 <==> forall i | 0 <= i < |m.keys| :: m.keys[i] < k
    ensures r.0.Some? ==>
              && r.0.value.pos < |m.keys|
              && r.0.value.pos == LowerBoundPos(m, k).pos
              && r.0.value.key == m.keys[r.0.value.pos]
              && r.0.value.value == m.values[r.0.value.pos]
              && k <= r.0.value.key
  {
    var lb := LowerBoundPos(m, k);
    if !lb.isEnd then (Some(Entry(m.keys[lb.pos], m.values[lb.pos], lb.pos)), lb.isEnd)
    else (None, lb.isEnd)
  }

  /** find_pos(k), through do_find and do_find_raw: the lower-bound index and
      whether the key stored there is `k`. */
  function FindPos<V>(m: FlatMap<V>, k: int): (r: PosFound)
    ensures r.pos == LowerBoundPos(m, k).pos
    ensures r.found ==> r.pos < |m.keys| && m.keys[r.pos] == k
    ensures Sorted(m.keys) ==> (r.found <==> k in m.keys)
  {
    var lb := LowerBoundPos(m, k);
    PosFound(lb.pos, !lb.isEnd && m.keys[lb.pos] == k)
  }

  /** find's result: pointers to the key and value (null when not found) and
      the position. */
  datatype KeyValuePos<V> = KeyValuePos(key: Option<int>, value: Option<V>, pos: nat)

  /** find(k): the stored key and its value when `k` is present, otherwise
      null pointers; the position is the lower bound either way. */
  function Find<V>(m: FlatMap<V>, k: int): (r: KeyValuePos<V>)
    requires WellSized(m)
    ensures r.pos == LowerBoundPos(m, k).pos
    ensures r.key.Some? <==> r.value.Some?
    ensures Sorted(m.keys) ==> (r.key.Some? <==> k in m.keys)
    ensures r.key.Some? ==> r.pos < |m.keys| && r.key.value == k && m.keys[r.pos] == k
    ensures r.value.Some? ==> r.pos < |m.values| && r.value.value == m.values[r.pos]
  {
    var f := FindPos(m, k);
    if f.found then KeyValuePos(Some(m.keys[f.pos]), Some(m.values[f.pos]), f.pos)
    else KeyValuePos(None, None, f.pos)
  }

  /** find_value(visitor, k): the visitor receives the value and position
      when `k` is present; the (pos, found) pair is returned either way. */
  function FindValue<V>(m: FlatMap<V>, k: int): (r: (Option<(V, nat)>, PosFound))
    requires WellSized(m)
    ensures r.1 == FindPos(m, k)
    ensures r.0.Some? <==> r.1.found
    ensures r.0.Some? ==> r.0.value.1 < |m.keys| && m.keys[r.0.value.1] == k
                          && r.0.value.0 == m.values[r.0.value.1]
  {
    var f := FindPos(m, k);
    if f.found then (Some((m.values[f.pos], f.pos)), f) else (None, f)
  }

  /** Looking a key up agrees with the map the container stands for. */
  lemma FindAgreesWithView<V>(m: FlatMap<V>, k: int)
    requires Valid(m)
    ensures Find(m, k).value.Some? <==> k in View(m)
    ensures k in View(m) ==> Find(m, k).value == Some(View(m)[k])
  {
  }

  // ---------------------------------------------------------------------
  // insertion

  /** add_empty(pos): a slot opened at exactly `pos` in both vectors, holding
      a default-constructed key and value; later entries shift right. The
      result's position is the slot's. */
  function AddEmpty<V>(m: FlatMap<V>, pos: nat, blankKey: int, blankValue: V): (r: (FlatMap<V>, nat))
    requires WellSized(m) && pos <= |m.keys|
    ensures WellSized(r.0) && r.1 == pos && |r.0.keys| == |m.keys| + 1
    ensures r.0.keys[pos] == blankKey && r.0.values[pos] == blankValue
    ensures r.0.keys[..pos] == m.keys[..pos] && r.0.keys[pos + 1..] == m.keys[pos..]
    ensures r.0.values[..pos] == m.values[..pos] && r.0.values[pos + 1..] == m.values[pos..]
  {
    (FlatMap(InsertAt(m.keys, pos, blankKey), InsertAt(m.values, pos, blankValue)), pos)
  }

  /** emplace(pos, key, value): add_empty(pos) followed by assignment of the
      key and the value into the new slot. No ordering check is made. */
  function EmplaceAt<V>(m: FlatMap<V>, pos: nat, k: int, v: V): (r: (FlatMap<V>, nat))
    requires WellSized(m) && pos <= |m.keys|
    ensures WellSized(r.0) && r.1 == pos
    ensures r.0.keys == m.keys[..pos] + [k] + m.keys[pos..]
    ensures r.0.values == m.values[..pos] + [v] + m.values[pos..]
  {
    // the default key and value written by add_empty are overwritten at once
    var (slot, p) := AddEmpty(m, pos, k, v);
    var r := FlatMap(slot.keys[p := k], slot.values[p := v]);
    assert r.keys == m.keys[..pos] + [k] + m.keys[pos..];
    assert r.values == m.values[..pos] + [v] + m.values[pos..];
    (r, p)
  }

  /** Positional insertion keeps the map valid exactly when the caller picks
      a position between the smaller and the larger keys. */
  lemma EmplaceAtKeepsOrder<V>(m: FlatMap<V>, pos: nat, k: int, v: V)
    requires Valid(m) && pos <= |m.keys|
    requires pos > 0 ==> m.keys[pos - 1] < k
    requires pos < |m.keys| ==> k < m.keys[pos]
    ensures Valid(EmplaceAt(m, pos, k, v).0)
  {
    var r := EmplaceAt(m, pos, k, v).0;
    assert r.keys == InsertAt(m.keys, pos, k);
    LowerBoundUnique(m.keys, k, pos);
    InsertAtLowerBoundSorted(m.keys, k);
  }

  /** do_emplace(pos, key, value): key and value inserted at the same index
      of their vectors; the result is the key's index. */
  function DoEmplace<V>(m: FlatMap<V>, pos: nat, k: int, v: V): (r: (FlatMap<V>, nat))
    requires WellSized(m) && pos <= |m.keys|
    ensures WellSized(r.0) && r.1 == pos && |r.0.keys| == |m.keys| + 1
    ensures r.0.keys[pos] == k && r.0.values[pos] == v
    ensures forall i | 0 <= i < pos :: r.0.keys[i] == m.keys[i] && r.0.values[i] == m.values[i]
    ensures forall i | pos <= i < |m.keys| :: r.0.keys[i + 1] == m.keys[i] && r.0.values[i + 1] == m.values[i]
  {
    (FlatMap(InsertAt(m.keys, pos, k), InsertAt(m.values, pos, v)), pos)
  }

  /** The (pos, inserted) pair emplace returns. */
  datatype PosInserted = PosInserted(pos: nat, inserted: bool)

  /** emplace(key, value): a present key leaves the map unchanged and reports
      its position; an absent key is inserted with its value at the lower
      bound, keeping the keys strictly ascending. */
  function Emplace<V>(m: FlatMap<V>, k: int, v: V): (r: (FlatMap<V>, PosInserted))
    requires Valid(m)
    ensures Valid(r.0)
    ensures r.1.inserted <==> k !in m.keys
    ensures !r.1.inserted ==> r.0 == m && r.1.pos < |m.keys| && m.keys[r.1.pos] == k
    ensures r.1.inserted ==>
              && r.1.pos == LowerBound(m.keys, k)
              && |r.0.keys| == |m.keys| + 1
              && r.0.keys[r.1.pos] == k && r.0.values[r.1.pos] == v
              && r.0.keys == InsertAt(m.keys, r.1.pos, k)
              && r.0.values == InsertAt(m.values, r.1.pos, v)
  {
    var f := FindPos(m, k);
    if !f.found then
      InsertAtLowerBoundSorted(m.keys, k);
      var (m', p) := DoEmplace(m, f.pos, k, v);
      assert m'.keys == InsertAt(m.keys, p, k);
      assert m'.values == InsertAt(m.values, p, v);
      (m', PosInserted(p, true))
    else
      (m, PosInserted(f.pos, false))
  }

  /** emplace on the map the container stands for: an absent key gains its
      value, a present key keeps its old one. */
  lemma EmplaceView<V>(m: FlatMap<V>, k: int, v: V)
    requires Valid(m)
    ensures View(Emplace(m, k, v).0) == if k in View(m) then View(m) else View(m)[k := v]
  {
    var (r, pi) := Emplace(m, k, v);
    if pi.inserted {
      ToMapInsert(m.keys, m.values, pi.pos, k, v);
    }
  }

  /** Inserting a fresh key anywhere in a strictly ascending key vector binds
      it in the view and leaves every other binding alone. */
  lemma {:induction false} ToMapInsert<V>(keys: seq<int>, values: seq<V>, p: nat, k: int, v: V)
    requires |keys| == |values| && p <= |keys|
    requires StrictlySorted(InsertAt(keys, p, k))
    ensures ToMap(InsertAt(keys, p, k), InsertAt(values, p, v)) == ToMap(keys, values)[k := v]
    decreases p
  {
    if p == 0 {
      var ks := InsertAt(keys, p, k);
      var vs := InsertAt(values, p, v);
      assert ks[1..] == keys && vs[1..] == values;
    } else {
      InsertAtTail(keys, values, p, k, v);
      ToMapInsert(keys[1..], values[1..], p - 1, k, v);
      MapUpdateCommutes(ToMap(keys[1..], values[1..]), k, v, keys[0], values[0]);
    }
  }

  /** Inserting past the head leaves the head in place and inserts into the tail. */
  lemma InsertAtTail<V>(keys: seq<int>, values: seq<V>, p: nat, k: int, v: V)
    requires |keys| == |values| && 0 < p <= |keys|
    requires StrictlySorted(InsertAt(keys, p, k))
    ensures keys[0] != k
    ensures StrictlySorted(InsertAt(keys[1..], p - 1, k))
    ensures InsertAt(keys, p, k)[0] == keys[0] && InsertAt(values, p, v)[0] == values[0]
    ensures InsertAt(keys, p, k)[1..] == InsertAt(keys[1..], p - 1, k)
    ensures InsertAt(values, p, v)[1..] == InsertAt(values[1..], p - 1, v)
  {
    var ks := InsertAt(keys, p, k);
    assert ks[0] < ks[p];
    assert ks[1..] == InsertAt(keys[1..], p - 1, k);
    StrictlySortedTail(ks);
  }

  lemma MapUpdateCommutes<V>(m: map<int, V>, a: int, x: V, b: int, y: V)
    requires a != b
    ensures m[a := x][b := y] == m[b := y][a := x]
  {
  }

  lemma StrictlySortedTail(s: seq<int>)
    requires |s| > 0 && StrictlySorted(s)
    ensures StrictlySorted(s[1..])
  {
    forall i, j | 0 <= i < j < |s[1..]| ensures s[1..][i] < s[1..][j] {
      assert s[1..][i] == s[i + 1] && s[1..][j] == s[j + 1];
    }
  }

  /** After emplace the key is found, bound to the old value when it was
      present and to the new one otherwise. */
  lemma EmplaceThenFind<V>(m: FlatMap<V>, k: int, v: V)
    requires Valid(m)
    ensures var r := Emplace(m, k, v).0;
            Find(r, k).value == Some(if k in View(m) then View(m)[k] else v)
  {
    var r := Emplace(m, k, v).0;
    EmplaceView(m, k, v);
    FindAgreesWithView(r, k);
  }

  // ---------------------------------------------------------------------
  // comparison

  /** operator==: same size, and equal keys and values at every index. */
  function Equal<V(==)>(m: FlatMap<V>, other: FlatMap<V>): (r: bool)
    requires WellSized(m) && WellSized(other)
    ensures r <==> m == other
  {
    if IsEmpty(m) then IsEmpty(other)
    else if IsEmpty(other) then false
    else EqualFrom(m, other, 0)
  }

  /** The index loop of operator==, from index `idx` on. */
  function EqualFrom<V(==)>(m: FlatMap<V>, other: FlatMap<V>, idx: nat): (r: bool)
    requires WellSized(m) && WellSized(other)
    requires idx <= |m.keys| && idx <= |other.keys|
    ensures r <==> |m.keys| == |other.keys| && m.keys[idx..] == other.keys[idx..]
                   && m.values[idx..] == other.values[idx..]
    decreases |m.keys| - idx
  {
    if idx == |m.keys| || idx == |other.keys| then |m.keys| == |other.keys|
    else if m.keys[idx] != other.keys[idx] then false
    else if m.values[idx] != other.values[idx] then false
    else
      var rest := EqualFrom(m, other, idx + 1);
      assert m.keys[idx..] == [m.keys[idx]] + m.keys[idx + 1..];
      assert other.keys[idx..] == [other.keys[idx]] + other.keys[idx + 1..];
      assert m.values[idx..] == [m.values[idx]] + m.values[idx + 1..];
      assert other.values[idx..] == [other.values[idx]] + other.values[idx + 1..];
      rest
  }

  /** The (key, value) pairs in index order. */
  function Pairs(m: FlatMap<int>): (p: seq<(int, int)>)
    requires WellSized(m)
    ensures |p| == |m.keys|
    ensures forall i | 0 <= i < |p| :: p[i] == (m.keys[i], m.values[i])
  {
    seq(|m.keys|, i requires 0 <= i < |m.keys| => (m.keys[i], m.values[i]))
  }

  /** Order on one (key, value) pair: by key, then by value. */
  predicate PairLess(x: (int, int), y: (int, int)) {
    x.0 < y.0 || (x.0 == y.0 && x.1 < y.1)
  }

  /** Reference lexicographic order on pair sequences: the first differing
      pair decides, and a proper prefix is less. */
  predicate LexLess(p: seq<(int, int)>, q: seq<(int, int)>)
    decreases |p|
  {
    if |q| == 0 then false
    else if |p| == 0 then true
    else if PairLess(p[0], q[0]) then true
    else if p[0] == q[0] then LexLess(p[1..], q[1..])
    else false
  }

  /** operator<: the empty map is less than any non-empty one, nothing is less
      than the empty map, and otherwise the index loop decides. */
  function Less(m: FlatMap<int>, other: FlatMap<int>): (r: bool)
    requires WellSized(m) && WellSized(other)
    ensures IsEmpty(other) ==> !r
    ensures IsEmpty(m) ==> (r <==> !IsEmpty(other))
  {
    if IsEmpty(m) then !IsEmpty(other)
    else if IsEmpty(other) then false
    else LessFrom(m, other, 0)
  }

  /** The index loop of operator<, from index `idx` on. A map is never
      below itself, and nothing is below a map whose entries from `idx` on
      are used up. */
  function LessFrom(m: FlatMap<int>, other: FlatMap<int>, idx: nat): (r: bool)
    requires WellSized(m) && WellSized(other)
    requires idx <= |m.keys| && idx <= |other.keys|
    ensures r ==> idx < |other.keys|
    ensures m == other ==> !r
    decreases |m.keys| - idx
  {
    if idx == |m.keys| || idx == |other.keys| then |m.keys| < |other.keys|
    else if m.keys[idx] < other.keys[idx] then true
    else if m.keys[idx] != other.keys[idx] then false
    else if m.values[idx] < other.values[idx] then true
    else if m.values[idx] != other.values[idx] then false
    else LessFrom(m, other, idx + 1)
  }

  lemma {:induction false} LessFromIsLexicographic(m: FlatMap<int>, other: FlatMap<int>, idx: nat)
    requires WellSized(m) && WellSized(other)
    requires idx <= |m.keys| && idx <= |other.keys|
    ensures LessFrom(m, other, idx) == LexLess(Pairs(m)[idx..], Pairs(other)[idx..])
    decreases |m.keys| - idx
  {
    if idx < |m.keys| && idx < |other.keys| {
      LessFromIsLexicographic(m, other, idx + 1);
      assert Pairs(m)[idx..][1..] == Pairs(m)[idx + 1..];
      assert Pairs(other)[idx..][1..] == Pairs(other)[idx + 1..];
    }
  }

  /** operator< is the lexicographic order on the (key, value) pairs, with a
      proper prefix less than its extensions. */
  lemma LessIsLexicographic(m: FlatMap<int>, other: FlatMap<int>)
    requires WellSized(m) && WellSized(other)
    ensures Less(m, other) == LexLess(Pairs(m), Pairs(other))
  {
    if !IsEmpty(m) && !IsEmpty(other) {
      LessFromIsLexicographic(m, other, 0);
      assert Pairs(m)[0..] == Pairs(m);
      assert Pairs(other)[0..] == Pairs(other);
    }
  }

  lemma {:induction false} LexLessTrichotomy(p: seq<(int, int)>, q: seq<(int, int)>)
    ensures LexLess(p, q) || LexLess(q, p) || p == q
    ensures !(LexLess(p, q) && LexLess(q, p))
    decreases |p|
  {
    if |p| > 0 && |q| > 0 && p[0] == q[0] {
      LexLessTrichotomy(p[1..], q[1..]);
      if p[1..] == q[1..] {
        assert p == [p[0]] + p[1..] && q == [q[0]] + q[1..];
      }
    }
  }

  /** operator< is a strict total order on well-sized maps: irreflexive,
      asymmetric, and any two distinct maps are ordered one way. */
  lemma LessStrictTotal(m: FlatMap<int>, other: FlatMap<int>)
    requires WellSized(m) && WellSized(other)
    ensures !Less(m, m)
    ensures Less(m, other) ==> !Less(other, m)
    ensures Less(m, other) || Less(other, m) || Equal(m, other)
  {
    LessIsLexicographic(m, m);
    LessIsLexicographic(m, other);
    LessIsLexicographic(other, m);
    LexLessTrichotomy(Pairs(m), Pairs(m));
    LexLessTrichotomy(Pairs(m), Pairs(other));
    if Pairs(m) == Pairs(other) {
      assert m.keys == other.keys by {
        forall i | 0 <= i < |m.keys| ensures m.keys[i] == other.keys[i] {
          assert Pairs(m)[i] == Pairs(other)[i];
        }
      }
      assert m.values == other.values by {
        forall i | 0 <= i < |m.values| ensures m.values[i] == other.values[i] {
          assert Pairs(m)[i] == Pairs(other)[i];
        }
      }
    }
  }
}
