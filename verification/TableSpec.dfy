/** The hash table as a finite map: what one call does to the map and to the counters. */
module TableSpec {
  import opened Options

  const PRIMES: seq<nat> := [
    193, 389, 769, 1543, 3079, 6151, 12289, 24593, 49157, 98317,
    196613, 393241, 786433, 1572869, 3145739, 6291469,
    12582917, 25165843, 50331653, 100663319, 201326611,
    402653189, 805306457, 1610612741
  ]

  /** The table size for a prime index, or ten times the entries once the primes run out. */
  function SizeFor(primeIndex: nat, entries: nat): nat {
    if primeIndex < |PRIMES| then PRIMES[primeIndex] else entries * 10
  }

  /** What callers see of a table: the map, the growth of the array, and what was passed to
      the registered free functions, in order. */
  datatype State<K, V> = State(
    m: map<K, V>, size: nat, primeIndex: nat, relinks: nat, inserts: nat,
    freesKeys: bool, freesValues: bool, freedKeys: seq<K>, freedValues: seq<V>)

  function New<K, V>(): State<K, V> {
    State(map[], PRIMES[0], 0, 0, 0, false, false, [], [])
  }

  ghost predicate Equivalence<K(!new)>(eq: (K, K) -> bool) {
    && (forall a :: eq(a, a))
    && (forall a, b :: eq(a, b) ==> eq(b, a))
    && (forall a, b, c :: eq(a, b) && eq(b, c) ==> eq(a, c))
  }

  /** Equal keys hash alike. */
  ghost predicate Coherent<K(!new)>(hash: K -> nat, eq: (K, K) -> bool) {
    Equivalence(eq) && forall a, b :: eq(a, b) ==> hash(a) == hash(b)
  }

  /** No two keys of the map are equal. */
  ghost predicate UniqueKeys<K, V>(eq: (K, K) -> bool, m: map<K, V>) {
    forall a, b :: a in m && b in m && eq(a, b) ==> a == b
  }

  /** The key of the map that is equal to `k`, if there is one. */
  ghost function Find<K, V>(eq: (K, K) -> bool, m: map<K, V>, k: K): (r: Option<K>)
    ensures r.Some? ==> r.value in m && eq(k, r.value)
    ensures r.None? ==> forall a :: a in m ==> !eq(k, a)
  {
    if a :| a in m && eq(k, a) then Some(a) else None
  }

  ghost function Lookup<K, V>(eq: (K, K) -> bool, m: map<K, V>, k: K): Option<V> {
    var r := Find(eq, m, k);
    if r.Some? then Some(m[r.value]) else None
  }

  /** What a free function has seen: nothing if it is not registered. */
  function Logged<T>(on: bool, seen: seq<T>, more: seq<T>): seq<T> {
    if on then seen + more else seen
  }

  lemma LoggedNone<T>(on: bool, seen: seq<T>)
    ensures Logged(on, seen, []) == seen
  {}

  lemma LoggedMore<T>(on: bool, seen: seq<T>, a: seq<T>, b: seq<T>)
    ensures Logged(on, Logged(on, seen, a), b) == Logged(on, seen, a + b)
  {
    assert seen + a + b == seen + (a + b);
  }

  function FreeData<K, V>(s: State<K, V>, k: K, v: V): State<K, V> {
    s.(freedKeys := Logged(s.freesKeys, s.freedKeys, [k]), freedValues := Logged(s.freesValues, s.freedValues, [v]))
  }

  function Enlarged<K, V>(s: State<K, V>): State<K, V> {
    s.(primeIndex := s.primeIndex + 1, size := SizeFor(s.primeIndex + 1, |s.m|), relinks := s.relinks + |s.m|)
  }

  predicate TooFull<K, V>(s: State<K, V>)
    requires s.size > 0
  {
    (|s.m| * 3) / s.size > 0
  }

  /** Insertion once the table is large enough. */
  ghost function Put<K, V>(eq: (K, K) -> bool, s: State<K, V>, k: K, v: V, nodeOk: bool): (State<K, V>, bool) {
    var r := Find(eq, s.m, k);
    if r.Some? then
      (FreeData(s, r.value, s.m[r.value]).(m := (s.m - {r.value})[k := v]), true)
    else if nodeOk then (s.(m := s.m[k := v]), true)
    else (s, false)
  }

  /** `tableOk` and `nodeOk` say whether the two allocations of the call succeed. */
  ghost function Insert<K, V>(eq: (K, K) -> bool, s: State<K, V>, k: K, v: V, tableOk: bool, nodeOk: bool)
    : (State<K, V>, bool)
    requires s.size > 0
  {
    var s1 := s.(inserts := s.inserts + 1);
    if TooFull(s1) && !tableOk then (s1, false)
    else Put(eq, if TooFull(s1) then Enlarged(s1) else s1, k, v, nodeOk)
  }

  ghost function Remove<K, V>(eq: (K, K) -> bool, s: State<K, V>, k: K): (State<K, V>, bool) {
    var r := Find(eq, s.m, k);
    if r.Some? then (FreeData(s, r.value, s.m[r.value]).(m := s.m - {r.value}), true) else (s, false)
  }

  // ---------- Unique keys are kept ----------

  lemma UniqueAdd<K(!new), V>(eq: (K, K) -> bool, m: map<K, V>, k: K, v: V)
    requires Equivalence(eq) && UniqueKeys(eq, m) && forall a :: a in m ==> !eq(k, a)
    ensures k !in m && UniqueKeys(eq, m[k := v]) && |m[k := v]| == |m| + 1
  {
    assert eq(k, k);
    assert m[k := v].Keys == m.Keys + {k};
    assert forall a :: a in m ==> !eq(a, k);
  }

  lemma UniqueReplace<K(!new), V>(eq: (K, K) -> bool, m: map<K, V>, a: K, k: K, v: V)
    requires Equivalence(eq) && UniqueKeys(eq, m) && a in m && eq(k, a)
    ensures UniqueKeys(eq, (m - {a})[k := v]) && |(m - {a})[k := v]| == |m|
    ensures forall b :: b in m && b != a ==> b != k
  {
    var r := m - {a};
    assert r.Keys == m.Keys - {a};
    forall b | b in r ensures !eq(k, b) {
      assert eq(a, k);
      assert eq(k, b) == eq(a, b);
    }
    UniqueAdd(eq, r, k, v);
  }

  lemma UniqueDrop<K(!new), V>(eq: (K, K) -> bool, m: map<K, V>, a: K)
    requires UniqueKeys(eq, m) && a in m
    ensures UniqueKeys(eq, m - {a}) && |m - {a}| == |m| - 1
  {
    assert (m - {a}).Keys == m.Keys - {a};
  }

  // ---------- The sizes ----------

  /** The sizes that a table goes through, and the first state. */
  lemma Sizes<K, V>(i: nat, n: nat)
    ensures New<K, V>().size == 193 && New<K, V>().primeIndex == 0 && New<K, V>().m == map[]
    ensures SizeFor(0, n) == 193 && SizeFor(1, n) == 389
    ensures SizeFor(2, n) == 769 && SizeFor(3, n) == 1543
    ensures SizeFor(4, n) == 3079 && SizeFor(5, n) == 6151
    ensures SizeFor(6, n) == 12289 && SizeFor(7, n) == 24593
    ensures SizeFor(8, n) == 49157 && SizeFor(9, n) == 98317
    ensures SizeFor(10, n) == 196613 && SizeFor(11, n) == 393241
    ensures SizeFor(12, n) == 786433 && SizeFor(13, n) == 1572869
    ensures SizeFor(14, n) == 3145739 && SizeFor(15, n) == 6291469
    ensures SizeFor(16, n) == 12582917 && SizeFor(17, n) == 25165843
    ensures SizeFor(18, n) == 50331653 && SizeFor(19, n) == 100663319
    ensures SizeFor(20, n) == 201326611 && SizeFor(21, n) == 402653189
    ensures SizeFor(22, n) == 805306457 && SizeFor(23, n) == 1610612741
    ensures i >= 24 ==> SizeFor(i, n) == 10 * n
  {}

  /** The table grows when it is at least one third full. */
  lemma TooFullMeans<K, V>(s: State<K, V>)
    requires s.size > 0
    ensures TooFull(s) <==> 3 * |s.m| >= s.size
  {
    Third(|s.m|, s.size);
  }

  lemma Third(n: nat, size: nat)
    requires size > 0
    ensures (n * 3) / size > 0 <==> 3 * n >= size
  {}

  /** A free function that is not registered sees nothing; a registered one sees the overwritten and
      the removed, and nothing else. */
  lemma OnlyRegisteredFree<K, V>(eq: (K, K) -> bool, s: State<K, V>, k: K, v: V, tableOk: bool, nodeOk: bool)
    requires s.size > 0
    ensures var (a, b) := (Insert(eq, s, k, v, tableOk, nodeOk), Remove(eq, s, k));
      && (!s.freesKeys ==> a.0.freedKeys == b.0.freedKeys == s.freedKeys)
      && (!s.freesValues ==> a.0.freedValues == b.0.freedValues == s.freedValues)
      && (s.freesKeys && Lookup(eq, s.m, k).Some? && a.1 ==>
            exists q :: q in s.m && eq(k, q) && a.0.freedKeys == s.freedKeys + [q] == b.0.freedKeys)
      && (s.freesValues && Lookup(eq, s.m, k).Some? && a.1 ==>
            a.0.freedValues == s.freedValues + [Lookup(eq, s.m, k).value] == b.0.freedValues)
      && (Lookup(eq, s.m, k).None? ==> a.0.freedKeys == b.0.freedKeys == s.freedKeys)
      && (Lookup(eq, s.m, k).None? ==> a.0.freedValues == b.0.freedValues == s.freedValues)
      && a.0.freesKeys == b.0.freesKeys == s.freesKeys && a.0.freesValues == b.0.freesValues == s.freesValues
  {
    hide SizeFor, TooFull;
  }
}
