/** Whole runs of the hash table: the map it stands for, its load, the cost of its growth and
    what happens to the pointers it takes. */
module TableRuns {
  import opened Options
  import opened Sequences
  import opened TableSpec
  import opened HashTables

  /** A call, with the answers of the allocator. */
  datatype Op<K, V> =
    | InsertOp(key: K, value: V, tableOk: bool, nodeOk: bool)
    | RemoveOp(key: K)
    | LookupOp(key: K)

  datatype Outcome<V> = Did(ok: bool) | Gave(value: Option<V>)

  ghost function OpStep<K, V>(eq: (K, K) -> bool, s: State<K, V>, op: Op<K, V>): (State<K, V>, Outcome<V>)
    requires s.size > 0
  {
    match op
    case InsertOp(k, v, t, n) => var (s', ok) := Insert(eq, s, k, v, t, n); (s', Did(ok))
    case RemoveOp(k) => var (s', ok) := Remove(eq, s, k); (s', Did(ok))
    case LookupOp(k) => (s, Gave(Lookup(eq, s.m, k)))
  }

  // ---------- Load ----------

  const INDEX_LIMIT := 24
  const INT_LIMIT := 0x8000_0000

  /** Entries in a table of `PRIMES[i]` cells when it is enlarged. */
  function Full(i: nat): nat
    requires i < INDEX_LIMIT
  {
    (PRIMES[i] + 2) / 3
  }

  /** Relinks of the enlargements that lead to prime index `i`. */
  function RelinkSum(i: nat): nat
    requires i <= INDEX_LIMIT
  {
    if i == 0 then 0 else RelinkSum(i - 1) + Full(i - 1)
  }

  ghost predicate Inv<K, V>(eq: (K, K) -> bool, s: State<K, V>) {
    && s.size > 0
    && UniqueKeys(eq, s.m)
    && 3 * |s.m| <= s.size + 2
    && |s.m| <= s.inserts
    && (s.primeIndex < INDEX_LIMIT ==>
          && s.size == PRIMES[s.primeIndex]
          && s.relinks == RelinkSum(s.primeIndex)
          && (s.primeIndex > 0 ==> Full(s.primeIndex - 1) <= s.inserts))
  }

  lemma PrimesGrow(i: nat)
    requires i + 1 < INDEX_LIMIT
    ensures 0 < PRIMES[i] && PRIMES[i] + 3 <= PRIMES[i + 1] < INT_LIMIT
  {
    if i < 6 { assert i == 0 || i == 1 || i == 2 || i == 3 || i == 4 || i == 5; }
    else if i < 12 { assert i == 6 || i == 7 || i == 8 || i == 9 || i == 10 || i == 11; }
    else if i < 18 { assert i == 12 || i == 13 || i == 14 || i == 15 || i == 16 || i == 17; }
    else { assert i == 18 || i == 19 || i == 20 || i == 21 || i == 22; }
  }

  lemma Sums0()
    ensures forall i :: 1 <= i < 6 ==> RelinkSum(i) <= 2 * Full(i - 1) + 10
    ensures RelinkSum(5) == 1994
  {
    assert RelinkSum(1) == 65 && Full(0) == 65;
    assert RelinkSum(2) == 195 && Full(1) == 130;
    assert RelinkSum(3) == 452 && Full(2) == 257;
    assert RelinkSum(4) == 967 && Full(3) == 515;
    assert RelinkSum(5) == 1994 && Full(4) == 1027;
  }

  lemma Sums1()
    ensures forall i :: 6 <= i < 11 ==> RelinkSum(i) <= 2 * Full(i - 1) + 10
    ensures RelinkSum(10) == 65499
  {
    Sums0();
    assert RelinkSum(6) == 4045 && Full(5) == 2051;
    assert RelinkSum(7) == 8142 && Full(6) == 4097;
    assert RelinkSum(8) == 16340 && Full(7) == 8198;
    assert RelinkSum(9) == 32726 && Full(8) == 16386;
    assert RelinkSum(10) == 65499 && Full(9) == 32773;
  }

  lemma Sums2()
    ensures forall i :: 11 <= i < 16 ==> RelinkSum(i) <= 2 * Full(i - 1) + 10
    ensures RelinkSum(15) == 2097133
  {
    Sums1();
    assert RelinkSum(11) == 131037 && Full(10) == 65538;
    assert RelinkSum(12) == 262118 && Full(11) == 131081;
    assert RelinkSum(13) == 524263 && Full(12) == 262145;
    assert RelinkSum(14) == 1048553 && Full(13) == 524290;
    assert RelinkSum(15) == 2097133 && Full(14) == 1048580;
  }

  lemma Sums3()
    ensures forall i :: 16 <= i < 20 ==> RelinkSum(i) <= 2 * Full(i - 1) + 10
    ensures RelinkSum(19) == 33554429
  {
    Sums2();
    assert RelinkSum(16) == 4194290 && Full(15) == 2097157;
    assert RelinkSum(17) == 8388596 && Full(16) == 4194306;
    assert RelinkSum(18) == 16777211 && Full(17) == 8388615;
    assert RelinkSum(19) == 33554429 && Full(18) == 16777218;
  }

  lemma Sums4()
    ensures forall i :: 20 <= i < 22 ==> RelinkSum(i) <= 2 * Full(i - 1) + 10
    ensures RelinkSum(21) == 134217740
  {
    Sums3();
    assert RelinkSum(20) == 67108869 && Full(19) == 33554440;
    assert RelinkSum(21) == 134217740 && Full(20) == 67108871;
  }

  lemma Sums5()
    ensures forall i :: 22 <= i < 24 ==> RelinkSum(i) <= 2 * Full(i - 1) + 10
    ensures RelinkSum(23) == 536870956
  {
    Sums4();
    assert RelinkSum(22) == 268435470 && Full(21) == 134217730;
    assert RelinkSum(23) == 536870956 && Full(22) == 268435486;
  }

  lemma SumsBounded(i: nat)
    requires 0 < i < INDEX_LIMIT
    ensures RelinkSum(i) <= 2 * Full(i - 1) + 10
  {
    hide RelinkSum, Full;
    Sums0();
    Sums1();
    Sums2();
    Sums3();
    Sums4();
    Sums5();
  }

  /** While the primes last, all enlargements together relink at most twice as many entries as
      there were insert calls, and ten. */
  lemma GrowthIsAmortised<K, V>(eq: (K, K) -> bool, s: State<K, V>)
    requires Inv(eq, s) && s.primeIndex < 24
    ensures s.relinks <= 2 * s.inserts + 10 && s.relinks <= 3 * s.inserts
  {
    hide UniqueKeys, Full;
    if s.primeIndex > 0 {
      SumsBounded(s.primeIndex);
      FullGrows(s.primeIndex - 1);
      assert Full(0) == 65 by { FullFirst(); }
    }
  }

  lemma FullFirst()
    ensures Full(0) == 65
  {}

  lemma {:induction false} FullGrows(i: nat)
    requires i < INDEX_LIMIT
    ensures Full(0) <= Full(i)
  {
    if i > 0 { FullGrows(i - 1); PrimesGrow(i - 1); }
  }

  /** Products and bucket indices stay inside a 32-bit int while the primes last. */
  lemma NoOverflow<K, V>(eq: (K, K) -> bool, s: State<K, V>, hash: nat)
    requires Inv(eq, s) && s.primeIndex < 24
    ensures |s.m| * 3 < 0x8000_0000 && 0 < s.size < 0x8000_0000
    ensures hash % s.size < 0x8000_0000 && |s.m| + 1 < 0x8000_0000
  {
    if s.primeIndex > 0 { PrimesGrow(s.primeIndex - 1); }
    var i := s.primeIndex;
    assert PRIMES[i] <= 1610612741 by { PrimesBounded(i); }
  }

  lemma {:induction false} PrimesBounded(i: nat)
    requires i < INDEX_LIMIT
    ensures PRIMES[i] <= 1610612741
    decreases INDEX_LIMIT - i
  {
    if i + 1 < INDEX_LIMIT { PrimesGrow(i); PrimesBounded(i + 1); }
  }

  // ---------- One call keeps the invariant ----------

  lemma ThirdIsExact(m: nat, size: nat)
    requires size > 0 && (m * 3) / size > 0 && 3 * m <= size + 2
    ensures m == (size + 2) / 3
  {
    assert m * 3 >= size;
  }

  lemma EnlargedInv<K, V>(eq: (K, K) -> bool, s: State<K, V>)
    requires Inv(eq, s) && TooFull(s)
    ensures Inv(eq, Enlarged(s)) && 3 * |s.m| + 3 <= Enlarged(s).size + 2
  {
    hide UniqueKeys, TooFull;
    Unfull(s);
    ThirdIsExact(|s.m|, s.size);
    if s.primeIndex + 1 < INDEX_LIMIT {
      PrimesGrow(s.primeIndex);
      NextSize(s.primeIndex, |s.m|);
      assert RelinkSum(s.primeIndex + 1) == RelinkSum(s.primeIndex) + Full(s.primeIndex);
    } else {
      LastSize(s.primeIndex, |s.m|);
    }
  }

  lemma NextSize(i: nat, entries: nat)
    requires i + 1 < INDEX_LIMIT
    ensures SizeFor(i + 1, entries) == PRIMES[i + 1]
  {}

  lemma LastSize(i: nat, entries: nat)
    requires i + 1 >= INDEX_LIMIT
    ensures SizeFor(i + 1, entries) == entries * 10
  {}

  lemma Unfull<K, V>(s: State<K, V>)
    requires s.size > 0
    ensures TooFull(s) <==> (|s.m| * 3) / s.size > 0
    ensures !TooFull(s) ==> 3 * |s.m| < s.size
  {}

  lemma CountInv<K, V>(eq: (K, K) -> bool, s: State<K, V>)
    requires Inv(eq, s)
    ensures Inv(eq, s.(inserts := s.inserts + 1))
  {
    hide UniqueKeys, RelinkSum;
  }

  lemma PutInv<K(!new), V>(eq: (K, K) -> bool, s: State<K, V>, k: K, v: V, nodeOk: bool)
    requires Equivalence(eq) && Inv(eq, s) && 3 * |s.m| + 3 <= s.size + 2 && |s.m| < s.inserts
    ensures Inv(eq, Put(eq, s, k, v, nodeOk).0)
  {
    var r := Find(eq, s.m, k);
    if r.Some? {
      UniqueReplace(eq, s.m, r.value, k, v);
    } else {
      UniqueAdd(eq, s.m, k, v);
    }
  }

  lemma StepInv<K(!new), V>(eq: (K, K) -> bool, s: State<K, V>, op: Op<K, V>)
    requires Equivalence(eq) && Inv(eq, s)
    ensures Inv(eq, OpStep(eq, s, op).0)
  {
    hide UniqueKeys, RelinkSum, Full, Put, TooFull;
    match op
    case InsertOp(k, v, t, n) =>
      var s1 := s.(inserts := s.inserts + 1);
      CountInv(eq, s);
      Unfull(s1);
      if TooFull(s1) { EnlargedInv(eq, s1); }
      if t || !TooFull(s1) { PutInv(eq, if TooFull(s1) then Enlarged(s1) else s1, k, v, n); }
    case RemoveOp(k) => RemoveInv(eq, s, k);
    case LookupOp(_) =>
  }

  lemma RemoveInv<K(!new), V>(eq: (K, K) -> bool, s: State<K, V>, k: K)
    requires Inv(eq, s)
    ensures Inv(eq, Remove(eq, s, k).0)
  {
    hide RelinkSum, Full;
    var r := Find(eq, s.m, k);
    if r.Some? { UniqueDrop(eq, s.m, r.value); }
  }

  // ---------- Runs ----------

  /** A run of calls from state `s`, with what each call gave. */
  ghost function RunOps<K(!new), V>(eq: (K, K) -> bool, s: State<K, V>, ops: seq<Op<K, V>>)
    : (r: (State<K, V>, seq<Outcome<V>>))
    requires Equivalence(eq) && Inv(eq, s)
    ensures Inv(eq, r.0) && |r.1| == |ops|
  {
    if ops == [] then (s, [])
    else
      var n := |ops| - 1;
      var (s1, outs) := RunOps(eq, s, ops[..n]);
      StepInv(eq, s1, ops[n]);
      var (s2, out) := OpStep(eq, s1, ops[n]);
      (s2, outs + [out])
  }

  /** On every run the heap table gives what the map gives. */
  method RunTable<K(!new, ==), V>(t: HashTable<K, V>, ops: seq<Op<K, V>>) returns (outs: seq<Outcome<V>>)
    requires t.Valid() && Inv(t.equal, t.State()) && Equivalence(t.equal)
    modifies t.Repr()
    ensures t.Valid() && fresh(t.Repr() - old(t.Repr()))
    ensures |outs| == |ops| && (t.State(), outs) == RunOps(t.equal, old(t.State()), ops)
  {
    hide Inv, Equivalence, OpStep, t.Buckets, t.Indexed, t.Map, t.State;
    outs := [];
    for i := 0 to |ops|
      invariant t.Valid() && fresh(t.Repr() - old(t.Repr()))
      invariant (t.State(), outs) == RunOps(t.equal, old(t.State()), ops[..i])
    {
      var out := Call(t, ops[i]);
      assert ops[..i + 1][..i] == ops[..i];
      outs := outs + [out];
    }
    assert ops[..|ops|] == ops;
  }

  method Call<K(!new, ==), V>(t: HashTable<K, V>, op: Op<K, V>) returns (out: Outcome<V>)
    requires t.Valid()
    modifies t.Repr()
    ensures t.Valid() && fresh(t.Repr() - old(t.Repr()))
    ensures old(t.State()).size > 0 && (t.State(), out) == OpStep(t.equal, old(t.State()), op)
  {
    hide t.Buckets, Insert, Remove, Lookup;
    match op
    case InsertOp(k, v, tableOk, nodeOk) =>
      var ok := t.Insert(k, v, tableOk, nodeOk);
      out := Did(ok);
    case RemoveOp(k) =>
      var ok := t.Remove(k);
      out := Did(ok);
    case LookupOp(k) =>
      var r := t.Lookup(k);
      out := Gave(r);
  }

  // ---------- The cost of a run ----------

  /** The number of insert calls of a run, whatever they gave. */
  function CountInserts<K, V>(ops: seq<Op<K, V>>): nat {
    if ops == [] then 0
    else CountInserts(ops[..|ops| - 1]) + if ops[|ops| - 1].InsertOp? then 1 else 0
  }

  lemma {:induction false} RunCounts<K(!new), V>(eq: (K, K) -> bool, s: State<K, V>, ops: seq<Op<K, V>>)
    requires Equivalence(eq) && Inv(eq, s)
    ensures RunOps(eq, s, ops).0.inserts == s.inserts + CountInserts(ops)
    decreases |ops|
  {
    hide Equivalence;
    if ops == [] {
    } else {
      var n := |ops| - 1;
      RunCounts(eq, s, ops[..n]);
      assert Inv(eq, RunOps(eq, s, ops[..n]).0);
      StepCounts(eq, RunOps(eq, s, ops[..n]).0, ops[n]);
    }
  }

  lemma StepCounts<K, V>(eq: (K, K) -> bool, s: State<K, V>, op: Op<K, V>)
    requires s.size > 0
    ensures OpStep(eq, s, op).0.inserts == s.inserts + if op.InsertOp? then 1 else 0
  {}

  /** Over every run from an empty table that stays within the primes, all enlargements
      together relink at most twice as many entries as there were insert calls, and ten, and
      never more than three times as many. */
  lemma RunGrowth<K(!new), V>(eq: (K, K) -> bool, ops: seq<Op<K, V>>)
    requires Equivalence(eq)
    ensures Inv<K, V>(eq, New())
    ensures var (s, n) := (RunOps(eq, New(), ops).0, CountInserts(ops));
      s.primeIndex < 24 ==> s.relinks <= 2 * n + 10 && s.relinks <= 3 * n
  {
    hide Equivalence;
    FreshInv<K, V>(eq, false, false);
    RunCounts(eq, New(), ops);
    var s := RunOps(eq, New(), ops).0;
    if s.primeIndex < INDEX_LIMIT { GrowthIsAmortised(eq, s); }
  }

  // ---------- The table remembers the last write ----------

  /** What the history of a run says about a key: the value of the last successful insert of an
      equal key, unless an equal key was removed after it. */
  ghost function LastWrite<K, V>(eq: (K, K) -> bool, ops: seq<Op<K, V>>, outs: seq<Outcome<V>>, k: K): Option<V>
    requires |ops| == |outs|
  {
    if ops == [] then None
    else
      var n := |ops| - 1;
      if ops[n].InsertOp? && outs[n] == Did(true) && eq(k, ops[n].key) then Some(ops[n].value)
      else if ops[n].RemoveOp? && eq(k, ops[n].key) then None
      else LastWrite(eq, ops[..n], outs[..n], k)
  }

  lemma FindIs<K(!new), V>(eq: (K, K) -> bool, m: map<K, V>, k: K, a: K)
    requires Equivalence(eq) && UniqueKeys(eq, m) && a in m && eq(k, a)
    ensures Find(eq, m, k) == Some(a)
  {
    var b := Find(eq, m, k).value;
    assert eq(a, b);
  }

  lemma FindIsNot<K, V>(eq: (K, K) -> bool, m: map<K, V>, k: K)
    requires forall a :: a in m ==> !eq(k, a)
    ensures Find(eq, m, k) == None
  {}

  /** `k` is looked up after a key was replaced or added. */
  lemma LookupAfterPut<K(!new), V>(eq: (K, K) -> bool, s: State<K, V>, key: K, v: V, nodeOk: bool, k: K)
    requires Equivalence(eq) && UniqueKeys(eq, s.m)
    ensures var (s', ok) := Put(eq, s, key, v, nodeOk);
      Lookup(eq, s'.m, k) == if ok && eq(k, key) then Some(v) else Lookup(eq, s.m, k)
  {
    var (s', ok) := Put(eq, s, key, v, nodeOk);
    var r := Find(eq, s.m, key);
    if ok {
      if r.Some? { UniqueReplace(eq, s.m, r.value, key, v); } else { UniqueAdd(eq, s.m, key, v); }
      if eq(k, key) {
        FindIs(eq, s'.m, k, key);
      } else {
        var q := Find(eq, s.m, k);
        if q.Some? {
          assert r.Some? ==> q.value != r.value by { assert r.Some? && q.value == r.value ==> eq(k, key); }
          FindIs(eq, s'.m, k, q.value);
        } else {
          FindIsNot(eq, s'.m, k);
        }
      }
    }
  }

  lemma LookupAfterRemove<K(!new), V>(eq: (K, K) -> bool, s: State<K, V>, key: K, k: K)
    requires Equivalence(eq) && UniqueKeys(eq, s.m)
    ensures Lookup(eq, Remove(eq, s, key).0.m, k) == if eq(k, key) then None else Lookup(eq, s.m, k)
  {
    var m' := Remove(eq, s, key).0.m;
    var r, q := Find(eq, s.m, key), Find(eq, s.m, k);
    if r.Some? { UniqueDrop(eq, s.m, r.value); }
    if q.Some? && !eq(k, key) {
      FindIs(eq, m', k, q.value);
    } else {
      forall a | a in m' ensures !eq(k, a) {
        if eq(k, key) { assert eq(k, a) == eq(key, a); }
      }
      FindIsNot(eq, m', k);
    }
  }

  lemma LookupAfterStep<K(!new), V>(eq: (K, K) -> bool, s: State<K, V>, op: Op<K, V>, k: K)
    requires Equivalence(eq) && Inv(eq, s)
    ensures var (s', out) := OpStep(eq, s, op);
      Lookup(eq, s'.m, k) ==
        if op.InsertOp? && out == Did(true) && eq(k, op.key) then Some(op.value)
        else if op.RemoveOp? && eq(k, op.key) then None
        else Lookup(eq, s.m, k)
  {
    hide Equivalence, Lookup, UniqueKeys, Put, Remove, SizeFor, TooFull;
    match op
    case InsertOp(key, v, t, n) =>
      var s1 := s.(inserts := s.inserts + 1);
      LookupAfterPut(eq, if TooFull(s1) then Enlarged(s1) else s1, key, v, n, k);
    case RemoveOp(key) => LookupAfterRemove(eq, s, key, k);
    case LookupOp(_) =>
  }

  lemma PutOutcome<K(!new), V>(eq: (K, K) -> bool, s: State<K, V>, k: K, v: V, nodeOk: bool)
    requires Equivalence(eq) && UniqueKeys(eq, s.m)
    ensures var (s', ok) := Put(eq, s, k, v, nodeOk);
      && (ok <==> nodeOk || Lookup(eq, s.m, k).Some?)
      && (!ok ==> s' == s)
      && (ok ==> k in s'.m && s'.m[k] == v)
      && (ok ==> |s'.m| == |s.m| + if Lookup(eq, s.m, k).Some? then 0 else 1)
      && (forall a :: !eq(k, a) ==> (a in s'.m <==> a in s.m))
      && (forall a :: !eq(k, a) && a in s.m ==> s'.m[a] == s.m[a])
  {
    var r := Find(eq, s.m, k);
    if r.Some? { UniqueReplace(eq, s.m, r.value, k, v); } else { UniqueAdd(eq, s.m, k, v); }
  }

  /** An insert fails only for want of memory, and then no key, value or count changes, even if
      the array has grown. Otherwise it stores the new pair, in place of the pair of an equal key
      if there is one, and leaves every other pair. */
  lemma InsertOutcome<K(!new), V>(eq: (K, K) -> bool, s: State<K, V>, k: K, v: V, tableOk: bool, nodeOk: bool)
    requires Equivalence(eq) && Inv(eq, s)
    ensures var (s', ok) := Insert(eq, s, k, v, tableOk, nodeOk);
      && (ok <==> (TooFull(s) ==> tableOk) && (nodeOk || Lookup(eq, s.m, k).Some?))
      && (!ok ==> s'.m == s.m && s'.freedKeys == s.freedKeys && s'.freedValues == s.freedValues)
      && (ok ==> k in s'.m && s'.m[k] == v)
      && (ok ==> |s'.m| == |s.m| + if Lookup(eq, s.m, k).Some? then 0 else 1)
      && (forall a :: !eq(k, a) ==> (a in s'.m <==> a in s.m))
      && (forall a :: !eq(k, a) && a in s.m ==> s'.m[a] == s.m[a])
  {
    hide Equivalence, UniqueKeys, Put, Lookup, SizeFor;
    var s1 := s.(inserts := s.inserts + 1);
    PutOutcome(eq, if TooFull(s1) then Enlarged(s1) else s1, k, v, nodeOk);
  }

  /** A removal succeeds if an equal key is stored, and takes away that key alone. */
  lemma RemoveOutcome<K(!new), V>(eq: (K, K) -> bool, s: State<K, V>, k: K)
    requires Equivalence(eq) && Inv(eq, s)
    ensures var (s', ok) := Remove(eq, s, k);
      && (ok <==> Lookup(eq, s.m, k).Some?)
      && |s'.m| == |s.m| - (if ok then 1 else 0)
      && (forall a :: a in s'.m <==> a in s.m && !eq(k, a))
      && (forall a :: a in s'.m ==> s'.m[a] == s.m[a])
  {
    var r := Find(eq, s.m, k);
    if r.Some? {
      UniqueDrop(eq, s.m, r.value);
      forall a | a in s.m && eq(k, a) ensures a == r.value { assert eq(a, r.value); }
    }
  }

  /** After every run from an empty table, lookups give the last write. */
  lemma {:induction false} LastWriterWins<K(!new), V>(eq: (K, K) -> bool, s: State<K, V>, ops: seq<Op<K, V>>, k: K)
    requires Equivalence(eq) && Inv(eq, s) && s.m == map[]
    ensures var (s', outs) := RunOps(eq, s, ops);
      Lookup(eq, s'.m, k) == LastWrite(eq, ops, outs, k)
    decreases |ops|
  {
    hide Equivalence, Inv, OpStep;
    if ops == [] {
    } else {
      var n := |ops| - 1;
      LastWriterWins(eq, s, ops[..n], k);
      var (s1, outs) := RunOps(eq, s, ops[..n]);
      LookupAfterStep(eq, s1, ops[n], k);
      assert RunOps(eq, s, ops).1[..n] == outs;
    }
  }

  /** A table fresh from `hash_table_new`. */
  ghost function Fresh<K, V>(keys: bool, values: bool): State<K, V> {
    New().(freesKeys := keys, freesValues := values)
  }

  lemma FreshInv<K, V>(eq: (K, K) -> bool, keys: bool, values: bool)
    ensures Inv<K, V>(eq, Fresh(keys, values))
  {}

  // ---------- The answers of a run ----------

  lemma {:induction false} AnswersOfPrefix<K(!new), V>(eq: (K, K) -> bool, s: State<K, V>, ops: seq<Op<K, V>>, i: nat)
    requires Equivalence(eq) && Inv(eq, s) && i <= |ops|
    ensures RunOps(eq, s, ops[..i]).1 == RunOps(eq, s, ops).1[..i]
    decreases |ops|
  {
    hide Equivalence, Inv, OpStep;
    if i == |ops| {
      assert ops[..i] == ops;
    } else {
      var n := |ops| - 1;
      AnswersOfPrefix(eq, s, ops[..n], i);
      assert ops[..n][..i] == ops[..i];
    }
  }

  /** The answer of a call, where `last` is what a lookup of its key would give before it: a lookup
      gives that, a removal succeeds iff there is something, and an insert fails only for want of
      memory. */
  ghost predicate Answers<K, V>(op: Op<K, V>, last: Option<V>, out: Outcome<V>) {
    match op
    case LookupOp(k) => out == Gave(last)
    case RemoveOp(k) => out == Did(last.Some?)
    case InsertOp(k, v, tableOk, nodeOk) =>
      && out.Did?
      && (tableOk && nodeOk ==> out.ok)
      && (tableOk && last.Some? ==> out.ok)
      && (!nodeOk && last.None? ==> !out.ok)
  }

  lemma StepAnswers<K(!new), V>(eq: (K, K) -> bool, s: State<K, V>, op: Op<K, V>)
    requires Equivalence(eq) && Inv(eq, s)
    ensures s.size > 0 && Answers(op, Lookup(eq, s.m, op.key), OpStep(eq, s, op).1)
  {
    hide Equivalence, UniqueKeys, Insert, Remove, Lookup;
    match op
    case InsertOp(k, v, tableOk, nodeOk) => InsertOutcome(eq, s, k, v, tableOk, nodeOk);
    case RemoveOp(k) => RemoveOutcome(eq, s, k);
    case LookupOp(k) =>
  }

  /** From an empty table the history of the calls and their answers says what each call answers. */
  lemma AnswersFollowHistory<K(!new), V>(eq: (K, K) -> bool, s: State<K, V>, ops: seq<Op<K, V>>, i: nat)
    requires Equivalence(eq) && Inv(eq, s) && s.m == map[] && i < |ops|
    ensures var outs := RunOps(eq, s, ops).1;
      Answers(ops[i], LastWrite(eq, ops[..i], outs[..i], ops[i].key), outs[i])
  {
    hide Equivalence, Inv, OpStep, Lookup, LastWrite, Answers;
    var before := ops[..i + 1];
    AnswersOfPrefix(eq, s, ops, i + 1);
    AnswersOfPrefix(eq, s, ops, i);
    assert before[..i] == ops[..i] && before[i] == ops[i];
    LastWriterWins(eq, s, ops[..i], ops[i].key);
    StepAnswers(eq, RunOps(eq, s, ops[..i]).0, ops[i]);
  }

  // ---------- Ownership of pointers ----------

  /** The keys that successful inserts took, in order. */
  function TakenKeys<K, V(==)>(ops: seq<Op<K, V>>, outs: seq<Outcome<V>>): seq<K>
    requires |ops| == |outs|
  {
    if ops == [] then []
    else
      var n := |ops| - 1;
      TakenKeys(ops[..n], outs[..n]) + if ops[n].InsertOp? && outs[n] == Did(true) then [ops[n].key] else []
  }

  function TakenValues<K, V(==)>(ops: seq<Op<K, V>>, outs: seq<Outcome<V>>): seq<V>
    requires |ops| == |outs|
  {
    if ops == [] then []
    else
      var n := |ops| - 1;
      TakenValues(ops[..n], outs[..n]) + if ops[n].InsertOp? && outs[n] == Did(true) then [ops[n].value] else []
  }

  /** What was taken is either held or freed, not both, and nothing is freed twice. */
  ghost predicate Conserved<P>(taken: seq<P>, held: set<P>, freed: seq<P>) {
    Elems(taken) == held + Elems(freed) && held !! Elems(freed) && NoRepeats(freed)
  }

  lemma TakeOne<P>(taken: seq<P>, held: set<P>, freed: seq<P>, p: P)
    requires Conserved(taken, held, freed) && NoRepeats(taken + [p])
    ensures Conserved(taken + [p], held + {p}, freed) && p !in held
  {
    assert Elems(taken + [p]) == Elems(taken) + {p};
    var more := taken + [p];
    forall i | 0 <= i < |taken| ensures taken[i] != p {
      assert more[i] == taken[i] && more[|taken|] == p;
    }
  }

  lemma FreeOne<P>(taken: seq<P>, held: set<P>, freed: seq<P>, p: P)
    requires Conserved(taken, held, freed) && p in held
    ensures Conserved(taken, held - {p}, freed + [p])
  {
    assert Elems(freed + [p]) == Elems(freed) + {p};
  }

  ghost predicate Owned<K, V>(s: State<K, V>, ks: seq<K>, vs: seq<V>) {
    && s.freesKeys && s.freesValues && Injective(s.m)
    && Conserved(ks, s.m.Keys, s.freedKeys) && Conserved(vs, s.m.Values, s.freedValues)
  }

  /** One insertion with registered free functions and a key and value never seen before. */
  lemma PutConserves<K(!new), V>(eq: (K, K) -> bool, s: State<K, V>, k: K, v: V, nodeOk: bool, ks: seq<K>, vs: seq<V>)
    requires Equivalence(eq) && UniqueKeys(eq, s.m) && Owned(s, ks, vs)
    requires NoRepeats(ks + [k]) && NoRepeats(vs + [v])
    ensures var (s', ok) := Put(eq, s, k, v, nodeOk);
      Owned(s', ks + if ok then [k] else [], vs + if ok then [v] else [])
  {
    var (s', ok) := Put(eq, s, k, v, nodeOk);
    var r := Find(eq, s.m, k);
    assert ks + [] == ks && vs + [] == vs;
    if r.Some? {
      var a := r.value;
      DropValue(s.m, a);
      FreeOne(ks, s.m.Keys, s.freedKeys, a);
      FreeOne(vs, s.m.Values, s.freedValues, s.m[a]);
      TakeOne(ks, s.m.Keys - {a}, s.freedKeys + [a], k);
      TakeOne(vs, s.m.Values - {s.m[a]}, s.freedValues + [s.m[a]], v);
      AddValue(s.m - {a}, k, v);
    } else if ok {
      TakeOne(ks, s.m.Keys, s.freedKeys, k);
      TakeOne(vs, s.m.Values, s.freedValues, v);
      AddValue(s.m, k, v);
    }
  }

  lemma DropValue<K, V>(m: map<K, V>, a: K)
    requires Injective(m) && a in m
    ensures (m - {a}).Keys == m.Keys - {a} && (m - {a}).Values == m.Values - {m[a]} && Injective(m - {a})
  {
    forall v | v in m.Values && v != m[a] ensures v in (m - {a}).Values {
      var b :| b in m && m[b] == v;
      assert b in m - {a};
    }
  }

  lemma AddValue<K, V>(m: map<K, V>, k: K, v: V)
    requires Injective(m) && k !in m && v !in m.Values
    ensures m[k := v].Keys == m.Keys + {k} && m[k := v].Values == m.Values + {v} && Injective(m[k := v])
  {
    forall w | w in m.Values + {v} ensures w in m[k := v].Values {
      if w == v { assert m[k := v][k] == v; } else { var b :| b in m && m[b] == w; assert m[k := v][b] == w; }
    }
  }

  lemma RemoveConserves<K, V>(eq: (K, K) -> bool, s: State<K, V>, k: K, ks: seq<K>, vs: seq<V>)
    requires Owned(s, ks, vs)
    ensures Owned(Remove(eq, s, k).0, ks, vs)
  {
    var r := Find(eq, s.m, k);
    if r.Some? {
      DropValue(s.m, r.value);
      FreeOne(ks, s.m.Keys, s.freedKeys, r.value);
      FreeOne(vs, s.m.Values, s.freedValues, s.m[r.value]);
    }
  }

  /** The counters and the array have no part in ownership. */
  lemma OwnedGrown<K, V>(s: State<K, V>, ks: seq<K>, vs: seq<V>)
    requires Owned(s, ks, vs)
    ensures Owned(s.(inserts := s.inserts + 1), ks, vs) && Owned(Enlarged(s.(inserts := s.inserts + 1)), ks, vs)
  {
    hide Conserved, Injective, SizeFor;
  }

  lemma InsertConserves<K(!new), V>(
      eq: (K, K) -> bool, s: State<K, V>, k: K, v: V, t: bool, n: bool, ks: seq<K>, vs: seq<V>)
    requires Equivalence(eq) && UniqueKeys(eq, s.m) && s.size > 0 && Owned(s, ks, vs)
    requires NoRepeats(ks + [k]) && NoRepeats(vs + [v])
    ensures var (s', ok) := Insert(eq, s, k, v, t, n);
      Owned(s', ks + if ok then [k] else [], vs + if ok then [v] else [])
  {
    hide Owned, Put, Equivalence, UniqueKeys, TooFull, SizeFor, NoRepeats;
    assert ks + [] == ks && vs + [] == vs;
    var s1 := s.(inserts := s.inserts + 1);
    OwnedGrown(s, ks, vs);
    PutConserves(eq, if TooFull(s1) then Enlarged(s1) else s1, k, v, n, ks, vs);
  }

  lemma StepConserves<K(!new), V>(eq: (K, K) -> bool, s: State<K, V>, op: Op<K, V>, ks: seq<K>, vs: seq<V>)
    requires Equivalence(eq) && Inv(eq, s) && Owned(s, ks, vs)
    requires op.InsertOp? ==> NoRepeats(ks + [op.key]) && NoRepeats(vs + [op.value])
    ensures var (s', out) := OpStep(eq, s, op);
      var took := op.InsertOp? && out == Did(true);
      Owned(s', ks + if took then [op.key] else [], vs + if took then [op.value] else [])
  {
    hide Equivalence, UniqueKeys, Insert, Remove, Lookup, Owned, NoRepeats;
    assert ks + [] == ks && vs + [] == vs;
    match op
    case InsertOp(k, v, t, n) => InsertConserves(eq, s, k, v, t, n, ks, vs);
    case RemoveOp(k) => RemoveConserves(eq, s, k, ks, vs);
    case LookupOp(_) =>
  }

  /** The pointers passed to the inserts of a run are all different. */
  ghost predicate DistinctPointers<K, V>(ops: seq<Op<K, V>>) {
    forall i, j :: 0 <= i < j < |ops| && ops[i].InsertOp? && ops[j].InsertOp? ==>
      ops[i].key != ops[j].key && ops[i].value != ops[j].value
  }

  lemma SnocDistinct<P>(ps: seq<P>, p: P)
    requires NoRepeats(ps) && p !in ps
    ensures NoRepeats(ps + [p])
  {}

  lemma {:induction false} TakenFrom<K, V>(ops: seq<Op<K, V>>, outs: seq<Outcome<V>>)
    requires |ops| == |outs| && DistinctPointers(ops)
    ensures forall k :: k in TakenKeys(ops, outs) ==> exists i :: 0 <= i < |ops| && ops[i].InsertOp? && ops[i].key == k
    ensures forall v :: v in TakenValues(ops, outs) ==>
      exists i :: 0 <= i < |ops| && ops[i].InsertOp? && ops[i].value == v
    ensures NoRepeats(TakenKeys(ops, outs)) && NoRepeats(TakenValues(ops, outs))
    decreases |ops|
  {
    if ops == [] {
    } else {
      var n := |ops| - 1;
      TakenFrom(ops[..n], outs[..n]);
      TakenNext(ops, outs[..n]);
      var ks, vs := TakenKeys(ops[..n], outs[..n]), TakenValues(ops[..n], outs[..n]);
      assert ks + [] == ks && vs + [] == vs;
      assert forall i :: 0 <= i < n ==> ops[..n][i] == ops[i];
    }
  }

  /** The pointers of the last call are new to a run. */
  lemma TakenNext<K, V>(ops: seq<Op<K, V>>, outs: seq<Outcome<V>>)
    requires ops != [] && |outs| == |ops| - 1 && DistinctPointers(ops)
    requires var p := ops[..|ops| - 1];
      && (forall k :: k in TakenKeys(p, outs) ==> exists i :: 0 <= i < |p| && p[i].InsertOp? && p[i].key == k)
      && (forall v :: v in TakenValues(p, outs) ==> exists i :: 0 <= i < |p| && p[i].InsertOp? && p[i].value == v)
      && NoRepeats(TakenKeys(p, outs)) && NoRepeats(TakenValues(p, outs))
    ensures var n := |ops| - 1;
      ops[n].InsertOp? ==>
        NoRepeats(TakenKeys(ops[..n], outs) + [ops[n].key]) && NoRepeats(TakenValues(ops[..n], outs) + [ops[n].value])
  {
    var n := |ops| - 1;
    var ks, vs := TakenKeys(ops[..n], outs), TakenValues(ops[..n], outs);
    if ops[n].InsertOp? {
      forall k | k in ks ensures k != ops[n].key {
        var i :| 0 <= i < n && ops[..n][i].InsertOp? && ops[..n][i].key == k;
      }
      forall v | v in vs ensures v != ops[n].value {
        var i :| 0 <= i < n && ops[..n][i].InsertOp? && ops[..n][i].value == v;
      }
      SnocDistinct(ks, ops[n].key);
      SnocDistinct(vs, ops[n].value);
    }
  }

  /** In every run with both free functions registered and all pointers different, every
      pointer taken is in the table or freed, and none is freed twice. */
  lemma {:induction false} OwnershipConserved<K(!new), V>(eq: (K, K) -> bool, ops: seq<Op<K, V>>)
    requires Equivalence(eq) && DistinctPointers(ops) && Inv<K, V>(eq, Fresh(true, true))
    ensures var (s, outs) := RunOps(eq, Fresh(true, true), ops);
      Owned(s, TakenKeys(ops, outs), TakenValues(ops, outs))
    decreases |ops|
  {
    hide Equivalence, Inv, OpStep, Owned, NoRepeats;
    var s0: State<K, V> := Fresh(true, true);
    if ops == [] {
      FreshOwned<K, V>();
    } else {
      var n := |ops| - 1;
      assert DistinctPointers(ops[..n]);
      OwnershipConserved(eq, ops[..n]);
      var (s1, outs) := RunOps(eq, s0, ops[..n]);
      TakenFrom(ops[..n], outs);
      TakenNext(ops, outs);
      StepConserves(eq, s1, ops[n], TakenKeys(ops[..n], outs), TakenValues(ops[..n], outs));
      assert RunOps(eq, s0, ops).1[..n] == outs;
    }
  }

  lemma FreshOwned<K, V>()
    ensures Owned<K, V>(Fresh(true, true), [], [])
  {
    var s: State<K, V> := Fresh(true, true);
    assert s.m.Values == {};
  }

  /** Once the table hands over what it still holds, everything taken has been freed once. */
  lemma AllFreed<P>(taken: seq<P>, held: set<P>, freed: seq<P>, last: seq<P>)
    requires Conserved(taken, held, freed) && Elems(last) == held && NoRepeats(last)
    ensures Conserved(taken, {}, freed + last)
  {
    ElemsConcat(freed, last);
    NoRepeatsConcat(freed, last);
  }

  lemma ValuesListed<K, V>(m: map<K, V>, ks: seq<K>, vs: seq<V>)
    requires |ks| == |vs| && Elems(ks) == m.Keys && NoRepeats(ks) && Injective(m)
    requires forall i :: 0 <= i < |ks| ==> ks[i] in m && m[ks[i]] == vs[i]
    ensures Elems(vs) == m.Values && NoRepeats(vs)
  {
    forall v | v in m.Values ensures v in Elems(vs) {
      var k :| k in m && m[k] == v;
      assert k in Elems(ks);
      var i :| 0 <= i < |ks| && ks[i] == k;
      assert vs[i] == v;
    }
  }

  /** A table with both free functions registered. */
  method NewOwner<K(!new, ==), V>(hash: K -> nat, equal: (K, K) -> bool) returns (t: HashTable<K, V>)
    requires Coherent(hash, equal)
    ensures fresh(t.Repr()) && t.equal == equal && t.Valid() && t.State() == Fresh(true, true)
    ensures Equivalence(equal) && Inv(equal, t.State())
  {
    hide Inv;
    t := new HashTable(hash, equal);
    t.RegisterFreeFunctions(true, true);
    CoherentEquivalence(hash, equal);
    FreshInv<K, V>(equal, true, true);
  }

  /** The whole life of a table that owns its pointers: it answers every call as the map does, and
      when it is gone, every key and value it took has been freed exactly once. */
  method Lifetime<K(!new, ==), V(==)>(hash: K -> nat, equal: (K, K) -> bool, ops: seq<Op<K, V>>)
    returns (t: HashTable<K, V>, outs: seq<Outcome<V>>)
    requires Coherent(hash, equal) && DistinctPointers(ops)
    ensures Equivalence(equal) && Inv<K, V>(equal, Fresh(true, true))
    ensures |outs| == |ops| && outs == RunOps(equal, Fresh(true, true), ops).1
    ensures Conserved(TakenKeys(ops, outs), {}, t.freedKeys) && Conserved(TakenValues(ops, outs), {}, t.freedValues)
  {
    hide Inv, Owned, Conserved, DistinctPointers, RunOps, TakenKeys, TakenValues;
    hide Coherent, Equivalence, t.Valid, t.State, Fresh;
    t := NewOwner(hash, equal);
    outs := RunTable(t, ops);
    OwnershipConserved(equal, ops);
    Teardown(t, ops, outs);
    t.Free();
  }

  lemma CoherentEquivalence<K(!new)>(hash: K -> nat, equal: (K, K) -> bool)
    requires Coherent(hash, equal)
    ensures Equivalence(equal)
  {}

  /** What the table still owns, handed over. */
  lemma Teardown<K(!new), V>(t: HashTable<K, V>, ops: seq<Op<K, V>>, outs: seq<Outcome<V>>)
    requires t.Valid() && |ops| == |outs| && Owned(t.State(), TakenKeys(ops, outs), TakenValues(ops, outs))
    ensures t.freesKeys && t.freesValues
    ensures Conserved(TakenKeys(ops, outs), {}, t.freedKeys + t.Keys(Flat(t.chains)))
    ensures Conserved(TakenValues(ops, outs), {}, t.freedValues + t.ValuesOf(Flat(t.chains)))
  {
    hide Conserved, t.Buckets, t.Indexed, t.Map;
    var ks, vs, m := t.Keys(Flat(t.chains)), t.ValuesOf(Flat(t.chains)), t.Map();
    t.FreedIsMap();
    forall i | 0 <= i < |ks| ensures ks[i] in m { assert ks[i] in Elems(ks); }
    ValuesListed(m, ks, vs);
    AllFreed(TakenKeys(ops, outs), m.Keys, t.freedKeys, ks);
    AllFreed(TakenValues(ops, outs), m.Values, t.freedValues, vs);
  }
}
