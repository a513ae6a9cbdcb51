/** The chained hash table of src/hash-table.c: heap nodes, an array of chain heads, and the
    ghost chains that say which nodes hang where. */
module HashTables {
  import opened Options
  import opened Sequences
  import opened TableSpec

  class Entry<K, V> {
    var key: K
    var value: V
    var next: Entry?<K, V>

    constructor (key: K, value: V)
      ensures this.key == key && this.value == value && next == null
    {
      this.key, this.value, next := key, value, null;
    }
  }

  /** The `j`-th node of a chain; null after the last one. */
  ghost function Nth<K, V>(c: seq<Entry<K, V>>, j: nat): Entry?<K, V> {
    if j < |c| then c[j] else null
  }

  /** All elements of some sequences. */
  ghost function Union<T>(cs: seq<seq<T>>): set<T> {
    if cs == [] then {} else Union(cs[..|cs| - 1]) + Elems(cs[|cs| - 1])
  }

  lemma {:induction false} UnionIn<T>(cs: seq<seq<T>>, x: T)
    ensures x in Union(cs) <==> exists i :: 0 <= i < |cs| && x in cs[i]
  {
    if cs == [] {
    } else {
      var n := |cs| - 1;
      UnionIn(cs[..n], x);
      if x in Union(cs[..n]) {
        var i :| 0 <= i < n && x in cs[..n][i];
        assert x in cs[i];
      }
      if i :| 0 <= i < |cs| && x in cs[i] { assert i < n ==> x in cs[..n][i]; }
    }
  }

  lemma UnionOfNone<T>(cs: seq<seq<T>>)
    ensures Union(cs[..0]) == {}
  {}

  /** No element occurs twice, in one sequence or in two. */
  ghost predicate Partition<T>(cs: seq<seq<T>>) {
    && (forall i :: 0 <= i < |cs| ==> NoRepeats(cs[i]))
    && (forall i, k :: 0 <= i < k < |cs| ==> Elems(cs[i]) !! Elems(cs[k]))
  }

  lemma PartitionStep<T>(cs: seq<seq<T>>, i: nat)
    requires Partition(cs) && i < |cs|
    ensures Union(cs[..i + 1]) == Union(cs[..i]) + Elems(cs[i]) && Union(cs[..i]) !! Elems(cs[i])
    ensures |Union(cs[..i + 1])| == |Union(cs[..i])| + |cs[i]|
  {
    assert cs[..i + 1][..i] == cs[..i];
    forall x | x in cs[i] ensures x !in Union(cs[..i]) {
      UnionIn(cs[..i], x);
      assert x in Elems(cs[i]);
    }
    ElemsCount(cs[i]);
  }

  /** The chains one after the other. */
  ghost function Flat<T>(cs: seq<seq<T>>): seq<T> {
    if cs == [] then [] else cs[0] + Flat(cs[1..])
  }

  lemma {:induction false} FlatSnoc<T>(cs: seq<seq<T>>, i: nat)
    requires i < |cs|
    ensures Flat(cs[..i + 1]) == Flat(cs[..i]) + cs[i]
  {
    if i == 0 {
      assert cs[..1][1..] == [];
    } else {
      FlatSnoc(cs[1..], i - 1);
      assert cs[..i + 1][1..] == cs[1..][..i] && cs[..i][1..] == cs[1..][..i - 1];
    }
  }

  lemma FlatOfNone<T>(cs: seq<seq<T>>)
    ensures Flat(cs[..0]) == []
  {}

  /** Where the `i`-th sequence lies in the whole. */
  lemma {:induction false} FlatAt<T>(cs: seq<seq<T>>, i: nat)
    requires i < |cs|
    ensures var n := |Flat(cs[..i])|;
      && |Flat(cs[..i + 1])| == n + |cs[i]| <= |Flat(cs)|
      && Flat(cs)[n..n + |cs[i]|] == cs[i]
    decreases |cs|
  {
    FlatSnoc(cs, i);
    if i == 0 {
      assert Flat(cs) == cs[0] + Flat(cs[1..]);
    } else {
      FlatAt(cs[1..], i - 1);
      assert cs[..i][1..] == cs[1..][..i - 1] && cs[..i + 1][1..] == cs[1..][..i];
      var n := |Flat(cs[..i])|;
      assert Flat(cs)[n..n + |cs[i]|] == Flat(cs[1..])[n - |cs[0]|..n - |cs[0]| + |cs[i]|];
    }
  }

  lemma {:induction false} FlatPartition<T>(cs: seq<seq<T>>)
    requires Partition(cs)
    ensures Elems(Flat(cs)) == Union(cs) && NoRepeats(Flat(cs))
    decreases |cs|
  {
    if cs == [] {
    } else {
      hide NoRepeats, Elems, Union, Flat;
      var n := |cs| - 1;
      FlatPartition(cs[..n]);
      FlatSnoc(cs, n);
      PartitionStep(cs, n);
      assert cs[..n + 1] == cs;
      ElemsConcat(Flat(cs[..n]), cs[n]);
      NoRepeatsConcat(Flat(cs[..n]), cs[n]);
    }
  }

  class HashTable<K(==, !new), V> {
    const hash: K -> nat
    const equal: (K, K) -> bool
    var table: array<Entry?<K, V>>
    var tableSize: nat
    var entries: nat
    var primeIndex: nat
    var freesKeys: bool
    var freesValues: bool

    /** The nodes of each chain, in order. */
    ghost var chains: seq<seq<Entry<K, V>>>
    ghost var nodes: set<Entry<K, V>>
    /** The node of each stored key. */
    ghost var at: map<K, Entry<K, V>>
    ghost var relinks: nat
    ghost var inserts: nat
    ghost var freedKeys: seq<K>
    ghost var freedValues: seq<V>

    ghost function Repr(): set<object>
      reads this
    {
      {this, table} + nodes
    }

    function Slot(key: K, size: nat): (i: nat)
      requires size > 0
      ensures i < size
    {
      hash(key) % size
    }

    /** Every node of `c` is in `ns` and hashes to slot `i` of `n`, and none occurs twice. */
    ghost predicate Placed(c: seq<Entry<K, V>>, i: nat, n: nat, ns: set<Entry<K, V>>)
      requires n > 0
      reads ns`key
    {
      && (forall j :: 0 <= j < |c| ==> c[j] in ns && Slot(c[j].key, n) == i)
      && NoRepeats(c)
    }

    /** `heads` are the heads of the chains `cs` of exactly the nodes `ns`, each node in the
        chain of its hash and nowhere twice. */
    ghost predicate Buckets(heads: seq<Entry?<K, V>>, cs: seq<seq<Entry<K, V>>>, ns: set<Entry<K, V>>)
      reads ns`key, ns`next
    {
      && |cs| == |heads| > 0
      && (forall i :: 0 <= i < |cs| ==> Placed(cs[i], i, |cs|, ns))
      && (forall i :: 0 <= i < |cs| ==> LinkedIn(heads[i], cs[i], ns))
      && (forall e :: e in ns ==> e in cs[Slot(e.key, |cs|)])
    }

    /** Linked, with nodes from `ns`. */
    ghost predicate LinkedIn(head: Entry?<K, V>, c: seq<Entry<K, V>>, ns: set<Entry<K, V>>)
      reads ns`next
    {
      && (forall j :: 0 <= j < |c| ==> c[j] in ns)
      && head == Nth(c, 0) && forall j :: 0 <= j < |c| ==> c[j].next == Nth(c, j + 1)
    }

    /** `m` finds the node of every key that is stored in `ns`, and no two keys are equal. */
    ghost predicate IndexOf(m: map<K, Entry<K, V>>, ns: set<Entry<K, V>>)
      reads ns`key
    {
      && (forall k :: k in m ==> m[k] in ns && m[k].key == k)
      && (forall e :: e in ns ==> e.key in m && m[e.key] == e)
      && UniqueKeys(equal, m)
      && |m| == |ns|
    }

    ghost predicate Indexed()
      reads this`at, this`nodes, this`entries, nodes`key
    {
      IndexOf(at, nodes) && entries == |at|
    }

    /** The keys with the values of their nodes. */
    ghost function Values(m: map<K, Entry<K, V>>, ns: set<Entry<K, V>>): map<K, V>
      requires forall k :: k in m ==> m[k] in ns
      reads ns`value
    {
      map k | k in m :: m[k].value
    }

    ghost predicate Valid()
      reads this, table, nodes
    {
      && Coherent(hash, equal)
      && 0 < tableSize == table.Length == |chains|
      && Buckets(table[..], chains, nodes)
      && Indexed()
    }

    ghost function Map(): map<K, V>
      requires Indexed()
      reads this`at, this`nodes, this`entries, nodes`key, nodes`value
    {
      Values(at, nodes)
    }

    /** Every node of every chain is a stored node and lies at its hash modulo the table size. */
    lemma AtItsHash(i: nat, j: nat)
      requires Valid() && i < |chains| && j < |chains[i]|
      ensures |chains| == tableSize > 0 && chains[i][j] in nodes
      ensures hash(chains[i][j].key) % tableSize == i
    {
      ChainIn(table[..], chains, nodes, i);
    }

    lemma Counts()
      requires Indexed()
      ensures |Map()| == entries == |nodes|
    {
      assert Map().Keys == at.Keys;
    }

    ghost function State(): State<K, V>
      requires Indexed()
      reads this, nodes
    {
      TableSpec.State(Map(), tableSize, primeIndex, relinks, inserts, freesKeys, freesValues, freedKeys, freedValues)
    }

    lemma PlacedMore(
        c: seq<Entry<K, V>>, i: nat, n: nat, head: Entry?<K, V>, ns: set<Entry<K, V>>, ms: set<Entry<K, V>>)
      requires n > 0 && ns <= ms && Placed(c, i, n, ns) && LinkedIn(head, c, ns)
      ensures Placed(c, i, n, ms) && LinkedIn(head, c, ms)
    {}

    /** `e` put in front of the chain of its slot. */
    static ghost function PutInFront(cs: seq<seq<Entry<K, V>>>, e: Entry<K, V>, slots: map<Entry<K, V>, nat>)
      : (r: seq<seq<Entry<K, V>>>)
      ensures |r| == |cs|
    {
      if e in slots && slots[e] < |cs| then cs[slots[e] := [e] + cs[slots[e]]] else cs
    }

    /** All nodes of `c`, one after the other. */
    static ghost function PutAllInFront(cs: seq<seq<Entry<K, V>>>, c: seq<Entry<K, V>>, slots: map<Entry<K, V>, nat>)
      : (r: seq<seq<Entry<K, V>>>)
      ensures |r| == |cs|
    {
      if c == [] then cs else PutInFront(PutAllInFront(cs, c[..|c| - 1], slots), c[|c| - 1], slots)
    }

    static lemma PutNone(cs: seq<seq<Entry<K, V>>>, slots: map<Entry<K, V>, nat>)
      ensures PutAllInFront(cs, [], slots) == cs
    {}

    static lemma PutOneMore(cs: seq<seq<Entry<K, V>>>, c: seq<Entry<K, V>>, j: nat, slots: map<Entry<K, V>, nat>)
      requires j < |c|
      ensures PutAllInFront(cs, c[..j + 1], slots) == PutInFront(PutAllInFront(cs, c[..j], slots), c[j], slots)
    {
      assert c[..j + 1][..j] == c[..j];
    }

    static lemma {:induction false} PutMore(
        cs: seq<seq<Entry<K, V>>>, a: seq<Entry<K, V>>, b: seq<Entry<K, V>>, slots: map<Entry<K, V>, nat>)
      ensures PutAllInFront(cs, a + b, slots) == PutAllInFront(PutAllInFront(cs, a, slots), b, slots)
      decreases |b|
    {
      hide PutInFront;
      if b == [] {
        assert a + b == a;
      } else {
        var n := |b| - 1;
        assert (a + b)[..|a + b| - 1] == a + b[..n];
        PutMore(cs, a, b[..n], slots);
      }
    }

    /** The hash of each stored node modulo the table size. */
    ghost function Slots(): map<Entry<K, V>, nat>
      requires tableSize > 0
      reads this`nodes, this`tableSize, nodes`key
    {
      map e | e in nodes :: hash(e.key) % tableSize
    }

    /** One more node at the head of a chain. */
    lemma BucketsWithHead(
        heads: seq<Entry?<K, V>>, cs: seq<seq<Entry<K, V>>>, ns: set<Entry<K, V>>, e: Entry<K, V>, index: nat)
      requires Buckets(heads, cs, ns) && e !in ns && index == Slot(e.key, |cs|) && e.next == heads[index]
      ensures Buckets(heads[index := e], cs[index := [e] + cs[index]], ns + {e})
    {
      hide Placed, LinkedIn, Slot;
      var hs, ds, ms := heads[index := e], cs[index := [e] + cs[index]], ns + {e};
      forall i | 0 <= i < |ds| ensures Placed(ds[i], i, |ds|, ms) && LinkedIn(hs[i], ds[i], ms) {
        PlacedMore(cs[i], i, |cs|, heads[i], ns, ms);
        if i == index { HeadPlaced(e, cs[i], i, |cs|, ns); }
      }
      forall x | x in ms ensures x in ds[Slot(x.key, |ds|)] {
        if x != e { assert x in cs[Slot(x.key, |cs|)]; } else { assert ds[index][0] == e; }
      }
    }

    lemma HeadPlaced(e: Entry<K, V>, c: seq<Entry<K, V>>, i: nat, n: nat, ns: set<Entry<K, V>>)
      requires n > 0 && Placed(c, i, n, ns) && LinkedIn(e.next, c, ns) && e !in ns && Slot(e.key, n) == i
      ensures Placed([e] + c, i, n, ns + {e}) && LinkedIn(e, [e] + c, ns + {e})
    {}

    /** `rover->next = table[index]; table[index] = rover`. */
    method Link(e: Entry<K, V>, index: nat, ghost ns: set<Entry<K, V>>)
      requires Buckets(table[..], chains, ns) && e !in ns && index == Slot(e.key, table.Length)
      modifies table, e`next, this`chains
      ensures Buckets(table[..], chains, ns + {e})
      ensures chains == old(chains)[index := [e] + old(chains)[index]]
    {
      hide Buckets, Slot;
      BucketsLength(table[..], chains, ns);
      e.next := table[index];
      BucketsWithHead(table[..], chains, ns, e, index);
      ghost var heads := table[..];
      table[index] := e;
      assert table[..] == heads[index := e];
      chains := chains[index := [e] + chains[index]];
    }

    /** `hash_table_allocate_table`: `tableOk` says whether calloc succeeds; null if not. The
        caller stores the array. */
    method AllocateTable(tableOk: bool) returns (t: array?<Entry?<K, V>>)
      requires SizeFor(primeIndex, entries) > 0
      modifies this`tableSize
      ensures tableSize == SizeFor(primeIndex, entries)
      ensures tableSize == if primeIndex < 24 then PRIMES[primeIndex] else 10 * entries
      ensures t != null <==> tableOk
      ensures t != null ==> fresh(t) && t.Length == tableSize && forall i :: 0 <= i < tableSize ==> t[i] == null
    {
      tableSize := if primeIndex < |PRIMES| then PRIMES[primeIndex] else entries * 10;
      t := null;
      if tableOk {
        t := new Entry?<K, V>[tableSize](_ => null);
      }
    }

    /** One step of the rehash. */
    method RelinkOne(rover: Entry<K, V>, ghost moved: set<Entry<K, V>>, ghost slots: map<Entry<K, V>, nat>)
      returns (next: Entry?<K, V>)
      requires Buckets(table[..], chains, moved) && tableSize == table.Length > 0 && rover !in moved
      requires rover in slots && slots[rover] == Slot(rover.key, tableSize)
      modifies table, rover`next, this`chains, this`relinks
      ensures Buckets(table[..], chains, moved + {rover})
      ensures next == old(rover.next) && relinks == old(relinks) + 1
      ensures chains == PutInFront(old(chains), rover, slots)
    {
      BucketsLength(table[..], chains, moved);
      next := rover.next;
      var index := Slot(rover.key, tableSize);
      Link(rover, index, moved);
      relinks := relinks + 1;
    }

    /** The inner loop of the rehash: moves every node of an old chain into the new table. */
    method RelinkChain(
        head: Entry?<K, V>, ghost c: seq<Entry<K, V>>, ghost ns: set<Entry<K, V>>, ghost slots: map<Entry<K, V>, nat>)
      requires Buckets(table[..], chains, ns) && tableSize == table.Length > 0
      requires LinkedIn(head, c, Elems(c)) && Elems(c) !! ns
      requires NoRepeats(c)
      requires forall e :: e in c ==> e in slots && slots[e] == Slot(e.key, tableSize)
      modifies table, c`next, this`chains, this`relinks
      ensures Buckets(table[..], chains, ns + Elems(c))
      ensures relinks == old(relinks) + |c|
      ensures chains == PutAllInFront(old(chains), c, slots)
    {
      hide Buckets, Placed, Slot, PutInFront, PutAllInFront;
      PutNone(chains, slots);
      var rover := head;
      ghost var j, moved := 0, ns;
      while rover != null
        invariant j <= |c| && rover == Nth(c, j)
        invariant forall k :: j <= k < |c| ==> c[k].next == Nth(c, k + 1) && c[k] !in moved
        invariant moved == ns + Elems(c[..j])
        invariant Buckets(table[..], chains, moved)
        invariant relinks == old(relinks) + j
        invariant chains == PutAllInFront(old(chains), c[..j], slots)
        decreases |c| - j
      {
        var next := RelinkOne(rover, moved, slots);
        ElemsSnoc(c, j);
        PutOneMore(old(chains), c, j, slots);
        rover, j, moved := next, j + 1, moved + {rover};
      }
      assert c[..j] == c;
    }

    lemma BucketsLength(heads: seq<Entry?<K, V>>, cs: seq<seq<Entry<K, V>>>, ns: set<Entry<K, V>>)
      requires Buckets(heads, cs, ns)
      ensures |cs| == |heads| > 0
    {}

    lemma EmptyBuckets(heads: seq<Entry?<K, V>>, cs: seq<seq<Entry<K, V>>>)
      requires |cs| == |heads| > 0 && forall i :: 0 <= i < |cs| ==> heads[i] == null && cs[i] == []
      ensures Buckets(heads, cs, {})
    {}

    lemma ChainIn(heads: seq<Entry?<K, V>>, cs: seq<seq<Entry<K, V>>>, ns: set<Entry<K, V>>, i: nat)
      requires Buckets(heads, cs, ns) && i < |cs|
      ensures Placed(cs[i], i, |cs|, ns) && LinkedIn(heads[i], cs[i], ns) && LinkedIn(heads[i], cs[i], Elems(cs[i]))
    {}

    lemma BucketsPartition(heads: seq<Entry?<K, V>>, cs: seq<seq<Entry<K, V>>>, ns: set<Entry<K, V>>)
      requires Buckets(heads, cs, ns)
      ensures Partition(cs) && Union(cs) == ns
    {
      forall i | 0 <= i < |cs| ensures Placed(cs[i], i, |cs|, ns) {
        ChainIn(heads, cs, ns, i);
      }
      forall i, k | 0 <= i < k < |cs| ensures Elems(cs[i]) !! Elems(cs[k]) {
        assert Placed(cs[i], i, |cs|, ns) && Placed(cs[k], k, |cs|, ns);
      }
      BucketsUnion(heads, cs, ns);
    }

    lemma BucketsUnion(heads: seq<Entry?<K, V>>, cs: seq<seq<Entry<K, V>>>, ns: set<Entry<K, V>>)
      requires Buckets(heads, cs, ns)
      ensures Union(cs) == ns
    {
      forall e | e in ns ensures e in Union(cs) {
        UnionIn(cs, e);
        assert e in cs[Slot(e.key, |cs|)];
      }
      forall e | e in Union(cs) ensures e in ns {
        UnionIn(cs, e);
        var i :| 0 <= i < |cs| && e in cs[i];
        ChainIn(heads, cs, ns, i);
      }
    }

    /** `hash_table_enlarge`. The key, the value and the set of nodes are out of its reach: it
        may write only `next` fields of nodes. */
    method Enlarge(tableOk: bool) returns (ok: bool)
      requires Valid() && SizeFor(primeIndex + 1, entries) > 0
      modifies this`table, this`tableSize, this`primeIndex, this`chains, this`relinks, nodes`next
      ensures Valid() && ok == tableOk
      ensures State() == if ok then Enlarged(old(State())) else old(State())
      ensures if ok then fresh(table) else table == old(table) && chains == old(chains)
      ensures ok ==> chains == PutAllInFront(seq(tableSize, _ => []), Flat(old(chains)), Slots())
      ensures forall i, j :: 0 <= i < |chains| && 0 <= j < |chains[i]| ==> hash(chains[i][j].key) % tableSize == i
    {
      hide Buckets, Coherent, Indexed, Map, SizeFor, Enlarged, PutAllInFront, Flat;
      ok := Grow(tableOk);
      NodesAtTheirHash();
    }

    method Grow(tableOk: bool) returns (ok: bool)
      requires Valid() && SizeFor(primeIndex + 1, entries) > 0
      modifies this`table, this`tableSize, this`primeIndex, this`chains, this`relinks, nodes`next
      ensures Valid() && ok == tableOk
      ensures State() == if ok then Enlarged(old(State())) else old(State())
      ensures if ok then fresh(table) else table == old(table) && chains == old(chains)
      ensures ok ==> chains == PutAllInFront(seq(tableSize, _ => []), Flat(old(chains)), Slots())
    {
      hide Buckets, Coherent, Indexed, Map, SizeFor, PutAllInFront, Flat, Slots, PRIMES;
      Counts();
      var oldTable, oldSize, oldPrime := table, tableSize, primeIndex;
      primeIndex := primeIndex + 1;
      var newTable := AllocateTable(tableOk);
      ok := newTable != null;
      if !ok {
        table, tableSize, primeIndex := oldTable, oldSize, oldPrime;
        return;
      }
      table := newTable;
      Rehash(oldTable);
    }

    lemma NodesAtTheirHash()
      requires Valid()
      ensures forall i, j :: 0 <= i < |chains| && 0 <= j < |chains[i]| ==> hash(chains[i][j].key) % tableSize == i
    {
      forall i, j | 0 <= i < |chains| && 0 <= j < |chains[i]| ensures hash(chains[i][j].key) % tableSize == i {
        AtItsHash(i, j);
      }
    }

    /** The ghost chains of the new, empty table, and then the rehash. */
    method Rehash(oldTable: array<Entry?<K, V>>)
      requires Buckets(oldTable[..], chains, nodes) && oldTable != table
      requires tableSize == table.Length > 0 && forall i :: 0 <= i < tableSize ==> table[i] == null
      modifies table, this`chains, this`relinks, nodes`next
      ensures Buckets(table[..], chains, nodes) && |chains| == tableSize
      ensures relinks == old(relinks) + |nodes|
      ensures chains == PutAllInFront(seq(tableSize, _ => []), Flat(old(chains)), Slots())
    {
      ghost var cs := chains;
      hide Buckets, PutAllInFront, Flat;
      BucketsLength(oldTable[..], cs, nodes);
      chains := seq(tableSize, _ => []);
      RelinkAll(oldTable, cs, Slots());
    }

    /** The outer loop of the rehash. */
    method RelinkAll(
        oldTable: array<Entry?<K, V>>, ghost cs: seq<seq<Entry<K, V>>>, ghost slots: map<Entry<K, V>, nat>)
      requires Buckets(oldTable[..], cs, nodes) && oldTable != table && |cs| == oldTable.Length
      requires tableSize == table.Length > 0 && |chains| == tableSize
      requires forall i :: 0 <= i < tableSize ==> table[i] == null && chains[i] == []
      requires SlotsAre(nodes, tableSize, slots)
      modifies table, this`chains, this`relinks, nodes`next
      ensures Buckets(table[..], chains, nodes) && |chains| == tableSize
      ensures relinks == old(relinks) + |nodes|
      ensures chains == PutAllInFront(old(chains), Flat(cs), slots)
    {
      hide Buckets, Union, Flat, PutAllInFront, LinkedIn, NoRepeats;
      ghost var heads := oldTable[..];
      BucketsPartition(heads, cs, nodes);
      forall i | 0 <= i < |cs| ensures LinkedIn(heads[i], cs[i], Elems(cs[i])) && Elems(cs[i]) <= nodes {
        ChainIn(heads, cs, nodes, i);
      }
      EmptyBuckets(table[..], chains);
      UnionOfNone(cs);
      FlatOfNone(cs);
      PutNone(chains, slots);
      for i := 0 to oldTable.Length
        invariant oldTable[..] == heads
        invariant Buckets(table[..], chains, Union(cs[..i]))
        invariant forall k :: i <= k < |cs| ==> LinkedIn(heads[k], cs[k], Elems(cs[k]))
        invariant relinks == old(relinks) + |Union(cs[..i])|
        invariant chains == PutAllInFront(old(chains), Flat(cs[..i]), slots)
      {
        PartitionStep(cs, i);
        FlatSnoc(cs, i);
        PutMore(old(chains), Flat(cs[..i]), cs[i], slots);
        RelinkChain(oldTable[i], cs[i], Union(cs[..i]), slots);
      }
      assert cs[..|cs|] == cs;
      BucketsLength(table[..], chains, nodes);
    }

    // ---------- What a walk along a chain finds ----------

    /** The chain in which a key would be. */
    ghost function ChainOf(key: K): seq<Entry<K, V>>
      requires Valid()
      reads this, table, nodes
    {
      chains[Slot(key, tableSize)]
    }

    lemma Found(e: Entry<K, V>, key: K)
      requires Valid() && e in nodes && equal(key, e.key)
      ensures Find(equal, Map(), key) == Some(e.key) && Map()[e.key] == e.value
    {
      assert e.key in Map();
      var a := Find(equal, Map(), key).value;
      assert equal(a, e.key);
    }

    lemma NotFound(key: K)
      requires Valid() && forall e :: e in ChainOf(key) ==> !equal(key, e.key)
      ensures Find(equal, Map(), key) == None
    {
      forall a | a in at ensures !equal(key, a) {
        assert at[a] in chains[Slot(a, tableSize)];
      }
    }

    lemma ChainLinked(key: K)
      requires Valid()
      ensures tableSize > 0 && LinkedIn(table[Slot(key, tableSize)], ChainOf(key), nodes)
    {}

    /** The walk of lookup, insert and remove along the chain of `key`, with the node before
        the one it finds. The C code swaps the arguments of the comparison in insert, which
        makes no difference to an equivalence. */
    method Walk(key: K) returns (prev: Entry?<K, V>, e: Entry?<K, V>, ghost j: nat)
      requires Valid()
      ensures j <= |ChainOf(key)| && e == Nth(ChainOf(key), j)
      ensures prev == (if j == 0 then null else ChainOf(key)[j - 1]) && (prev != null ==> prev in nodes)
      ensures e == null ==> Find(equal, Map(), key) == None
      ensures e != null ==>
        && e in nodes && equal(key, e.key)
        && Find(equal, Map(), key) == Some(e.key) && Map()[e.key] == e.value
    {
      hide Buckets, Indexed, Map;
      ChainLinked(key);
      var index := Slot(key, tableSize);
      ghost var c := ChainOf(key);
      prev, e, j := null, table[index], 0;
      while e != null
        invariant j <= |c| && e == Nth(c, j) && prev == if j == 0 then null else c[j - 1]
        invariant forall k :: 0 <= k < j ==> !equal(key, c[k].key)
        decreases |c| - j
      {
        if equal(key, e.key) {
          Found(e, key);
          return;
        }
        prev, e, j := e, e.next, j + 1;
      }
      NotFound(key);
    }

    /** `hash_table_lookup`. */
    method Lookup(key: K) returns (r: Option<V>)
      requires Valid()
      ensures r == TableSpec.Lookup(equal, Map(), key)
    {
      var _, e, _ := Walk(key);
      r := if e != null then Some(e.value) else None;
    }

    lemma SizePositive()
      requires tableSize > 0 && entries * 3 / tableSize > 0
      ensures SizeFor(primeIndex + 1, entries) > 0
    {}

    /** Buckets, with the slot of each node given, whatever its key. */
    ghost predicate Hung(
        heads: seq<Entry?<K, V>>, cs: seq<seq<Entry<K, V>>>, ns: set<Entry<K, V>>, slots: map<Entry<K, V>, nat>)
      reads ns`next
    {
      && |cs| == |heads| > 0 && slots.Keys == ns
      && (forall i :: 0 <= i < |cs| ==> NoRepeats(cs[i]) && LinkedIn(heads[i], cs[i], ns))
      && (forall i, j :: 0 <= i < |cs| && 0 <= j < |cs[i]| ==> cs[i][j] in ns && slots[cs[i][j]] == i)
      && (forall e :: e in ns ==> slots[e] < |cs| && e in cs[slots[e]])
    }

    ghost predicate SlotsAre(ns: set<Entry<K, V>>, n: nat, slots: map<Entry<K, V>, nat>)
      requires n > 0
      reads ns`key
    {
      slots.Keys == ns && forall e :: e in ns ==> slots[e] == Slot(e.key, n)
    }

    lemma BucketsAreHung(
        heads: seq<Entry?<K, V>>, cs: seq<seq<Entry<K, V>>>, ns: set<Entry<K, V>>, slots: map<Entry<K, V>, nat>)
      requires |cs| > 0 && SlotsAre(ns, |cs|, slots)
      ensures Buckets(heads, cs, ns) <==> Hung(heads, cs, ns, slots)
    {
      hide LinkedIn, NoRepeats, Slot;
      if Hung(heads, cs, ns, slots) {
        forall i | 0 <= i < |cs| ensures Placed(cs[i], i, |cs|, ns) && LinkedIn(heads[i], cs[i], ns) {}
      }
    }

    /** A new key for a node, in the same slot. */
    method SetKey(e: Entry<K, V>, key: K, value: V)
      requires Buckets(table[..], chains, nodes) && |chains| > 0 && e in nodes
      requires Slot(e.key, |chains|) == Slot(key, |chains|)
      modifies e`key, e`value
      ensures Buckets(table[..], chains, nodes) && e.key == key && e.value == value
    {
      hide Buckets, Hung, Slot;
      ghost var slots := map x | x in nodes :: Slot(x.key, |chains|);
      BucketsAreHung(table[..], chains, nodes, slots);
      e.key := key;
      e.value := value;
      BucketsAreHung(table[..], chains, nodes, slots);
    }

    lemma SameSlot(a: K, b: K)
      requires Valid() && equal(a, b)
      ensures Slot(a, |chains|) == Slot(b, |chains|)
    {}

    /** Overwrites the node of an equal key. */
    method Overwrite(e: Entry<K, V>, key: K, value: V)
      requires Valid() && e in nodes && equal(e.key, key)
      modifies this`at, this`freedKeys, this`freedValues, e`key, e`value
      ensures Valid()
      ensures var s := old(State());
        State() == TableSpec.FreeData(s, old(e.key), old(e.value)).(m := (s.m - {old(e.key)})[key := value])
    {
      hide Buckets, Coherent, Indexed, Map;
      FreeData(e.value, e.key);
      Rekey(e, key, value);
    }

    /** The new key and value of a node, and its new place in the index. */
    method Rekey(e: Entry<K, V>, key: K, value: V)
      requires Valid() && e in nodes && equal(e.key, key)
      modifies this`at, e`key, e`value
      ensures Buckets(table[..], chains, nodes) && Indexed()
      ensures Map() == (old(Map()) - {old(e.key)})[key := value]
    {
      hide Buckets, Coherent, Equivalence, Slot;
      SameSlot(e.key, key);
      EqualSym(key, e.key);
      UniqueReplace(equal, at, e.key, key, e);
      ghost var m := (at - {e.key})[key := e];
      at := m;
      SetKey(e, key, value);
    }

    /** The calls of the registered free functions. */
    method FreeData(value: V, key: K)
      modifies this`freedKeys, this`freedValues
      ensures freedKeys == Logged(freesKeys, old(freedKeys), [key])
      ensures freedValues == Logged(freesValues, old(freedValues), [value])
    {
      if freesValues { freedValues := freedValues + [value]; }
      if freesKeys { freedKeys := freedKeys + [key]; }
    }

    /** A new node at the head of its chain. */
    method AddNew(key: K, value: V)
      requires Valid() && forall a :: a in at ==> !equal(key, a)
      modifies table, this`chains, this`nodes, this`at, this`entries
      ensures Valid() && fresh(nodes - old(nodes)) && table == old(table)
      ensures State() == var s := old(State()); s.(m := s.m[key := value])
      ensures var i := hash(key) % tableSize;
        && |chains| == |old(chains)| == tableSize && chains[i] != [] && chains[i][0].key == key
        && chains == old(chains)[i := [chains[i][0]] + old(chains)[i]]
    {
      hide Buckets, Coherent, Indexed, Map;
      BucketsLength(table[..], chains, nodes);
      var e := LinkNew(key, value);
      AddToIndex(e);
    }

    method LinkNew(key: K, value: V) returns (e: Entry<K, V>)
      requires Buckets(table[..], chains, nodes) && tableSize == table.Length > 0
      modifies table, this`chains
      ensures fresh(e) && e.key == key && e.value == value
      ensures Buckets(table[..], chains, nodes + {e}) && |chains| == |old(chains)| == table.Length
      ensures var i := Slot(key, tableSize); chains == old(chains)[i := [e] + old(chains)[i]]
    {
      hide Buckets;
      BucketsLength(table[..], chains, nodes);
      e := new Entry(key, value);
      var index := Slot(key, tableSize);
      Link(e, index, nodes);
      BucketsLength(table[..], chains, nodes + {e});
    }

    method AddToIndex(e: Entry<K, V>)
      requires Coherent(hash, equal) && Indexed() && e !in nodes
      requires forall a :: a in at ==> !equal(e.key, a)
      modifies this`nodes, this`at, this`entries
      ensures Indexed() && nodes == old(nodes) + {e}
      ensures Map() == old(Map())[e.key := e.value]
    {
      hide Coherent, Equivalence, IndexOf, Values;
      IsEquivalence();
      IndexMore(at, nodes, e);
      nodes, at, entries := nodes + {e}, at[e.key := e], entries + 1;
    }

    lemma IndexMore(m: map<K, Entry<K, V>>, ns: set<Entry<K, V>>, e: Entry<K, V>)
      requires Equivalence(equal) && IndexOf(m, ns) && e !in ns && forall a :: a in m ==> !equal(e.key, a)
      ensures IndexOf(m[e.key := e], ns + {e}) && |m[e.key := e]| == |m| + 1
      ensures Values(m[e.key := e], ns + {e}) == Values(m, ns)[e.key := e.value]
    {
      UniqueAdd(equal, m, e.key, e);
    }

    lemma IsEquivalence()
      requires Coherent(hash, equal)
      ensures Equivalence(equal)
    {}

    lemma EqualSym(a: K, b: K)
      requires Coherent(hash, equal) && equal(b, a)
      ensures Equivalence(equal) && equal(a, b)
    {}

    /** `hash_table_insert` once the table is large enough: walk the chain, overwrite or add. */
    method PutIn(key: K, value: V, nodeOk: bool) returns (ok: bool)
      requires Valid()
      modifies this`chains, this`nodes, this`at, this`entries, this`freedKeys, this`freedValues
      modifies table, nodes`key, nodes`value
      ensures Valid() && fresh(nodes - old(nodes)) && table == old(table)
      ensures (State(), ok) == Put(equal, old(State()), key, value, nodeOk)
    {
      hide Buckets, Indexed, Map, Coherent;
      var _, e, _ := Walk(key);
      if e != null {
        EqualSym(e.key, key);
        Overwrite(e, key, value);
        return true;
      }
      ok := nodeOk;
      if nodeOk {
        NoEqual(key);
        AddNew(key, value);
      }
    }

    lemma NoEqual(key: K)
      requires Indexed() && Find(equal, Map(), key).None?
      ensures forall a :: a in at ==> !equal(key, a)
    {
      assert Map().Keys == at.Keys;
    }

    /** The first part of `hash_table_insert`: room for one more entry. */
    method MakeRoom(tableOk: bool) returns (ok: bool)
      requires Valid()
      modifies this`table, this`tableSize, this`primeIndex, this`chains, this`relinks, nodes`next
      ensures Valid() && (table == old(table) || fresh(table))
      ensures ok == (!TooFull(old(State())) || tableOk)
      ensures State() == if TooFull(old(State())) && tableOk then Enlarged(old(State())) else old(State())
    {
      hide Buckets, Indexed, Map, Coherent, SizeFor, Enlarged;
      Counts();
      ok := true;
      if entries * 3 / tableSize > 0 {
        SizePositive();
        ok := Enlarge(tableOk);
      }
    }

    /** `hash_table_insert`. */
    method Insert(key: K, value: V, tableOk: bool, nodeOk: bool) returns (ok: bool)
      requires Valid()
      modifies Repr()
      ensures Valid() && fresh(Repr() - old(Repr()))
      ensures (State(), ok) == TableSpec.Insert(equal, old(State()), key, value, tableOk, nodeOk)
    {
      hide Buckets, Indexed, Map, Coherent, Put, SizeFor, Enlarged;
      inserts := inserts + 1;
      ok := MakeRoom(tableOk);
      if ok {
        ok := PutIn(key, value, nodeOk);
      }
    }

    // ---------- Removal ----------

    function Without<T>(c: seq<T>, j: nat): seq<T>
      requires j < |c|
    {
      c[..j] + c[j + 1..]
    }

    lemma WithoutIs<T>(c: seq<T>, j: nat)
      requires j < |c|
      ensures Without(c, j) == c[..j] + c[j + 1..]
    {}

    /** One node less in a chain. */
    lemma BucketsWithout(heads: seq<Entry?<K, V>>, cs: seq<seq<Entry<K, V>>>, ns: set<Entry<K, V>>, index: nat, j: nat)
      requires |cs| == |heads| && index < |cs| && j < |cs[index]|
      requires forall i :: 0 <= i < |cs| ==> Placed(cs[i], i, |cs|, ns)
      requires forall i :: 0 <= i < |cs| && i != index ==> LinkedIn(heads[i], cs[i], Elems(cs[i]))
      requires LinkedIn(heads[index], Without(cs[index], j), Elems(Without(cs[index], j)))
      requires forall e :: e in ns ==> e in cs[Slot(e.key, |cs|)]
      ensures Buckets(heads, cs[index := Without(cs[index], j)], ns - {cs[index][j]})
    {
      var e, ms := cs[index][j], ns - {cs[index][j]};
      var ds := cs[index := Without(cs[index], j)];
      forall i | 0 <= i < |ds| ensures Placed(ds[i], i, |ds|, ms) && LinkedIn(heads[i], ds[i], ms) {
        if i == index {
          PlacedWithout(cs[i], i, |cs|, ns, j);
        } else {
          PlacedElsewhere(cs[i], i, |cs|, ns, e);
          assert Placed(cs[index], index, |cs|, ns);
        }
      }
      forall x | x in ms ensures x in ds[Slot(x.key, |ds|)] {
        assert x in cs[Slot(x.key, |cs|)];
        if Slot(x.key, |cs|) == index { InWithout(cs[index], j, x); }
      }
    }

    lemma InWithout<T>(c: seq<T>, j: nat, x: T)
      requires j < |c| && x in c && x != c[j]
      ensures x in Without(c, j)
    {
      var k :| 0 <= k < |c| && c[k] == x;
      assert Without(c, j)[if k < j then k else k - 1] == x;
    }

    lemma PlacedWithout(c: seq<Entry<K, V>>, i: nat, n: nat, ns: set<Entry<K, V>>, j: nat)
      requires n > 0 && j < |c| && Placed(c, i, n, ns)
      ensures Placed(Without(c, j), i, n, ns - {c[j]})
    {}

    lemma PlacedElsewhere(c: seq<Entry<K, V>>, i: nat, n: nat, ns: set<Entry<K, V>>, e: Entry<K, V>)
      requires n > 0 && Placed(c, i, n, ns) && Slot(e.key, n) != i
      ensures Placed(c, i, n, ns - {e})
    {}

    /** The link that C reaches through a pointer to a pointer: the table cell for the first
        node of a chain, the `next` field of the node before it for every other. */
    method Unlink(prev: Entry?<K, V>, e: Entry<K, V>, index: nat, ghost j: nat)
      requires Buckets(table[..], chains, nodes) && index < |chains| && j < |chains[index]| && e == chains[index][j]
      requires prev == if j == 0 then null else chains[index][j - 1]
      modifies table, (if prev == null then {} else {prev})`next, this`chains
      ensures Buckets(table[..], chains, nodes - {e}) && |chains| == |old(chains)|
      ensures chains == old(chains)[index := old(chains)[index][..j] + old(chains)[index][j + 1..]]
    {
      if prev == null {
        UnlinkFirst(e, index);
      } else {
        UnlinkAfter(prev, e, index, j);
      }
    }

    method UnlinkFirst(e: Entry<K, V>, index: nat)
      requires Buckets(table[..], chains, nodes) && index < |chains| && 0 < |chains[index]| && e == chains[index][0]
      modifies table, this`chains
      ensures Buckets(table[..], chains, nodes - {e}) && |chains| == |old(chains)|
      ensures chains == old(chains)[index := old(chains)[index][..0] + old(chains)[index][1..]]
    {
      ghost var heads := table[..];
      WithoutFirst(heads, chains, nodes, index);
      table[index] := e.next;
      assert table[..] == heads[index := e.next];
      chains := chains[index := Without(chains[index], 0)];
    }

    lemma WithoutFirst(heads: seq<Entry?<K, V>>, cs: seq<seq<Entry<K, V>>>, ns: set<Entry<K, V>>, index: nat)
      requires Buckets(heads, cs, ns) && index < |cs| && 0 < |cs[index]|
      ensures Buckets(heads[index := cs[index][0].next], cs[index := Without(cs[index], 0)], ns - {cs[index][0]})
    {
      forall i | 0 <= i < |cs| ensures Placed(cs[i], i, |cs|, ns) && LinkedIn(heads[i], cs[i], Elems(cs[i])) {
        ChainIn(heads, cs, ns, i);
      }
      var c := cs[index];
      assert LinkedIn(c[0].next, Without(c, 0), Elems(Without(c, 0)));
      BucketsWithout(heads[index := c[0].next], cs, ns, index, 0);
    }

    method UnlinkAfter(prev: Entry<K, V>, e: Entry<K, V>, index: nat, ghost j: nat)
      requires Buckets(table[..], chains, nodes) && index < |chains| && 0 < j < |chains[index]|
      requires e == chains[index][j] && prev == chains[index][j - 1]
      modifies prev`next, this`chains
      ensures Buckets(table[..], chains, nodes - {e}) && |chains| == |old(chains)|
      ensures chains == old(chains)[index := old(chains)[index][..j] + old(chains)[index][j + 1..]]
    {
      hide Buckets, Placed, Slot, LinkedIn, Without;
      ghost var cs, heads, c := chains, table[..], chains[index];
      BucketsChains(heads, cs, nodes);
      OtherChains(heads, cs, nodes, index, j - 1);
      SkipNext(prev, e, heads[index], c, j);
      BucketsWithout(heads, cs, nodes, index, j);
      WithoutIs(c, j);
      chains := cs[index := Without(c, j)];
    }

    /** `*rover = entry->next` inside a chain. */
    method SkipNext(
        prev: Entry<K, V>, e: Entry<K, V>, ghost head: Entry?<K, V>, ghost c: seq<Entry<K, V>>, ghost j: nat)
      requires 0 < j < |c| && e == c[j] && prev == c[j - 1] && LinkedIn(head, c, Elems(c))
      requires forall i, k :: 0 <= i < k < |c| ==> c[i] != c[k]
      modifies prev`next
      ensures LinkedIn(head, Without(c, j), Elems(Without(c, j)))
    {
      prev.next := e.next;
      ghost var d := Without(c, j);
      forall k | 0 <= k < |d| ensures d[k].next == Nth(d, k + 1) {
        assert d[k] == c[if k < j then k else k + 1];
      }
    }

    lemma BucketsChains(heads: seq<Entry?<K, V>>, cs: seq<seq<Entry<K, V>>>, ns: set<Entry<K, V>>)
      requires Buckets(heads, cs, ns)
      ensures |heads| == |cs| > 0
      ensures forall i :: 0 <= i < |cs| ==> Placed(cs[i], i, |cs|, ns)
      ensures forall i :: 0 <= i < |cs| ==> LinkedIn(heads[i], cs[i], Elems(cs[i]))
      ensures forall e :: e in ns ==> e in cs[Slot(e.key, |cs|)]
      ensures forall i, j :: 0 <= i < |cs| && 0 <= j < |cs[i]| ==> cs[i][j] in ns
      ensures forall i :: 0 <= i < |cs| ==> NoRepeats(cs[i])
    {
      forall i | 0 <= i < |cs| ensures Placed(cs[i], i, |cs|, ns) && LinkedIn(heads[i], cs[i], Elems(cs[i])) {
        ChainIn(heads, cs, ns, i);
      }
    }

    lemma OtherChains(heads: seq<Entry?<K, V>>, cs: seq<seq<Entry<K, V>>>, ns: set<Entry<K, V>>, index: nat, j: nat)
      requires Buckets(heads, cs, ns) && index < |cs| && j < |cs[index]|
      ensures forall i :: 0 <= i < |cs| && i != index ==> cs[index][j] !in cs[i]
    {
      BucketsPartition(heads, cs, ns);
      assert cs[index][j] in Elems(cs[index]);
      forall i | 0 <= i < |cs| && i != index ensures cs[index][j] !in cs[i] {
        assert Elems(cs[if i < index then i else index]) !! Elems(cs[if i < index then index else i]);
        assert cs[index][j] !in Elems(cs[i]);
      }
    }

    /** `hash_table_remove`. */
    method Remove(key: K) returns (ok: bool)
      requires Valid()
      modifies Repr()
      ensures Valid() && table == old(table) && nodes <= old(nodes)
      ensures (State(), ok) == TableSpec.Remove(equal, old(State()), key)
    {
      hide Buckets, Indexed, Map, Coherent;
      var prev, e, j := Walk(key);
      if e == null { return false; }
      RemoveNode(key, prev, e, j);
      FreeData(e.value, e.key);
      ok := true;
    }

    method RemoveNode(key: K, prev: Entry?<K, V>, e: Entry<K, V>, ghost j: nat)
      requires Valid() && e in nodes && (prev != null ==> prev in nodes)
      requires j < |ChainOf(key)| && e == ChainOf(key)[j] && prev == if j == 0 then null else ChainOf(key)[j - 1]
      modifies table, nodes`next, this`chains, this`nodes, this`at, this`entries
      ensures Valid() && table == old(table) && nodes == old(nodes) - {e}
      ensures Map() == old(Map()) - {e.key}
    {
      hide Buckets, Indexed, Map, Coherent;
      Unlink(prev, e, Slot(key, tableSize), j);
      DropFromIndex(e);
    }

    method DropFromIndex(e: Entry<K, V>)
      requires Indexed() && e in nodes
      modifies this`nodes, this`at, this`entries
      ensures Indexed() && nodes == old(nodes) - {e}
      ensures Map() == old(Map()) - {e.key}
    {
      hide IndexOf, Values;
      IndexLess(at, nodes, e);
      nodes, at, entries := nodes - {e}, at - {e.key}, entries - 1;
    }

    lemma IndexLess(m: map<K, Entry<K, V>>, ns: set<Entry<K, V>>, e: Entry<K, V>)
      requires IndexOf(m, ns) && e in ns
      ensures IndexOf(m - {e.key}, ns - {e}) && |m - {e.key}| == |m| - 1
      ensures forall k :: k in m ==> m[k] in ns
      ensures Values(m - {e.key}, ns - {e}) == Values(m, ns) - {e.key}
    {
      UniqueDrop(equal, m, e.key);
    }

    // ---------- Creation and destruction ----------

    /** `hash_table_new` when both allocations succeed. */
    constructor (hash: K -> nat, equal: (K, K) -> bool)
      requires Coherent(hash, equal)
      ensures this.hash == hash && this.equal == equal
      ensures Valid() && fresh(Repr()) && State() == TableSpec.New()
    {
      this.hash, this.equal := hash, equal;
      freesKeys, freesValues, entries, primeIndex := false, false, 0, 0;
      tableSize := PRIMES[0];
      table := new Entry?<K, V>[PRIMES[0]](_ => null);
      chains, nodes, at := seq(PRIMES[0], _ => []), {}, map[];
      relinks, inserts, freedKeys, freedValues := 0, 0, [], [];
      new;
      EmptyBuckets(table[..], chains);
    }

    /** `hash_table_register_free_functions`, by whether the functions are non-null. */
    method RegisterFreeFunctions(keys: bool, values: bool)
      requires Valid()
      modifies this`freesKeys, this`freesValues
      ensures Valid() && State() == old(State()).(freesKeys := keys, freesValues := values)
    {
      hide Buckets, Indexed, Map, Coherent;
      freesKeys, freesValues := keys, values;
    }

    ghost function Keys(c: seq<Entry<K, V>>): seq<K>
      reads c
    {
      seq(|c|, i requires 0 <= i < |c| reads c => c[i].key)
    }

    ghost function ValuesOf(c: seq<Entry<K, V>>): seq<V>
      reads c
    {
      seq(|c|, i requires 0 <= i < |c| reads c => c[i].value)
    }

    /** `ks` and `vs` are the keys and values of the nodes `c`. */
    ghost predicate Data(c: seq<Entry<K, V>>, ks: seq<K>, vs: seq<V>)
      reads c
    {
      |ks| == |vs| == |c| && forall i :: 0 <= i < |c| ==> ks[i] == c[i].key && vs[i] == c[i].value
    }

    /** `hash_table_free`: every stored key and value goes to the free functions, chain by
        chain. Afterwards the table is gone, so nothing else is promised. */
    method Free()
      requires Valid()
      modifies this`freedKeys, this`freedValues
      ensures freedKeys == old(Logged(freesKeys, freedKeys, Keys(Flat(chains))))
      ensures freedValues == old(Logged(freesValues, freedValues, ValuesOf(Flat(chains))))
    {
      hide Indexed, Coherent, Buckets, Flat, Placed, LinkedIn, Logged;
      BucketsChains(table[..], chains, nodes);
      ghost var ks, vs, n := Keys(Flat(chains)), ValuesOf(Flat(chains)), 0;
      FlatOfNone(chains);
      LoggedNone(freesKeys, freedKeys);
      LoggedNone(freesValues, freedValues);
      for i := 0 to tableSize
        invariant n == |Flat(chains[..i])| <= |Flat(chains)|
        invariant freedKeys == Logged(freesKeys, old(freedKeys), ks[..n])
        invariant freedValues == Logged(freesValues, old(freedValues), vs[..n])
      {
        FlatAt(chains, i);
        ghost var m := n + |chains[i]|;
        FreeChain(table[i], chains[i], ks[n..m], vs[n..m]);
        assert ks[..m] == ks[..n] + ks[n..m] && vs[..m] == vs[..n] + vs[n..m];
        LoggedMore(freesKeys, old(freedKeys), ks[..n], ks[n..m]);
        LoggedMore(freesValues, old(freedValues), vs[..n], vs[n..m]);
        n := m;
      }
      assert chains[..tableSize] == chains && ks[..n] == ks && vs[..n] == vs;
    }

    method FreeChain(head: Entry?<K, V>, ghost c: seq<Entry<K, V>>, ghost ks: seq<K>, ghost vs: seq<V>)
      requires LinkedIn(head, c, Elems(c)) && Data(c, ks, vs)
      modifies this`freedKeys, this`freedValues
      ensures freedKeys == Logged(freesKeys, old(freedKeys), ks)
      ensures freedValues == Logged(freesValues, old(freedValues), vs)
    {
      hide Logged, LinkedIn, Data;
      LoggedNone(freesKeys, freedKeys);
      LoggedNone(freesValues, freedValues);
      StepAlong(head, c, ks, vs, 0);
      assert ks[..0] == [] && vs[..0] == [];
      var rover := head;
      ghost var j := 0;
      while rover != null
        invariant j <= |c| == |ks| == |vs| && rover == Nth(c, j)
        invariant LinkedIn(head, c, Elems(c)) && Data(c, ks, vs)
        invariant freedKeys == Logged(freesKeys, old(freedKeys), ks[..j])
        invariant freedValues == Logged(freesValues, old(freedValues), vs[..j])
        decreases |c| - j
      {
        StepAlong(head, c, ks, vs, j);
        FreeData(rover.value, rover.key);
        LoggedMore(freesKeys, old(freedKeys), ks[..j], [ks[j]]);
        LoggedMore(freesValues, old(freedValues), vs[..j], [vs[j]]);
        rover, j := rover.next, j + 1;
      }
      assert ks[..j] == ks && vs[..j] == vs;
    }

    lemma StepAlong(head: Entry?<K, V>, c: seq<Entry<K, V>>, ks: seq<K>, vs: seq<V>, j: nat)
      requires LinkedIn(head, c, Elems(c)) && Data(c, ks, vs) && j <= |c|
      ensures |ks| == |vs| == |c| && head == Nth(c, 0)
      ensures j < |c| ==> c[j].next == Nth(c, j + 1) && ks[j] == c[j].key && vs[j] == c[j].value
      ensures j < |c| ==> ks[..j + 1] == ks[..j] + [ks[j]] && vs[..j + 1] == vs[..j] + [vs[j]]
    {}

    /** What the walk over all chains meets: every node once. */
    lemma FlatIsNodes()
      requires Valid()
      ensures Elems(Flat(chains)) == nodes && |Flat(chains)| == |nodes|
      ensures NoRepeats(Flat(chains))
    {
      BucketsPartition(table[..], chains, nodes);
      FlatPartition(chains);
      ElemsCount(Flat(chains));
    }

    /** The keys and values that `Free` hands over are those of the map, each once. */
    lemma FreedIsMap()
      requires Valid()
      ensures var ks, vs := Keys(Flat(chains)), ValuesOf(Flat(chains));
        && |ks| == |vs| == |Map()| && Elems(ks) == Map().Keys
        && (forall i :: 0 <= i < |ks| ==> Map()[ks[i]] == vs[i])
        && NoRepeats(ks)
    {
      hide Buckets;
      FlatIsNodes();
      Counts();
      var c, ks := Flat(chains), Keys(Flat(chains));
      forall i | 0 <= i < |c| ensures ks[i] in Map() && at[ks[i]] == c[i] {
        assert c[i] in Elems(c);
      }
      forall k | k in Map() ensures k in Elems(ks) {
        assert at[k] in Elems(c);
        var i :| 0 <= i < |c| && c[i] == at[k];
        assert ks[i] == k;
      }
    }
  }

  /** `hash_table_new`: null if either allocation fails. */
  method NewTable<K(==, !new), V>(hash: K -> nat, equal: (K, K) -> bool, structOk: bool, tableOk: bool)
    returns (t: HashTable?<K, V>)
    requires Coherent(hash, equal)
    ensures t != null <==> structOk && tableOk
    ensures t != null ==> t.hash == hash && t.equal == equal
    ensures t != null ==> t.Valid() && fresh(t.Repr()) && t.State() == TableSpec.New()
  {
    t := null;
    if structOk && tableOk {
      t := new HashTable(hash, equal);
    }
  }
}
