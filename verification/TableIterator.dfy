/** The iterator of the hash table. */
module TableIterators {
  import opened Options
  import opened Sequences
  import opened HashTables

  class TableIterator<K(==, !new), V> {
    const table: HashTable<K, V>
    var nextEntry: Entry?<K, V>
    var nextChain: nat

    /** The nodes not yet given, and where the next one is in its chain. */
    ghost var todo: seq<Entry<K, V>>
    ghost var pos: nat

    ghost predicate Valid()
      reads this, table, table.table, table.nodes
    {
      && table.Valid()
      && (if nextEntry == null then todo == []
          else
            && nextChain < |table.chains| && pos < |table.chains[nextChain]|
            && nextEntry == table.chains[nextChain][pos]
            && todo == table.chains[nextChain][pos..] + Flat(table.chains[nextChain + 1..]))
    }

    /** `hash_table_iterate`. */
    constructor (t: HashTable<K, V>)
      requires t.Valid()
      ensures table == t && Valid() && todo == Flat(t.chains)
    {
      table := t;
      nextEntry, nextChain, todo, pos := null, 0, [], 0;
      new;
      assert t.chains[0..] == t.chains;
      Seek(0);
    }

    /** The search for the first chain from `start` on that holds anything. */
    method Seek(start: nat)
      requires table.Valid() && start <= |table.chains|
      modifies this
      ensures Valid() && todo == Flat(table.chains[start..])
    {
      hide table.Indexed, table.Buckets, table.LinkedIn, NoRepeats, Elems;
      var chain := start;
      nextEntry, todo, pos := null, Flat(table.chains[start..]), 0;
      while chain < table.tableSize
        invariant start <= chain <= |table.chains| == table.tableSize && nextEntry == null
        invariant todo == Flat(table.chains[chain..]) && pos == 0 && todo == Flat(table.chains[start..])
      {
        HeadOf(chain);
        assert table.chains[chain..][1..] == table.chains[chain + 1..];
        if table.table[chain] != null {
          nextEntry := table.table[chain];
          nextChain := chain;
          return;
        }
        chain := chain + 1;
      }
      nextChain := chain;
    }

    lemma HeadOf(i: nat)
      requires table.Valid() && i < |table.chains|
      ensures var c := table.chains[i];
        table.table[i] == Nth(c, 0) && forall j :: 0 <= j < |c| ==> c[j].next == Nth(c, j + 1)
    {
      table.ChainIn(table.table[..], table.chains, table.nodes, i);
    }

    /** `hash_table_iter_has_more`. */
    method HasMore() returns (r: bool)
      requires Valid()
      ensures r <==> todo != []
    {
      r := nextEntry != null;
    }

    /** The first of the nodes to come and the rest, which starts the next chain at the end of
        this one. */
    static lemma StepTodo(cs: seq<seq<Entry<K, V>>>, i: nat, pos: nat)
      requires i < |cs| && pos < |cs[i]|
      ensures var rest := Flat(cs[i + 1..]);
        && cs[i][pos..] + rest == [cs[i][pos]] + (cs[i][pos + 1..] + rest)
        && (pos + 1 == |cs[i]| ==> cs[i][pos..] + rest == [cs[i][pos]] + rest)
    {
      hide Flat;
      assert cs[i][pos..] == [cs[i][pos]] + cs[i][pos + 1..];
    }

    /** The step that both variants of next share. */
    method Advance()
      requires Valid() && nextEntry != null
      modifies this
      ensures Valid() && old(todo) == [old(nextEntry)] + todo
    {
      hide table.Indexed, table.Buckets, table.LinkedIn, Flat;
      HeadOf(nextChain);
      StepTodo(table.chains, nextChain, pos);
      var current: Entry<K, V> := nextEntry;
      if current.next != null {
        nextEntry := current.next;
        pos, todo := pos + 1, todo[1..];
      } else {
        Seek(nextChain + 1);
      }
    }

    /** `hash_table_iter_next_entry`. */
    method NextEntry() returns (r: Entry?<K, V>)
      requires Valid()
      modifies this
      ensures Valid()
      ensures if old(todo) == [] then r == null && todo == [] else r == old(todo)[0] && todo == old(todo)[1..]
    {
      r := nextEntry;
      if nextEntry != null {
        Advance();
      }
    }

    /** `hash_table_iter_next`: the same walk, giving values. */
    method Next() returns (r: Option<V>)
      requires Valid()
      modifies this
      ensures Valid()
      ensures if old(todo) == [] then r == None && todo == []
              else r == Some(old(todo)[0].value) && todo == old(todo)[1..]
    {
      if nextEntry == null { return None; }
      r := Some(nextEntry.value);
      Advance();
    }

    /** The nodes still to come are stored nodes, each once; at the start they are all. */
    lemma VisitsEachOnce()
      requires Valid() && todo == Flat(table.chains)
      ensures Elems(todo) == table.nodes && |todo| == table.entries
      ensures NoRepeats(todo)
    {
      table.FlatIsNodes();
    }

    /** The walk goes through the slots in ascending order. */
    lemma VisitsBySlot(j: nat, k: nat)
      requires Valid() && todo == Flat(table.chains) && j < k < |todo|
      ensures var n := table.tableSize;
        n > 0 && table.hash(todo[j].key) % n <= table.hash(todo[k].key) % n
    {
      hide table.Indexed, table.Buckets;
      table.NodesAtTheirHash();
      BySlot(table.chains, j, k);
    }

    static lemma BySlot(cs: seq<seq<Entry<K, V>>>, j: nat, k: nat)
      requires j <= k < |Flat(cs)|
      ensures exists a, b, p, q ::
        && 0 <= a <= b < |cs| && 0 <= p < |cs[a]| && 0 <= q < |cs[b]|
        && Flat(cs)[j] == cs[a][p] && Flat(cs)[k] == cs[b][q]
    {
      if j < |cs[0]| {
        if k < |cs[0]| {
          assert Flat(cs)[j] == cs[0][j] && Flat(cs)[k] == cs[0][k];
        } else {
          var n := k - |cs[0]|;
          BySlot(cs[1..], n, n);
          var a, p :| 0 <= a < |cs[1..]| && 0 <= p < |cs[1..][a]| && Flat(cs[1..])[n] == cs[1..][a][p];
          assert Flat(cs)[j] == cs[0][j] && Flat(cs)[k] == cs[a + 1][p];
        }
      } else {
        var n, m := j - |cs[0]|, k - |cs[0]|;
        BySlot(cs[1..], n, m);
        var a, b, p, q :|
          && 0 <= a <= b < |cs[1..]| && 0 <= p < |cs[1..][a]| && 0 <= q < |cs[1..][b]|
          && Flat(cs[1..])[n] == cs[1..][a][p] && Flat(cs[1..])[m] == cs[1..][b][q];
        assert Flat(cs)[j] == cs[a + 1][p] && Flat(cs)[k] == cs[b + 1][q];
      }
    }
  }
}
