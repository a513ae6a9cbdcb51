/** The alias table of src/alias.c and the expansion loop of src/helper.c. */
module AliasTables {
  import opened Options
  import opened Sequences
  import opened Text
  import opened TableSpec
  import opened HashTables
  import opened TableIterators
  import opened AliasSpec

  class Alias {
    const value: string
    var inUse: bool

    constructor (value: string)
      ensures this.value == value && !inUse
    {
      this.value, inUse := value, false;
    }
  }

  /** `string_equal` on contents. */
  predicate SameString(a: string, b: string) {
    a == b
  }

  lemma PlainFind(eq: (string, string) -> bool, m: map<string, Alias>, k: string)
    requires forall a, b :: eq(a, b) <==> a == b
    ensures Find(eq, m, k) == if k in m then Some(k) else None
  {}

  /** The table's operations under plain equality of keys. */
  lemma PlainInsert(
      eq: (string, string) -> bool, s: State<string, Alias>, k: string, v: Alias, tableOk: bool, nodeOk: bool)
    requires (forall a, b :: eq(a, b) <==> a == b) && s.size > 0
    ensures var (s', ok) := Insert(eq, s, k, v, tableOk, nodeOk);
      s'.m == (if ok then s.m[k := v] else s.m) && (tableOk && nodeOk ==> ok)
  {
    hide SizeFor, TooFull;
    PlainFind(eq, s.m, k);
    assert k in s.m ==> (s.m - {k})[k := v] == s.m[k := v];
  }

  lemma PlainRemove(eq: (string, string) -> bool, s: State<string, Alias>, k: string)
    requires forall a, b :: eq(a, b) <==> a == b
    ensures Remove(eq, s, k).0.m == s.m - {k}
  {
    PlainFind(eq, s.m, k);
    assert k !in s.m ==> s.m - {k} == s.m;
  }

  lemma PlainLookup(eq: (string, string) -> bool, m: map<string, Alias>, k: string)
    requires forall a, b :: eq(a, b) <==> a == b
    ensures Lookup(eq, m, k) == if k in m then Some(m[k]) else None
  {
    PlainFind(eq, m, k);
  }

  class AliasTable {
    const table: HashTable<string, Alias>

    ghost predicate Valid()
      reads table, table.table, table.nodes
    {
      && table.Valid()
      && PlainKeys()
      && Injective(table.Map())
    }

    ghost predicate PlainKeys() {
      forall a, b :: table.equal(a, b) <==> a == b
    }

    ghost function Aliases(): set<Alias>
      requires Valid()
      reads table, table.table, table.nodes
    {
      table.Map().Values
    }

    ghost function Repr(): set<object>
      requires Valid()
      reads table, table.table, table.nodes
    {
      table.Repr() + Aliases()
    }

    static ghost function Texts(m: map<string, Alias>): map<string, string> {
      map k | k in m :: m[k].value
    }

    static ghost function Used(m: map<string, Alias>): set<string>
      reads m.Values
    {
      set k | k in m && m[k].inUse
    }

    ghost function Map(): map<string, string>
      requires Valid()
      reads table, table.table, table.nodes
    {
      Texts(table.Map())
    }

    ghost function InUse(): set<string>
      requires Valid()
      reads table, table.table, table.nodes, set e | e in table.nodes :: e.value
    {
      Used(table.Map())
    }

    static lemma AddedEntry(m: map<string, Alias>, key: string, alias: Alias)
      requires Injective(m) && alias !in m.Values && !alias.inUse
      ensures Injective(m[key := alias])
      ensures Texts(m[key := alias]) == Texts(m)[key := alias.value]
      ensures Used(m[key := alias]) == Used(m) - {key}
      ensures m[key := alias].Values <= m.Values + {alias}
    {}

    static lemma EntryOf(m: map<string, Alias>, key: string)
      ensures key in m <==> key in Texts(m)
      ensures key in m ==> m[key] in m.Values && Texts(m)[key] == m[key].value && (key in Used(m) <==> m[key].inUse)
      ensures Used(m) <= m.Keys
    {}

    static lemma RemovedEntry(m: map<string, Alias>, key: string)
      requires Injective(m)
      ensures Injective(m - {key}) && Texts(m - {key}) == Texts(m) - {key} && Used(m - {key}) == Used(m) - {key}
      ensures (m - {key}).Values <= m.Values
    {}

    /** `initializeAliases`, for any hash of strings. */
    constructor (hash: string -> nat)
      ensures Valid() && Map() == map[] && InUse() == {} && fresh(Repr())
      ensures table.freesKeys && table.freesValues
    {
      hide table.Buckets, table.IndexOf, table.Values;
      table := new HashTable(hash, SameString);
      new;
      table.RegisterFreeFunctions(true, true);
    }

    /** `addAlias`; the C code does not look at whether the insertion succeeds. */
    method AddAlias(key: string, value: string, tableOk: bool, nodeOk: bool) returns (ghost added: bool)
      requires Valid()
      modifies table.Repr()
      ensures Valid() && fresh(Repr() - old(Repr()))
      ensures tableOk && nodeOk ==> added
      ensures Map() == if added then old(Map())[key := value] else old(Map())
      ensures InUse() == if added then old(InUse()) - {key} else old(InUse())
    {
      hide table.Buckets, Coherent, table.Map, table.Indexed, Texts, Used, Injective;
      ghost var m := table.Map();
      AreAllocated();
      var alias := new Alias(value);
      var ok := InsertEntry(key, alias, tableOk, nodeOk);
      added := ok;
      AddedEntry(m, key, alias);
    }

    lemma AreAllocated()
      requires table.Valid()
      ensures forall k :: k in table.Map() ==> k in table.at && table.Map()[k] == table.at[k].value
    {}

    /** The insertion, which touches no alias. */
    method InsertEntry(key: string, alias: Alias, tableOk: bool, nodeOk: bool) returns (ok: bool)
      requires table.Valid() && PlainKeys()
      modifies table.Repr()
      ensures table.Valid() && fresh(table.Repr() - old(table.Repr()))
      ensures tableOk && nodeOk ==> ok
      ensures table.Map() == if ok then old(table.Map())[key := alias] else old(table.Map())
    {
      hide table.Buckets, Coherent, table.Map, table.Indexed, Insert;
      ghost var s := table.State();
      ok := table.Insert(key, alias, tableOk, nodeOk);
      PlainInsert(table.equal, s, key, alias, tableOk, nodeOk);
    }

    /** `removeAlias`. */
    method RemoveAlias(key: string)
      requires Valid()
      modifies table.Repr()
      ensures Valid() && Repr() <= old(Repr())
      ensures Map() == old(Map()) - {key} && InUse() == old(InUse()) - {key}
    {
      hide table.Buckets, Coherent, table.IndexOf, table.Values, Insert, Remove, Lookup, Texts, Used, Injective;
      ghost var m, s := table.Map(), table.State();
      var _ := table.Remove(key);
      PlainRemove(table.equal, s, key);
      assert Used(m) == old(Used(m));
      RemovedEntry(m, key);
    }

    /** `getAlias`: the value of an alias that is not in use, which it now is. */
    method GetAlias(key: string) returns (r: Option<string>)
      requires Valid()
      modifies Aliases()`inUse
      ensures Valid() && Repr() == old(Repr()) && Aliases() == old(Aliases()) && Map() == old(Map())
      ensures r == if key in Map() && key !in old(InUse()) then Some(Map()[key]) else None
      ensures InUse() == if r.Some? then old(InUse()) + {key} else old(InUse())
    {
      hide table.Buckets, Coherent, table.Map, table.Indexed, Texts, Used, Injective;
      r := Take(table.Map(), key);
    }

    method Take(ghost m: map<string, Alias>, key: string) returns (r: Option<string>)
      requires table.Valid() && PlainKeys() && table.Map() == m && Injective(m)
      modifies m.Values`inUse
      ensures table.Valid() && table.Map() == m
      ensures r == if key in Texts(m) && key !in old(Used(m)) then Some(Texts(m)[key]) else None
      ensures Used(m) == if r.Some? then old(Used(m)) + {key} else old(Used(m))
    {
      hide table.Buckets, Coherent, table.Map, table.Indexed, Texts, Used, Injective;
      var a := Find(key);
      EntryOf(m, key);
      r := None;
      if a.Some? && !a.value.inUse {
        Mark(m, key, a.value);
        r := Some(a.value.value);
      }
    }

    /** `hash_table_lookup` under plain equality. */
    method Find(key: string) returns (a: Option<Alias>)
      requires table.Valid() && PlainKeys()
      ensures a == if key in table.Map() then Some(table.Map()[key]) else None
    {
      hide table.Buckets, Coherent, table.Map, table.Indexed, Lookup;
      a := table.Lookup(key);
      PlainLookup(table.equal, table.Map(), key);
    }

    method Mark(ghost m: map<string, Alias>, key: string, a: Alias)
      requires table.Valid() && table.Map() == m && Injective(m) && key in m && m[key] == a
      modifies a`inUse
      ensures table.Valid() && table.Map() == m && Used(m) == old(Used(m)) + {key}
    {
      hide table.Buckets, Coherent, table.Map, table.Indexed;
      a.inUse := true;
    }

    // ---------- Release ----------

    /** Only aliases whose nodes are still to come may be in use. */
    ghost predicate Released(todo: seq<Entry<string, Alias>>)
      reads table, table.nodes, set e | e in table.nodes :: e.value
    {
      forall e :: e in table.nodes && e !in todo ==> !e.value.inUse
    }

    lemma NodeValue(e: Entry<string, Alias>)
      requires table.Valid() && e in table.nodes
      ensures e.value in table.Map().Values
    {
      assert table.Map()[e.key] == e.value;
    }

    lemma AllReleased()
      requires table.Valid() && Released([])
      ensures Used(table.Map()) == {}
    {
      forall k | k in table.Map() ensures !table.Map()[k].inUse {
        assert table.at[k] in table.nodes;
      }
    }

    /** `releaseAliases`: a walk over the whole table with its iterator. */
    method ReleaseAliases()
      requires Valid()
      modifies Aliases()`inUse
      ensures Valid() && Repr() == old(Repr()) && Aliases() == old(Aliases()) && Map() == old(Map())
      ensures InUse() == {}
    {
      hide table.Buckets, Coherent, table.Map, table.Indexed, Texts, Used, Injective, Flat;
      ghost var m := table.Map();
      var it := new TableIterator(table);
      it.VisitsEachOnce();
      var more := it.HasMore();
      while more
        invariant it.Valid() && it.table == table && table.Map() == m && (more <==> it.todo != [])
        invariant Elems(it.todo) <= table.nodes && Released(it.todo)
        decreases |it.todo|
      {
        ReleaseNext(it);
        more := it.HasMore();
      }
      AllReleased();
    }

    method ReleaseNext(it: TableIterator<string, Alias>)
      requires it.Valid() && it.table == table && it.todo != []
      requires Elems(it.todo) <= table.nodes && Released(it.todo)
      modifies it, table.Map().Values`inUse
      ensures it.Valid() && table.Map() == old(table.Map()) && it.todo == old(it.todo)[1..]
      ensures Elems(it.todo) <= table.nodes && Released(it.todo)
    {
      hide table.Buckets, Coherent, table.Map, table.Indexed, Flat;
      ghost var e := it.todo[0];
      assert e in Elems(it.todo);
      NodeValue(e);
      var alias := it.Next();
      alias.value.inUse := false;
    }
  }

  // ---------- Expansion ----------

  /** `strncpy` into a cleared buffer of BUFSIZE + 1 characters. */
  function Strncpy(s: string): (r: string)
    ensures |r| <= BUFSIZE
  {
    Cut(s)
  }

  /** `strcat` onto a text in such a buffer, which has to have room. */
  function Strcat(s: string, t: string): string
    requires |s| + |t| <= BUFSIZE
  {
    s + t
  }

  /** `expandAlias`; nothing if a `strcat` has no room in its buffer, which the C code does not
      look at. */
  method ExpandAlias(t: AliasTable, command: string) returns (r: Option<string>)
    requires t.Valid()
    modifies t.Aliases()`inUse
    ensures t.Valid() && t.Repr() == old(t.Repr()) && t.Aliases() == old(t.Aliases()) && t.Map() == old(t.Map())
    ensures r.Some? <==> Fits(Chain(old(t.Map()), old(t.InUse()), Head(command)), command)
    ensures r.Some? ==> r.value == Expansion(old(t.Map()), old(t.InUse()), command) && t.InUse() == {}
  {
    hide Chain, Rebuild, FitsAlong, t.Valid, t.Map, t.InUse, t.Aliases, t.Repr;
    var final := Rewrite(t, command);
    if final.None? { return None; }
    var text := final.value;
    if |text| == 0 {
      text := Strncpy(command);
    } else {
      var i := FirstSpace(command);
      if |text| + |command[i..]| > BUFSIZE { return None; }
      if i < |command| { text := Strcat(text, command[i..]); }
    }
    t.ReleaseAliases();
    r := Some(text);
  }

  /** The loop of `expandAlias`: the text it has rebuilt when no alias is left. */
  method Rewrite(t: AliasTable, command: string) returns (r: Option<string>)
    requires t.Valid()
    modifies t.Aliases()`inUse
    ensures t.Valid() && t.Repr() == old(t.Repr()) && t.Aliases() == old(t.Aliases()) && t.Map() == old(t.Map())
    ensures r.Some? <==> FitsAlong(Chain(old(t.Map()), old(t.InUse()), Head(command)))
    ensures r.Some? ==> r.value == Rebuild(Chain(old(t.Map()), old(t.InUse()), Head(command)))
  {
    hide Head, Rest, Overlay, Rebuild, Chain, FitsAlong, Ahead, Left, t.Valid, t.Map, t.InUse, t.Aliases, t.Repr;
    ghost var m, used := t.Map(), t.InUse();
    ghost var all, vs: seq<string> := Chain(m, used, Head(command)), [];
    var final := "";
    NothingRebuilt();
    var aux := Follow(t, Head(command));
    while aux.Some?
      invariant t.Valid() && t.Repr() == old(t.Repr()) && t.Aliases() == old(t.Aliases()) && t.Map() == m
      invariant all == vs + Ahead(m, t.InUse(), aux)
      invariant final == Rebuild(vs) && FitsAlong(vs)
      decreases Left(m, t.InUse(), aux)
    {
      ghost var value := aux.value;
      AheadSome(m, t.InUse(), aux, vs, all);
      NextTurn(vs, aux.value, all);
      if !HasRoom(final, aux.value) { return None; }
      final := Overlay(final, aux.value);
      aux := Follow(t, Head(aux.value));
      vs := vs + [value];
    }
    AheadNone(m, t.InUse(), vs);
    r := Some(final);
  }

  /** The lookup of a head word, and what it does to the chain ahead. */
  method Follow(t: AliasTable, word: string) returns (aux: Option<string>)
    requires t.Valid()
    modifies t.Aliases()`inUse
    ensures t.Valid() && t.Repr() == old(t.Repr()) && t.Aliases() == old(t.Aliases()) && t.Map() == old(t.Map())
    ensures Chain(t.Map(), old(t.InUse()), word) == Ahead(t.Map(), t.InUse(), aux)
    ensures Left(t.Map(), t.InUse(), aux) <= |t.Map().Keys - old(t.InUse())|
  {
    hide Head, Chain, Ahead, Left, t.Valid, t.Map, t.InUse, t.Aliases, t.Repr;
    aux := t.GetAlias(word);
    AheadStarts(t.Map(), old(t.InUse()), word, t.InUse(), aux);
  }

  /** The values still to come when the last lookup gave `aux`. */
  ghost function Ahead(m: map<string, string>, used: set<string>, aux: Option<string>): seq<string> {
    if aux.Some? then [aux.value] + Chain(m, used, Head(aux.value)) else []
  }

  /** Aliases not in use, and one for the value that waits. */
  ghost function Left(m: map<string, string>, used: set<string>, aux: Option<string>): nat {
    |m.Keys - used| + if aux.Some? then 1 else 0
  }

  /** What a lookup does to the chain ahead. */
  lemma AheadStarts(m: map<string, string>, used: set<string>, word: string, used': set<string>, aux: Option<string>)
    requires aux == if word in m && word !in used then Some(m[word]) else None
    requires used' == if aux.Some? then used + {word} else used
    ensures Chain(m, used, word) == Ahead(m, used', aux)
    ensures Left(m, used', aux) <= |m.Keys - used|
  {
    if aux.Some? { Shrinks(m, used, word); }
  }

  lemma AheadSome(m: map<string, string>, used: set<string>, aux: Option<string>, vs: seq<string>, all: seq<string>)
    requires aux.Some? && all == vs + Ahead(m, used, aux)
    ensures |vs| < |all| && all[..|vs| + 1] == vs + [aux.value]
    ensures all == vs + [aux.value] + Chain(m, used, Head(aux.value))
    ensures Left(m, used, aux) == |m.Keys - used| + 1
  {
    hide Chain, Head;
    Regroup(vs, aux.value, Chain(m, used, Head(aux.value)));
  }

  lemma Regroup<T>(vs: seq<T>, v: T, rest: seq<T>)
    ensures vs + ([v] + rest) == vs + [v] + rest
    ensures (vs + ([v] + rest))[..|vs| + 1] == vs + [v]
  {}

  lemma AheadNone(m: map<string, string>, used: set<string>, vs: seq<string>)
    ensures vs + Ahead(m, used, None) == vs
  {}

  /** The `strcat` of a turn stays inside the buffer. */
  predicate HasRoom(final: string, value: string) {
    |Strncpy(value)| + |Rest(final)| <= BUFSIZE
  }

  /** One turn of the loop: the new value over the head word of the text so far. */
  function Overlay(final: string, value: string): string
    requires HasRoom(final, value)
  {
    var i := FirstSpace(final);
    if i < |final| then Strcat(Strncpy(value), final[i..]) else Strncpy(value)
  }

  lemma NothingRebuilt()
    ensures Rebuild([]) == "" && FitsAlong([])
  {}

  /** What a turn does when there is room, and that otherwise the whole chain does not fit. */
  lemma NextTurn(vs: seq<string>, value: string, all: seq<string>)
    requires FitsAlong(vs) && |vs| < |all| && all[..|vs| + 1] == vs + [value]
    ensures HasRoom(Rebuild(vs), value) ==>
      Overlay(Rebuild(vs), value) == Rebuild(vs + [value]) && FitsAlong(vs + [value])
    ensures !HasRoom(Rebuild(vs), value) ==> !FitsAlong(all)
  {
    hide Cut, Rest, FitsAlong, Rebuild;
    var more := vs + [value];
    RebuildSnoc(vs, value);
    FitsSnoc(vs, value);
    if FitsAlong(all) { FitsPrefix(all, |vs| + 1); }
    RestIs(Rebuild(vs));
  }
}
