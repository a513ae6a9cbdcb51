/** Runs of alias commands: what an expansion gives depends on the key-to-value map alone. */
module AliasRuns {
  import opened Options
  import opened AliasSpec
  import opened AliasTables

  /** An addition comes with the answers of the allocator. */
  datatype AliasOp =
    | Add(key: string, value: string, tableOk: bool, nodeOk: bool)
    | Drop(key: string)
    | Expand(command: string)

  /** The aliases after a step; `added` says whether an addition got its memory. */
  function NextMap(m: map<string, string>, op: AliasOp, added: bool): map<string, string> {
    match op
    case Add(key, value, _, _) => if added then m[key := value] else m
    case Drop(key) => m - {key}
    case Expand(_) => m
  }

  function Result(m: map<string, string>, op: AliasOp): seq<string> {
    match op
    case Expand(command) => [Expansion(m, {}, command)]
    case _ => []
  }

  /** The aliases after a run. */
  function FinalMap(m: map<string, string>, ops: seq<AliasOp>, added: seq<bool>): map<string, string>
    requires |ops| == |added|
  {
    if ops == [] then m
    else var n := |ops| - 1; NextMap(FinalMap(m, ops[..n], added[..n]), ops[n], added[n])
  }

  /** The texts that the expansions of a run give. */
  function Results(m: map<string, string>, ops: seq<AliasOp>, added: seq<bool>): seq<string>
    requires |ops| == |added|
  {
    if ops == [] then []
    else var n := |ops| - 1; Results(m, ops[..n], added[..n]) + Result(FinalMap(m, ops[..n], added[..n]), ops[n])
  }

  ghost predicate OpFits(m: map<string, string>, op: AliasOp) {
    op.Expand? ==> Fits(Chain(m, {}, Head(op.command)), op.command)
  }

  /** No expansion of the run overfills its buffer. */
  ghost predicate AllFit(m: map<string, string>, ops: seq<AliasOp>, added: seq<bool>)
    requires |ops| == |added|
  {
    ops == [] ||
    var n := |ops| - 1; AllFit(m, ops[..n], added[..n]) && OpFits(FinalMap(m, ops[..n], added[..n]), ops[n])
  }

  /** `added` may fail to be true only for additions that did not get their memory. */
  ghost predicate Honest(ops: seq<AliasOp>, added: seq<bool>) {
    |added| <= |ops| && forall i :: 0 <= i < |added| && !added[i] ==> ops[i].Add? && !(ops[i].tableOk && ops[i].nodeOk)
  }

  lemma {:induction false} FitPrefix(m: map<string, string>, ops: seq<AliasOp>, added: seq<bool>, i: nat)
    requires |ops| == |added| && i <= |ops| && AllFit(m, ops, added)
    ensures AllFit(m, ops[..i], added[..i])
    decreases |ops|
  {
    var n := |ops| - 1;
    if i == |ops| {
      assert ops[..i] == ops && added[..i] == added;
    } else {
      FitPrefix(m, ops[..n], added[..n], i);
      assert ops[..n][..i] == ops[..i] && added[..n][..i] == added[..i];
    }
  }

  /** Any run of additions, removals and expansions from a table with no alias in use, in which
      additions may fail. The expansions depend on the map of keys to texts alone, never on the
      order of the table or on earlier expansions. Nothing is given if an expansion overfills
      its buffer. */
  method RunAliases(t: AliasTable, ops: seq<AliasOp>) returns (r: Option<seq<string>>, ghost added: seq<bool>)
    requires t.Valid() && t.InUse() == {}
    modifies t.Repr()
    ensures t.Valid() && fresh(t.Repr() - old(t.Repr()))
    ensures |added| == |ops| && Honest(ops, added)
    ensures forall i :: 0 <= i < |ops| && ops[i].Add? && ops[i].tableOk && ops[i].nodeOk ==> added[i]
    ensures r.Some? <==> AllFit(old(t.Map()), ops, added)
    ensures r.Some? ==> r.value == Results(old(t.Map()), ops, added)
    ensures r.Some? ==> t.Map() == FinalMap(old(t.Map()), ops, added) && t.InUse() == {}
  {
    hide t.Valid, t.Map, t.InUse, AllFit, Results, FinalMap, OpFits, Honest, Ran, t.Aliases;
    ghost var m := t.Map();
    var results: seq<string> := [];
    added := [];
    ghost var first, repr := t.Repr(), t.Repr();
    EmptyRun(m, ops);
    for i := 0 to |ops|
      invariant t.Valid() && t.InUse() == {} && repr == t.Repr() && fresh(repr - first)
      invariant Ran(m, ops, i, added, t.Map(), results)
    {
      ghost var before := t.Map();
      var ok, more, made := DoOp(t, ops[i]);
      repr := Grown(first, repr, t.Repr());
      OneMore(m, ops, i, added, made, before, results);
      if !ok {
        added := Padded(m, ops, i + 1, added + [made]);
        return None, added;
      }
      results, added := results + more, added + [made];
    }
    FullRun(m, ops, added, t.Map(), results);
    r := Some(results);
  }

  /** What is new since `b` or was new in `b` is new since `a`. */
  lemma Grown(a: set<object>, b: set<object>, c: set<object>) returns (r: set<object>)
    ensures r == c && forall o :: o in c - a ==> o in c - b || o in b - a
  {
    r := c;
  }

  /** After `i` steps the aliases are `now` and the expansions gave `results`. */
  ghost predicate Ran(
      m: map<string, string>, ops: seq<AliasOp>, i: nat, added: seq<bool>,
      now: map<string, string>, results: seq<string>)
  {
    && i == |added| <= |ops| && Honest(ops, added) && AllFit(m, ops[..i], added)
    && now == FinalMap(m, ops[..i], added) && results == Results(m, ops[..i], added)
  }

  lemma EmptyRun(m: map<string, string>, ops: seq<AliasOp>)
    ensures Ran(m, ops, 0, [], m, [])
  {}

  lemma OneMore(
      m: map<string, string>, ops: seq<AliasOp>, i: nat, added: seq<bool>, made: bool,
      before: map<string, string>, results: seq<string>)
    requires i < |ops| && Ran(m, ops, i, added, before, results) && Honest([ops[i]], [made])
    ensures |added| == i && Honest(ops, added + [made])
    ensures if OpFits(before, ops[i])
      then Ran(m, ops, i + 1, added + [made], NextMap(before, ops[i], made), results + Result(before, ops[i]))
      else !AllFit(m, ops[..i + 1], added + [made])
  {
    hide NextMap, Result, OpFits;
    assert ops[..i + 1][..i] == ops[..i] && (added + [made])[..i] == added;
    assert [ops[i]][0] == ops[i] && [made][0] == made;
  }

  lemma FullRun(
      m: map<string, string>, ops: seq<AliasOp>, added: seq<bool>, now: map<string, string>, results: seq<string>)
    requires Ran(m, ops, |ops|, added, now, results)
    ensures |added| == |ops| && Honest(ops, added) && AllFit(m, ops, added)
    ensures now == FinalMap(m, ops, added) && results == Results(m, ops, added)
  {
    assert ops[..|ops|] == ops;
  }

  /** Whatever follows an expansion that overfills its buffer, the run does not fit. */
  lemma Padded(m: map<string, string>, ops: seq<AliasOp>, n: nat, added: seq<bool>) returns (all: seq<bool>)
    requires Honest(ops, added) && n == |added| <= |ops| && !AllFit(m, ops[..n], added)
    ensures |all| == |ops| && Honest(ops, all) && !AllFit(m, ops, all)
  {
    all := added + seq(|ops| - n, _ => true);
    assert all[..n] == added;
    if AllFit(m, ops, all) { FitPrefix(m, ops, all, n); }
  }

  method DoOp(t: AliasTable, op: AliasOp) returns (ok: bool, r: seq<string>, ghost added: bool)
    requires t.Valid() && t.InUse() == {}
    modifies t.Repr()
    ensures t.Valid() && fresh(t.Repr() - old(t.Repr()))
    ensures ok <==> OpFits(old(t.Map()), op)
    ensures Honest([op], [added])
    ensures ok ==> t.InUse() == {} && t.Map() == NextMap(old(t.Map()), op, added) && r == Result(old(t.Map()), op)
  {
    hide t.Valid, t.Map, t.InUse, Fits, Chain;
    ok, r, added := true, [], true;
    match op
    case Add(key, value, tableOk, nodeOk) =>
      added := t.AddAlias(key, value, tableOk, nodeOk);
    case Drop(key) =>
      t.RemoveAlias(key);
    case Expand(command) =>
      var text := ExpandAlias(t, command);
      ok := text.Some?;
      if ok { r := [text.value]; }
  }

  // ---------- What a run leaves and gives ----------

  /** A step that decides over a key: an addition of it that is made, or its removal. */
  predicate Touches(op: AliasOp, made: bool, key: string) {
    (op.Add? && op.key == key && made) || (op.Drop? && op.key == key)
  }

  /** The last step that touches a key decides: after an addition the key has its text, after a
      removal it is gone. */
  lemma {:induction false} LastTouchDecides(
      m: map<string, string>, ops: seq<AliasOp>, added: seq<bool>, key: string, i: nat)
    requires i < |ops| == |added| && Touches(ops[i], added[i], key)
    requires forall j :: i < j < |ops| ==> !Touches(ops[j], added[j], key)
    ensures var f := FinalMap(m, ops, added);
      && (ops[i].Add? ==> key in f && f[key] == ops[i].value)
      && (ops[i].Drop? ==> key !in f)
    decreases |ops|
  {
    var n := |ops| - 1;
    if i == n {
    } else {
      assert !Touches(ops[n], added[n], key);
      LastTouchDecides(m, ops[..n], added[..n], key, i);
    }
  }

  /** A key that no step touches stays as it was. */
  lemma {:induction false} UntouchedStays(m: map<string, string>, ops: seq<AliasOp>, added: seq<bool>, key: string)
    requires |ops| == |added| && forall j :: 0 <= j < |ops| ==> !Touches(ops[j], added[j], key)
    ensures var f := FinalMap(m, ops, added);
      (key in f <==> key in m) && (key in m ==> f[key] == m[key])
    decreases |ops|
  {
    if ops == [] {
    } else {
      var n := |ops| - 1;
      assert !Touches(ops[n], added[n], key);
      UntouchedStays(m, ops[..n], added[..n], key);
    }
  }

  function CountExpands(ops: seq<AliasOp>): nat {
    if ops == [] then 0
    else CountExpands(ops[..|ops| - 1]) + if ops[|ops| - 1].Expand? then 1 else 0
  }

  /** A run gives one text for each expansion, in order, and each is the expansion of its command
      by the aliases at that point. */
  lemma {:induction false} ExpansionGives(m: map<string, string>, ops: seq<AliasOp>, added: seq<bool>, i: nat)
    requires i < |ops| == |added| && ops[i].Expand?
    ensures |Results(m, ops, added)| == CountExpands(ops)
    ensures var k := CountExpands(ops[..i]);
      && k < |Results(m, ops, added)|
      && Results(m, ops, added)[k] == Expansion(FinalMap(m, ops[..i], added[..i]), {}, ops[i].command)
    decreases |ops|
  {
    hide Expansion, FinalMap;
    var n := |ops| - 1;
    ResultsCount(m, ops[..n], added[..n]);
    if i == n {
    } else {
      ExpansionGives(m, ops[..n], added[..n], i);
      assert ops[..n][..i] == ops[..i] && added[..n][..i] == added[..i];
    }
  }

  lemma {:induction false} ResultsCount(m: map<string, string>, ops: seq<AliasOp>, added: seq<bool>)
    requires |ops| == |added|
    ensures |Results(m, ops, added)| == CountExpands(ops)
  {
    if ops == [] {
    } else {
      ResultsCount(m, ops[..|ops| - 1], added[..|ops| - 1]);
    }
  }

  /** A run fits iff each of its expansions does. */
  lemma {:induction false} AllFitMeans(m: map<string, string>, ops: seq<AliasOp>, added: seq<bool>)
    requires |ops| == |added|
    ensures AllFit(m, ops, added) <==> forall i :: 0 <= i < |ops| && ops[i].Expand? ==> ExpandFits(m, ops, added, i)
  {
    hide FinalMap;
    if ops == [] {
    } else {
      var n := |ops| - 1;
      AllFitMeans(m, ops[..n], added[..n]);
      forall i | 0 <= i < n && ops[i].Expand?
        ensures ExpandFits(m, ops, added, i) == ExpandFits(m, ops[..n], added[..n], i)
      {
        assert ops[..n][..i] == ops[..i] && added[..n][..i] == added[..i];
      }
      assert forall i :: 0 <= i < n ==> ops[..n][i] == ops[i];
    }
  }

  ghost predicate ExpandFits(m: map<string, string>, ops: seq<AliasOp>, added: seq<bool>, i: nat)
    requires i < |ops| == |added| && ops[i].Expand?
  {
    var c := ops[i].command;
    Fits(Chain(FinalMap(m, ops[..i], added[..i]), {}, Head(c)), c)
  }
}
