/** Alias expansion without the table: the chain of values, the text it rebuilds and its
    closed form. */
module AliasSpec {
  import opened Text

  /** Index of the first space, or the length. */
  function FirstSpace(s: string): (n: nat)
    ensures n <= |s|
    ensures n < |s| ==> s[n] == ' '
    ensures forall i :: 0 <= i < n ==> s[i] != ' '
  {
    if s == "" || s[0] == ' ' then 0 else 1 + FirstSpace(s[1..])
  }

  /** The command word. */
  function Head(s: string): string {
    s[..FirstSpace(s)]
  }

  /** What follows the command word, from the first space on. */
  function Rest(s: string): string {
    s[FirstSpace(s)..]
  }

  /** The values that successive lookups of head words give, when every key may be used once
      and `used` have been. */
  function Chain(m: map<string, string>, used: set<string>, word: string): seq<string>
    decreases |m.Keys - used|
  {
    if word in m && word !in used then
      Shrinks(m, used, word);
      [m[word]] + Chain(m, used + {word}, Head(m[word]))
    else []
  }

  lemma Shrinks(m: map<string, string>, used: set<string>, word: string)
    requires word in m && word !in used
    ensures |m.Keys - (used + {word})| < |m.Keys - used|
  {
    assert m.Keys - (used + {word}) == (m.Keys - used) - {word};
  }

  /** The keys that the chain expands. */
  function ChainKeys(m: map<string, string>, used: set<string>, word: string): seq<string>
    decreases |m.Keys - used|
  {
    if word in m && word !in used then
      Shrinks(m, used, word);
      [word] + ChainKeys(m, used + {word}, Head(m[word]))
    else []
  }

  /** The text that the loop of `expandAlias` holds after the values `vs`. */
  function Rebuild(vs: seq<string>): string {
    if vs == [] then ""
    else Cut(vs[|vs| - 1]) + Rest(Rebuild(vs[..|vs| - 1]))
  }

  /** Every text of the loop stays inside the buffer. */
  ghost predicate FitsAlong(vs: seq<string>) {
    forall i :: 0 <= i <= |vs| ==> |Rebuild(vs[..i])| <= BUFSIZE
  }

  /** So does the final one. The C code does not check either, so that `strcat` runs past the
      buffer on exactly the other inputs. */
  ghost predicate Fits(vs: seq<string>, command: string) {
    FitsAlong(vs) && (Rebuild(vs) != "" ==> |Rebuild(vs)| + |Rest(command)| <= BUFSIZE)
  }

  function Rebuilt(vs: seq<string>, command: string): string {
    if Rebuild(vs) == "" then Cut(command) else Rebuild(vs) + Rest(command)
  }

  function Expansion(m: map<string, string>, used: set<string>, command: string): string {
    Rebuilt(Chain(m, used, Head(command)), command)
  }

  // ---------- The closed form ----------

  /** The rests of the values, the latest first. */
  function Rests(vs: seq<string>): string {
    if vs == [] then "" else Rest(Cut(vs[|vs| - 1])) + Rests(vs[..|vs| - 1])
  }

  lemma {:induction false} FirstSpaceConcat(a: string, b: string)
    ensures FirstSpace(a + b) == if FirstSpace(a) < |a| then FirstSpace(a) else |a| + FirstSpace(b)
    decreases |a|
  {
    if a == "" {
      assert a + b == b;
    } else if a[0] != ' ' {
      assert (a + b)[1..] == a[1..] + b;
      FirstSpaceConcat(a[1..], b);
    }
  }

  /** A rest is empty or starts with a space. */
  lemma RestOfRest(s: string)
    ensures FirstSpace(Rest(s)) == 0 && (Rest(s) == "" || Rest(s)[0] == ' ')
  {}

  lemma RestConcat(a: string, b: string)
    ensures Rest(a + Rest(b)) == Rest(a) + Rest(b)
    ensures Head(a + Rest(b)) == Head(a)
  {
    FirstSpaceConcat(a, Rest(b));
    RestOfRest(b);
  }

  lemma {:induction false} RestOfRebuild(vs: seq<string>)
    ensures Rest(Rebuild(vs)) == Rests(vs)
    decreases |vs|
  {
    if vs == [] {
    } else {
      var init := vs[..|vs| - 1];
      RestOfRebuild(init);
      RestConcat(Cut(vs[|vs| - 1]), Rebuild(init));
    }
  }

  /** The last value, then the rests of the values before it, then the rest of the command;
      the command itself if that leaves nothing. */
  lemma ClosedForm(vs: seq<string>, command: string)
    ensures Rebuilt(vs, command) ==
      if vs == [] || Rebuild(vs) == "" then Cut(command)
      else Cut(vs[|vs| - 1]) + Rests(vs[..|vs| - 1]) + Rest(command)
    ensures vs != [] ==> (Rebuild(vs) == "" <==> Cut(vs[|vs| - 1]) == "" && Rests(vs[..|vs| - 1]) == "")
  {
    if vs != [] { RestOfRebuild(vs[..|vs| - 1]); }
  }

  lemma RestIs(s: string)
    ensures Rest(s) == if FirstSpace(s) < |s| then s[FirstSpace(s)..] else ""
  {}

  lemma RebuildSnoc(vs: seq<string>, value: string)
    ensures Rebuild(vs + [value]) == Cut(value) + Rest(Rebuild(vs))
  {
    assert (vs + [value])[..|vs|] == vs;
  }

  lemma FitsSnoc(vs: seq<string>, value: string)
    ensures FitsAlong(vs + [value]) <==> FitsAlong(vs) && |Rebuild(vs + [value])| <= BUFSIZE
  {
    hide Rebuild;
    var more := vs + [value];
    assert more[..|more|] == more;
    forall i | 0 <= i <= |vs| ensures more[..i] == vs[..i] {}
  }

  lemma FitsPrefix(all: seq<string>, n: nat)
    requires n <= |all| && FitsAlong(all)
    ensures FitsAlong(all[..n])
  {
    hide Rebuild;
    forall i | 0 <= i <= n ensures all[..n][..i] == all[..i] {}
  }

  /** The `strcat` for the `i`-th value has room. */
  predicate TurnFits(vs: seq<string>, i: nat)
    requires i < |vs|
  {
    |Cut(vs[i])| + |Rests(vs[..i])| <= BUFSIZE
  }

  lemma RebuildLength(vs: seq<string>, i: nat)
    requires i < |vs|
    ensures |Rebuild(vs[..i + 1])| == |Cut(vs[i])| + |Rests(vs[..i])|
  {
    assert vs[..i + 1][..i] == vs[..i];
    RestOfRebuild(vs[..i]);
  }

  /** Whether everything fits, by the lengths of the values and of their rests. */
  lemma FitsByLengths(vs: seq<string>, command: string)
    ensures FitsAlong(vs) <==> forall i :: 0 <= i < |vs| ==> TurnFits(vs, i)
    ensures var whole := if vs == [] then 0 else |Cut(vs[|vs| - 1])| + |Rests(vs[..|vs| - 1])|;
      Fits(vs, command) <==> FitsAlong(vs) && (whole == 0 || whole + |Rest(command)| <= BUFSIZE)
  {
    hide Cut, Rests, Rest;
    if FitsAlong(vs) {
      forall i | 0 <= i < |vs| ensures TurnFits(vs, i) {
        RebuildLength(vs, i);
        assert |Rebuild(vs[..i + 1])| <= BUFSIZE;
      }
    }
    if forall i :: 0 <= i < |vs| ==> TurnFits(vs, i) {
      forall i | 0 <= i <= |vs| ensures |Rebuild(vs[..i])| <= BUFSIZE {
        if i > 0 { assert TurnFits(vs, i - 1); RebuildLength(vs, i - 1); }
      }
    }
    if vs != [] { RebuildLength(vs, |vs| - 1); }
    assert vs[..|vs|] == vs;
  }

  /** One alias as long as the buffer overfills it when the command has an argument. */
  lemma LongAliasOverflows(value: string)
    requires |value| == 1024 && ' ' !in value
    ensures var m := map["a" := value];
      Chain(m, {}, Head("a b")) == [value] && !Fits(Chain(m, {}, Head("a b")), "a b")
  {
    var m := map["a" := value];
    var used: set<string> := {};
    assert Head("a b") == "a" && Rest("a b") == " b" by {
      assert "a b"[1..] == " b";
      assert FirstSpace(" b") == 0;
      assert FirstSpace("a b") == 1;
    }
    assert FirstSpace(value) == |value|;
    assert Head(value) == value;
    assert Chain(m, used + {"a"}, value) == [];
    assert Rebuild([]) == "";
    assert [value][..0] == [];
    assert Rebuild([value]) == value;
  }

  /** The lengths of the values together. */
  function Total(vs: seq<string>): nat {
    if vs == [] then 0 else Total(vs[..|vs| - 1]) + |vs[|vs| - 1]|
  }

  lemma {:induction false} RebuildIsShort(vs: seq<string>, i: nat)
    requires i <= |vs|
    ensures |Rebuild(vs[..i])| <= Total(vs[..i]) <= Total(vs)
    decreases |vs|
  {
    var n := |vs| - 1;
    if i <= n {
      RebuildIsShort(vs[..n], i);
      assert vs[..n][..i] == vs[..i];
    } else if i > 0 {
      RebuildIsShort(vs[..n], n);
      assert vs[..n][..n] == vs[..n] && vs[..i] == vs;
    }
  }

  /** If the command and the values of its chain are together no longer than the buffer,
      everything fits and nothing is cut. */
  lemma ShortTextsFit(vs: seq<string>, command: string)
    requires Total(vs) + |command| <= 1024
    ensures Fits(vs, command)
    ensures Cut(command) == command && forall i :: 0 <= i < |vs| ==> Cut(vs[i]) == vs[i]
  {
    forall i | 0 <= i <= |vs| ensures |Rebuild(vs[..i])| <= Total(vs[..i]) <= Total(vs) {
      RebuildIsShort(vs, i);
    }
    assert vs[..|vs|] == vs;
    forall i | 0 <= i < |vs| ensures Cut(vs[i]) == vs[i] {
      assert vs[..i + 1][|vs[..i + 1]| - 1] == vs[i];
    }
  }

  // ---------- The chain ----------

  function Range(ks: seq<string>): set<string> {
    set k | k in ks
  }

  lemma RangeCons(k: string, ks: seq<string>)
    ensures Range([k] + ks) == {k} + Range(ks)
  {}

  /** No key of `ks` is expanded twice, every value is that of its key, and each key is the head
      word of the value before it. The chain ends at a word that is no alias or has been used. */
  ghost predicate Maximal(m: map<string, string>, used: set<string>, word: string, ks: seq<string>, vs: seq<string>) {
    && |ks| == |vs|
    && (forall i :: 0 <= i < |ks| ==> ks[i] in m && ks[i] !in used && vs[i] == m[ks[i]])
    && (forall i, j :: 0 <= i < j < |ks| ==> ks[i] != ks[j])
    && (ks != [] ==> ks[0] == word)
    && (forall i :: 0 < i < |ks| ==> Follows(ks, vs, i))
    && (LastWord(word, vs) !in m || LastWord(word, vs) in used + Range(ks))
  }

  predicate Follows(ks: seq<string>, vs: seq<string>, i: nat)
    requires |ks| == |vs| && 0 < i < |ks|
  {
    ks[i] == Head(vs[i - 1])
  }

  /** The last word looked up. */
  function LastWord(word: string, vs: seq<string>): string {
    if vs == [] then word else Head(vs[|vs| - 1])
  }

  lemma MaximalCons(m: map<string, string>, used: set<string>, word: string, ks: seq<string>, vs: seq<string>)
    requires word in m && word !in used && Maximal(m, used + {word}, Head(m[word]), ks, vs)
    ensures Maximal(m, used, word, [word] + ks, [m[word]] + vs)
  {
    hide Head, Range;
    var ks', vs' := [word] + ks, [m[word]] + vs;
    assert forall i :: 0 < i < |ks'| ==> ks'[i] == ks[i - 1] && vs'[i] == vs[i - 1];
    forall i | 0 < i < |ks'| ensures Follows(ks', vs', i) {
      if i > 1 { assert Follows(ks, vs, i - 1); }
    }
    RangeCons(word, ks);
    assert LastWord(word, vs') == LastWord(Head(m[word]), vs);
  }

  lemma {:induction false} ChainIsMaximal(m: map<string, string>, used: set<string>, word: string)
    ensures Maximal(m, used, word, ChainKeys(m, used, word), Chain(m, used, word))
    decreases |m.Keys - used|
  {
    if word !in m || word in used {
    } else {
      hide Maximal;
      Shrinks(m, used, word);
      ChainIsMaximal(m, used + {word}, Head(m[word]));
      MaximalCons(m, used, word, ChainKeys(m, used + {word}, Head(m[word])), Chain(m, used + {word}, Head(m[word])));
    }
  }

  /** A chain is at most as long as there are unused aliases, so expansion ends, cycles or
      not. */
  lemma {:induction false} ChainIsShort(m: map<string, string>, used: set<string>, word: string)
    ensures |Chain(m, used, word)| <= |m.Keys - used|
    decreases |m.Keys - used|
  {
    if word !in m || word in used {
    } else {
      Shrinks(m, used, word);
      ChainIsShort(m, used + {word}, Head(m[word]));
    }
  }

  lemma CutHead(s: string)
    ensures Head(Cut(s)) == Cut(Head(s))
  {
    if |s| > BUFSIZE {
      FirstSpaceConcat(s[..BUFSIZE], s[BUFSIZE..]);
      assert s == s[..BUFSIZE] + s[BUFSIZE..];
    }
  }

  /** The head word that decides the end of the expansion: that of the last value, or that of the
      command if nothing was rebuilt. */
  function FinalWord(m: map<string, string>, used: set<string>, command: string): string {
    var vs := Chain(m, used, Head(command));
    if Rebuild(vs) == "" then Head(command) else LastWord(Head(command), vs)
  }

  /** A word that cannot be expanded any more: no alias, or one that was used. */
  predicate Settled(m: map<string, string>, used: set<string>, command: string, word: string) {
    word !in m || word in used + Range(ChainKeys(m, used, Head(command)))
  }

  /** The head word of the result is the final word, cut to the buffer. The final word is settled,
      so the head of the result is too, except exactly when the final word is longer than the buffer
      and its first BUFSIZE characters name an alias that was not used. */
  lemma ResultIsExpanded(m: map<string, string>, used: set<string>, command: string)
    ensures var w := FinalWord(m, used, command);
      && Head(Expansion(m, used, command)) == Cut(w)
      && Settled(m, used, command, w)
      && (!Settled(m, used, command, Head(Expansion(m, used, command))) <==>
            |w| > BUFSIZE && !Settled(m, used, command, w[..BUFSIZE]))
  {
    var vs := Chain(m, used, Head(command));
    ChainIsMaximal(m, used, Head(command));
    if Rebuild(vs) == "" {
      CutHead(command);
      if vs != [] { assert ChainKeys(m, used, Head(command))[0] == Head(command); }
    } else {
      var last := vs[|vs| - 1];
      RestConcat(Rebuild(vs), command);
      RestConcat(Cut(last), Rebuild(vs[..|vs| - 1]));
      CutHead(last);
    }
  }

  /** So it happens with an alias whose name fills the buffer and one whose value goes on after that
      name, although everything fits. */
  lemma LongWordIsNotExpanded(name: string, value: string)
    requires |name| == 1024 && ' ' !in name
    ensures var m := map["a" := name + "x", name := value];
      && Fits(Chain(m, {}, Head("a")), "a")
      && Expansion(m, {}, "a") == name && name in m && !Settled(m, {}, "a", Head(Expansion(m, {}, "a")))
  {
    var m, long := map["a" := name + "x", name := value], name + "x";
    var used: set<string> := {};
    assert FirstSpace(name) == |name| && FirstSpace(long) == |long| && FirstSpace("a") == 1;
    assert Head(name) == name && Head(long) == long && Head("a") == "a" && Rest("a") == "";
    assert long != "a" && long != name && name != "a";
    assert Chain(m, used + {"a"}, long) == [] && ChainKeys(m, used + {"a"}, long) == [];
    var vs := [long];
    assert Chain(m, {}, "a") == vs && ChainKeys(m, {}, "a") == ["a"];
    assert Cut(long) == name && Rebuild([]) == "" && vs[..0] == [] && vs[..1] == vs;
    assert Rest("") == "" && Rebuild(vs) == name;
    assert Range(["a"]) == {"a"};
  }

  // ---------- The simplest expansions ----------

  /** Arguments as they follow a command word: nothing, or a space and more. */
  predicate Arguments(args: string) {
    args == "" || args[0] == ' '
  }

  lemma WordAndArguments(word: string, args: string)
    requires ' ' !in word && Arguments(args)
    ensures Head(word + args) == word && Rest(word + args) == args
  {
    assert FirstSpace(word) == |word|;
    FirstSpaceConcat(word, args);
  }

  /** A command whose word is no alias stays as it is. */
  lemma NoAlias(m: map<string, string>, word: string, args: string)
    requires ' ' !in word && Arguments(args) && word !in m && |word + args| <= 1024
    ensures Fits(Chain(m, {}, Head(word + args)), word + args)
    ensures Expansion(m, {}, word + args) == word + args
  {
    WordAndArguments(word, args);
    assert Chain(m, {}, word) == [];
    ShortTextsFit([], word + args);
  }

  /** A command whose word stands for `value + more`, where `value` is no alias or is the word
      itself, becomes that text with the arguments of the command after it. */
  lemma OneAlias(m: map<string, string>, word: string, args: string, value: string, more: string)
    requires ' ' !in word && ' ' !in value && value != "" && Arguments(args) && Arguments(more)
    requires word in m && m[word] == value + more && (value !in m || value == word)
    requires |value + more| + |word + args| <= 1024
    ensures Fits(Chain(m, {}, Head(word + args)), word + args)
    ensures Expansion(m, {}, word + args) == value + more + args
  {
    hide Fits;
    WordAndArguments(word, args);
    WordAndArguments(value, more);
    var used: set<string> := {};
    var vs := [value + more];
    assert Chain(m, used + {word}, value) == [];
    assert Chain(m, {}, word) == vs;
    assert vs[..0] == [] && vs[..1] == vs && Rebuild([]) == "" && Rest("") == "";
    assert Total([]) == 0 && Total(vs) == |value + more|;
    ShortTextsFit(vs, word + args);
    assert vs[0] == value + more;
    assert Rebuild(vs) == value + more;
  }

  /** Two aliases that stand for each other: each is expanded once, and the rest of each value is
      kept. */
  lemma AliasCycle(m: map<string, string>, a: string, b: string, x: string, y: string)
    requires ' ' !in a && ' ' !in b && a != b && a != "" && b != "" && Arguments(x) && Arguments(y)
    requires a in m && b in m && m[a] == b + x && m[b] == a + y
    requires |a + y| + |b + x| + |a| <= 1024
    ensures Expansion(m, {}, a) == a + y + x
  {
    WordAndArguments(a, "");
    WordAndArguments(b, x);
    WordAndArguments(a, y);
    assert a + "" == a;
    var used: set<string> := {};
    var vs := [b + x, a + y];
    assert used + {a} + {b} == {a, b};
    assert Chain(m, used + {a} + {b}, a) == [];
    assert Chain(m, used + {a}, b) == [a + y];
    assert Chain(m, used, a) == [b + x] + [a + y] == vs;
    assert vs[..1] == [b + x] && vs[..1][..0] == [] && vs[..2] == vs;
    assert Rebuild([]) == "" && Rest("") == "";
    CutKeeps(b + x);
    CutKeeps(a + y);
    assert Rebuild([b + x]) == b + x;
    assert Rebuild(vs) == a + y + x;
  }
}
