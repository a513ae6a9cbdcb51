/** `parseInput` of src/parser.c: the table-driven loop, its actions on three bounded buffers,
    the pending command and the output queue. */
module Parsers {
  import opened Options
  import opened Sequences
  import opened Text
  import opened ParserTables
  import opened Machine
  import opened TableDecoding
  import opened LineSpec
  import opened LineProofs
  import opened LineMeaning
  import opened Queues
  import opened AliasSpec
  import opened AliasTables

  // ---------- Buffers ----------

  /** The characters before the first NUL. */
  function CString(s: seq<char>): string {
    if s == [] || s[0] == NUL then "" else [s[0]] + CString(s[1..])
  }

  lemma {:induction false} CStringIs(s: seq<char>, n: nat)
    requires n < |s| && s[n] == NUL && NUL !in s[..n]
    ensures CString(s) == s[..n]
    decreases n
  {
    if n == 0 {
    } else {
      assert s[..n][0] == s[0];
      assert s[1..][..n - 1] == s[..n][1..];
      CStringIs(s[1..], n - 1);
      assert s[..n] == [s[0]] + s[1..][..n - 1];
    }
  }

  /** One of the buffers of `struct params` with its length. */
  class Capture {
    const data: array<char>
    var len: nat

    /** Of the captured text `t` the buffer holds what fits, and a NUL after it. */
    ghost predicate Holds(t: string)
      reads this, data
    {
      && data.Length == BUFSIZE + 1 && len == |Cut(t)|
      && data[..len] == Cut(t) && data[len] == NUL
    }

    /** A buffer as `malloc` gives it. */
    constructor ()
      ensures fresh(data) && data.Length == BUFSIZE + 1
    {
      data := new char[BUFSIZE + 1];
    }

    method Append(c: char, ghost t: string)
      requires Holds(t)
      modifies this`len, data
      ensures Holds(t + [c])
    {
      if len < BUFSIZE {
        data[len] := c;
        len := len + 1;
        data[len] := NUL;
      } else {
        assert Cut(t + [c]) == Cut(t);
      }
    }

    method Reset()
      requires data.Length == BUFSIZE + 1
      modifies this`len, data
      ensures Holds("")
    {
      len := 0;
      data[0] := NUL;
    }

    /** The buffer as a C string. */
    function String(): string
      reads this, data
    {
      CString(data[..])
    }

    lemma StringIs(t: string)
      requires Holds(t) && NUL !in t
      ensures String() == Cut(t)
    {
      assert data[..][..len] == data[..len];
      CStringIs(data[..], len);
    }

    /** What a buffer gives back in characters: the whole of a text of at most 1024, and the first
        1024 of a longer one, with the NUL inside the array. */
    lemma ReadsBack(t: string)
      requires Holds(t) && NUL !in t
      ensures data.Length == 1025 && data[len] == NUL
      ensures |t| <= 1024 ==> String() == t && len == |t|
      ensures |t| > 1024 ==> String() == t[..1024] && len == 1024
    {
      StringIs(t);
      CutKeeps(t);
    }
  }

  // ---------- Commands ----------

  class Command {
    var argv: seq<string>
    var path: Option<string>
    var redirectFromPath: Option<string>
    var redirectToPath: Option<string>
    var connectionMask: Mask

    /** `commandNew`. */
    constructor ()
      ensures View() == Expanded([], None, None, None, NoConnection)
    {
      argv, path, redirectFromPath, redirectToPath, connectionMask := [], None, None, None, NoConnection;
    }

    ghost function View(): (e: Expanded)
      reads this
      ensures e.argv == argv && e.path == path && e.mask == connectionMask
      ensures e.from == redirectFromPath && e.to == redirectToPath
    {
      Expanded(argv, path, redirectFromPath, redirectToPath, connectionMask)
    }
  }

  /** The pending texts hold no NUL. */
  predicate Clean(m: Config) {
    m.pending.Some? ==> NoNul(m.pending.value)
  }

  // ---------- Transitions ----------

  /** The search of the execution loop finds the transition of the pure machine. */
  method FindTransition(cs: nat, c: char) returns (target: nat, off: nat)
    requires 1 <= cs < 15
    ensures ListOk(off) && Delta(cs, c) == (target, ActionsAt(off))
  {
    hide Delta, ActionsAt, Scan, TRANS_KEYS, INDICIES, SortedSingles, SortedRanges;
    TablesEncodeDelta(cs, c);
    var i := Search(TRANS_KEYS, KEY_OFFSETS[cs], SINGLE_LENGTHS[cs], RANGE_LENGTHS[cs], c as int);
    var trans := INDICIES[INDEX_OFFSETS[cs] + i];
    target, off := TRANS_TARGS[trans], TRANS_ACTIONS[trans];
  }

  // ---------- The parser ----------

  /** How far the parser has come: it goes on; word expansion has failed; or a `strcat` of alias
      expansion has had no room, after which nothing is promised. */
  datatype Progress = Going | Failed | Overflowed

  class Parser {
    const wordexp: Wordexp
    const aliases: AliasTable
    const buffer: Capture
    const stdin: Capture
    const stdout: Capture
    var cs: nat
    var command: Command?
    var queue: Queue<Command>

    /** The alias texts, which a run does not change. */
    ghost const am: map<string, string>
    /** The commands in the queue; every command that was created; and every one that was
        freed, in order. */
    ghost var queued: seq<Command>
    ghost var made: seq<Command>
    ghost var freed: seq<Command>

    ghost predicate Apart() {
      && buffer != stdin && buffer != stdout && stdin != stdout
      && buffer.data != stdin.data && buffer.data != stdout.data && stdin.data != stdout.data
      && buffer.data.Length == stdin.data.Length == stdout.data.Length == BUFSIZE + 1
    }

    ghost function Captures(): set<Capture> {
      {buffer, stdin, stdout}
    }

    ghost function Arrays(): set<array<char>> {
      {buffer.data, stdin.data, stdout.data}
    }

    ghost predicate Buffers(r: Raw)
      reads buffer, stdin, stdout, buffer.data, stdin.data, stdout.data
    {
      buffer.Holds(r.text) && stdin.Holds(r.input) && stdout.Holds(r.output)
    }

    /** The pending command, if any, and its texts. */
    ghost predicate Pending(r: Option<Raw>)
      reads this`command, command, buffer, stdin, stdout, buffer.data, stdin.data, stdout.data
    {
      && (command != null <==> r.Some?)
      && (command != null ==>
            && Buffers(r.value) && command.connectionMask == r.value.mask
            && command.redirectFromPath == None && command.redirectToPath == None)
    }

    /** The commands `cs` are `es`. */
    static ghost predicate Shows(cs: seq<Command>, es: seq<Expanded>)
      reads cs
    {
      |cs| == |es| && forall i :: 0 <= i < |es| ==> cs[i].View() == es[i]
    }

    ghost predicate Queued()
      reads this`queue, this`queued, queue, queue.nodeSet
    {
      queue.Valid() && queue.Contents() == queued && queue.freed == []
    }

    /** Every command ever created is in the queue or pending, once. */
    ghost predicate Counted()
      reads this`command, this`queued, this`made, this`freed
    {
      && made == queued + (if command == null then [] else [command])
      && NoRepeats(made) && freed == []
    }

    /** The state is that of the pure machine, and every finished command has expanded. */
    ghost predicate Tied(m: Config)
      reads this, command, buffer, stdin, stdout, buffer.data, stdin.data, stdout.data
      reads queue, queue.nodeSet, queued
    {
      && Apart() && cs == m.cs && Pending(m.pending) && Counted() && Queued()
      && (m.pending.None? && m.done == [] ==> buffer.len == 0)
      && Shows(queued, Commands(wordexp, am, m.done)) && |queued| == |m.done|
      && CommandsFit(wordexp, am, m.done)
    }

    /** Word expansion has failed: the queue holds the commands before the failure. */
    ghost predicate Stopped(done: seq<Raw>)
      reads this, queue, queue.nodeSet, queued
    {
      && Counted() && command != null && Queued()
      && Shows(queued, Commands(wordexp, am, done)) && |queued| < |done|
      && CommandsFit(wordexp, am, done)
    }

    /** The pure machine is in `m`, or would be if nothing had stopped the parser. */
    ghost predicate Reached(p: Progress, m: Config)
      reads this, command, buffer, stdin, stdout, buffer.data, stdin.data, stdout.data
      reads queue, queue.nodeSet, queued
    {
      match p
      case Going => Tied(m)
      case Failed => Stopped(m.done)
      case Overflowed => !CommandsFit(wordexp, am, m.done)
    }

    /** What has stopped the parser stays so whatever the rest of the line would have given. */
    lemma StillReached(p: Progress, m: Config, f: Config)
      requires Reached(p, m) && p != Going && m.done <= f.done
      ensures Reached(p, f)
    {
      hide Counted, Queued, Commands, CommandsFit;
      FitsEarly(wordexp, am, m.done, f.done);
      assert f.done == m.done + f.done[|m.done|..];
      CommandsConcat(wordexp, am, m.done, f.done[|m.done|..]);
    }

    /** No alias is in use. */
    ghost predicate Idle()
      requires aliases.Valid()
      reads aliases.table, aliases.table.table, aliases.table.nodes, set e | e in aliases.table.nodes :: e.value
    {
      aliases.Map() == am && aliases.InUse() == {}
    }

    constructor (wordexp: Wordexp, aliases: AliasTable, ghost am: map<string, string>)
      ensures this.wordexp == wordexp && this.aliases == aliases && this.am == am
      ensures Tied(INITIAL) && command == null
      ensures fresh(Captures()) && fresh(Arrays()) && fresh(queue) && fresh(queue.nodeSet)
    {
      hide Tied;
      this.wordexp, this.aliases, this.am := wordexp, aliases, am;
      buffer := new Capture();
      stdin := new Capture();
      stdout := new Capture();
      cs, command, queued, made, freed := START, null, [], [], [];
      queue := new Queue();
      new;
      buffer.len := 0;
      TiedAtStart();
    }

    lemma TiedAtStart()
      requires Apart() && cs == START && command == null && queued == made == freed == [] && buffer.len == 0
      requires queue.Valid() && queue.Contents() == [] && queue.freed == []
      ensures Tied(INITIAL)
    {}

    /** The three appending actions. */
    method AppendTo(act: Action, c: char, ghost m: Config)
      requires act == Append || act == AppendIn || act == AppendOut
      requires Tied(m) && Ready(act, c, m)
      modifies Captures(), Arrays()
      ensures Tied(Do(act, c, m))
    {
      hide Queued, Commands;
      ghost var r := m.pending.value;
      if act == Append {
        buffer.Append(c, r.text);
      } else if act == AppendIn {
        stdin.Append(c, r.input);
      } else {
        stdout.Append(c, r.output);
      }
    }

    /** `new`. */
    method New(c: char, ghost m: Config)
      requires Tied(m) && Ready(Action.New, c, m)
      modifies this`command, this`made, Captures(), Arrays()
      ensures Tied(Do(Action.New, c, m)) && fresh(command)
    {
      hide Queued, Commands, Buffers, NoRepeats;
      ClearBuffers();
      var created := new Command();
      NewIsFresh(made, created);
      command := created;
      made := made + [command];
    }

    method ClearBuffers()
      requires Apart()
      modifies Captures(), Arrays()
      ensures Buffers(EMPTY_RAW)
    {
      buffer.Reset();
      stdin.Reset();
      stdout.Reset();
    }

    lemma NewIsFresh(s: seq<Command>, c: Command)
      requires NoRepeats(s) && c !in s
      ensures NoRepeats(s + [c])
    {}

    lemma PendingApart()
      requires Counted() && command != null
      ensures command !in queued
    {
      forall i | 0 <= i < |queued| ensures queued[i] != command {
        assert made[i] == queued[i] && made[|queued|] == command;
      }
    }

    /** The actions that set the connection mask. */
    method Connect(act: Action, c: char, ghost m: Config)
      requires act == PipeSep || act == Bg || act == SeqSep
      requires Tied(m) && Ready(act, c, m)
      modifies command
      ensures Tied(Do(act, c, m))
    {
      hide Commands, Queued;
      PendingApart();
      if act == PipeSep {
        command.connectionMask := Pipe;
      } else if act == Bg {
        command.connectionMask := Background;
      } else if command.connectionMask != Background {
        command.connectionMask := Sequential;
      }
    }

    /** `term`. */
    method Term(c: char, ghost m: Config) returns (p: Progress)
      requires Tied(m) && Ready(Action.Term, c, m) && Clean(m)
      requires aliases.Valid() && Idle()
      modifies this`command, this`queued, command, queue, queue.nodeSet, aliases.Aliases()`inUse
      ensures aliases.Valid() && aliases.Aliases() == old(aliases.Aliases()) && (p != Overflowed ==> Idle())
      ensures Reached(p, Do(Action.Term, c, m))
      ensures fresh(queue.nodeSet - old(queue.nodeSet)) && (command == null || command == old(command))
    {
      hide Tied, Reached, Do, Ready, CommandFits, CommandsFit, Idle;
      hide aliases.Valid, aliases.Map, aliases.InUse, aliases.Aliases;
      p := Going;
      HasCommand(c, m);
      GoesOn(m);
      if buffer.len > 0 {
        PendingFits(c, m);
        var tmp := ExpandPending(m);
        if tmp.None? {
          Overflows(Do(Action.Term, c, m));
          return Overflowed;
        }
        p := TermWords(tmp.value, c, m);
      }
    }

    lemma PendingFits(c: char, m: Config)
      requires Tied(m) && m.pending.Some? && m.pending.value.text != ""
      ensures CommandsFit(wordexp, am, Do(Action.Term, c, m).done) <==> CommandFits(am, m.pending.value)
    {
      hide Pending, Counted, Queued, Apart, Commands, CommandsFit;
      CommandsFitSnoc(wordexp, am, m.done, m.pending.value);
    }

    /** The length of the command text tells whether there is a command to finish. */
    lemma HasCommand(c: char, m: Config)
      requires Tied(m) && Ready(Action.Term, c, m)
      ensures buffer.len > 0 ==> m.pending.Some? && m.pending.value.text != ""
      ensures buffer.len == 0 ==> Do(Action.Term, c, m) == m
    {
      hide Queued, Counted, Commands;
    }

    /** The command text after alias expansion, if it fits. */
    method ExpandPending(ghost m: Config) returns (tmp: Option<string>)
      requires Tied(m) && m.pending.Some? && Clean(m)
      requires aliases.Valid() && Idle()
      modifies aliases.Aliases()`inUse
      ensures aliases.Valid() && aliases.Aliases() == old(aliases.Aliases())
      ensures tmp.Some? <==> CommandFits(am, m.pending.value)
      ensures tmp.Some? ==> Idle() && Tied(m) && tmp.value == Expansion(am, {}, Cut(m.pending.value.text))
    {
      hide Commands, Expansion, Fits, Chain, Queued, Counted, Apart, CommandsFit;
      hide aliases.Valid, aliases.Aliases, aliases.Map, aliases.InUse;
      buffer.StringIs(m.pending.value.text);
      tmp := ExpandAlias(aliases, buffer.String());
    }

    /** Word expansion, and the command goes to the queue if that works. */
    method TermWords(tmp: string, c: char, ghost m: Config) returns (p: Progress)
      requires Tied(m) && m.pending.Some? && m.pending.value.text != "" && Clean(m)
      requires tmp == Expansion(am, {}, Cut(m.pending.value.text))
      requires CommandsFit(wordexp, am, Do(Action.Term, c, m).done)
      modifies this`command, this`queued, command, queue, queue.nodeSet
      ensures p != Overflowed && Reached(p, Do(Action.Term, c, m))
      ensures fresh(queue.nodeSet - old(queue.nodeSet)) && (command == null || command == old(command))
    {
      hide Commands, Expansion, Queued, Counted, Apart, CommandsFit;
      ghost var r, es := m.pending.value, Commands(wordexp, am, m.done);
      CommandsSnoc(wordexp, am, m.done, r);
      var ok := FillIn(tmp, r, es);
      if ok { Enqueue(es); }
      p := if ok then Going else Failed;
    }

    /** The words and the redirections of the pending command. */
    method FillIn(tmp: string, ghost r: Raw, ghost es: seq<Expanded>) returns (ok: bool)
      requires command != null && Pending(Some(r)) && NoNul(r) && Counted() && Shows(queued, es)
      requires tmp == Expansion(am, {}, Cut(r.text))
      modifies command
      ensures ok == ExpandCommand(wordexp, am, r).Some? && Shows(queued, es)
      ensures ok ==> command.View() == ExpandCommand(wordexp, am, r).value
    {
      hide Expansion;
      PendingApart();
      match wordexp(tmp)
      case None => ok := false;
      case Some(words) =>
        command.argv := words;
        command.path := FirstWord(command.argv);
        if stdin.len > 0 {
          stdin.StringIs(r.input);
          command.redirectFromPath := Expand(wordexp, stdin.String());
        }
        if stdout.len > 0 {
          stdout.StringIs(r.output);
          command.redirectToPath := Expand(wordexp, stdout.String());
        }
        ok := true;
    }

    method Enqueue(ghost es: seq<Expanded>)
      requires command != null && Counted() && Queued() && Shows(queued, es)
      modifies this`command, this`queued, queue, queue.nodeSet
      ensures command == null && Counted() && Queued() && Shows(queued, es + [old(command.View())])
      ensures fresh(queue.nodeSet - old(queue.nodeSet))
    {
      hide NoRepeats, queue.Valid, queue.Contents;
      queue.Insert(command);
      queued := queued + [command];
      command := null;
    }

    // ---------- Action lists ----------

    static lemma DoClean(act: Action, c: char, m: Config)
      requires Clean(m) && Ready(act, c, m)
      ensures Clean(Do(act, c, m))
    {}

    lemma TiedState(m: Config)
      requires Tied(m)
      ensures cs == m.cs
    {
      hide Pending, Counted, Queued, Apart, Commands, CommandsFit;
    }

    /** One case of the switch. */
    method DoAction(code: nat, c: char, ghost m: Config) returns (p: Progress)
      requires Tied(m) && Ready(ActionOf(code), c, m) && Clean(m)
      requires aliases.Valid() && Idle()
      modifies this`command, this`queued, this`made, command, queue, queue.nodeSet
      modifies Captures(), Arrays(), aliases.Aliases()`inUse
      ensures aliases.Valid() && aliases.Aliases() == old(aliases.Aliases()) && (p != Overflowed ==> Idle())
      ensures Reached(p, Do(ActionOf(code), c, m))
      ensures fresh(queue.nodeSet - old(queue.nodeSet))
      ensures command == null || command == old(command) || fresh(command)
    {
      hide Tied, Stopped, Do, CommandsFit, Clean;
      hide Idle, aliases.Valid, aliases.Aliases, aliases.Map, aliases.InUse;
      p := Going;
      if code == 4 {
        p := Term(c, m);
      } else if code == 3 {
        New(c, m);
      } else if code <= 2 {
        AppendTo(ActionOf(code), c, m);
      } else {
        Connect(ActionOf(code), c, m);
      }
    }

    /** The list of actions of a transition. */
    method RunActions(off: nat, c: char, ghost m: Config) returns (p: Progress)
      requires ListOk(off) && Tied(m) && ReadyAll(ActionsAt(off), c, m) && Clean(m)
      requires aliases.Valid() && Idle()
      modifies this`command, this`queued, this`made, command, queue, queue.nodeSet
      modifies Captures(), Arrays(), aliases.Aliases()`inUse
      ensures aliases.Valid() && aliases.Aliases() == old(aliases.Aliases()) && (p != Overflowed ==> Idle())
      ensures Reached(p, DoAll(ActionsAt(off), c, m)) && (p != Going ==> ActionsAt(off) != [])
      ensures fresh(queue.nodeSet - old(queue.nodeSet))
      ensures command == null || command == old(command) || fresh(command)
    {
      hide Tied, Reached, Do, DoAll, Ready, ReadyAll, Clean, ActionsFrom, Captures, Arrays;
      hide Idle, aliases.Valid, aliases.Aliases, aliases.Map, aliases.InUse;
      var acts: nat, nacts: nat := off + 1, ACTION_LISTS[off];
      ghost var k := m;
      if nacts > 0 { FirstAction(acts, nacts, c, m); }
      while nacts > 0
        invariant acts + nacts == off + 1 + ACTION_LISTS[off]
        invariant Tied(k) && ReadyAll(ActionsFrom(acts, nacts), c, k) && Clean(k)
        invariant DoAll(ActionsFrom(acts, nacts), c, k) == DoAll(ActionsAt(off), c, m)
        invariant aliases.Valid() && Idle() && aliases.Aliases() == old(aliases.Aliases())
        invariant fresh(queue.nodeSet - old(queue.nodeSet))
        invariant command == null || command == old(command) || fresh(command)
      {
        FirstAction(acts, nacts, c, k);
        ghost var k' := Do(ActionOf(ACTION_LISTS[acts]), c, k);
        DoAllGrows(ActionsFrom(acts + 1, nacts - 1), c, k');
        p := DoAction(ACTION_LISTS[acts], c, k);
        if p != Going {
          StillReached(p, k', DoAll(ActionsAt(off), c, m));
          return;
        }
        GoesOn(k');
        DoClean(ActionOf(ACTION_LISTS[acts]), c, k);
        k, acts, nacts := k', acts + 1, nacts - 1;
      }
      NoActions(acts, c, k);
      GoesOn(k);
      p := Going;
    }

    lemma Overflows(m: Config)
      requires !CommandsFit(wordexp, am, m.done)
      ensures Reached(Overflowed, m)
    {
      hide CommandsFit;
    }

    lemma GoesOn(m: Config)
      ensures Reached(Going, m) <==> Tied(m)
    {
      hide Tied;
    }

    static lemma FirstAction(acts: nat, nacts: nat, c: char, m: Config)
      requires 0 < nacts && acts + nacts <= |ACTION_LISTS|
      ensures ActionsFrom(acts, nacts) != []
      ensures var act, rest := ActionOf(ACTION_LISTS[acts]), ActionsFrom(acts + 1, nacts - 1);
        var all := ActionsFrom(acts, nacts);
        && DoAll(all, c, m) == DoAll(rest, c, Do(act, c, m))
        && (ReadyAll(all, c, m) <==> Ready(act, c, m) && ReadyAll(rest, c, Do(act, c, m)))
    {
      hide Do, Ready, ActionOf;
      assert ActionsFrom(acts, nacts)[1..] == ActionsFrom(acts + 1, nacts - 1);
    }

    static lemma NoActions(acts: nat, c: char, m: Config)
      requires acts <= |ACTION_LISTS|
      ensures DoAll(ActionsFrom(acts, 0), c, m) == m
    {}

    // ---------- The execution loop ----------

    /** One turn: the search in the tables, the transition, its actions. */
    method Resume(c: char, ghost m: Config) returns (p: Progress)
      requires Tied(m) && StateInv(m) && 1 <= cs < 15
      requires aliases.Valid() && Idle()
      modifies this`cs, this`command, this`queued, this`made, command, queue, queue.nodeSet
      modifies Captures(), Arrays(), aliases.Aliases()`inUse
      ensures aliases.Valid() && aliases.Aliases() == old(aliases.Aliases()) && (p != Overflowed ==> Idle())
      ensures Reached(p, Step(m, c)) && (p != Going ==> cs != ERROR)
      ensures fresh(queue.nodeSet - old(queue.nodeSet))
      ensures command == null || command == old(command) || fresh(command)
    {
      hide Tied, Reached, Do, DoAll, ReadyAll, Clean;
      hide Idle, aliases.Valid, aliases.Aliases, aliases.Map, aliases.InUse;
      hide Delta, ActionsAt, StateInv, Step, ListOk;
      TiedState(m);
      var off := Move(c, m);
      TransitionStep(m, c, cs, off);
      p := Going;
      GoesOn(m.(cs := cs));
      if off != 0 {
        p := RunActions(off, c, m.(cs := cs));
      }
    }

    static lemma TransitionStep(m: Config, c: char, target: nat, off: nat)
      requires StateInv(m) && 1 <= m.cs < 15 && ListOk(off) && Delta(m.cs, c) == (target, ActionsAt(off))
      ensures var m0 := m.(cs := target);
        && Step(m, c) == DoAll(ActionsAt(off), c, m0)
        && ReadyAll(ActionsAt(off), c, m0) && Clean(m0)
        && (off == 0 ==> Step(m, c) == m0) && (ActionsAt(off) != [] ==> target != ERROR)
    {
      hide Delta, ReadyAll, Do, Phase;
      assert ActionsAt(0) == [];
      StepKeeps(m, c);
    }

    /** The next state, and where its actions are. */
    method Move(c: char, ghost m: Config) returns (off: nat)
      requires Tied(m) && 1 <= cs < 15
      modifies this`cs
      ensures ListOk(off) && Delta(m.cs, c) == (cs, ActionsAt(off)) && Tied(m.(cs := cs))
    {
      hide Commands, Delta, ActionsAt, ListOk;
      cs, off := FindTransition(cs, c);
    }

    /** The loop over the line and the NUL at its end. */
    method Execute(line: string) returns (p: Progress)
      requires IsCString(line) && Tied(INITIAL)
      requires aliases.Valid() && Idle()
      modifies this`cs, this`command, this`queued, this`made, command, queue, queue.nodeSet
      modifies Captures(), Arrays(), aliases.Aliases()`inUse
      ensures aliases.Valid() && (p != Overflowed ==> Idle())
      ensures Reached(p, Run(INITIAL, line + [NUL])) && (p != Going ==> cs != ERROR)
    {
      hide Tied, Reached, Step, Run, OnTrack, StateInv, IsCString;
      hide Idle, aliases.Valid, aliases.Aliases, aliases.Map, aliases.InUse;
      ghost var f, m := Run(INITIAL, line + [NUL]), INITIAL;
      AtStart(line, f);
      TiedState(INITIAL);
      var i: nat := 0;
      while cs != ERROR && i < |line| + 1
        invariant i <= |line| + 1 && m.cs == cs
        invariant Tied(m) && OnTrack(m, line, i, f)
        invariant aliases.Valid() && Idle() && aliases.Aliases() == old(aliases.Aliases())
        invariant fresh(queue.nodeSet - old(queue.nodeSet))
        invariant command == null || command == old(command) || fresh(command)
        decreases |line| + 1 - i
      {
        var c := if i < |line| then line[i] else NUL;
        Turn(m, line, i, f);
        p := Resume(c, m);
        if p != Going {
          StillReached(p, Step(m, c), f);
          return;
        }
        m, i := Step(m, c), i + 1;
        GoesOn(m);
        TiedState(m);
      }
      AtEnd(m, line, i, f);
      GoesOn(f);
      p := Going;
    }

    /** After `i` characters in configuration `m` the run of the whole line still leads to
        `f`. */
    static ghost predicate OnTrack(m: Config, line: string, i: nat, f: Config) {
      && i <= |line| + 1 && IsCString(line)
      && Run(m, (line + [NUL])[i..]) == f
      && StateInv(m)
      && (m.cs == 0 || 1 <= m.cs < 15 || i == |line| + 1)
    }

    static lemma AtStart(line: string, f: Config)
      requires IsCString(line) && f == Run(INITIAL, line + [NUL])
      ensures OnTrack(INITIAL, line, 0, f)
    {
      hide Run;
      assert (line + [NUL])[0..] == line + [NUL];
    }

    /** What one turn of the loop does to the pure machine. */
    static lemma Turn(m: Config, line: string, i: nat, f: Config)
      requires i < |line| + 1 && OnTrack(m, line, i, f) && m.cs != ERROR
      ensures 1 <= m.cs < 15 && StateInv(m)
      ensures var m' := Step(m, if i < |line| then line[i] else NUL);
        OnTrack(m', line, i + 1, f) && m'.done <= f.done
    {
      hide Step, StateInv;
      var s, c := line + [NUL], if i < |line| then line[i] else NUL;
      assert s[i] == c;
      StepKeeps(m, c);
      assert s[i..][0] == s[i] && s[i..][1..] == s[i + 1..];
      RunGrows(Step(m, c), s[i + 1..]);
      StepTarget(m, c);
    }

    static lemma StepTarget(m: Config, c: char)
      ensures Step(m, c).cs == Delta(m.cs, c).0
    {
      hide Delta;
      DoAllState(Delta(m.cs, c).1, c, m.(cs := Delta(m.cs, c).0));
    }

    static lemma {:induction false} DoAllState(acts: seq<Action>, c: char, m: Config)
      ensures DoAll(acts, c, m).cs == m.cs
    {
      if acts == [] {
      } else {
        DoAllState(acts[1..], c, Do(acts[0], c, m));
      }
    }

    static lemma AtEnd(m: Config, line: string, i: nat, f: Config)
      requires OnTrack(m, line, i, f) && (m.cs == ERROR || i == |line| + 1)
      ensures m == f
    {
      if m.cs == ERROR { RunError(m, (line + [NUL])[i..]); }
    }

    /** What follows the loop: after a syntax error the queue is dropped; a command that is
        still pending is freed. */
    method Finish(p: Progress, ghost f: Config)
      requires p != Overflowed && Reached(p, f) && (p != Going ==> cs != ERROR)
      modifies this, queue
      ensures queue == old(queue) || fresh(queue)
      ensures made == old(made)
      ensures queue.Valid() && made == queue.Contents() + freed && NoRepeats(made)
      ensures Shows(queue.Contents(), if p == Going && f.cs == ERROR then [] else Commands(wordexp, am, f.done))
    {
      hide Commands, Pending, Apart, CommandsFit;
      if cs == ERROR {
        queue.Free();
        freed := freed + queue.freed;
        queue := new Queue();
        queued := [];
      }
      if command != null {
        freed := freed + [command];
        command := null;
      }
    }

    /** The whole of `parseInput` after its allocations: `ok` if no `strcat` lacked room. */
    method ParseLine(line: string) returns (ok: bool)
      requires IsCString(line) && Tied(INITIAL)
      requires aliases.Valid() && Idle()
      modifies this, command, queue, queue.nodeSet
      modifies Captures(), Arrays(), aliases.Aliases()`inUse
      ensures aliases.Valid()
      ensures ok <==> CommandsFit(wordexp, am, Captured(line))
      ensures ok ==> Idle() && (queue == old(queue) || fresh(queue))
      ensures ok ==> queue.Valid() && Shows(queue.Contents(), Meaning(wordexp, am, line))
      ensures ok ==> made == queue.Contents() + freed && NoRepeats(made)
      ensures ok ==> |made| == CreatedBy(wordexp, am, Run(INITIAL, line + [NUL]))
    {
      hide Reached, Tied, Idle, CommandsFit, Commands, CreatedBy, Captured, Run, Meaning, Shows;
      hide queue.Valid, queue.Contents;
      hide aliases.Valid, aliases.Map, aliases.InUse, aliases.Aliases;
      ghost var f := Run(INITIAL, line + [NUL]);
      var p := Execute(line);
      LineIs(wordexp, am, line, f);
      Fitted(p, f);
      if p != Overflowed { MadeCount(p, f); }
      ok := p != Overflowed;
      if ok { Finish(p, f); }
    }

    lemma MadeCount(p: Progress, f: Config)
      requires Reached(p, f) && p != Overflowed
      ensures |made| == CreatedBy(wordexp, am, f)
    {
      hide Queued, Apart, Commands, CommandsFit, Buffers;
    }

    /** What the progress says about the whole line. */
    lemma Fitted(p: Progress, f: Config)
      requires Reached(p, f)
      ensures CommandsFit(wordexp, am, f.done) <==> p != Overflowed
      ensures p != Overflowed ==> (|Commands(wordexp, am, f.done)| == |f.done| <==> p == Going)
    {
      hide Pending, Counted, Queued, Apart, Commands, CommandsFit;
    }
  }

  /** `parseInput`: the commands of a line, given how aliases and words expand. Every command
      that was created is in the queue or was freed, once. Nothing is given for exactly the lines
      with a command whose alias expansion overfills its buffer. */
  method ParseInput(wordexp: Wordexp, aliases: AliasTable, line: string)
    returns (r: Option<Queue<Command>>, ghost made: seq<Command>, ghost freed: seq<Command>)
    requires IsCString(line) && aliases.Valid() && aliases.InUse() == {}
    modifies aliases.Aliases()`inUse
    ensures aliases.Valid()
    ensures r.Some? <==> CommandsFit(wordexp, old(aliases.Map()), Captured(line))
    ensures r.Some? ==> aliases.Map() == old(aliases.Map()) && aliases.InUse() == {}
    ensures r.Some? ==> fresh(r.value) && r.value.Valid()
    ensures r.Some? ==> Parser.Shows(r.value.Contents(), Meaning(wordexp, old(aliases.Map()), line))
    ensures r.Some? ==> made == r.value.Contents() + freed && NoRepeats(made)
    ensures r.Some? ==> |made| == CreatedBy(wordexp, old(aliases.Map()), Run(INITIAL, line + [NUL]))
  {
    ghost var am := aliases.Map();
    hide aliases.Valid, aliases.Map, aliases.InUse, aliases.Aliases, CommandsFit, Captured, Meaning, CreatedBy, Run;
    var parser := new Parser(wordexp, aliases, am);
    var ok := parser.ParseLine(line);
    r, made, freed := if ok then Some(parser.queue) else None, parser.made, parser.freed;
  }

  lemma LineIs(wordexp: Wordexp, am: map<string, string>, line: string, f: Config)
    requires IsCString(line) && f == Run(INITIAL, line + [NUL])
    ensures f.done == Captured(line) && (f.cs == ERROR <==> Parse(line).None?)
    ensures var es := Commands(wordexp, am, f.done);
      Meaning(wordexp, am, line) == if f.cs == ERROR && |es| == |f.done| then [] else es
  {
    hide Run, Parse, Finished, Commands;
    MachineComputesSpec(line);
  }
}
