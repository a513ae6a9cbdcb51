/** The machine computes LineSpec on every line. */
module LineProofs {
  import opened Options
  import opened Text
  import opened Machine
  import opened LineSpec

  /** The states that take the characters of a text, with their action. */
  predicate Body(cs: nat, act: Action) {
    match act
    case Append => cs == 2
    case AppendIn => cs == 7 || cs == 13
    case AppendOut => cs == 9 || cs == 11
    case _ => false
  }

  /** The states that skip blanks before a text, with the state and action of the text. */
  predicate Lead(lead: nat, body: nat, act: Action) {
    match lead
    case 5 => body == 2 && act == Append
    case 14 => body == 2 && act == Append
    case 6 => body == 7 && act == AppendIn
    case 8 => body == 9 && act == AppendOut
    case 10 => body == 11 && act == AppendOut
    case 12 => body == 13 && act == AppendIn
    case _ => false
  }

  /** `Edit` for a whole text. */
  function PutText(act: Action, t: string, r: Raw): Raw {
    match act
    case Append => r.(text := r.text + t)
    case AppendIn => r.(input := r.input + t)
    case AppendOut => r.(output := r.output + t)
    case _ => r
  }

  lemma PutPut(act: Action, t: string, u: string, r: Raw)
    ensures PutText(act, u, PutText(act, t, r)) == PutText(act, t + u, r)
    ensures PutText(act, "", r) == r
  {
    assert r.text + t + u == r.text + (t + u) && r.text + "" == r.text;
    assert r.input + t + u == r.input + (t + u) && r.input + "" == r.input;
    assert r.output + t + u == r.output + (t + u) && r.output + "" == r.output;
  }

  lemma StepBody(m: Config, act: Action, c: char)
    requires m.pending.Some? && Body(m.cs, act) && TextChar(c)
    ensures Step(m, c) == AfterText(m, m.cs, act, [c])
  {
    assert DoAll([act], c, m) == Do(act, c, m);
  }

  lemma StepLead(m: Config, body: nat, act: Action, c: char)
    requires m.pending.Some? && Lead(m.cs, body, act) && c != NUL
    ensures Blank(c) ==> Step(m, c) == m
    ensures WordChar(c) ==> Step(m, c) == AfterText(m, body, act, [c])
    ensures Operator(c) ==> Step(m, c) == m.(cs := 0)
  {
    assert DoAll([act], c, m.(cs := body)) == Do(act, c, m.(cs := body));
  }

  function AfterText(m: Config, cs: nat, act: Action, t: string): Config
    requires m.pending.Some?
  {
    m.(cs := cs, pending := Some(PutText(act, t, m.pending.value)))
  }

  lemma {:induction false} RunError(m: Config, s: string)
    requires m.cs == 0
    ensures Run(m, s) == m
    decreases |s|
  {
    if s == "" {
    } else {
      RunError(m, s[1..]);
    }
  }

  lemma {:induction false} RunBlanks(m: Config, body: nat, act: Action, s: string)
    requires m.pending.Some? && Lead(m.cs, body, act) && NUL !in s
    ensures Run(m, s) == Run(m, s[SpanBlank(s)..])
    decreases |s|
  {
    if s != "" && Blank(s[0]) {
      StepLead(m, body, act, s[0]);
      RunBlanks(m, body, act, s[1..]);
      assert s[1..][SpanBlank(s[1..])..] == s[SpanBlank(s)..];
    } else {
      assert s[SpanBlank(s)..] == s;
    }
  }

  lemma {:induction false} RunText(m: Config, act: Action, s: string)
    requires m.pending.Some? && Body(m.cs, act)
    ensures Run(m, s) == Run(AfterText(m, m.cs, act, s[..SpanText(s)]), s[SpanText(s)..])
    decreases |s|
  {
    if s != "" && TextChar(s[0]) {
      StepBody(m, act, s[0]);
      var m', n := Step(m, s[0]), SpanText(s[1..]);
      RunText(m', act, s[1..]);
      assert [s[0]] + s[1..][..n] == s[..n + 1] && s[1..][n..] == s[n + 1..];
      PutPut(act, [s[0]], s[1..][..n], m.pending.value);
    } else {
      assert s[..0] == "" && s[0..] == s;
      PutPut(act, "", "", m.pending.value);
    }
  }

  /** A text from its first character. */
  lemma RunFromWord(m: Config, body: nat, act: Action, a: string)
    requires m.pending.Some? && Lead(m.cs, body, act) && a != "" && WordChar(a[0])
    ensures Run(m, a) == Run(AfterText(m, body, act, a[..SpanText(a)]), a[SpanText(a)..])
  {
    hide Delta, Do, DoAll;
    StepLead(m, body, act, a[0]);
    var m', n := AfterText(m, body, act, [a[0]]), SpanText(a[1..]);
    assert Run(m, a) == Run(m', a[1..]);
    RunText(m', act, a[1..]);
    assert [a[0]] + a[1..][..n] == a[..n + 1] && a[1..][n..] == a[n + 1..];
    PutPut(act, [a[0]], a[1..][..n], m.pending.value);
  }

  /** Blanks and a text, or an error, or nothing but blanks. */
  lemma RunTakeText(m: Config, body: nat, act: Action, s: string)
    requires m.pending.Some? && Lead(m.cs, body, act) && NUL !in s
    ensures TakeText(s).Some? ==>
      Run(m, s) == Run(AfterText(m, body, act, TakeText(s).value.text), TakeText(s).value.rest)
    ensures TakeText(s).None? ==> Run(m, s) == if AllBlank(s) then m else m.(cs := 0)
    ensures AllBlank(s) ==> TakeText(s).None?
  {
    RunBlanks(m, body, act, s);
    SpanBlankProps(s);
    var a := s[SpanBlank(s)..];
    if a == "" {
      assert s[..SpanBlank(s)] == s;
    } else if WordChar(a[0]) {
      RunFromWord(m, body, act, a);
    } else {
      StepLead(m, body, act, a[0]);
      RunError(Step(m, a[0]), a[1..]);
    }
  }

  lemma {:induction false} SpanBlankProps(s: string)
    ensures AllBlank(s[..SpanBlank(s)])
    ensures SpanBlank(s) < |s| ==> !Blank(s[SpanBlank(s)])
  {
    if s == "" || !Blank(s[0]) {
    } else {
      SpanBlankProps(s[1..]);
      assert s[..SpanBlank(s)] == [s[0]] + s[1..][..SpanBlank(s[1..])];
    }
  }

  lemma {:induction false} SpanTextProps(s: string)
    ensures AllText(s[..SpanText(s)])
    ensures SpanText(s) < |s| ==> !TextChar(s[SpanText(s)])
  {
    if s == "" || !TextChar(s[0]) {
    } else {
      SpanTextProps(s[1..]);
      assert s[..SpanText(s)] == [s[0]] + s[1..][..SpanText(s[1..])];
    }
  }

  // ---------- A segment ----------

  /** The states in which a command is complete. */
  predicate Complete(cs: nat) {
    cs == 2 || cs == 3 || cs == 7 || cs == 9 || cs == 11 || cs == 13
  }

  /** The states after a redirection sign, where a text must follow. */
  predicate Dangling(cs: nat) {
    cs == 6 || cs == 8 || cs == 10 || cs == 12
  }

  predicate InSegment(s: string) {
    forall i :: 0 <= i < |s| ==> s[i] != NUL && !Separator(s[i])
  }

  /** What the run of a segment gives: the parsed command, or no way to go on. */
  ghost predicate Parsed(m: Config, f: Config, r: Option<Raw>) {
    f.done == m.done && if r.Some? then f.pending == r && Complete(f.cs) else f.cs == 0 || Dangling(f.cs)
  }

  /** After a text, at the end of the segment: nothing, or `&` and blanks. */
  lemma RunFinish(m: Config, s: string)
    requires m.cs == 2 || m.cs == 7 || m.cs == 9 || m.cs == 11 || m.cs == 13
    requires m.pending.Some? && m.pending.value.mask == NoConnection && InSegment(s)
    requires s == "" || s[0] == '&'
      || (s[0] == '<' && Delta(m.cs, '<').0 == 0) || (s[0] == '>' && Delta(m.cs, '>').0 == 0)
    ensures var r := m.pending.value; Parsed(m, Run(m, s), Finish(r.text, r.input, r.output, s))
  {
    if s != "" {
      var m' := Step(m, s[0]);
      if s[0] == '&' {
        assert DoAll([Bg], '&', m.(cs := 3)) == Do(Bg, '&', m.(cs := 3));
        RunAfterAmpersand(m', s[1..]);
      } else {
        RunError(m', s[1..]);
      }
    }
  }

  lemma {:induction false} RunAfterAmpersand(m: Config, s: string)
    requires m.cs == 3 && InSegment(s)
    ensures Run(m, s) == if AllBlank(s) then m else m.(cs := 0)
    decreases |s|
  {
    if s == "" {
    } else {
      if Blank(s[0]) {
        RunAfterAmpersand(m, s[1..]);
        assert AllBlank(s) <==> AllBlank(s[1..]);
      } else {
        RunError(m.(cs := 0), s[1..]);
      }
    }
  }

  /** What TakeText leaves starts with an operator. */
  lemma TakeTextRest(s: string)
    requires InSegment(s) && TakeText(s).Some?
    ensures InSegment(TakeText(s).value.rest)
    ensures var r := TakeText(s).value.rest; r == "" || r[0] == '&' || r[0] == '<' || r[0] == '>'
  {
    var a := s[SpanBlank(s)..];
    SpanTextProps(a);
  }

  /** A redirection sign, then the text of the redirection, if there is one. */
  lemma RunRedirection(m: Config, lead: nat, body: nat, act: Action, s: string)
    requires m.pending.Some? && s != "" && InSegment(s) && Delta(m.cs, s[0]) == (lead, [])
    requires Lead(lead, body, act) && Dangling(lead)
    ensures var r := TakeText(s[1..]);
      if r.Some? then Run(m, s) == Run(AfterText(m, body, act, r.value.text), r.value.rest)
      else Run(m, s) == m.(cs := 0) || Run(m, s) == m.(cs := lead)
  {
    assert Step(m, s[0]) == m.(cs := lead);
    RunTakeText(m.(cs := lead), body, act, s[1..]);
  }

  lemma RunAfterInput(m: Config, s: string)
    requires m.cs == 7 && m.pending.Some? && m.pending.value.output == "" && m.pending.value.mask == NoConnection
    requires InSegment(s) && (s == "" || s[0] == '&' || s[0] == '<' || s[0] == '>')
    ensures Parsed(m, Run(m, s), AfterInput(m.pending.value.text, m.pending.value.input, s))
  {
    if StartsWith(s, '>') {
      RunRedirection(m, 8, 9, AppendOut, s);
      if TakeText(s[1..]).Some? {
        var Taken(t, r) := TakeText(s[1..]).value;
        TakeTextRest(s[1..]);
        assert "" + t == t;
        RunFinish(AfterText(m, 9, AppendOut, t), r);
      }
    } else {
      RunFinish(m, s);
    }
  }

  lemma RunAfterOutput(m: Config, s: string)
    requires m.cs == 11 && m.pending.Some? && m.pending.value.input == "" && m.pending.value.mask == NoConnection
    requires InSegment(s) && (s == "" || s[0] == '&' || s[0] == '<' || s[0] == '>')
    ensures Parsed(m, Run(m, s), AfterOutput(m.pending.value.text, m.pending.value.output, s))
  {
    if StartsWith(s, '<') {
      RunRedirection(m, 12, 13, AppendIn, s);
      if TakeText(s[1..]).Some? {
        var Taken(t, r) := TakeText(s[1..]).value;
        TakeTextRest(s[1..]);
        assert "" + t == t;
        RunFinish(AfterText(m, 13, AppendIn, t), r);
      }
    } else {
      RunFinish(m, s);
    }
  }

  lemma RunAfterCommand(m: Config, t: string, s: string)
    requires m.cs == 2 && m.pending == Some(Raw(t, "", "", NoConnection))
    requires InSegment(s) && (s == "" || s[0] == '&' || s[0] == '<' || s[0] == '>')
    ensures Parsed(m, Run(m, s), AfterCommand(t, s))
  {
    if StartsWith(s, '<') {
      RunRedirection(m, 6, 7, AppendIn, s);
      if TakeText(s[1..]).Some? {
        TakeTextRest(s[1..]);
        assert "" + TakeText(s[1..]).value.text == TakeText(s[1..]).value.text;
        RunAfterInput(AfterText(m, 7, AppendIn, TakeText(s[1..]).value.text), TakeText(s[1..]).value.rest);
      }
    } else if StartsWith(s, '>') {
      RunRedirection(m, 10, 11, AppendOut, s);
      if TakeText(s[1..]).Some? {
        TakeTextRest(s[1..]);
        assert "" + TakeText(s[1..]).value.text == TakeText(s[1..]).value.text;
        RunAfterOutput(AfterText(m, 11, AppendOut, TakeText(s[1..]).value.text), TakeText(s[1..]).value.rest);
      }
    } else {
      RunFinish(m, s);
    }
  }

  /** From leading blanks, a segment gives its command or ends where only an error can
      follow. */
  lemma RunSegment(m: Config, s: string)
    requires (m.cs == 5 || m.cs == 14) && m.pending == Some(EMPTY_RAW) && InSegment(s)
    ensures if AllBlank(s) then ParseSegment(s).None? && Run(m, s) == m else Parsed(m, Run(m, s), ParseSegment(s))
  {
    RunTakeText(m, 2, Append, s);
    if TakeText(s).Some? {
      TakeTextRest(s);
      assert "" + TakeText(s).value.text == TakeText(s).value.text;
      RunAfterCommand(AfterText(m, 2, Append, TakeText(s).value.text), TakeText(s).value.text, TakeText(s).value.rest);
    }
  }

  // ---------- A line ----------

  /** A complete command at a separator or at the end of the line. */
  lemma StepComplete(m: Config, c: char)
    requires Complete(m.cs) && m.pending.Some?
    ensures Separator(c) ==> Step(m, c) == Config(4, Some(Joined(m.pending.value, c)), m.done)
    ensures c == NUL && m.pending.value.text != "" ==> Step(m, c) == Config(15, None, m.done + [m.pending.value])
  {
    assert DoAll([SeqSep], c, m.(cs := 4)) == Do(SeqSep, c, m.(cs := 4));
    assert DoAll([PipeSep], c, m.(cs := 4)) == Do(PipeSep, c, m.(cs := 4));
    assert DoAll([Term], c, m.(cs := 15)) == Do(Term, c, m.(cs := 15));
  }

  /** The fresh command that a start state (1) or a separator state (4) is about to make. */
  function BeginCommand(m: Config): Config {
    if m.cs == 1 then Config(14, Some(EMPTY_RAW), m.done)
    else Config(5, Some(EMPTY_RAW), if m.pending.Some? then m.done + [m.pending.value] else m.done)
  }

  /** States 1 and 4 act like 14 and 5 with a fresh command, unless an error follows. */
  lemma Enter(m: Config, s: string)
    requires m.cs == 1 || (m.cs == 4 && m.pending.Some? && m.pending.value.text != "")
    requires s != "" && s[0] != NUL
    ensures if Operator(s[0]) then Run(m, s) == m.(cs := 0) else Run(m, s) == Run(BeginCommand(m), s)
  {
    var c := s[0];
    if Operator(c) {
      RunError(Step(m, c), s[1..]);
    } else {
      EnterStep(m, c);
      assert Run(m, s) == Run(Step(m, c), s[1..]);
    }
  }

  lemma EnterStep(m: Config, c: char)
    requires m.cs == 1 || (m.cs == 4 && m.pending.Some? && m.pending.value.text != "")
    requires c != NUL && !Operator(c)
    ensures Step(m, c) == Step(BeginCommand(m), c)
  {
    var (t, acts) := Delta(m.cs, c);
    var m1 := m.(cs := t);
    var m2 := BeginCommand(m).(cs := t);
    if m.cs == 4 {
      assert acts[1..] == if Blank(c) then [New] else [New, Append];
      assert DoAll(acts, c, m1) == DoAll(acts[1..], c, Do(Term, c, m1));
    }
    var rest := if Blank(c) then [] else [Append];
    var m3 := if m.cs == 4 then Do(Term, c, m1) else m1;
    assert ([New] + rest)[1..] == rest;
    assert DoAll([New] + rest, c, m3) == DoAll(rest, c, Do(New, c, m3));
    assert [New] + rest == if m.cs == 4 then acts[1..] else acts;
  }

  lemma RunNext(m: Config, s: string)
    requires m.cs == 4 && m.pending.Some? && m.pending.value.text != "" && IsCString(s)
    ensures Run(m, s + [NUL]) ==
      if s == "" || Operator(s[0]) then m.(cs := 0) else Run(BeginCommand(m), s + [NUL])
  {
    if s == "" {
      assert Step(m, NUL) == m.(cs := 0);
    } else {
      Enter(m, s + [NUL]);
    }
  }

  lemma NoSegment(s: string)
    requires s == "" || Operator(s[0])
    ensures ParseSegments(s).None?
  {
    assert TakeText(s[..FirstSep(s)]).None?;
  }

  lemma SegmentText(s: string)
    requires ParseSegment(s).Some?
    ensures ParseSegment(s).value.text != "" && !AllBlank(s)
  {
    var a := s[SpanBlank(s)..];
    assert WordChar(a[0]) && a[0] == s[SpanBlank(s)];
  }

  /** The character after a segment, from the state `f` that the segment leaves. */
  lemma StepAfterSegment(m: Config, f: Config, r: Option<Raw>, blank: bool, c: char)
    requires (m.cs == 5 || m.cs == 14) && m.pending == Some(EMPTY_RAW) && (c == NUL || Separator(c))
    requires if blank then r.None? && f == m else Parsed(m, f, r)
    requires r.Some? ==> r.value.text != ""
    ensures Step(f, c) ==
      if r.Some? then
        if c == NUL then Config(15, None, m.done + [r.value]) else Config(4, Some(Joined(r.value, c)), m.done)
      else if blank && m.cs == 14 && c == NUL then m.(cs := 15)
      else f.(cs := 0)
  {
    if r.Some? {
      StepComplete(f, c);
    } else {
      assert DoAll([Term], c, f.(cs := 15)) == Do(Term, c, f.(cs := 15));
    }
  }

  /** The segment up to the first separator. */
  lemma RunFirst(m: Config, s: string) returns (f: Config)
    requires (m.cs == 5 || m.cs == 14) && m.pending == Some(EMPTY_RAW) && IsCString(s)
    ensures var a := s[..FirstSep(s)];
      if AllBlank(a) then ParseSegment(a).None? && f == m else Parsed(m, f, ParseSegment(a))
    ensures Run(m, s + [NUL]) == Run(f, s[FirstSep(s)..] + [NUL])
  {
    var n := FirstSep(s);
    f := Run(m, s[..n]);
    RunSegment(m, s[..n]);
    assert s + [NUL] == s[..n] + (s[n..] + [NUL]);
    RunConcat(m, s[..n], s[n..] + [NUL]);
  }

  /** `f` is the right end of the run over the line `s` from state `m`. */
  ghost predicate LineEnd(m: Config, s: string, f: Config) {
    if m.cs == 14 && AllBlank(s) then f == m.(cs := 15)
    else f.done == m.done + Finished(s) && f.cs == (if ParseSegments(s).Some? then 15 else 0)
  }

  lemma {:induction false} LineEndHere(m: Config, s: string, f: Config)
    requires m.cs == 5 || m.cs == 14
    requires ParseSegment(s[..FirstSep(s)]).None? || FirstSep(s) == |s|
    requires var r := ParseSegment(s[..FirstSep(s)]);
      if r.Some? then f.cs == 15 && f.done == m.done + [r.value]
      else if m.cs == 14 && AllBlank(s) then f == m.(cs := 15)
      else f.cs == 0 && f.done == m.done
    ensures LineEnd(m, s, f)
  {
    if ParseSegment(s[..FirstSep(s)]).Some? { SegmentText(s[..FirstSep(s)]); }
  }

  lemma {:induction false} LineEndNext(m: Config, s: string, f: Config)
    requires FirstSep(s) < |s| && ParseSegment(s[..FirstSep(s)]).Some?
    requires var r, c, t := ParseSegment(s[..FirstSep(s)]).value, s[FirstSep(s)], s[FirstSep(s) + 1..];
      if t == "" || Operator(t[0]) then f.cs == 0 && f.done == m.done
      else LineEnd(Config(5, Some(EMPTY_RAW), m.done + [Joined(r, c)]), t, f)
    ensures LineEnd(m, s, f)
  {
    hide ParseSegment;
    var r, c, t := ParseSegment(s[..FirstSep(s)]).value, s[FirstSep(s)], s[FirstSep(s) + 1..];
    SegmentText(s[..FirstSep(s)]);
    if t == "" || Operator(t[0]) {
      NoSegment(t);
    } else {
      assert m.done + [Joined(r, c)] + Finished(t) == m.done + ([Joined(r, c)] + Finished(t));
    }
  }

  /** From leading blanks to the end of the line. */
  lemma {:induction false} RunLine(m: Config, s: string)
    requires (m.cs == 5 || m.cs == 14) && m.pending == Some(EMPTY_RAW) && IsCString(s)
    ensures LineEnd(m, s, Run(m, s + [NUL]))
    decreases |s|
  {
    hide ParseSegment, ParseSegments, Finished, Delta, Do;
    var n := FirstSep(s);
    var a, t := s[..n], s[n..] + [NUL];
    var r, end := ParseSegment(a), Run(m, s + [NUL]);
    var f := RunFirst(m, s);
    if r.Some? { SegmentText(a); }
    StepAfterSegment(m, f, r, AllBlank(a), t[0]);
    var g := Step(f, t[0]);
    RunStep(f, t);
    if r.None? || n == |s| {
      if g.cs == 0 { RunError(g, t[1..]); } else { assert t[1..] == ""; }
      assert AllBlank(s) ==> a == s;
      LineEndHere(m, s, end);
    } else {
      assert t[1..] == s[n + 1..] + [NUL];
      RunNext(g, s[n + 1..]);
      if s[n + 1..] != "" && !Operator(s[n + 1]) { RunLine(BeginCommand(g), s[n + 1..]); }
      LineEndNext(m, s, end);
    }
  }

  lemma RunStep(m: Config, s: string)
    requires s != ""
    ensures Run(m, s) == Run(Step(m, s[0]), s[1..])
  {}

  /** On every line the machine ends in the accepting state or in the error state. It
      accepts exactly the lines that LineSpec parses, and the commands that reached `term`
      are the finished ones, in order. */
  lemma MachineComputesSpec(line: string)
    requires IsCString(line)
    ensures var f := Run(INITIAL, line + [NUL]);
      && (f.cs == 15 <==> Parse(line).Some?)
      && (f.cs == 0 <==> Parse(line).None?)
      && f.done == (if AllBlank(line) then [] else Finished(line))
  {
    if line == "" {
      assert DoAll([Term], NUL, INITIAL.(cs := 15)) == Do(Term, NUL, INITIAL.(cs := 15));
      assert Step(INITIAL, NUL) == INITIAL.(cs := 15);
    } else {
      Enter(INITIAL, line + [NUL]);
      if Operator(line[0]) {
        NoSegment(line);
      } else {
        RunLine(BeginCommand(INITIAL), line);
      }
    }
  }

  /** On an accepted line all its commands are finished. */
  lemma {:induction false} FinishedIsParse(s: string)
    requires ParseSegments(s).Some?
    ensures Finished(s) == ParseSegments(s).value
    decreases |s|
  {
    hide ParseSegment;
    var n := FirstSep(s);
    if n < |s| {
      var t := s[n + 1..];
      if t == "" || Operator(t[0]) { NoSegment(t); } else { FinishedIsParse(t); }
    }
  }
}
