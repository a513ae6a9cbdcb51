/** What a line gives after alias, word and path expansion, and what every step of the parser
    keeps. */
module LineMeaning {
  import opened Options
  import opened Text
  import opened Machine
  import opened LineSpec
  import opened LineProofs
  import opened LineProperties
  import opened Shapes
  import opened Grammar
  import opened AliasSpec

  /** The library's word expansion: the words of a text, or a failure. */
  type Wordexp = string -> Option<seq<string>>

  datatype Expanded = Expanded(
    argv: seq<string>, path: Option<string>, from: Option<string>, to: Option<string>, mask: Mask)

  /** `expand`: only a text that is one word has an expansion. */
  function Expand(wordexp: Wordexp, s: string): Option<string> {
    match wordexp(s)
    case None => None
    case Some(words) => if |words| == 1 then Some(words[0]) else None
  }

  function Redirect(wordexp: Wordexp, text: string): Option<string> {
    if text == "" then None else Expand(wordexp, Cut(text))
  }

  function FirstWord(words: seq<string>): Option<string> {
    if words == [] then None else Some(words[0])
  }

  /** A captured command with its aliases and words expanded. */
  function ExpandCommand(wordexp: Wordexp, aliases: map<string, string>, r: Raw): Option<Expanded> {
    match wordexp(Expansion(aliases, {}, Cut(r.text)))
    case None => None
    case Some(argv) =>
      Some(Expanded(argv, FirstWord(argv), Redirect(wordexp, r.input), Redirect(wordexp, r.output), r.mask))
  }

  /** The commands before the first one that does not expand. */
  function Commands(wordexp: Wordexp, aliases: map<string, string>, raws: seq<Raw>): (es: seq<Expanded>)
    ensures |es| <= |raws|
  {
    if raws == [] then []
    else match ExpandCommand(wordexp, aliases, raws[0])
      case None => []
      case Some(e) => [e] + Commands(wordexp, aliases, raws[1..])
  }

  /** All captured commands that the parser tries to expand. */
  function Captured(line: string): seq<Raw> {
    if AllBlank(line) then [] else Finished(line)
  }

  /** What a line gives: nothing after a syntax error, unless word expansion failed before the
      error was seen. */
  function Meaning(wordexp: Wordexp, aliases: map<string, string>, line: string): seq<Expanded> {
    var es := Commands(wordexp, aliases, Captured(line));
    if Parse(line).None? && |es| == |Captured(line)| then [] else es
  }

  /** The alias expansion of a captured command stays inside its buffers. */
  ghost predicate CommandFits(aliases: map<string, string>, r: Raw) {
    Fits(Chain(aliases, {}, Head(Cut(r.text))), Cut(r.text))
  }

  /** So it is for every command up to the first that does not expand. */
  ghost predicate CommandsFit(wordexp: Wordexp, aliases: map<string, string>, raws: seq<Raw>) {
    forall i :: 0 <= i < |raws| && i <= |Commands(wordexp, aliases, raws)| ==> CommandFits(aliases, raws[i])
  }

  // ---------- The expanded prefix ----------

  /** The result is the longest prefix that expands, command by command. */
  lemma {:induction false} CommandsArePrefix(wordexp: Wordexp, aliases: map<string, string>, raws: seq<Raw>)
    ensures var es := Commands(wordexp, aliases, raws);
      && (forall i :: 0 <= i < |es| ==> ExpandCommand(wordexp, aliases, raws[i]) == Some(es[i]))
      && (|es| < |raws| ==> ExpandCommand(wordexp, aliases, raws[|es|]) == None)
  {
    hide ExpandCommand;
    if raws == [] || ExpandCommand(wordexp, aliases, raws[0]).None? {
    } else {
      CommandsArePrefix(wordexp, aliases, raws[1..]);
      var es, fs := Commands(wordexp, aliases, raws), Commands(wordexp, aliases, raws[1..]);
      forall i | 0 <= i < |es| ensures ExpandCommand(wordexp, aliases, raws[i]) == Some(es[i]) {
        if i > 0 { assert es[i] == fs[i - 1] && raws[i] == raws[1..][i - 1]; }
      }
    }
  }

  lemma {:induction false} CommandsConcat(wordexp: Wordexp, aliases: map<string, string>, a: seq<Raw>, b: seq<Raw>)
    ensures Commands(wordexp, aliases, a + b) ==
      if |Commands(wordexp, aliases, a)| < |a| then Commands(wordexp, aliases, a)
      else Commands(wordexp, aliases, a) + Commands(wordexp, aliases, b)
  {
    hide ExpandCommand, Commands;
    if a == [] {
      NoCommands(wordexp, aliases);
      assert a + b == b && [] + Commands(wordexp, aliases, b) == Commands(wordexp, aliases, b);
    } else {
      assert (a + b)[1..] == a[1..] + b;
      FirstCommand(wordexp, aliases, a);
      FirstCommand(wordexp, aliases, a + b);
      CommandsConcat(wordexp, aliases, a[1..], b);
    }
  }

  lemma NoCommands(wordexp: Wordexp, aliases: map<string, string>)
    ensures Commands(wordexp, aliases, []) == []
  {}

  lemma FirstCommand(wordexp: Wordexp, aliases: map<string, string>, raws: seq<Raw>)
    requires raws != []
    ensures var e := ExpandCommand(wordexp, aliases, raws[0]);
      Commands(wordexp, aliases, raws) == if e.None? then [] else [e.value] + Commands(wordexp, aliases, raws[1..])
  {
    hide ExpandCommand;
  }

  /** What the rest of a line cannot change: a text that does not fit, or, after the first failure
      of word expansion, that everything before fits. */
  lemma FitsEarly(wordexp: Wordexp, aliases: map<string, string>, a: seq<Raw>, b: seq<Raw>)
    requires a <= b
    ensures !CommandsFit(wordexp, aliases, a) ==> !CommandsFit(wordexp, aliases, b)
    ensures |Commands(wordexp, aliases, a)| < |a| ==>
      (CommandsFit(wordexp, aliases, a) <==> CommandsFit(wordexp, aliases, b))
  {
    hide CommandFits, Commands;
    assert b == a + b[|a|..];
    CommandsConcat(wordexp, aliases, a, b[|a|..]);
    if i :| 0 <= i < |a| && i <= |Commands(wordexp, aliases, a)| && !CommandFits(aliases, a[i]) {
      assert b[i] == a[i];
    }
  }

  lemma CommandsFitSnoc(wordexp: Wordexp, aliases: map<string, string>, raws: seq<Raw>, r: Raw)
    requires |Commands(wordexp, aliases, raws)| == |raws| && CommandsFit(wordexp, aliases, raws)
    ensures CommandsFit(wordexp, aliases, raws + [r]) <==> CommandFits(aliases, r)
  {
    hide CommandFits, ExpandCommand;
    CommandsConcat(wordexp, aliases, raws, [r]);
    var more := raws + [r];
    assert more[|raws|] == r;
    forall i | 0 <= i < |raws| ensures CommandFits(aliases, more[i]) {
      assert more[i] == raws[i];
    }
  }

  lemma CommandsSnoc(wordexp: Wordexp, aliases: map<string, string>, raws: seq<Raw>, r: Raw)
    requires |Commands(wordexp, aliases, raws)| == |raws|
    ensures var e := ExpandCommand(wordexp, aliases, r);
      Commands(wordexp, aliases, raws + [r]) == Commands(wordexp, aliases, raws) + if e.Some? then [e.value] else []
  {
    hide ExpandCommand, Commands;
    CommandsConcat(wordexp, aliases, raws, [r]);
    CommandsOne(wordexp, aliases, r);
  }

  /** The executor's 2*(n-1) pipe ends hold the write index 2*i+1 of every piped command. */
  predicate PipesFit(es: seq<Expanded>) {
    forall i :: 0 <= i < |es| && es[i].mask == Pipe ==> 2 * i + 1 < 2 * (|es| - 1)
  }

  /** On a non-blank line that parses, the result is as long as the line has commands, one more than
      separators, or shorter if words fail to expand. Masks are those of the line, where only the
      last command has no connection, or runs in the background unjoined. The executor's pipe index
      is in bounds except exactly when word expansion fails right after a piped command. */
  lemma MeaningOfParsed(wordexp: Wordexp, aliases: map<string, string>, line: string)
    requires Parse(line).Some? && !AllBlank(line)
    ensures var es, rs := Meaning(wordexp, aliases, line), Parse(line).value;
      && |es| <= |rs| == 1 + CountSeps(line) && (|es| == |rs| <==> AllExpand(wordexp, aliases, line))
      && (forall i :: 0 <= i < |es| ==> es[i].mask == rs[i].mask)
      && (forall i :: 0 <= i < |rs| - 1 ==> rs[i].mask != NoConnection)
      && (rs[|rs| - 1].mask == NoConnection || rs[|rs| - 1].mask == Background)
      && (PipesFit(es) <==> !(0 < |es| < |rs| && rs[|es| - 1].mask == Pipe))
  {
    hide ParseSegments, CountSeps, Commands, ExpandCommand, WellFormed, Finished;
    ParsedMeaning(wordexp, aliases, line);
    MasksKept(wordexp, aliases, Parse(line).value);
    ResultShape(line);
    LastOnly(Parse(line).value);
  }

  /** It fails on `a|b` when `b` does not expand: the executor gets one piped command and no pipe. */
  lemma FailedWordBreaksPipe(wordexp: Wordexp)
    requires wordexp("a").Some? && wordexp("b").None?
    ensures Parse("a|b").Some? && !AllBlank("a|b")
    ensures var es := Meaning(wordexp, map[], "a|b");
      |es| == 1 && es[0].mask == Pipe && !PipesFit(es)
  {
    hide Parse, Captured, Print, Commands, Expansion;
    PipedPair();
    var r, q := Raw("a", "", "", Pipe), Raw("b", "", "", NoConnection);
    ParsedMeaning(wordexp, map[], "a|b");
    NoAlias(map[], "a", "");
    NoAlias(map[], "b", "");
    assert "a" + "" == "a" && "b" + "" == "b";
    FirstCommand(wordexp, map[], [r, q]);
    assert [r, q][1..] == [q];
    CommandsOne(wordexp, map[], q);
  }

  lemma PipedPair()
    ensures !AllBlank("a|b")
    ensures Parse("a|b") == Some([Raw("a", "", "", Pipe), Raw("b", "", "", NoConnection)])
  {
    hide Parse;
    var r, q := Raw("a", "", "", Pipe), Raw("b", "", "", NoConnection);
    assert Print([r, q]) == "a|b" by {
      assert [r, q][1..] == [q];
      assert PrintRaw(r) == "a" && PrintRaw(q) == "b";
    }
    RoundTrip([r, q]);
    assert "a|b"[0] == 'a';
  }

  // ---------- What one command means ----------

  /** A redirection sign with a text, or nothing. */
  function Redirected(sign: char, text: string): string {
    if text == "" then "" else [sign] + text
  }

  /** What becomes of the text of a redirection: nothing if there is none, or if it does not expand
      to exactly one word. */
  ghost predicate Target(wordexp: Wordexp, text: string, target: Option<string>) {
    if text != "" && exists word :: wordexp(text) == Some([word])
    then target.Some? && wordexp(text) == Some([target.value])
    else target == None
  }

  /** What a command with redirections of at most 1024 characters gives: the words of its expanded
      text with the first as path, the redirection of the input from the text after `<`, that of the
      output to the text after `>`, in whichever order they stand, and the background for a `&` at
      the end. */
  lemma CommandMeans(
      wordexp: Wordexp, aliases: map<string, string>, text: string, input: string, output: string, bg: bool)
    requires IsText(text) && (input == "" || IsText(input)) && (output == "" || IsText(output))
    requires |input| <= 1024 && |output| <= 1024
    ensures var tail := if bg then "&" else "";
      var line := text + Redirected('<', input) + Redirected('>', output) + tail;
      var exchanged := text + Redirected('>', output) + Redirected('<', input) + tail;
      var es := Meaning(wordexp, aliases, line);
      && Meaning(wordexp, aliases, exchanged) == es
      && if wordexp(Expansion(aliases, {}, Cut(text))).None? then es == [] else
        && |es| == 1 && Some(es[0].argv) == wordexp(Expansion(aliases, {}, Cut(text)))
        && es[0].path == (if es[0].argv == [] then None else Some(es[0].argv[0]))
        && Target(wordexp, input, es[0].from) && Target(wordexp, output, es[0].to)
        && es[0].mask == if bg then Background else NoConnection
  {
    hide Expansion, Parse, Captured, Cut, Redirect, Redirected, Target;
    var tail := if bg then "&" else "";
    var r := Raw(text, input, output, if bg then Background else NoConnection);
    OneCommand('<', input, '>', output, text, tail, r);
    OneCommand('>', output, '<', input, text, tail, r);
    ParsedMeaning(wordexp, aliases, text + Redirected('<', input) + Redirected('>', output) + tail);
    ParsedMeaning(wordexp, aliases, text + Redirected('>', output) + Redirected('<', input) + tail);
    CommandsOne(wordexp, aliases, r);
    RedirectIs(wordexp, input);
    RedirectIs(wordexp, output);
  }

  /** The same for the `i`-th command of a line of many: it is that of the `i`-th segment, with the
      mask of the separator after it. */
  lemma CommandAt(wordexp: Wordexp, aliases: map<string, string>, line: string, i: nat)
    requires Parse(line).Some? && !AllBlank(line) && i < |Meaning(wordexp, aliases, line)|
    ensures i < |Segments(line)| && ParseSegment(Segments(line)[i]).Some?
    ensures var e, r := Meaning(wordexp, aliases, line)[i], ParseSegment(Segments(line)[i]).value;
      && Some(e.argv) == wordexp(Expansion(aliases, {}, Cut(r.text)))
      && e.path == (if e.argv == [] then None else Some(e.argv[0]))
      && (|r.input| <= 1024 ==> Target(wordexp, r.input, e.from))
      && (|r.output| <= 1024 ==> Target(wordexp, r.output, e.to))
      && e.mask == MaskOf(Segments(line)[i], SepAfter(line, i))
  {
    hide ParseSegment, ParseSegments, Finished, Commands, Segments, SepAfter, MaskOf, Expansion, Cut, Redirect, Target;
    ParsedMeaning(wordexp, aliases, line);
    CommandsArePrefix(wordexp, aliases, Parse(line).value);
    CommandsOfSegments(line);
    var r := Parse(line).value[i];
    assert IsCommandOf(r, Segments(line)[i], SepAfter(line, i));
    if |r.input| <= 1024 { RedirectIs(wordexp, r.input); }
    if |r.output| <= 1024 { RedirectIs(wordexp, r.output); }
  }

  /** A command with redirections by two signs is parsed to its texts. */
  lemma OneCommand(a: char, x: string, b: char, y: string, text: string, tail: string, r: Raw)
    requires IsText(text) && (x == "" || IsText(x)) && (y == "" || IsText(y)) && (tail == "" || tail == "&")
    requires if a == '<' then b == '>' && r == Raw(text, x, y, TailMask(tail))
             else a == '>' && b == '<' && r == Raw(text, y, x, TailMask(tail))
    ensures var line := text + Redirected(a, x) + Redirected(b, y) + tail;
      Parse(line) == Some([r]) && !AllBlank(line)
  {
    hide FlattenRedirs, TextOf, IsText, Redirected, Parse;
    var rs := RedirOf(a, x) + RedirOf(b, y);
    TwoRedirs(a, x, b, y, tail);
    Associate(text, Redirected(a, x), Redirected(b, y), tail);
    LineOfOne(text, rs, tail, r);
  }

  lemma Associate(a: string, b: string, c: string, d: string)
    ensures a + b + c + d == a + (b + (c + d))
  {}

  lemma TwoRedirs(a: char, x: string, b: char, y: string, tail: string)
    requires a != b
    ensures var rs := RedirOf(a, x) + RedirOf(b, y);
      && FlattenRedirs(rs, tail) == Redirected(a, x) + (Redirected(b, y) + tail)
      && TextOf(rs, a) == x && TextOf(rs, b) == y
  {
    RedirOfFlat(a, x, RedirOf(b, y), tail);
    RedirOfFlat(b, y, [], tail);
    assert RedirOf(b, y) + [] == RedirOf(b, y);
  }

  /** A line of one segment. */
  lemma LineOfOne(text: string, redirs: seq<Redir>, tail: string, r: Raw)
    requires Valid(Shape("", text, redirs, tail)) && ShapeRaw(Shape("", text, redirs, tail)) == r
    ensures var line := text + FlattenRedirs(redirs, tail);
      Parse(line) == Some([r]) && !AllBlank(line)
  {
    hide ParseSegment, ParseSegments, FlattenRedirs;
    var sh := Shape("", text, redirs, tail);
    var line := text + FlattenRedirs(redirs, tail);
    assert Flatten(sh) == line by { assert "" + line == line; }
    ShapeParses(sh);
    ShapeInSegment(sh);
    SegmentsLast(line);
    assert line[0] == text[0];
  }

  lemma RedirectIs(wordexp: Wordexp, text: string)
    requires |text| <= 1024
    ensures Target(wordexp, text, Redirect(wordexp, text))
  {
    CutKeeps(text);
    if wordexp(text).Some? {
      var words := wordexp(text).value;
      if |words| == 1 { assert words == [words[0]]; }
    }
  }

  /** When all texts expand, a line that is not blank gives commands iff it matches the grammar; a
      line that does not match it gives nothing. */
  lemma OnlyGrammaticalLinesRun(wordexp: Wordexp, aliases: map<string, string>, line: string)
    requires forall s :: wordexp(s).Some?
    ensures Meaning(wordexp, aliases, line) != [] <==> !AllBlank(line) && Matches(MAIN_RE, line + [NUL])
  {
    hide Matches, ParseSegments, Finished, Expansion;
    ParseMeetsGrammar(line);
    CommandsArePrefix(wordexp, aliases, Captured(line));
    if Parse(line).Some? && !AllBlank(line) {
      ParsedMeaning(wordexp, aliases, line);
      SegmentsNotEmpty(line);
    }
  }

  lemma MasksKept(wordexp: Wordexp, aliases: map<string, string>, raws: seq<Raw>)
    ensures var es := Commands(wordexp, aliases, raws);
      forall i :: 0 <= i < |es| ==> es[i].mask == raws[i].mask
  {
    hide Commands, Expansion;
    CommandsArePrefix(wordexp, aliases, raws);
  }

  lemma LastOnly(rs: seq<Raw>)
    requires WellFormed(rs)
    ensures rs != [] && (forall i :: 0 <= i < |rs| - 1 ==> rs[i].mask != NoConnection)
    ensures rs[|rs| - 1].mask == NoConnection || rs[|rs| - 1].mask == Background
  {}

  // ---------- Joined lines ----------

  /** `es` with its last command ending at separator `c`. */
  function EndCommandsAt(es: seq<Expanded>, c: char): seq<Expanded> {
    if es == [] then es else es[..|es| - 1] + [EndCommandAt(es[|es| - 1], c)]
  }

  function EndCommandAt(e: Expanded, c: char): Expanded {
    e.(mask := if c == '|' then Pipe else if e.mask == Background then e.mask else Sequential)
  }

  /** Whether the words of all commands of a line expand. */
  predicate AllExpand(wordexp: Wordexp, aliases: map<string, string>, line: string) {
    |Commands(wordexp, aliases, Captured(line))| == |Captured(line)|
  }

  /** Two accepted non-blank lines joined by `;` or `|` mean what the first means, with its last
      mask set by the separator, and then what the second means; only the first part counts if
      word expansion fails in it. */
  lemma JoinedMeaning(wordexp: Wordexp, aliases: map<string, string>, x: string, c: char, y: string)
    requires Parse(x).Some? && !AllBlank(x) && Parse(y).Some? && !AllBlank(y) && Separator(c)
    ensures Meaning(wordexp, aliases, x + [c] + y) ==
      if AllExpand(wordexp, aliases, x)
      then EndCommandsAt(Meaning(wordexp, aliases, x), c) + Meaning(wordexp, aliases, y)
      else Meaning(wordexp, aliases, x)
  {
    hide Commands, ParseSegments, Finished, EndAt, EndCommandsAt;
    Concatenation(x, c, y);
    ParsedMeaning(wordexp, aliases, x);
    ParsedMeaning(wordexp, aliases, y);
    assert !Blank((x + [c] + y)[|x|]);
    ParsedMeaning(wordexp, aliases, x + [c] + y);
    CommandsConcat(wordexp, aliases, EndAt(Parse(x).value, c), Parse(y).value);
    CommandsEndAt(wordexp, aliases, Parse(x).value, c);
  }

  /** On an accepted line the meaning is the expanded prefix of the parsed commands. */
  lemma ParsedMeaning(wordexp: Wordexp, aliases: map<string, string>, line: string)
    requires Parse(line).Some? && !AllBlank(line)
    ensures Captured(line) == Parse(line).value
    ensures Meaning(wordexp, aliases, line) == Commands(wordexp, aliases, Parse(line).value)
  {
    hide Commands, ParseSegments, Finished;
    FinishedIsParse(line);
  }

  /** The separator changes the last mask and nothing that word expansion sees. */
  lemma CommandsEndAt(wordexp: Wordexp, aliases: map<string, string>, raws: seq<Raw>, c: char)
    requires raws != []
    ensures var es, fs := Commands(wordexp, aliases, raws), Commands(wordexp, aliases, EndAt(raws, c));
      |EndAt(raws, c)| == |raws| && |fs| == |es| && fs == if |es| == |raws| then EndCommandsAt(es, c) else es
  {
    hide Commands, ExpandCommand, Joined;
    var n := |raws| - 1;
    var init, r := raws[..n], raws[n];
    assert raws == init + [r] && EndAt(raws, c) == init + [Joined(r, c)];
    ExpandJoined(wordexp, aliases, r, c);
    CommandsConcat(wordexp, aliases, init, [r]);
    CommandsConcat(wordexp, aliases, init, [Joined(r, c)]);
    CommandsOne(wordexp, aliases, r);
    CommandsOne(wordexp, aliases, Joined(r, c));
  }

  lemma ExpandJoined(wordexp: Wordexp, aliases: map<string, string>, r: Raw, c: char)
    ensures var e, f := ExpandCommand(wordexp, aliases, r), ExpandCommand(wordexp, aliases, Joined(r, c));
      f == if e.Some? then Some(EndCommandAt(e.value, c)) else None
  {
    hide Expansion, Redirect;
  }

  lemma CommandsOne(wordexp: Wordexp, aliases: map<string, string>, r: Raw)
    ensures var e := ExpandCommand(wordexp, aliases, r);
      Commands(wordexp, aliases, [r]) == if e.Some? then [e.value] else []
  {
    hide ExpandCommand;
    assert [r][1..] == [];
  }

  // ---------- What every step keeps ----------

  /** Which states have a pending command, and when its text has begun. */
  predicate Phase(m: Config) {
    if m.cs == 1 then m.pending == None && m.done == []
    else if m.cs == 5 || m.cs == 14 then m.pending.Some? && m.pending.value.text == ""
    else if 2 <= m.cs <= 13 then m.pending.Some? && m.pending.value.text != ""
    else m.cs == 0 || m.cs == 15
  }

  predicate NoNul(r: Raw) {
    NUL !in r.text && NUL !in r.input && NUL !in r.output
  }

  predicate StateInv(m: Config) {
    Phase(m) && (m.pending.Some? ==> NoNul(m.pending.value))
  }

  /** The action finds a command where it uses one; `new` loses none; and the first `term` of
      an empty line finds no text. */
  predicate Ready(act: Action, c: char, m: Config) {
    match act
    case New => m.pending.None?
    case Term => m.pending.None? ==> m.done == []
    case Append => m.pending.Some? && c != NUL
    case AppendIn => m.pending.Some? && c != NUL
    case AppendOut => m.pending.Some? && c != NUL
    case _ => m.pending.Some?
  }

  predicate ReadyAll(acts: seq<Action>, c: char, m: Config) {
    acts == [] || (Ready(acts[0], c, m) && ReadyAll(acts[1..], c, Do(acts[0], c, m)))
  }

  // How a state treats the pending command.

  predicate NoText(cs: nat) {
    cs == 5 || cs == 14
  }

  predicate HasText(cs: nat) {
    2 <= cs <= 13 && cs != 5
  }

  /** The kinds of transitions, by what they do. */
  predicate Kind(cs: nat, target: nat, acts: seq<Action>, c: char) {
    if acts == [] then target == 0 || (NoText(cs) && NoText(target)) || (HasText(cs) && HasText(target))
    else if acts == [Append] then HasText(target) && cs != 1 && c != NUL
    else if acts == [AppendIn] || acts == [AppendOut] then HasText(cs) && HasText(target) && c != NUL
    else if acts == [Bg] || acts == [PipeSep] || acts == [SeqSep] then HasText(cs) && HasText(target)
    else if acts == [New] then cs == 1 && NoText(target)
    else if acts == [New, Append] then cs == 1 && HasText(target) && c != NUL
    else if acts == [Term] then target == 15 && c == NUL
    else if acts == [Term, New] then HasText(cs) && NoText(target)
    else acts == [Term, New, Append] && HasText(cs) && HasText(target) && c != NUL
  }

  lemma DeltaKind(cs: nat, c: char)
    requires 1 <= cs < 15
    ensures Kind(cs, Delta(cs, c).0, Delta(cs, c).1, c)
  {
    if cs <= 5 || cs == 14 { LowKind(cs, c); } else { HighKind(cs, c); }
  }

  lemma LowKind(cs: nat, c: char)
    requires 1 <= cs <= 5 || cs == 14
    ensures Kind(cs, Delta(cs, c).0, Delta(cs, c).1, c)
  {}

  lemma HighKind(cs: nat, c: char)
    requires 6 <= cs < 14
    ensures Kind(cs, Delta(cs, c).0, Delta(cs, c).1, c)
  {}

  /** Every step of every run. A transition with actions never leads to the error state, and
      only the end of the line leads to the accepting one. */
  lemma StepKeeps(m: Config, c: char)
    requires StateInv(m) && 1 <= m.cs < 15
    ensures var (target, acts) := Delta(m.cs, c);
      && (acts != [] ==> target != 0) && (target == 15 ==> c == NUL) && target <= 15
      && ReadyAll(acts, c, m.(cs := target))
    ensures StateInv(Step(m, c))
  {
    hide Delta, Do, DoAll, Ready, ReadyAll;
    DeltaKind(m.cs, c);
    KindKeeps(m, Delta(m.cs, c).0, Delta(m.cs, c).1, c);
  }

  lemma KindKeeps(m: Config, target: nat, acts: seq<Action>, c: char)
    requires StateInv(m) && Kind(m.cs, target, acts, c) && 1 <= m.cs < 15
    ensures ReadyAll(acts, c, m.(cs := target)) && StateInv(DoAll(acts, c, m.(cs := target)))
  {
    hide DoAll, ReadyAll, Kind;
    ActionsUnfold(acts, c, m.(cs := target));
    if acts == [] {
      KeepsNone(m, target, c);
    } else if |acts| == 1 {
      assert acts == [acts[0]];
      KeepsOne(m, target, acts[0], c);
    } else {
      KeepsMore(m, target, acts, c);
    }
  }

  lemma KeepsNone(m: Config, target: nat, c: char)
    requires StateInv(m) && Kind(m.cs, target, [], c)
    ensures StateInv(m.(cs := target))
  {}

  lemma KeepsOne(m: Config, target: nat, act: Action, c: char)
    requires StateInv(m) && Kind(m.cs, target, [act], c) && 1 <= m.cs < 15
    ensures Ready(act, c, m.(cs := target)) && StateInv(Do(act, c, m.(cs := target)))
  {
    assert [act][0] == act;
  }

  lemma KeepsMore(m: Config, target: nat, acts: seq<Action>, c: char)
    requires StateInv(m) && Kind(m.cs, target, acts, c) && 1 <= m.cs < 15 && |acts| > 1
    ensures ReadyAll(acts, c, m.(cs := target)) && StateInv(DoAll(acts, c, m.(cs := target)))
  {
    var m0 := m.(cs := target);
    ActionsUnfold(acts, c, m0);
    if |acts| > 2 {
      assert acts == [Term, New, Append] && acts[1..] == [New, Append];
      ActionsUnfold([New, Append], c, Do(Term, c, m0));
    }
  }

  /** The lists of at most two actions. */
  lemma ActionsUnfold(acts: seq<Action>, c: char, m: Config)
    ensures acts == [] ==> DoAll(acts, c, m) == m && ReadyAll(acts, c, m)
    ensures |acts| == 1 ==> DoAll(acts, c, m) == Do(acts[0], c, m) && ReadyAll(acts, c, m) == Ready(acts[0], c, m)
    ensures |acts| == 2 ==>
      var m1 := Do(acts[0], c, m);
      && DoAll(acts, c, m) == Do(acts[1], c, m1)
      && ReadyAll(acts, c, m) == (Ready(acts[0], c, m) && Ready(acts[1], c, m1))
  {
    hide Do, Ready;
    if |acts| == 2 {
      var m1 := Do(acts[0], c, m);
      assert acts[1..] == [acts[1]];
      assert DoAll([acts[1]], c, m1) == Do(acts[1], c, m1);
      assert ReadyAll([acts[1]], c, m1) == Ready(acts[1], c, m1);
    }
  }

  /** Actions only add to the finished commands. */
  lemma {:induction false} DoAllGrows(acts: seq<Action>, c: char, m: Config)
    ensures m.done <= DoAll(acts, c, m).done
  {
    if acts == [] {
    } else {
      DoAllGrows(acts[1..], c, Do(acts[0], c, m));
    }
  }

  lemma {:induction false} RunGrows(m: Config, s: string)
    ensures m.done <= Run(m, s).done
    decreases |s|
  {
    if s == "" {
    } else {
      var (target, acts) := Delta(m.cs, s[0]);
      DoAllGrows(acts, s[0], m.(cs := target));
      RunGrows(Step(m, s[0]), s[1..]);
    }
  }

  // ---------- Created commands ----------

  /** How many commands an action list creates. */
  function CountNew(acts: seq<Action>): nat {
    if acts == [] then 0 else (if acts[0] == New then 1 else 0) + CountNew(acts[1..])
  }

  /** How many commands the run over `s` creates. */
  function RunNews(m: Config, s: string): nat
    decreases |s|
  {
    if s == "" then 0 else CountNew(Delta(m.cs, s[0]).1) + RunNews(Step(m, s[0]), s[1..])
  }

  /** The commands that are there: finished, or pending. */
  function Alive(m: Config): nat {
    |m.done| + if m.pending.Some? then 1 else 0
  }

  /** The commands that the parser has created when it ends: one for each it queued and the one
      whose words did not expand; or, if all words expand, those of the whole run. */
  function CreatedBy(wordexp: Wordexp, aliases: map<string, string>, f: Config): nat {
    var n := |Commands(wordexp, aliases, f.done)|;
    if n < |f.done| then n + 1 else Alive(f)
  }

  lemma {:induction false} ActionsCreate(acts: seq<Action>, c: char, m: Config)
    requires ReadyAll(acts, c, m)
    ensures Alive(DoAll(acts, c, m)) == Alive(m) + CountNew(acts)
  {
    if acts == [] {
    } else {
      ActionsCreate(acts[1..], c, Do(acts[0], c, m));
    }
  }

  /** Every command that a run creates stays, finished or pending: none is replaced, and none
      appears without its `new`. */
  lemma {:induction false} RunCreates(m: Config, s: string)
    requires StateInv(m)
    ensures Alive(Run(m, s)) == Alive(m) + RunNews(m, s)
    decreases |s|
  {
    hide Do, ReadyAll;
    if s == "" {
    } else {
      StepCreates(m, s[0]);
      RunCreates(Step(m, s[0]), s[1..]);
    }
  }

  lemma StepCreates(m: Config, c: char)
    requires StateInv(m)
    ensures StateInv(Step(m, c)) && Alive(Step(m, c)) == Alive(m) + CountNew(Delta(m.cs, c).1)
  {
    hide Do, ReadyAll;
    if 1 <= m.cs < 15 {
      StepKeeps(m, c);
      ActionsCreate(Delta(m.cs, c).1, c, m.(cs := Delta(m.cs, c).0));
    }
  }

  /** If all words expand, the parser creates as many commands as the run has `new` actions;
      otherwise it stops before any more. */
  lemma CreatedIsNew(wordexp: Wordexp, aliases: map<string, string>, s: string)
    ensures var f, n := Run(INITIAL, s), RunNews(INITIAL, s);
      && CreatedBy(wordexp, aliases, f) <= n
      && (|Commands(wordexp, aliases, f.done)| == |f.done| ==> CreatedBy(wordexp, aliases, f) == n)
  {
    hide Run, RunNews, Commands;
    RunCreates(INITIAL, s);
  }
}
