/** The parser as a pure state machine: the transitions of the sixteen states, and what each
    action does to the pending command and to the finished commands. */
module Machine {
  import opened Text
  import opened Options

  datatype Action = Append | AppendIn | AppendOut | New | Term | PipeSep | Bg | SeqSep

  datatype Mask = NoConnection | Pipe | Background | Sequential

  /** A command as captured, before alias, word and path expansion. An absent redirection
      is the empty text. */
  datatype Raw = Raw(text: string, input: string, output: string, mask: Mask)

  const EMPTY_RAW := Raw("", "", "", NoConnection)

  // ---------- Transitions ----------

  /** In a captured text: more text, the end of the line, or an operator. */
  function InText(self: nat, act: Action, lt: nat, gt: nat, c: char): (nat, seq<Action>) {
    if c == NUL then (15, [Term])
    else if c == '&' then (3, [Bg])
    else if c == ';' then (4, [SeqSep])
    else if c == '|' then (4, [PipeSep])
    else if c == '<' then (lt, [])
    else if c == '>' then (gt, [])
    else (self, [act])
  }

  /** After a redirection sign: blanks, then a text. */
  function BeforeText(self: nat, next: nat, act: Action, c: char): (nat, seq<Action>) {
    if c == NUL || Operator(c) then (0, []) else if Blank(c) then (self, []) else (next, [act])
  }

  function Delta(cs: nat, c: char): (nat, seq<Action>) {
    match cs
    case 1 =>
      if c == NUL then (15, [Term]) else if Operator(c) then (0, [])
      else if Blank(c) then (14, [New]) else (2, [New, Append])
    case 14 =>
      if c == NUL then (15, [Term]) else if Operator(c) then (0, [])
      else if Blank(c) then (14, []) else (2, [Append])
    case 2 => InText(2, Append, 6, 10, c)
    case 3 =>
      if c == NUL then (15, [Term]) else if c == ';' then (4, [SeqSep])
      else if c == '|' then (4, [PipeSep]) else if Blank(c) then (3, []) else (0, [])
    case 4 =>
      if c == NUL || Operator(c) then (0, [])
      else if Blank(c) then (5, [Term, New]) else (2, [Term, New, Append])
    case 5 => BeforeText(5, 2, Append, c)
    case 6 => BeforeText(6, 7, AppendIn, c)
    case 7 => InText(7, AppendIn, 0, 8, c)
    case 8 => BeforeText(8, 9, AppendOut, c)
    case 9 => InText(9, AppendOut, 0, 0, c)
    case 10 => BeforeText(10, 11, AppendOut, c)
    case 11 => InText(11, AppendOut, 12, 0, c)
    case 12 => BeforeText(12, 13, AppendIn, c)
    case 13 => InText(13, AppendIn, 0, 0, c)
    case _ => (0, [])
  }

  // ---------- Runs ----------

  /** `pending` is the command between `new` and `term`, `done` the commands that reached
      `term`. */
  datatype Config = Config(cs: nat, pending: Option<Raw>, done: seq<Raw>)

  const INITIAL := Config(1, None, [])

  function Edit(act: Action, c: char, r: Raw): Raw {
    match act
    case Append => r.(text := r.text + [c])
    case AppendIn => r.(input := r.input + [c])
    case AppendOut => r.(output := r.output + [c])
    case PipeSep => r.(mask := Pipe)
    case Bg => r.(mask := Background)
    case SeqSep => if r.mask == Background then r else r.(mask := Sequential)
    case _ => r
  }

  function Do(act: Action, c: char, m: Config): Config {
    match act
    case New => m.(pending := Some(EMPTY_RAW))
    case Term =>
      if m.pending.Some? && m.pending.value.text != "" then m.(pending := None, done := m.done + [m.pending.value])
      else m
    case _ => if m.pending.Some? then m.(pending := Some(Edit(act, c, m.pending.value))) else m
  }

  function DoAll(acts: seq<Action>, c: char, m: Config): Config {
    if acts == [] then m else DoAll(acts[1..], c, Do(acts[0], c, m))
  }

  function Step(m: Config, c: char): Config {
    var (target, acts) := Delta(m.cs, c);
    DoAll(acts, c, m.(cs := target))
  }

  function Run(m: Config, s: string): Config
    decreases |s|
  {
    if s == "" then m else Run(Step(m, s[0]), s[1..])
  }

  lemma {:induction false} RunConcat(m: Config, a: string, b: string)
    ensures Run(m, a + b) == Run(Run(m, a), b)
    decreases |a|
  {
    if a == "" {
      assert a + b == b;
    } else {
      assert (a + b)[1..] == a[1..] + b;
      RunConcat(Step(m, a[0]), a[1..], b);
    }
  }
}
