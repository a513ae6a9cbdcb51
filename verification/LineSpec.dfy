/** What a command line means, without the machine: split it at `|` and `;` and parse each
    segment by itself. */
module LineSpec {
  import opened Options
  import opened Text
  import opened Machine

  /** Number of leading blanks. */
  function SpanBlank(s: string): (n: nat)
    ensures n <= |s|
  {
    if s == "" || !Blank(s[0]) then 0 else 1 + SpanBlank(s[1..])
  }

  /** Number of leading text characters. */
  function SpanText(s: string): (n: nat)
    ensures n <= |s|
  {
    if s == "" || !TextChar(s[0]) then 0 else 1 + SpanText(s[1..])
  }

  datatype Taken = Taken(text: string, rest: string)

  /** Skips blanks and takes a text that starts with a word character; blanks after and
      inside the text belong to it. Gives the text and what follows. */
  function TakeText(s: string): (r: Option<Taken>)
    ensures r.Some? ==> |r.value.rest| < |s|
  {
    var a := s[SpanBlank(s)..];
    if a == "" || !WordChar(a[0]) then None else Some(Taken(a[..SpanText(a)], a[SpanText(a)..]))
  }

  /** The end of a segment: nothing, or `&` and blanks. */
  function Finish(text: string, input: string, output: string, s: string): Option<Raw> {
    if s == "" then Some(Raw(text, input, output, NoConnection))
    else if s[0] == '&' && AllBlank(s[1..]) then Some(Raw(text, input, output, Background))
    else None
  }

  predicate StartsWith(s: string, c: char) {
    s != "" && s[0] == c
  }

  /** The rest of a segment after a redirection of the input. */
  function AfterInput(text: string, input: string, s: string): Option<Raw> {
    if StartsWith(s, '>') then
      match TakeText(s[1..])
      case None => None
      case Some(Taken(output, r)) => Finish(text, input, output, r)
    else Finish(text, input, "", s)
  }

  /** The rest of a segment after a redirection of the output. */
  function AfterOutput(text: string, output: string, s: string): Option<Raw> {
    if StartsWith(s, '<') then
      match TakeText(s[1..])
      case None => None
      case Some(Taken(input, r)) => Finish(text, input, output, r)
    else Finish(text, "", output, s)
  }

  /** The rest of a segment after the command text. */
  function AfterCommand(text: string, s: string): Option<Raw> {
    if StartsWith(s, '<') then
      match TakeText(s[1..])
      case None => None
      case Some(Taken(input, r)) => AfterInput(text, input, r)
    else if StartsWith(s, '>') then
      match TakeText(s[1..])
      case None => None
      case Some(Taken(output, r)) => AfterOutput(text, output, r)
    else Finish(text, "", "", s)
  }

  /** One command with at most one redirection of each kind, in either order. */
  function ParseSegment(s: string): Option<Raw> {
    match TakeText(s)
    case None => None
    case Some(Taken(text, r)) => AfterCommand(text, r)
  }

  /** Index of the first separator, or the length. */
  function FirstSep(s: string): (n: nat)
    ensures n <= |s|
    ensures n < |s| ==> Separator(s[n])
    ensures forall i :: 0 <= i < n ==> !Separator(s[i])
  {
    if s == "" || Separator(s[0]) then 0 else 1 + FirstSep(s[1..])
  }

  /** The mask of a command that ends at separator `c`. */
  function Joined(r: Raw, c: char): Raw {
    if c == '|' then r.(mask := Pipe) else if r.mask == Background then r else r.(mask := Sequential)
  }

  /** A non-blank line. */
  function ParseSegments(s: string): Option<seq<Raw>>
    decreases |s|
  {
    var n := FirstSep(s);
    match ParseSegment(s[..n])
    case None => None
    case Some(r) =>
      if n == |s| then Some([r])
      else
        match ParseSegments(s[n + 1..])
        case None => None
        case Some(rs) => Some([Joined(r, s[n])] + rs)
  }

  function Parse(line: string): Option<seq<Raw>> {
    if AllBlank(line) then Some([]) else ParseSegments(line)
  }

  /** The commands that are complete before the first syntax error can be seen: a command
      that ends at a separator counts once the next character is no operator. */
  function Finished(s: string): seq<Raw>
    decreases |s|
  {
    var n := FirstSep(s);
    match ParseSegment(s[..n])
    case None => []
    case Some(r) =>
      if n == |s| then [r]
      else if n + 1 == |s| || Operator(s[n + 1]) then []
      else [Joined(r, s[n])] + Finished(s[n + 1..])
  }
}
