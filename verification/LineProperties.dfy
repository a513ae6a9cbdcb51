/** Laws of parsed lines: concatenation, printing and parsing back, and the shape of the
    command list that the executor relies on. */
module LineProperties {
  import opened Options
  import opened Text
  import opened Machine
  import opened LineSpec
  import opened LineProofs
  import opened Shapes

  // ---------- Concatenation ----------

  /** `rs` with its last command ending at separator `c`. */
  function EndAt(rs: seq<Raw>, c: char): seq<Raw>
    requires rs != []
  {
    rs[..|rs| - 1] + [Joined(rs[|rs| - 1], c)]
  }

  lemma {:induction false} SegmentsNotEmpty(s: string)
    requires ParseSegments(s).Some?
    ensures ParseSegments(s).value != [] && !AllBlank(s)
    decreases |s|
  {
    SegmentText(s[..FirstSep(s)]);
  }

  /** The first separator of `x c y` when `c` separates. */
  lemma {:induction false} FirstSepConcat(x: string, c: char, y: string)
    requires Separator(c)
    ensures FirstSep(x + [c] + y) == FirstSep(x)
    decreases |x|
  {
    if x == "" || Separator(x[0]) {
    } else {
      assert (x + [c] + y)[1..] == x[1..] + [c] + y;
      FirstSepConcat(x[1..], c, y);
    }
  }

  /** `ParseSegments` on a line of one segment. */
  lemma SegmentsLast(s: string)
    requires FirstSep(s) == |s|
    ensures ParseSegments(s) == if ParseSegment(s).Some? then Some([ParseSegment(s).value]) else None
  {
    hide ParseSegment;
    assert s[..|s|] == s;
  }

  /** `ParseSegments` on a line whose first segment ends before the line does. */
  lemma SegmentsStep(s: string, n: nat)
    requires n == FirstSep(s) < |s|
    ensures ParseSegments(s) ==
      if ParseSegment(s[..n]).Some? && ParseSegments(s[n + 1..]).Some? then
        Some([Joined(ParseSegment(s[..n]).value, s[n])] + ParseSegments(s[n + 1..]).value)
      else None
  {
    hide ParseSegment;
  }

  lemma {:induction false} ConcatSegments(x: string, c: char, y: string)
    requires ParseSegments(x).Some? && Separator(c)
    ensures ParseSegments(x).value != []
    ensures ParseSegments(x + [c] + y) ==
      if ParseSegments(y).Some? then Some(EndAt(ParseSegments(x).value, c) + ParseSegments(y).value) else None
    decreases |x|
  {
    hide ParseSegment, ParseSegments, Joined;
    var n, s := FirstSep(x), x + [c] + y;
    FirstSepConcat(x, c, y);
    SegmentsStep(s, n);
    assert s[..n] == x[..n] && s[n] == (if n < |x| then x[n] else c);
    if n == |x| {
      SegmentsLast(x);
      assert s[n + 1..] == y && x[..n] == x;
      EndAtOne(ParseSegment(x).value, c);
    } else {
      SegmentsStep(x, n);
      assert s[n + 1..] == x[n + 1..] + [c] + y;
      ConcatSegments(x[n + 1..], c, y);
      if ParseSegments(y).Some? {
        EndAtCons(Joined(ParseSegment(x[..n]).value, x[n]), ParseSegments(x[n + 1..]).value, c, ParseSegments(y).value);
      }
    }
  }

  lemma EndAtOne(r: Raw, c: char)
    ensures EndAt([r], c) == [Joined(r, c)]
  {
    assert [r][..0] == [];
  }

  lemma EndAtCons(r: Raw, rs: seq<Raw>, c: char, qs: seq<Raw>)
    requires rs != []
    ensures EndAt([r] + rs, c) + qs == [r] + (EndAt(rs, c) + qs)
  {
    hide Joined;
    assert ([r] + rs)[..|rs|] == [r] + rs[..|rs| - 1];
  }

  /** Joining two accepted non-blank lines by `;` or `|` joins their command lists. */
  lemma Concatenation(x: string, c: char, y: string)
    requires !AllBlank(x) && !AllBlank(y) && Parse(x).Some? && Parse(y).Some? && Separator(c)
    ensures Parse(x).value != []
    ensures Parse(x + [c] + y) == Some(EndAt(Parse(x).value, c) + Parse(y).value)
  {
    ConcatSegments(x, c, y);
    assert !Blank((x + [c] + y)[|x|]);
  }

  // ---------- The shape of the result ----------

  predicate IsRaw(r: Raw) {
    IsText(r.text) && (r.input == "" || IsText(r.input)) && (r.output == "" || IsText(r.output))
  }

  /** Every command but the last ends at a separator, and the last one does not. */
  predicate WellFormed(rs: seq<Raw>) {
    && rs != []
    && (forall i :: 0 <= i < |rs| ==> IsRaw(rs[i]))
    && (forall i :: 0 <= i < |rs| - 1 ==> rs[i].mask != NoConnection)
    && (rs[|rs| - 1].mask == NoConnection || rs[|rs| - 1].mask == Background)
  }

  function CountSeps(s: string): nat {
    if s == "" then 0 else (if Separator(s[0]) then 1 else 0) + CountSeps(s[1..])
  }

  lemma SegmentIsRaw(s: string)
    requires ParseSegment(s).Some?
    ensures var r := ParseSegment(s).value; IsRaw(r) && (r.mask == NoConnection || r.mask == Background)
  {
    var sh := SegmentParts(s);
    ShapeParses(sh);
    ShapeIsRaw(sh);
  }

  lemma ShapeIsRaw(sh: Shape)
    requires Valid(sh)
    ensures var r := ShapeRaw(sh); IsRaw(r) && (r.mask == NoConnection || r.mask == Background)
  {
    TextOfIsText(sh.redirs, '<');
    TextOfIsText(sh.redirs, '>');
  }

  lemma {:induction false} TextOfIsText(rs: seq<Redir>, sign: char)
    requires forall i :: 0 <= i < |rs| ==> ValidRedir(rs[i])
    ensures TextOf(rs, sign) == "" || IsText(TextOf(rs, sign))
  {
    if rs == [] {
    } else {
      TextOfIsText(rs[1..], sign);
    }
  }

  lemma {:induction false} CountSepsFirst(s: string)
    ensures CountSeps(s) == if FirstSep(s) == |s| then 0 else 1 + CountSeps(s[FirstSep(s) + 1..])
    decreases |s|
  {
    if s == "" || Separator(s[0]) {
    } else {
      CountSepsFirst(s[1..]);
      if FirstSep(s) < |s| { assert s[1..][FirstSep(s[1..]) + 1..] == s[FirstSep(s) + 1..]; }
    }
  }

  /** An accepted non-blank line gives one command more than it has separators. */
  lemma {:induction false} ResultShape(s: string)
    requires ParseSegments(s).Some?
    ensures WellFormed(ParseSegments(s).value)
    ensures |ParseSegments(s).value| == 1 + CountSeps(s)
    decreases |s|
  {
    hide ParseSegment;
    var n := FirstSep(s);
    CountSepsFirst(s);
    SegmentIsRaw(s[..n]);
    if n < |s| {
      SegmentsStep(s, n);
      ResultShape(s[n + 1..]);
      WellFormedCons(Joined(ParseSegment(s[..n]).value, s[n]), ParseSegments(s[n + 1..]).value);
    }
  }

  lemma WellFormedCons(r: Raw, rs: seq<Raw>)
    requires IsRaw(r) && r.mask != NoConnection && WellFormed(rs)
    ensures WellFormed([r] + rs)
  {}

  /** The executor's 2*(n-1) pipe ends hold the write index 2*i+1 of every piped command. */
  lemma PipeIndexInBounds(line: string, i: nat)
    requires Parse(line).Some? && i < |Parse(line).value| && Parse(line).value[i].mask == Pipe
    ensures 2 * i + 1 < 2 * (|Parse(line).value| - 1)
  {
    hide ParseSegments;
    ResultShape(line);
  }

  // ---------- Segments and masks ----------

  /** The pieces between the separators, and the separators. */
  function Segments(s: string): seq<string>
    decreases |s|
  {
    var n := FirstSep(s);
    if n == |s| then [s] else [s[..n]] + Segments(s[n + 1..])
  }

  function Seps(s: string): string
    decreases |s|
  {
    var n := FirstSep(s);
    if n == |s| then "" else [s[n]] + Seps(s[n + 1..])
  }

  function Weave(segments: seq<string>, seps: string): string
    requires |segments| == |seps| + 1
  {
    if seps == "" then segments[0] else segments[0] + [seps[0]] + Weave(segments[1..], seps[1..])
  }

  /** Segments and separators make up the line. */
  lemma {:induction false} SegmentsWeave(s: string)
    ensures |Segments(s)| == |Seps(s)| + 1 && Weave(Segments(s), Seps(s)) == s
    decreases |s|
  {
    hide FirstSep;
    var n := FirstSep(s);
    if n == |s| {
    } else {
      SegmentsWeave(s[n + 1..]);
      WeaveCons(s[..n], s[n], Segments(s[n + 1..]), Seps(s[n + 1..]));
      assert s == s[..n] + [s[n]] + s[n + 1..];
    }
  }

  lemma WeaveCons(seg: string, sep: char, segments: seq<string>, seps: string)
    requires |segments| == |seps| + 1
    ensures Weave([seg] + segments, [sep] + seps) == seg + [sep] + Weave(segments, seps)
  {
    assert ([seg] + segments)[1..] == segments && ([sep] + seps)[1..] == seps;
  }

  /** Only the separators are `;` and `|`. */
  lemma {:induction false} SegmentsSeparate(s: string)
    ensures forall i :: 0 <= i < |Segments(s)| ==> ';' !in Segments(s)[i] && '|' !in Segments(s)[i]
    ensures forall i :: 0 <= i < |Seps(s)| ==> Seps(s)[i] == ';' || Seps(s)[i] == '|'
    decreases |s|
  {
    hide FirstSep;
    var n := FirstSep(s);
    if n == |s| {
    } else {
      SegmentsSeparate(s[n + 1..]);
    }
  }

  /** The mask of a command with segment `seg` that ends at separator `sep`, or at the end of the
      line: a pipe sign makes it piped, whatever stands before; else `&` leaves it in the
      background; else a semicolon makes it sequential. */
  function MaskOf(seg: string, sep: Option<char>): Mask {
    if sep == Some('|') then Pipe
    else if '&' in seg then Background
    else if sep == Some(';') then Sequential
    else NoConnection
  }

  function SepAfter(s: string, i: nat): Option<char> {
    if i < |Seps(s)| then Some(Seps(s)[i]) else None
  }

  /** The `i`-th command of a line is that of its `i`-th segment, with the mask of the separator
      after it. */
  predicate IsCommandOf(r: Raw, seg: string, sep: Option<char>) {
    match ParseSegment(seg)
    case None => false
    case Some(q) => r.text == q.text && r.input == q.input && r.output == q.output && r.mask == MaskOf(seg, sep)
  }

  lemma {:induction false} CommandsOfSegments(s: string)
    requires ParseSegments(s).Some?
    ensures var rs := ParseSegments(s).value;
      && |rs| == |Segments(s)|
      && forall i :: 0 <= i < |rs| ==> IsCommandOf(rs[i], Segments(s)[i], SepAfter(s, i))
    decreases |s|
  {
    hide ParseSegment, IsCommandOf;
    var n := FirstSep(s);
    FirstCommandIs(s);
    if n == |s| {
    } else {
      var t := s[n + 1..];
      SegmentsStep(s, n);
      CommandsOfSegments(t);
      var rs, qs := ParseSegments(s).value, ParseSegments(t).value;
      forall i | 0 < i < |rs| ensures IsCommandOf(rs[i], Segments(s)[i], SepAfter(s, i)) {
        assert rs[i] == qs[i - 1] && Segments(s)[i] == Segments(t)[i - 1] && SepAfter(s, i) == SepAfter(t, i - 1);
      }
    }
  }

  lemma FirstCommandIs(s: string)
    requires ParseSegments(s).Some?
    ensures var rs := ParseSegments(s).value;
      rs != [] && Segments(s) != [] && IsCommandOf(rs[0], Segments(s)[0], SepAfter(s, 0))
  {
    hide ParseSegment, FirstSep;
    var n := FirstSep(s);
    assert s[..|s|] == s;
    SegmentMask(s[..n]);
    if n < |s| { SegmentsStep(s, n); }
  }

  /** A segment asks for the background iff it holds `&`. */
  lemma SegmentMask(s: string)
    requires ParseSegment(s).Some?
    ensures ParseSegment(s).value.mask == if '&' in s then Background else NoConnection
  {
    hide ParseSegment, FlattenRedirs, Finishes, IsText, ValidRedir;
    var sh := SegmentParts(s);
    ShapeParses(sh);
    AmpersandInRedirs(sh.redirs, sh.tail);
    NoAmpersand(sh.blanks, sh.text);
    InConcat('&', sh.blanks + sh.text, FlattenRedirs(sh.redirs, sh.tail));
    assert s == sh.blanks + sh.text + FlattenRedirs(sh.redirs, sh.tail);
  }

  lemma InConcat(c: char, a: string, b: string)
    ensures c in a + b <==> c in a || c in b
  {}

  lemma NoAmpersand(blanks: string, text: string)
    requires AllBlank(blanks) && IsText(text)
    ensures '&' !in blanks + text
  {
    InConcat('&', blanks, text);
  }

  lemma {:induction false} AmpersandInRedirs(rs: seq<Redir>, tail: string)
    requires (forall i :: 0 <= i < |rs| ==> ValidRedir(rs[i])) && Finishes(tail)
    ensures '&' in FlattenRedirs(rs, tail) <==> tail != ""
  {
    hide IsText;
    if rs == [] {
    } else {
      AmpersandInRedirs(rs[1..], tail);
      assert ValidRedir(rs[0]);
      var front, rest := rs[0].blanks + rs[0].text, FlattenRedirs(rs[1..], tail);
      NoAmpersand(rs[0].blanks, rs[0].text);
      InConcat('&', front, rest);
      InConcat('&', [rs[0].sign], front + rest);
      assert FlattenRedirs(rs, tail) == [rs[0].sign] + (front + rest);
    }
  }

  // ---------- Printing ----------

  /** A redirection, printed if there is one. */
  function PrintRedir(sign: char, t: string): string {
    if t == "" then "" else [sign] + t
  }

  function PrintRaw(r: Raw): string {
    r.text + (PrintRedir('<', r.input) + (PrintRedir('>', r.output) + (if r.mask == Background then "&" else "")))
  }

  function Print(rs: seq<Raw>): string
    requires rs != []
  {
    if |rs| == 1 then PrintRaw(rs[0])
    else PrintRaw(rs[0]) + [if rs[0].mask == Pipe then '|' else ';'] + Print(rs[1..])
  }

  function RedirOf(sign: char, t: string): seq<Redir> {
    if t == "" then [] else [Redir(sign, "", t)]
  }

  function RedirsOf(r: Raw): seq<Redir> {
    RedirOf('<', r.input) + RedirOf('>', r.output)
  }

  lemma RedirOfFlat(sign: char, t: string, rs: seq<Redir>, tail: string)
    ensures FlattenRedirs(RedirOf(sign, t) + rs, tail) == PrintRedir(sign, t) + FlattenRedirs(rs, tail)
    ensures forall c :: TextOf(RedirOf(sign, t) + rs, c) == if t != "" && c == sign then t else TextOf(rs, c)
  {
    if t == "" {
      assert [] + rs == rs;
    } else {
      assert ([Redir(sign, "", t)] + rs)[1..] == rs;
    }
  }

  lemma PrintedSegment(r: Raw)
    requires IsRaw(r)
    ensures ParseSegment(PrintRaw(r)) == Some(r.(mask := if r.mask == Background then Background else NoConnection))
    ensures InSegment(PrintRaw(r))
  {
    var tail := if r.mask == Background then "&" else "";
    var sh := Shape("", r.text, RedirsOf(r), tail);
    PrintedShape(r, tail);
    ShapeParses(sh);
    ShapeInSegment(sh);
  }

  lemma PrintedShape(r: Raw, tail: string)
    requires IsRaw(r) && tail == if r.mask == Background then "&" else ""
    ensures var sh := Shape("", r.text, RedirsOf(r), tail);
      && Valid(sh) && Flatten(sh) == PrintRaw(r)
      && ShapeRaw(sh) == r.(mask := if r.mask == Background then Background else NoConnection)
  {
    RedirOfFlat('<', r.input, RedirOf('>', r.output), tail);
    RedirOfFlat('>', r.output, [], tail);
    assert RedirOf('>', r.output) + [] == RedirOf('>', r.output);
  }

  /** Printing a well-formed command list and parsing the line gives the list back. */
  lemma {:induction false} RoundTrip(rs: seq<Raw>)
    requires WellFormed(rs)
    ensures IsCString(Print(rs)) && ParseSegments(Print(rs)) == Some(rs) && Parse(Print(rs)) == Some(rs)
    decreases |rs|
  {
    hide ParseSegment, ParseSegments, PrintRaw, IsRaw;
    PrintedLine(rs[0]);
    if |rs| > 1 {
      var c := if rs[0].mask == Pipe then '|' else ';';
      RoundTrip(rs[1..]);
      ConcatSegments(PrintRaw(rs[0]), c, Print(rs[1..]));
      EndAtOne(rs[0].(mask := if rs[0].mask == Background then Background else NoConnection), c);
      assert rs == [rs[0]] + rs[1..];
    } else {
      assert rs == [rs[0]];
    }
    SegmentsNotEmpty(Print(rs));
  }

  lemma PrintedLine(r: Raw)
    requires IsRaw(r)
    ensures IsCString(PrintRaw(r))
    ensures ParseSegments(PrintRaw(r)) == Some([r.(mask := if r.mask == Background then Background else NoConnection)])
  {
    hide ParseSegment, ParseSegments, PrintRaw, IsRaw;
    PrintedSegment(r);
    SegmentsLast(PrintRaw(r));
  }

  /** The command lists that lines can give are exactly the well-formed ones, and the machine
      gives back what was printed. */
  lemma MachineRoundTrip(rs: seq<Raw>)
    ensures WellFormed(rs) <==> exists line :: IsCString(line) && !AllBlank(line) && Parse(line) == Some(rs)
    ensures WellFormed(rs) ==> Run(INITIAL, Print(rs) + [NUL]).cs == 15 && Run(INITIAL, Print(rs) + [NUL]).done == rs
  {
    if WellFormed(rs) {
      RoundTrip(rs);
      SegmentsNotEmpty(Print(rs));
      MachineComputesSpec(Print(rs));
      FinishedIsParse(Print(rs));
    }
    forall line | !AllBlank(line) && Parse(line) == Some(rs) ensures WellFormed(rs) {
      ResultShape(line);
    }
  }
}
