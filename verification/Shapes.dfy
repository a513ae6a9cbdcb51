/** The pieces of a segment, and the proof that ParseSegment reads exactly the segments that
    can be put together from such pieces, with the texts of the pieces. */
module Shapes {
  import opened Options
  import opened Text
  import opened Machine
  import opened LineSpec
  import opened LineProofs

  /** A text as it is captured: it starts with a word character and may end with blanks. */
  predicate IsText(s: string) {
    s != "" && WordChar(s[0]) && AllText(s)
  }

  lemma TextConcat(s: string, t: string)
    requires IsText(s) && AllText(t)
    ensures IsText(s + t)
  {}

  /** TakeText finds a text wherever there is one. */
  lemma {:induction false} TakeTextIs(b: string, t: string, r: string)
    requires AllBlank(b) && IsText(t) && (r == "" || !TextChar(r[0]))
    ensures TakeText(b + (t + r)) == Some(Taken(t, r))
  {
    SpanBlankIs(b, t + r);
    assert (b + (t + r))[|b|..] == t + r;
    SpanTextIs(t, r);
    assert (t + r)[..|t|] == t && (t + r)[|t|..] == r;
  }

  lemma {:induction false} SpanBlankIs(b: string, s: string)
    requires AllBlank(b) && s != "" && !Blank(s[0])
    ensures SpanBlank(b + s) == |b|
    decreases |b|
  {
    if b == "" { assert b + s == s; } else { assert (b + s)[1..] == b[1..] + s; SpanBlankIs(b[1..], s); }
  }

  lemma {:induction false} SpanTextIs(t: string, r: string)
    requires AllText(t) && (r == "" || !TextChar(r[0]))
    ensures SpanText(t + r) == |t|
    decreases |t|
  {
    if t == "" { assert t + r == r; } else { assert (t + r)[1..] == t[1..] + r; SpanTextIs(t[1..], r); }
  }

  /** The parts that TakeText found. */
  lemma TakeTextParts(s: string) returns (b: string)
    requires TakeText(s).Some?
    ensures s == b + (TakeText(s).value.text + TakeText(s).value.rest) && AllBlank(b) && IsText(TakeText(s).value.text)
    ensures var r := TakeText(s).value.rest; r == "" || !TextChar(r[0])
  {
    SpanBlankProps(s);
    b := s[..SpanBlank(s)];
    SpanTextProps(s[SpanBlank(s)..]);
  }

  // ---------- Pieces ----------

  datatype Redir = Redir(sign: char, blanks: string, text: string)

  /** `blanks text`, redirections, and nothing or `&` and blanks. */
  datatype Shape = Shape(blanks: string, text: string, redirs: seq<Redir>, tail: string)

  predicate Finishes(s: string) {
    s == "" || (s[0] == '&' && AllBlank(s[1..]))
  }

  predicate ValidRedir(r: Redir) {
    (r.sign == '<' || r.sign == '>') && AllBlank(r.blanks) && IsText(r.text)
  }

  predicate Valid(sh: Shape) {
    && AllBlank(sh.blanks) && IsText(sh.text) && Finishes(sh.tail) && ValidRedirs(sh.redirs)
  }

  predicate ValidRedirs(rs: seq<Redir>) {
    && |rs| <= 2
    && (|rs| > 0 ==> ValidRedir(rs[0]))
    && (|rs| > 1 ==> ValidRedir(rs[1]) && rs[0].sign != rs[1].sign)
  }

  function FlattenRedirs(rs: seq<Redir>, tail: string): string {
    if rs == [] then tail
    else [rs[0].sign] + (rs[0].blanks + (rs[0].text + FlattenRedirs(rs[1..], tail)))
  }

  function Flatten(sh: Shape): string {
    sh.blanks + (sh.text + FlattenRedirs(sh.redirs, sh.tail))
  }

  /** The text of the redirection by `sign`, or nothing. */
  function TextOf(rs: seq<Redir>, sign: char): string {
    if rs == [] then "" else if rs[0].sign == sign then rs[0].text else TextOf(rs[1..], sign)
  }

  function TailMask(tail: string): Mask {
    if tail == "" then NoConnection else Background
  }

  function ShapeRaw(sh: Shape): Raw {
    Raw(sh.text, TextOf(sh.redirs, '<'), TextOf(sh.redirs, '>'), TailMask(sh.tail))
  }

  // ---------- From pieces to the parse ----------

  lemma FinishIs(t: string, i: string, o: string, tail: string)
    ensures Finish(t, i, o, tail) == if Finishes(tail) then Some(Raw(t, i, o, TailMask(tail))) else None
  {}

  lemma FlatHead(rs: seq<Redir>, tail: string)
    requires ValidRedirs(rs) && Finishes(tail)
    ensures var s := FlattenRedirs(rs, tail); s == "" || !TextChar(s[0])
  {}

  lemma AfterInputIs(t: string, i: string, rs: seq<Redir>, tail: string)
    requires ValidRedirs(rs) && Finishes(tail) && |rs| <= 1 && (rs == [] || rs[0].sign == '>')
    ensures AfterInput(t, i, FlattenRedirs(rs, tail)) == Some(Raw(t, i, TextOf(rs, '>'), TailMask(tail)))
  {
    FinishIs(t, i, TextOf(rs, '>'), tail);
    if rs != [] { TakeTextIs(rs[0].blanks, rs[0].text, tail); }
  }

  lemma AfterOutputIs(t: string, o: string, rs: seq<Redir>, tail: string)
    requires ValidRedirs(rs) && Finishes(tail) && |rs| <= 1 && (rs == [] || rs[0].sign == '<')
    ensures AfterOutput(t, o, FlattenRedirs(rs, tail)) == Some(Raw(t, TextOf(rs, '<'), o, TailMask(tail)))
  {
    FinishIs(t, TextOf(rs, '<'), o, tail);
    if rs != [] { TakeTextIs(rs[0].blanks, rs[0].text, tail); }
  }

  /** One step of AfterCommand. */
  lemma FirstRedir(t: string, s: string, x: string, rest: string)
    requires (StartsWith(s, '<') || StartsWith(s, '>')) && TakeText(s[1..]) == Some(Taken(x, rest))
    ensures AfterCommand(t, s) == if s[0] == '<' then AfterInput(t, x, rest) else AfterOutput(t, x, rest)
  {}

  lemma AfterRedir(t: string, r: Redir, rs: seq<Redir>, tail: string)
    requires ValidRedir(r) && ValidRedirs(rs) && |rs| <= 1 && (rs == [] || rs[0].sign != r.sign) && Finishes(tail)
    ensures AfterCommand(t, [r.sign] + (r.blanks + (r.text + FlattenRedirs(rs, tail)))) ==
      if r.sign == '<' then Some(Raw(t, r.text, TextOf(rs, '>'), TailMask(tail)))
      else Some(Raw(t, TextOf(rs, '<'), r.text, TailMask(tail)))
  {
    var rest := FlattenRedirs(rs, tail);
    var s := [r.sign] + (r.blanks + (r.text + rest));
    FlatHead(rs, tail);
    TakeTextIs(r.blanks, r.text, rest);
    assert s[1..] == r.blanks + (r.text + rest);
    FirstRedir(t, s, r.text, rest);
    if r.sign == '<' { AfterInputIs(t, r.text, rs, tail); } else { AfterOutputIs(t, r.text, rs, tail); }
  }

  lemma AfterCommandIs(t: string, rs: seq<Redir>, tail: string)
    requires ValidRedirs(rs) && Finishes(tail)
    ensures AfterCommand(t, FlattenRedirs(rs, tail)) == Some(Raw(t, TextOf(rs, '<'), TextOf(rs, '>'), TailMask(tail)))
  {
    if rs == [] {
      FinishIs(t, "", "", tail);
    } else {
      AfterRedir(t, rs[0], rs[1..], tail);
      SecondTexts(rs);
    }
  }

  lemma SecondTexts(rs: seq<Redir>)
    requires ValidRedirs(rs) && rs != []
    ensures TextOf(rs, rs[0].sign) == rs[0].text
    ensures rs[0].sign == '<' ==> TextOf(rs, '>') == TextOf(rs[1..], '>')
    ensures rs[0].sign == '>' ==> TextOf(rs, '<') == TextOf(rs[1..], '<')
    ensures |rs| > 1 ==> rs[1..][0] == rs[1]
  {}

  lemma ShapeParses(sh: Shape)
    requires Valid(sh)
    ensures ParseSegment(Flatten(sh)) == Some(ShapeRaw(sh))
  {
    FlatHead(sh.redirs, sh.tail);
    TakeTextIs(sh.blanks, sh.text, FlattenRedirs(sh.redirs, sh.tail));
    AfterCommandIs(sh.text, sh.redirs, sh.tail);
  }

  // ---------- From the parse to pieces ----------

  /** A redirection at the start of `s`, taken off. */
  lemma TakeRedir(s: string) returns (r: Redir, rest: string)
    requires (StartsWith(s, '<') || StartsWith(s, '>')) && TakeText(s[1..]).Some?
    ensures ValidRedir(r) && r.sign == s[0] && TakeText(s[1..]) == Some(Taken(r.text, rest))
    ensures forall rs, tail :: rest == FlattenRedirs(rs, tail) ==> s == FlattenRedirs([r] + rs, tail)
  {
    var b := TakeTextParts(s[1..]);
    r, rest := Redir(s[0], b, TakeText(s[1..]).value.text), TakeText(s[1..]).value.rest;
    forall rs, tail | rest == FlattenRedirs(rs, tail) ensures s == FlattenRedirs([r] + rs, tail) {
      assert ([r] + rs)[1..] == rs;
      assert s == [s[0]] + s[1..];
    }
  }

  /** What follows a first redirection by `first`. */
  lemma SecondParts(t: string, first: char, x: string, s: string) returns (rs: seq<Redir>, tail: string)
    requires if first == '<' then AfterInput(t, x, s).Some? else first == '>' && AfterOutput(t, x, s).Some?
    ensures ValidRedirs(rs) && |rs| <= 1 && Finishes(tail) && s == FlattenRedirs(rs, tail)
    ensures rs == [] || rs[0].sign != first
  {
    FinishIs(t, x, "", s);
    FinishIs(t, "", x, s);
    if StartsWith(s, '<') || StartsWith(s, '>') {
      var r, rest := TakeRedir(s);
      FinishIs(t, x, r.text, rest);
      FinishIs(t, r.text, x, rest);
      rs, tail := [r], rest;
      assert rest == FlattenRedirs([], rest);
      assert [r] + [] == [r];
    } else {
      rs, tail := [], s;
    }
  }

  lemma SegmentParts(s: string) returns (sh: Shape)
    requires ParseSegment(s).Some?
    ensures Valid(sh) && s == Flatten(sh)
  {
    hide AfterInput, AfterOutput, TakeText, Finish;
    var Taken(t, r) := TakeText(s).value;
    var b := TakeTextParts(s);
    FinishIs(t, "", "", r);
    if StartsWith(r, '<') || StartsWith(r, '>') {
      var q, rest := TakeRedir(r);
      FirstRedir(t, r, q.text, rest);
      var rs, tail := SecondParts(t, q.sign, q.text, rest);
      sh := Shape(b, t, [q] + rs, tail);
    } else {
      sh := Shape(b, t, [], r);
    }
  }

  /** A segment parses iff it can be put together from pieces, and then the parse is the
      texts of the pieces. */
  lemma ParsesIffShaped(s: string)
    ensures ParseSegment(s).Some? <==> exists sh :: Valid(sh) && s == Flatten(sh)
    ensures forall sh :: Valid(sh) && s == Flatten(sh) ==> ParseSegment(s) == Some(ShapeRaw(sh))
  {
    if ParseSegment(s).Some? {
      var sh := SegmentParts(s);
    }
    forall sh | Valid(sh) && s == Flatten(sh) ensures ParseSegment(s) == Some(ShapeRaw(sh)) {
      ShapeParses(sh);
    }
  }

  lemma ShapeInSegment(sh: Shape)
    requires Valid(sh)
    ensures InSegment(Flatten(sh))
  {
    FlatInSegment(sh.redirs, sh.tail);
  }

  lemma FlatInSegment(rs: seq<Redir>, tail: string)
    requires (forall i :: 0 <= i < |rs| ==> ValidRedir(rs[i])) && Finishes(tail)
    ensures InSegment(FlattenRedirs(rs, tail))
  {
    if rs == [] {
      assert tail != "" ==> tail == [tail[0]] + tail[1..];
    } else {
      FlatInSegment(rs[1..], tail);
    }
  }
}
