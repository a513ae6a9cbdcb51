/** The grammar of src/parser.rl as regular expressions with their usual meaning, and the
    proof that LineSpec accepts exactly the lines that match `main`. */
module Grammar {
  import opened Options
  import opened Text
  import opened Machine
  import opened LineSpec
  import opened LineProofs
  import opened Shapes

  datatype Class = Word | Space | Is(c: char)

  datatype Re = Eps | Chr(k: Class) | Cat(a: Re, b: Re) | Alt(a: Re, b: Re) | Star(a: Re)

  predicate In(c: char, k: Class) {
    match k
    case Word => WordChar(c)
    case Space => Blank(c)
    case Is(d) => c == d
  }

  ghost predicate Matches(re: Re, s: string)
    decreases re, |s|
  {
    match re
    case Eps => s == ""
    case Chr(k) => |s| == 1 && In(s[0], k)
    case Cat(a, b) => exists i :: 0 <= i <= |s| && Matches(a, s[..i]) && Matches(b, s[i..])
    case Alt(a, b) => Matches(a, s) || Matches(b, s)
    case Star(a) => s == "" || exists i :: 0 < i <= |s| && Matches(a, s[..i]) && Matches(re, s[i..])
  }

  // ---------- The rules of the grammar ----------

  function Plus(a: Re): Re { Cat(a, Star(a)) }

  function Opt(a: Re): Re { Alt(a, Eps) }

  const SPACES := Star(Chr(Space))
  const WORD_RE := Plus(Chr(Word))
  const STRING_RE := Cat(WORD_RE, Star(Cat(Plus(Chr(Space)), WORD_RE)))
  const STDIN_RE := Cat(Chr(Is('<')), Cat(SPACES, STRING_RE))
  const STDOUT_RE := Cat(Chr(Is('>')), Cat(SPACES, STRING_RE))
  const REDIR_ALPHA := Cat(STDIN_RE, Cat(SPACES, Opt(STDOUT_RE)))
  const REDIR_BETA := Cat(STDOUT_RE, Cat(SPACES, Opt(STDIN_RE)))
  const ENDING := Cat(SPACES, Cat(Opt(Chr(Is('&'))), SPACES))
  const COMPLEX := Cat(SPACES, Cat(STRING_RE, Cat(SPACES, Cat(Opt(Alt(REDIR_ALPHA, REDIR_BETA)), ENDING))))
  const SEP_RE := Alt(Chr(Is('|')), Chr(Is(';')))
  const MAIN_RE := Cat(Alt(Cat(COMPLEX, Alt(Plus(JointRe(COMPLEX)), Eps)), SPACES), Chr(Is(NUL)))

  /** A separator and `x`. */
  function JointRe(x: Re): Re { Cat(SEP_RE, x) }

  // ---------- Taking matches apart and putting them together ----------

  lemma Join(a: Re, b: Re, s: string, t: string)
    requires Matches(a, s) && Matches(b, t)
    ensures Matches(Cat(a, b), s + t)
  {
    assert (s + t)[..|s|] == s && (s + t)[|s|..] == t;
  }

  lemma Split(a: Re, b: Re, s: string) returns (u: string, v: string)
    requires Matches(Cat(a, b), s)
    ensures s == u + v && Matches(a, u) && Matches(b, v)
  {
    var i :| 0 <= i <= |s| && Matches(a, s[..i]) && Matches(b, s[i..]);
    u, v := s[..i], s[i..];
  }

  lemma SplitChar(c: char, b: Re, s: string) returns (v: string)
    requires Matches(Cat(Chr(Is(c)), b), s)
    ensures s == [c] + v && Matches(b, v)
  {
    var u;
    u, v := Split(Chr(Is(c)), b, s);
    assert u == [c];
  }

  lemma JoinChar(c: char, b: Re, v: string)
    requires Matches(b, v)
    ensures Matches(Cat(Chr(Is(c)), b), [c] + v)
  {
    Join(Chr(Is(c)), b, [c], v);
  }

  lemma StarOfNothing(a: Re)
    ensures Matches(Star(a), "")
  {}

  lemma StarAgain(a: Re, u: string, v: string)
    requires Matches(a, u) && u != "" && Matches(Star(a), v)
    ensures Matches(Star(a), u + v)
  {
    assert (u + v)[..|u|] == u && (u + v)[|u|..] == v;
  }

  lemma SplitOpt(a: Re, s: string)
    ensures Matches(Opt(a), s) <==> s == "" || Matches(a, s)
  {}

  lemma SplitSpaces(b: Re, s: string) returns (u: string, v: string)
    requires Matches(Cat(SPACES, b), s)
    ensures s == u + v && AllBlank(u) && Matches(b, v)
  {
    u, v := Split(SPACES, b, s);
    BlanksMatch(u);
  }

  lemma JoinSpaces(b: Re, u: string, v: string)
    requires AllBlank(u) && Matches(b, v)
    ensures Matches(Cat(SPACES, b), u + v)
  {
    BlanksMatch(u);
    Join(SPACES, b, u, v);
  }

  predicate AllIn(s: string, k: Class) {
    forall i :: 0 <= i < |s| ==> In(s[i], k)
  }

  lemma {:induction false} StarOfClass(k: Class, s: string)
    ensures Matches(Star(Chr(k)), s) <==> AllIn(s, k)
    decreases |s|
  {
    if s == "" {
    } else {
      StarOfClass(k, s[1..]);
      assert s[..1][0] == s[0];
      assert AllIn(s, k) <==> In(s[0], k) && AllIn(s[1..], k);
      if Matches(Star(Chr(k)), s) {
        var i :| 0 < i <= |s| && Matches(Chr(k), s[..i]) && Matches(Star(Chr(k)), s[i..]);
        assert i == 1;
      } else {
        assert !(Matches(Chr(k), s[..1]) && Matches(Star(Chr(k)), s[1..]));
      }
    }
  }

  lemma PlusOfClass(k: Class, s: string)
    ensures Matches(Plus(Chr(k)), s) <==> s != "" && AllIn(s, k)
  {
    if Matches(Plus(Chr(k)), s) {
      var u, v := Split(Chr(k), Star(Chr(k)), s);
      StarOfClass(k, v);
    }
    if s != "" && AllIn(s, k) {
      StarOfClass(k, s[1..]);
      Join(Chr(k), Star(Chr(k)), s[..1], s[1..]);
      assert s[..1] + s[1..] == s;
    }
  }

  lemma BlanksMatch(s: string)
    ensures Matches(SPACES, s) <==> AllBlank(s)
  {
    StarOfClass(Space, s);
  }

  // ---------- Texts ----------

  const MORE_WORDS := Star(Cat(Plus(Chr(Space)), WORD_RE))

  lemma {:induction false} MoreWordsAreText(s: string)
    requires Matches(MORE_WORDS, s)
    ensures AllText(s)
    decreases |s|
  {
    if s == "" {
    } else {
      var i :| 0 < i <= |s| && Matches(Cat(Plus(Chr(Space)), WORD_RE), s[..i]) && Matches(MORE_WORDS, s[i..]);
      var u, v := Split(Plus(Chr(Space)), WORD_RE, s[..i]);
      PlusOfClass(Space, u);
      PlusOfClass(Word, v);
      MoreWordsAreText(s[i..]);
      assert s == u + v + s[i..];
    }
  }

  lemma StringIsText(s: string)
    requires Matches(STRING_RE, s)
    ensures IsText(s)
  {
    var u, v := Split(WORD_RE, MORE_WORDS, s);
    PlusOfClass(Word, u);
    MoreWordsAreText(v);
  }

  lemma WordIsString(w: string)
    requires Matches(WORD_RE, w)
    ensures Matches(STRING_RE, w)
  {
    assert Matches(MORE_WORDS, "");
    Join(WORD_RE, MORE_WORDS, w, "");
    assert w + "" == w;
  }

  /** A word, then blanks, then a text or nothing. */
  lemma TextParts(s: string) returns (w: string, b: string, t: string)
    requires IsText(s)
    ensures s == w + b + t && w != "" && Matches(WORD_RE, w) && AllBlank(b)
    ensures t == "" || (IsText(t) && b != "")
  {
    var i := SpanWord(s);
    w := s[..i];
    PlusOfClass(Word, w);
    SpanBlankProps(s[i..]);
    var j := SpanBlank(s[i..]);
    b, t := s[i..][..j], s[i..][j..];
  }

  /** A captured text is a string and blanks. */
  lemma {:induction false} TextIsString(s: string) returns (u: string, v: string)
    requires IsText(s)
    ensures s == u + v && Matches(STRING_RE, u) && AllBlank(v)
    decreases |s|
  {
    var w, b, t := TextParts(s);
    if t == "" {
      WordIsString(w);
      u, v := w, b;
    } else {
      var u', v' := TextIsString(t);
      PlusOfClass(Space, b);
      StringAgain(w, b, u');
      u, v := w + b + u', v';
      assert s == w + b + (u' + v') == u + v;
    }
  }

  /** A word and blanks before a string. */
  lemma StringAgain(w: string, b: string, t: string)
    requires Matches(WORD_RE, w) && Matches(Plus(Chr(Space)), b) && Matches(STRING_RE, t) && b != ""
    ensures Matches(STRING_RE, w + b + t)
  {
    hide Matches;
    var u, v := Split(WORD_RE, MORE_WORDS, t);
    Join(Plus(Chr(Space)), WORD_RE, b, u);
    StarAgain(Cat(Plus(Chr(Space)), WORD_RE), b + u, v);
    Join(WORD_RE, MORE_WORDS, w, b + u + v);
    assert w + (b + u + v) == w + b + t;
  }

  function SpanWord(s: string): (n: nat)
    ensures n <= |s| && AllIn(s[..n], Word)
    ensures n < |s| ==> !WordChar(s[n])
    ensures s != "" && WordChar(s[0]) ==> n > 0
  {
    if s == "" || !WordChar(s[0]) then 0
    else
      assert s[..1 + SpanWord(s[1..])] == [s[0]] + s[1..][..SpanWord(s[1..])];
      1 + SpanWord(s[1..])
  }

  // ---------- The end of a segment ----------

  lemma AmpersandMatches(r: string)
    requires Finishes(r)
    ensures Matches(Cat(Opt(Chr(Is('&'))), SPACES), r)
  {
    var amp := Chr(Is('&'));
    var a, b := if r == "" then "" else "&", if r == "" then "" else r[1..];
    assert r == a + b;
    SplitOpt(amp, a);
    BlanksMatch(b);
    Join(Opt(amp), SPACES, a, b);
  }

  lemma AmpersandIs(w: string)
    requires Matches(Cat(Opt(Chr(Is('&'))), SPACES), w)
    ensures Finishes(w) || AllBlank(w)
  {
    var amp := Chr(Is('&'));
    var a, b := Split(Opt(amp), SPACES, w);
    SplitOpt(amp, a);
    BlanksMatch(b);
    assert a == "" || a == "&";
    assert a == "" ==> w == b;
    assert a == "&" ==> w[1..] == b;
  }

  lemma EndingMatches(v: string, r: string)
    requires AllBlank(v) && Finishes(r)
    ensures Matches(ENDING, v + r)
  {
    hide Matches;
    AmpersandMatches(r);
    JoinSpaces(Cat(Opt(Chr(Is('&'))), SPACES), v, r);
  }

  lemma EndingIs(e: string) returns (x: string, y: string)
    requires Matches(ENDING, e)
    ensures e == x + y && AllBlank(x) && Finishes(y)
  {
    hide Matches;
    x, y := SplitSpaces(Cat(Opt(Chr(Is('&'))), SPACES), e);
    AmpersandIs(y);
    if AllBlank(y) { x, y := x + y, ""; }
  }

  // ---------- Redirections ----------

  /** A redirection sign with its text. */
  function RedirRe(c: char): Re { Cat(Chr(Is(c)), Cat(SPACES, STRING_RE)) }

  lemma RedirMatches(c: char, b: string, u: string)
    requires AllBlank(b) && Matches(STRING_RE, u)
    ensures Matches(RedirRe(c), [c] + (b + u))
  {
    hide Matches;
    JoinSpaces(STRING_RE, b, u);
    JoinChar(c, Cat(SPACES, STRING_RE), b + u);
  }

  lemma RedirIs(c: char, s: string) returns (b: string, u: string)
    requires Matches(RedirRe(c), s)
    ensures s == [c] + (b + u) && AllBlank(b) && IsText(u)
  {
    hide Matches;
    var y := SplitChar(c, Cat(SPACES, STRING_RE), s);
    b, u := SplitSpaces(STRING_RE, y);
    StringIsText(u);
  }

  /** A redirection, then possibly the other one; the blanks of the last text go to the
      ending. */
  function PairRe(c: char, d: char): Re { Cat(RedirRe(c), Cat(SPACES, Opt(RedirRe(d)))) }

  lemma PairMatches(c: char, d: char, b: string, u: string, v: string, o: string)
    requires AllBlank(b) && AllBlank(v) && Matches(STRING_RE, u) && (o == "" || Matches(RedirRe(d), o))
    ensures Matches(PairRe(c, d), [c] + (b + u) + (v + o))
  {
    hide Matches;
    RedirMatches(c, b, u);
    SplitOpt(RedirRe(d), o);
    JoinSpaces(Opt(RedirRe(d)), v, o);
    Join(RedirRe(c), Cat(SPACES, Opt(RedirRe(d))), [c] + (b + u), v + o);
  }

  lemma PairParts(c: char, d: char, q: string) returns (b: string, u: string, v: string, o: string)
    requires Matches(PairRe(c, d), q)
    ensures q == [c] + (b + u) + (v + o) && AllBlank(b) && IsText(u) && AllBlank(v)
    ensures o == "" || Matches(RedirRe(d), o)
  {
    hide Matches;
    var i, vo := Split(RedirRe(c), Cat(SPACES, Opt(RedirRe(d))), q);
    v, o := SplitSpaces(Opt(RedirRe(d)), vo);
    SplitOpt(RedirRe(d), o);
    b, u := RedirIs(c, i);
  }

  // ---------- A segment matches `complex` iff it can be put together from pieces ----------

  const REDIRECTIONS := Opt(Alt(REDIR_ALPHA, REDIR_BETA))

  lemma RedirectionsAre(q: string)
    ensures Matches(REDIRECTIONS, q) <==> q == "" || Matches(PairRe('<', '>'), q) || Matches(PairRe('>', '<'), q)
  {
    SplitOpt(Alt(REDIR_ALPHA, REDIR_BETA), q);
  }

  function Other(sign: char): char { if sign == '<' then '>' else '<' }

  /** A redirection whose text is split into a string and blanks. */
  lemma FlatSplit(r: Redir, rs: seq<Redir>, u: string, v: string, tail: string)
    requires r.text == u + v
    ensures FlattenRedirs([r] + rs, tail) == [r.sign] + (r.blanks + u) + (v + FlattenRedirs(rs, tail))
  {
    var f := FlattenRedirs(rs, tail);
    assert ([r] + rs)[1..] == rs;
    assert r.text + f == u + (v + f);
    assert r.blanks + (u + (v + f)) == (r.blanks + u) + (v + f);
  }

  lemma RedirsMatch(rs: seq<Redir>, tail: string)
    requires ValidRedirs(rs) && Finishes(tail)
    ensures Matches(Cat(REDIRECTIONS, ENDING), FlattenRedirs(rs, tail))
  {
    hide Matches;
    if rs == [] {
      EndingMatches("", tail);
      RedirectionsAre("");
      Join(REDIRECTIONS, ENDING, "", "" + tail);
      assert "" + ("" + tail) == tail;
    } else if |rs| == 1 {
      OneRedirMatches(rs[0], tail);
      assert [rs[0]] == rs;
    } else {
      TwoRedirsMatch(rs[0], rs[1], tail);
      assert [rs[0]] + [rs[1]] == rs;
    }
  }

  lemma OneRedirMatches(r: Redir, tail: string)
    requires ValidRedir(r) && Finishes(tail)
    ensures Matches(Cat(REDIRECTIONS, ENDING), FlattenRedirs([r], tail))
  {
    hide Matches;
    var u, v := TextIsString(r.text);
    PairMatches(r.sign, Other(r.sign), r.blanks, u, "", "");
    EndingMatches(v, tail);
    var q := [r.sign] + (r.blanks + u) + ("" + "");
    assert q == [r.sign] + (r.blanks + u);
    RedirectionsAre(q);
    Join(REDIRECTIONS, ENDING, q, v + tail);
    FlatSplit(r, [], u, v, tail);
    assert [r] + [] == [r];
  }

  lemma TwoRedirsMatch(r: Redir, r': Redir, tail: string)
    requires ValidRedir(r) && ValidRedir(r') && r.sign != r'.sign && Finishes(tail)
    ensures Matches(Cat(REDIRECTIONS, ENDING), FlattenRedirs([r] + [r'], tail))
  {
    hide Matches;
    var u, v := TextIsString(r.text);
    var u', v' := TextIsString(r'.text);
    var o := [r'.sign] + (r'.blanks + u');
    RedirMatches(r'.sign, r'.blanks, u');
    PairMatches(r.sign, r'.sign, r.blanks, u, v, o);
    EndingMatches(v', tail);
    var q := [r.sign] + (r.blanks + u) + (v + o);
    RedirectionsAre(q);
    Join(REDIRECTIONS, ENDING, q, v' + tail);
    FlatSplit(r', [], u', v', tail);
    assert [r'] + [] == [r'];
    FlatSplit(r, [r'], u, v, tail);
    RegroupTexts([r.sign] + (r.blanks + u), v, o, v' + tail);
  }

  lemma RegroupTexts(a: string, b: string, c: string, d: string)
    ensures a + (b + c) + d == a + (b + (c + d))
  {}

  lemma ShapeMatches(sh: Shape)
    requires Valid(sh)
    ensures Matches(COMPLEX, Flatten(sh))
  {
    hide Matches;
    var u, v := TextIsString(sh.text);
    var rest := FlattenRedirs(sh.redirs, sh.tail);
    RedirsMatch(sh.redirs, sh.tail);
    JoinSpaces(Cat(REDIRECTIONS, ENDING), v, rest);
    Join(STRING_RE, Cat(SPACES, Cat(REDIRECTIONS, ENDING)), u, v + rest);
    JoinSpaces(Cat(STRING_RE, Cat(SPACES, Cat(REDIRECTIONS, ENDING))), sh.blanks, u + (v + rest));
    assert u + (v + rest) == sh.text + rest;
  }

  /** The redirections of a match; the blanks `x` after the last text go to that text. */
  lemma PairRedirs(c: char, q: string, x: string, y: string) returns (rs: seq<Redir>)
    requires (c == '<' || c == '>') && Matches(PairRe(c, Other(c)), q) && AllBlank(x) && Finishes(y)
    ensures ValidRedirs(rs) && rs != [] && q + (x + y) == FlattenRedirs(rs, y)
  {
    hide Matches;
    var b, u, v, o := PairParts(c, Other(c), q);
    if o == "" {
      TextConcat(u, v + x);
      rs := [Redir(c, b, u + (v + x))] + [];
      FlatSplit(rs[0], [], u, v + x, y);
      assert v + o == v;
      RegroupTexts("", [c] + (b + u), v + x, y);
    } else {
      var b', u' := RedirIs(Other(c), o);
      TextConcat(u, v);
      TextConcat(u', x);
      var r := Redir(Other(c), b', u' + x);
      rs := [Redir(c, b, u + v)] + [r];
      FlatSplit(r, [], u', x, y);
      assert [r] + [] == [r];
      FlatSplit(rs[0], [r], u, v, y);
      RegroupTexts([c] + (b + u), v, o, x + y);
    }
  }

  lemma MatchParts(s: string) returns (b: string, u: string, v: string, q: string, x: string, y: string)
    requires Matches(COMPLEX, s)
    ensures s == b + (u + (v + (q + (x + y)))) && AllBlank(b) && IsText(u) && AllBlank(v) && AllBlank(x) && Finishes(y)
    ensures q == "" || Matches(PairRe('<', '>'), q) || Matches(PairRe('>', '<'), q)
  {
    hide Matches;
    var s1, s2, s3, e;
    b, s1 := SplitSpaces(Cat(STRING_RE, Cat(SPACES, Cat(REDIRECTIONS, ENDING))), s);
    u, s2 := Split(STRING_RE, Cat(SPACES, Cat(REDIRECTIONS, ENDING)), s1);
    v, s3 := SplitSpaces(Cat(REDIRECTIONS, ENDING), s2);
    q, e := Split(REDIRECTIONS, ENDING, s3);
    StringIsText(u);
    RedirectionsAre(q);
    x, y := EndingIs(e);
  }

  lemma MatchShape(s: string) returns (sh: Shape)
    requires Matches(COMPLEX, s)
    ensures Valid(sh) && s == Flatten(sh)
  {
    hide Matches;
    var b, u, v, q, x, y := MatchParts(s);
    if q == "" {
      TextConcat(u, v + x);
      sh := Shape(b, u + (v + x), [], y);
    } else {
      TextConcat(u, v);
      var rs;
      if Matches(PairRe('<', '>'), q) { rs := PairRedirs('<', q, x, y); } else { rs := PairRedirs('>', q, x, y); }
      sh := Shape(b, u + v, rs, y);
    }
  }

  lemma SegmentMatchesIffParses(s: string)
    ensures Matches(COMPLEX, s) <==> ParseSegment(s).Some?
  {
    hide Matches, ParseSegment;
    if Matches(COMPLEX, s) {
      var sh := MatchShape(s);
      ShapeParses(sh);
    }
    if ParseSegment(s).Some? {
      var sh := SegmentParts(s);
      ShapeMatches(sh);
    }
  }

  // ---------- A line matches `main` iff it parses ----------

  lemma SepIs(s: string)
    ensures Matches(SEP_RE, s) <==> |s| == 1 && Separator(s[0])
  {
    assert Matches(Chr(Is('|')), s) <==> |s| == 1 && s[0] == '|';
    assert Matches(Chr(Is(';')), s) <==> |s| == 1 && s[0] == ';';
  }

  lemma JointIs(x: Re, s: string)
    ensures Matches(JointRe(x), s) <==> s != "" && Separator(s[0]) && Matches(x, s[1..])
  {
    hide Matches;
    if Matches(JointRe(x), s) {
      var u, v := Split(SEP_RE, x, s);
      SepIs(u);
      assert s[1..] == v;
    }
    if s != "" && Separator(s[0]) && Matches(x, s[1..]) {
      SepIs(s[..1]);
      Join(SEP_RE, x, s[..1], s[1..]);
      assert s == s[..1] + s[1..];
    }
  }

  lemma {:induction false} FirstSepIs(a: string, r: string)
    requires InSegment(a) && (r == "" || Separator(r[0]))
    ensures FirstSep(a + r) == |a|
  {
    if a == "" { assert a + r == r; } else { assert (a + r)[1..] == a[1..] + r; FirstSepIs(a[1..], r); }
  }

  /** Every segment of `s` matches `x`. */
  ghost predicate SegmentsIn(x: Re, s: string)
    decreases |s|
  {
    var n := FirstSep(s);
    Matches(x, s[..n]) && (n == |s| || SegmentsIn(x, s[n + 1..]))
  }

  /** `x` matches no string with a separator. */
  ghost predicate NoSeparators(x: Re) {
    forall s :: Matches(x, s) ==> InSegment(s)
  }

  lemma {:induction false} SegmentsMatch(x: Re, s: string)
    requires SegmentsIn(x, s)
    ensures Matches(Cat(x, Star(JointRe(x))), s)
    decreases |s|
  {
    var n := FirstSep(s);
    hide Matches;
    var js := Star(JointRe(x));
    var t := s[n..];
    if n < |s| {
      SegmentsMatch(x, s[n + 1..]);
      assert t[1..] == s[n + 1..];
      JointsAgain(x, t);
    }
    StarOfNothing(JointRe(x));
    Join(x, js, s[..n], t);
    assert s == s[..n] + t;
  }

  lemma JointsAgain(x: Re, r: string)
    requires r != "" && Separator(r[0]) && Matches(Cat(x, Star(JointRe(x))), r[1..])
    ensures Matches(Star(JointRe(x)), r)
  {
    hide Matches;
    var u, v := Split(x, Star(JointRe(x)), r[1..]);
    JointIs(x, [r[0]] + u);
    assert ([r[0]] + u)[1..] == u;
    StarAgain(JointRe(x), [r[0]] + u, v);
    assert [r[0]] + u + v == r;
  }

  lemma JointsSplit(x: Re, r: string) returns (u: string, v: string)
    requires Matches(Star(JointRe(x)), r) && r != ""
    ensures Separator(r[0]) && r[1..] == u + v && Matches(x, u) && Matches(Star(JointRe(x)), v)
  {
    var i :| 0 < i <= |r| && Matches(JointRe(x), r[..i]) && Matches(Star(JointRe(x)), r[i..]);
    JointIs(x, r[..i]);
    u, v := r[..i][1..], r[i..];
  }

  lemma {:induction false} MatchSegments(x: Re, a: string, r: string)
    requires NoSeparators(x) && Matches(x, a) && Matches(Star(JointRe(x)), r)
    ensures SegmentsIn(x, a + r)
    decreases |r|
  {
    hide Matches;
    if r == "" {
    } else {
      var u, v := JointsSplit(x, r);
      MatchSegments(x, u, v);
      assert (a + r)[|a| + 1..] == u + v;
    }
    FirstSepIs(a, r);
    assert (a + r)[..|a|] == a;
  }

  lemma {:induction false} SegmentsParse(s: string)
    ensures SegmentsIn(COMPLEX, s) <==> ParseSegments(s).Some?
    decreases |s|
  {
    hide Matches, ParseSegment;
    var n := FirstSep(s);
    SegmentMatchesIffParses(s[..n]);
    if n < |s| { SegmentsParse(s[n + 1..]); }
  }

  lemma ComplexHasNoSeparators()
    ensures NoSeparators(COMPLEX)
  {
    forall s | Matches(COMPLEX, s) ensures InSegment(s) {
      var sh := MatchShape(s);
      ShapeInSegment(sh);
    }
  }

  /** Both readings of `main` before the NUL. */
  lemma BodyIs(x: Re, line: string)
    requires NoSeparators(x)
    ensures Matches(Alt(Cat(x, Alt(Plus(JointRe(x)), Eps)), SPACES), line) <==> AllBlank(line) || SegmentsIn(x, line)
  {
    BlanksMatch(line);
    if Matches(Cat(x, Alt(Plus(JointRe(x)), Eps)), line) {
      var a, r := Split(x, Alt(Plus(JointRe(x)), Eps), line);
      PlusOrEps(x, r);
      MatchSegments(x, a, r);
    }
    if SegmentsIn(x, line) {
      SegmentsMatch(x, line);
      var a, r := Split(x, Star(JointRe(x)), line);
      PlusOrEps(x, r);
      Join(x, Alt(Plus(JointRe(x)), Eps), a, r);
    }
  }

  lemma PlusOrEps(x: Re, r: string)
    ensures Matches(Alt(Plus(JointRe(x)), Eps), r) <==> Matches(Star(JointRe(x)), r)
  {
    StarOfNothing(JointRe(x));
    SplitOpt(Plus(JointRe(x)), r);
    JointIs(x, "");
    if r != "" { StarIsPlus(JointRe(x), r); }
  }

  lemma StarIsPlus(a: Re, r: string)
    requires r != "" && !Matches(a, "")
    ensures Matches(Plus(a), r) <==> Matches(Star(a), r)
  {
    if Matches(Plus(a), r) {
      var u, v := Split(a, Star(a), r);
      assert r[..|u|] == u && r[|u|..] == v;
    }
    if Matches(Star(a), r) {
      var i :| 0 < i <= |r| && Matches(a, r[..i]) && Matches(Star(a), r[i..]);
      Join(a, Star(a), r[..i], r[i..]);
      assert r == r[..i] + r[i..];
    }
  }

  lemma EndsInNul(x: Re, line: string)
    ensures Matches(Cat(x, Chr(Is(NUL))), line + [NUL]) <==> Matches(x, line)
  {
    if Matches(Cat(x, Chr(Is(NUL))), line + [NUL]) {
      var u, v := Split(x, Chr(Is(NUL)), line + [NUL]);
      assert v == [NUL] && (u + v)[..|u|] == u && (line + [NUL])[..|line|] == line;
      assert |u| == |line|;
    }
    if Matches(x, line) { Join(x, Chr(Is(NUL)), line, [NUL]); }
  }

  /** LineSpec parses exactly the lines that match the grammar. */
  lemma ParseMeetsGrammar(line: string)
    ensures Matches(MAIN_RE, line + [NUL]) <==> Parse(line).Some?
  {
    ComplexHasNoSeparators();
    EndsInNul(Alt(Cat(COMPLEX, Alt(Plus(JointRe(COMPLEX)), Eps)), SPACES), line);
    BodyIs(COMPLEX, line);
    SegmentsParse(line);
  }

  /** The machine accepts exactly the lines that match the grammar, and then the finished
      commands are the parsed ones. */
  lemma MachineMeetsGrammar(line: string)
    requires IsCString(line)
    ensures var f := Run(INITIAL, line + [NUL]);
      && (f.cs == 15 <==> Matches(MAIN_RE, line + [NUL]))
      && (f.cs == 0 <==> !Matches(MAIN_RE, line + [NUL]))
      && (f.cs == 15 ==> Parse(line) == Some(f.done))
  {
    MachineComputesSpec(line);
    ParseMeetsGrammar(line);
    if !AllBlank(line) && Parse(line).Some? { FinishedIsParse(line); }
  }
}
