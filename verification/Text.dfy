/** Characters and C strings. A string holds the characters before the terminating NUL.
    The tables and the grammar look only at characters up to 124, so it does not matter
    whether the C compiler's `char` is signed. */
module Text {

  const BUFSIZE: nat := 1024
  const NUL: char := 0 as char

  /** `space` of the grammar: the characters 9 to 13 and 32. */
  predicate Blank(c: char) {
    c == ' ' || 9 as char <= c <= 13 as char
  }

  predicate Operator(c: char) {
    c == '&' || c == ';' || c == '|' || c == '<' || c == '>'
  }

  predicate Separator(c: char) {
    c == ';' || c == '|'
  }

  predicate WordChar(c: char) {
    c != NUL && !Blank(c) && !Operator(c)
  }

  /** What a captured text may hold after its first character. */
  predicate TextChar(c: char) {
    WordChar(c) || Blank(c)
  }

  predicate AllBlank(s: string) {
    forall i :: 0 <= i < |s| ==> Blank(s[i])
  }

  predicate AllText(s: string) {
    forall i :: 0 <= i < |s| ==> TextChar(s[i])
  }

  predicate IsCString(s: string) {
    NUL !in s
  }

  /** What a buffer of BUFSIZE characters keeps of `s`. */
  function Cut(s: string): string {
    if |s| <= BUFSIZE then s else s[..BUFSIZE]
  }

  /** A buffer keeps the first 1024 characters, and shorter texts as they are. */
  lemma CutKeeps(s: string)
    ensures |s| <= 1024 ==> Cut(s) == s
    ensures |s| > 1024 ==> |Cut(s)| == 1024 && Cut(s) == s[..1024]
  {}
}
