/** The string hashing and comparison functions that the hash table is used with. A C string is
    a sequence of bytes that holds a NUL; its content is what stands before the first one. */
module StringKeys {
  import opened TableSpec

  type Byte = bv8

  function Content(s: seq<Byte>): (r: seq<Byte>)
    requires 0 in s
    ensures |r| < |s| && r == s[..|r|] && s[|r|] == 0 && 0 !in r
  {
    if s[0] == 0 then [] else [s[0]] + Content(s[1..])
  }

  /** `tolower` of the C locale. */
  function ToLower(b: Byte): Byte {
    if 65 <= b <= 90 then b + 32 else b
  }

  function Lower(s: seq<Byte>): (r: seq<Byte>)
    ensures |r| == |s|
    ensures forall i :: 0 <= i < |s| ==> r[i] == ToLower(s[i])
  {
    seq(|s|, i requires 0 <= i < |s| => ToLower(s[i]))
  }

  // ---------- Hashing ----------

  const SEED: bv64 := 5381

  function Spread(h: bv64): bv64 {
    (h << 5) ^ h
  }

  function Widen(b: Byte): bv64 {
    b as bv64
  }

  /** One step of the hash, on 64-bit words. */
  function Mix(h: bv64, b: Byte): bv64 {
    Spread(h) ^ Widen(b)
  }

  function HashFrom(h: bv64, s: seq<Byte>): bv64
    decreases |s|
  {
    if s == [] then h else HashFrom(Mix(h, s[0]), s[1..])
  }

  lemma {:induction false} HashSnoc(h: bv64, s: seq<Byte>, b: Byte)
    ensures HashFrom(h, s + [b]) == Mix(HashFrom(h, s), b)
    decreases |s|
  {
    if s == [] {
      assert [b][1..] == [];
    } else {
      assert (s + [b])[1..] == s[1..] + [b];
      HashSnoc(Mix(h, s[0]), s[1..], b);
    }
  }

  /** `string_hash`. */
  method StringHash(s: seq<Byte>) returns (r: bv64)
    requires 0 in s
    ensures r == HashFrom(SEED, Content(s))
  {
    ghost var c := Content(s);
    r := SEED;
    var p := 0;
    while s[p] != 0
      invariant p <= |c|
      invariant r == HashFrom(SEED, c[..p])
      decreases |c| - p
    {
      assert s[p] == c[p] && c[..p + 1] == c[..p] + [c[p]];
      HashSnoc(SEED, c[..p], c[p]);
      r := Mix(r, s[p]);
      p := p + 1;
    }
    assert c[..p] == c;
  }

  /** `string_nocase_hash`. */
  method StringNocaseHash(s: seq<Byte>) returns (r: bv64)
    requires 0 in s
    ensures r == HashFrom(SEED, Folded(s))
  {
    ghost var c := Folded(s);
    r := SEED;
    var p := 0;
    while s[p] != 0
      invariant p <= |c|
      invariant r == HashFrom(SEED, c[..p])
      decreases |c| - p
    {
      assert ToLower(s[p]) == c[p] && c[..p + 1] == c[..p] + [c[p]];
      HashSnoc(SEED, c[..p], c[p]);
      r := Mix(r, ToLower(s[p]));
      p := p + 1;
    }
    assert c[..p] == c;
  }

  /** Each step is injective in the running word. */
  lemma MixInjectiveInWord(g: bv64, h: bv64, b: Byte)
    requires Mix(g, b) == Mix(h, b)
    ensures g == h
  {
    hide Spread, Widen;
    XorCancel(Spread(g), Spread(h), Widen(b));
    SpreadInjective(g, h);
  }

  /** Each step is injective in the byte. */
  lemma MixInjectiveInByte(h: bv64, a: Byte, b: Byte)
    requires Mix(h, a) == Mix(h, b)
    ensures a == b
  {
    hide Spread, Widen;
    XorComm(Spread(h), Widen(a));
    XorComm(Spread(h), Widen(b));
    XorCancel(Widen(a), Widen(b), Spread(h));
    WidenInjective(a, b);
  }

  lemma WidenInjective(a: Byte, b: Byte)
    requires Widen(a) == Widen(b)
    ensures a == b
  {}

  lemma SpreadInjective(g: bv64, h: bv64)
    requires Spread(g) == Spread(h)
    ensures g == h
  {
    ShiftOfXor(g, h);
    ShiftFixed(g ^ h);
    assert g ^ h == 0 ==> g == h;
  }

  lemma ShiftOfXor(g: bv64, h: bv64)
    requires (g << 5) ^ g == (h << 5) ^ h
    ensures (g ^ h) << 5 == g ^ h
  {}

  /** Only zero is its own shift. */
  lemma ShiftFixed(d: bv64)
    requires d << 5 == d
    ensures d == 0
  {
    assert d << 10 == d;
    assert d << 20 == d;
    assert d << 40 == d;
  }

  lemma XorCancel(a: bv64, b: bv64, c: bv64)
    requires a ^ c == b ^ c
    ensures a == b
  {}

  lemma XorComm(a: bv64, b: bv64)
    ensures a ^ b == b ^ a
  {}

  /** A common end never makes different words equal. */
  lemma {:induction false} HashFromInjective(g: bv64, h: bv64, s: seq<Byte>)
    requires HashFrom(g, s) == HashFrom(h, s)
    ensures g == h
    decreases |s|
  {
    if s == [] {
    } else {
      HashFromInjective(Mix(g, s[0]), Mix(h, s[0]), s[1..]);
      MixInjectiveInWord(g, h, s[0]);
    }
  }

  /** Strings that differ in exactly one byte have different hashes, from any seed. */
  lemma {:induction false} OneByteChangesHash(h: bv64, s: seq<Byte>, i: nat, b: Byte)
    requires i < |s| && s[i] != b
    ensures HashFrom(h, s) != HashFrom(h, s[i := b])
    decreases |s|
  {
    if i == 0 {
      assert s[0 := b][1..] == s[1..];
      if HashFrom(h, s) == HashFrom(h, s[0 := b]) {
        HashFromInjective(Mix(h, s[0]), Mix(h, b), s[1..]);
        MixInjectiveInByte(h, s[0], b);
      }
    } else {
      assert s[i := b][1..] == s[1..][i - 1 := b];
      OneByteChangesHash(Mix(h, s[0]), s[1..], i - 1, b);
    }
  }

  // ---------- What the hash is ----------

  /** One step in the words of the C code. */
  predicate HashStep(g: bv64, b: Byte, r: bv64) {
    r == ((g << 5) ^ g) ^ (b as bv64)
  }

  lemma MixIsStep(g: bv64, b: Byte)
    ensures HashStep(g, b, Mix(g, b))
  {}

  /** The hash of the empty string is 5381, and each further byte is one step. */
  lemma HashIs(s: seq<Byte>, b: Byte)
    ensures HashFrom(SEED, []) == 5381
    ensures HashStep(HashFrom(SEED, s), b, HashFrom(SEED, s + [b]))
  {
    hide Mix, HashStep;
    HashSnoc(SEED, s, b);
    MixIsStep(HashFrom(SEED, s), b);
  }

  lemma HashOfOneByte(b: Byte)
    ensures HashFrom(SEED, [b]) == 177573 ^ (b as bv64)
  {
    assert [b][1..] == [];
  }

  lemma HashOfTwoBytes(h: bv64, a: Byte, b: Byte)
    ensures HashFrom(h, [a, b]) == Mix(Mix(h, a), b)
  {
    hide Mix;
    HashSnoc(h, [], a);
    HashSnoc(h, [a], b);
    assert [] + [a] == [a] && [a] + [b] == [a, b];
  }

  /** The order of bytes matters: two different bytes never hash like their exchange. */
  lemma OrderMatters(h: bv64, a: Byte, b: Byte)
    requires a != b
    ensures HashFrom(h, [a, b]) != HashFrom(h, [b, a])
  {
    hide Mix, HashFrom;
    HashOfTwoBytes(h, a, b);
    HashOfTwoBytes(h, b, a);
    if Mix(Mix(h, a), b) == Mix(Mix(h, b), a) {
      ExchangeDiffers(h, a, b);
    }
  }

  lemma ExchangeDiffers(h: bv64, a: Byte, b: Byte)
    requires Mix(Mix(h, a), b) == Mix(Mix(h, b), a)
    ensures a == b
  {}

  // ---------- Comparison ----------

  /** The value of a C `char`, which may be signed. */
  function CharValue(signed: bool, b: Byte): int {
    if signed && b >= 128 then b as int - 256 else b as int
  }

  /** The value of the first character, which is 0 at the end. */
  function First(signed: bool, s: seq<Byte>): int {
    if s == [] then 0 else CharValue(signed, s[0])
  }

  lemma ValueInjective(signed: bool, a: Byte, b: Byte)
    ensures CharValue(signed, a) == CharValue(signed, b) <==> a == b
  {}

  lemma SameFirst(signed: bool, a: seq<Byte>, b: seq<Byte>)
    requires 0 !in a && 0 !in b
    ensures First(signed, a) == First(signed, b) <==> (a == [] && b == []) || (a != [] && b != [] && a[0] == b[0])
  {
    ValueInjective(signed, if a == [] then 0 else a[0], if b == [] then 0 else b[0]);
  }

  /** The sign of the first difference; the end of a string counts as the character 0, which
      stands before or after others depending on their sign. */
  function Compare(signed: bool, a: seq<Byte>, b: seq<Byte>): int
    requires 0 !in a && 0 !in b
    decreases |a|
  {
    if First(signed, a) < First(signed, b) then -1
    else if First(signed, a) > First(signed, b) then 1
    else if a == [] || b == [] then 0
    else Compare(signed, a[1..], b[1..])
  }

  /** The text that the nocase functions see. */
  function Folded(s: seq<Byte>): (r: seq<Byte>)
    requires 0 in s
    ensures 0 !in r
  {
    FoldKeepsNul(Content(s));
    Lower(Content(s))
  }

  lemma FoldKeepsNul(s: seq<Byte>)
    requires 0 !in s
    ensures 0 !in Lower(s)
  {
    forall i | 0 <= i < |s| ensures Lower(s)[i] != 0 {
      LowerNotNul(s[i]);
    }
  }

  lemma LowerNotNul(b: Byte)
    ensures ToLower(b) == 0 <==> b == 0
  {}

  /** `string_nocase_compare`, where `signed` says whether a `char` is. */
  method StringNocaseCompare(signed: bool, s: seq<Byte>, t: seq<Byte>) returns (r: int)
    requires 0 in s && 0 in t
    ensures r == Compare(signed, Folded(s), Folded(t))
  {
    ghost var a, b := Folded(s), Folded(t);
    var p := 0;
    assert a[0..] == a && b[0..] == b;
    while true
      invariant p <= |a| && p <= |b|
      invariant Compare(signed, a, b) == Compare(signed, a[p..], b[p..])
      decreases |a| - p
    {
      var c1, c2 := CharValue(signed, ToLower(s[p])), CharValue(signed, ToLower(t[p]));
      CharAt(signed, s, p);
      CharAt(signed, t, p);
      SameFirst(signed, a[p..], b[p..]);
      if c1 != c2 {
        return if c1 < c2 then -1 else 1;
      }
      if c1 == 0 { break; }
      assert a[p..][1..] == a[p + 1..] && b[p..][1..] == b[p + 1..];
      p := p + 1;
    }
    r := 0;
  }

  lemma CharAt(signed: bool, s: seq<Byte>, p: nat)
    requires 0 in s && p <= |Folded(s)|
    ensures p < |s| && CharValue(signed, ToLower(s[p])) == First(signed, Folded(s)[p..])
    ensures First(signed, Folded(s)[p..]) == 0 <==> p == |Folded(s)|
  {
    SameFirst(signed, Folded(s)[p..], []);
  }

  /** `string_nocase_equal`. */
  method StringNocaseEqual(signed: bool, s: seq<Byte>, t: seq<Byte>) returns (r: bool)
    requires 0 in s && 0 in t
    ensures r <==> Folded(s) == Folded(t)
  {
    var c := StringNocaseCompare(signed, s, t);
    CompareEqual(signed, Folded(s), Folded(t));
    r := c == 0;
  }

  /** `string_equal`: `strcmp` compares unsigned characters. */
  function StringEqual(s: seq<Byte>, t: seq<Byte>): (r: bool)
    requires 0 in s && 0 in t
    ensures r <==> Content(s) == Content(t)
  {
    CompareEqual(false, Content(s), Content(t));
    Compare(false, Content(s), Content(t)) == 0
  }

  lemma {:induction false} CompareEqual(signed: bool, a: seq<Byte>, b: seq<Byte>)
    requires 0 !in a && 0 !in b
    ensures Compare(signed, a, b) == 0 <==> a == b
    decreases |a|
  {
    hide First;
    SameFirst(signed, a, b);
    if a == [] || b == [] {
    } else {
      CompareEqual(signed, a[1..], b[1..]);
      assert a == [a[0]] + a[1..] && b == [b[0]] + b[1..];
    }
  }

  lemma {:induction false} CompareAntisymmetric(signed: bool, a: seq<Byte>, b: seq<Byte>)
    requires 0 !in a && 0 !in b
    ensures Compare(signed, a, b) == -Compare(signed, b, a)
    decreases |a|
  {
    if a == [] || b == [] {
    } else {
      CompareAntisymmetric(signed, a[1..], b[1..]);
    }
  }

  lemma {:induction false} CompareTransitive(signed: bool, a: seq<Byte>, b: seq<Byte>, c: seq<Byte>)
    requires 0 !in a && 0 !in b && 0 !in c
    requires Compare(signed, a, b) <= 0 && Compare(signed, b, c) <= 0
    ensures Compare(signed, a, c) <= 0
    decreases |a|
  {
    hide First;
    SameFirst(signed, a, b);
    SameFirst(signed, b, c);
    SameFirst(signed, a, c);
    if a == [] || b == [] || c == [] {
    } else if a[0] == b[0] == c[0] {
      CompareTransitive(signed, a[1..], b[1..], c[1..]);
    }
  }

  /** `string_nocase_compare` orders strings: a total preorder whose ties are the strings that
      are equal up to case. */
  lemma NocaseIsTotalPreorder(signed: bool, s: seq<Byte>, t: seq<Byte>, u: seq<Byte>)
    requires 0 in s && 0 in t && 0 in u
    ensures Compare(signed, Folded(s), Folded(t)) <= 0 || Compare(signed, Folded(t), Folded(s)) <= 0
    ensures Compare(signed, Folded(s), Folded(t)) <= 0 && Compare(signed, Folded(t), Folded(u)) <= 0
      ==> Compare(signed, Folded(s), Folded(u)) <= 0
    ensures Compare(signed, Folded(s), Folded(t)) == 0 <==> Folded(s) == Folded(t)
  {
    CompareAntisymmetric(signed, Folded(s), Folded(t));
    CompareEqual(signed, Folded(s), Folded(t));
    if Compare(signed, Folded(s), Folded(t)) <= 0 && Compare(signed, Folded(t), Folded(u)) <= 0 {
      CompareTransitive(signed, Folded(s), Folded(t), Folded(u));
    }
  }

  // ---------- The table's assumption ----------

  /** A C string. */
  type CStr = s: seq<Byte> | 0 in s witness [0]

  /** The functions of the program, as their contracts give them. */
  function HashOf(s: CStr): nat {
    HashFrom(SEED, Content(s)) as nat
  }

  function NocaseHashOf(s: CStr): nat {
    HashFrom(SEED, Folded(s)) as nat
  }

  predicate NocaseEqual(signed: bool, s: CStr, t: CStr) {
    Compare(signed, Folded(s), Folded(t)) == 0
  }

  /** Both pairs of functions may be given to a hash table: what the comparison loops call equal
      is an equivalence, and the hash loops do not tell it apart. */
  lemma StringFunctionsAreCoherent(signed: bool)
    ensures Coherent(HashOf, (s: CStr, t: CStr) => StringEqual(s, t))
    ensures Coherent(NocaseHashOf, (s: CStr, t: CStr) => NocaseEqual(signed, s, t))
  {
    forall s: CStr, t: CStr ensures NocaseEqual(signed, s, t) <==> Folded(s) == Folded(t) {
      CompareEqual(signed, Folded(s), Folded(t));
    }
  }

  predicate SameUpToCase(s: seq<Byte>, t: seq<Byte>) {
    |s| == |t| && forall i :: 0 <= i < |s| ==> ToLower(s[i]) == ToLower(t[i])
  }

  /** Case and what follows the NUL make no difference; anything else does. */
  lemma NocaseEqualMeans(signed: bool, s: CStr, t: CStr)
    ensures NocaseEqual(signed, s, t) <==> SameUpToCase(Content(s), Content(t))
  {
    CompareEqual(signed, Folded(s), Folded(t));
    if SameUpToCase(Content(s), Content(t)) {
      assert Folded(s) == Folded(t);
    }
  }

  /** `t` differs from `s` in its `i`-th character and nowhere else. */
  predicate DiffersAt(s: seq<Byte>, t: seq<Byte>, i: nat) {
    i < |s| == |t| && s[i] != t[i] && t == s[i := t[i]]
  }

  /** Neither hash misses a difference in one character. */
  lemma OneCharacterTellsApart(s: CStr, t: CStr, i: nat)
    ensures DiffersAt(Content(s), Content(t), i) ==> HashFrom(SEED, Content(s)) != HashFrom(SEED, Content(t))
    ensures DiffersAt(Folded(s), Folded(t), i) ==> HashFrom(SEED, Folded(s)) != HashFrom(SEED, Folded(t))
  {
    hide DiffersAt, Content, Folded, HashFrom;
    HashTellsApart(Content(s), Content(t), i);
    HashTellsApart(Folded(s), Folded(t), i);
  }

  lemma HashTellsApart(s: seq<Byte>, t: seq<Byte>, i: nat)
    ensures DiffersAt(s, t, i) ==> HashFrom(SEED, s) != HashFrom(SEED, t)
  {
    hide HashFrom;
    if DiffersAt(s, t, i) {
      OneByteChangesHash(SEED, s, i, t[i]);
    }
  }

  // ---------- Case and order in characters ----------

  /** The same letter in the two cases: the lower-case one lies 32 after the upper-case one, which is
      from A to Z, 65 to 90. */
  predicate CaseOf(upper: Byte, lower: Byte) {
    65 <= upper <= 90 && lower == upper + 32
  }

  /** Two characters are the same to the nocase functions iff they are equal or one is the other in
      lower case. */
  lemma SameLetter(a: Byte, b: Byte)
    ensures ToLower(a) == ToLower(b) <==> a == b || CaseOf(a, b) || CaseOf(b, a)
  {}

  /** Strings without upper-case letters are hashed and compared as they are. */
  lemma FoldedPlain(s: seq<Byte>)
    requires 0 in s && forall i :: 0 <= i < |Content(s)| ==> !(65 <= Content(s)[i] <= 90)
    ensures Folded(s) == Content(s)
  {}

  /** The place of a character in the order that a signed or an unsigned `char` gives: above 127 it
      comes first if it is signed, before the end of a string, and last if not. */
  predicate Before(signed: bool, a: Byte, b: Byte) {
    if signed && (a >= 128) != (b >= 128) then a >= 128 else a < b
  }

  lemma BeforeIsLess(signed: bool, a: Byte, b: Byte)
    ensures Before(signed, a, b) <==> CharValue(signed, a) < CharValue(signed, b)
  {}

  /** The first difference decides. */
  lemma {:induction false} FirstDifference(signed: bool, p: seq<Byte>, x: Byte, u: seq<Byte>, y: Byte, v: seq<Byte>)
    requires 0 !in p + [x] + u && 0 !in p + [y] + v && x != y
    ensures Compare(signed, p + [x] + u, p + [y] + v) == if Before(signed, x, y) then -1 else 1
    decreases |p|
  {
    var a, b := p + [x] + u, p + [y] + v;
    if p == [] {
      assert a[0] == x && b[0] == y;
      BeforeIsLess(signed, x, y);
      ValueInjective(signed, x, y);
    } else {
      assert a[0] == p[0] == b[0] && a[1..] == p[1..] + [x] + u && b[1..] == p[1..] + [y] + v;
      assert 0 !in a[1..] && 0 !in b[1..];
      FirstDifference(signed, p[1..], x, u, y, v);
    }
  }

  /** A longer string comes after its beginning, unless it goes on with a negative character. */
  lemma {:induction false} PrefixFirst(signed: bool, p: seq<Byte>, y: Byte, v: seq<Byte>)
    requires 0 !in p + [y] + v
    ensures 0 !in p && Compare(signed, p, p + [y] + v) == if signed && y >= 128 then 1 else -1
    decreases |p|
  {
    var b := p + [y] + v;
    if p == [] {
      assert b[0] == y;
      ValueInjective(signed, y, 0);
    } else {
      assert p == [p[0]] + p[1..] && b[0] == p[0] && b[1..] == p[1..] + [y] + v;
      assert 0 !in b[1..];
      PrefixFirst(signed, p[1..], y, v);
    }
  }
}
