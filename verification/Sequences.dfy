/** The elements of sequences, and repetition in sequences and in maps. */
module Sequences {
  ghost function Elems<T>(c: seq<T>): set<T> {
    set e | e in c
  }

  ghost predicate NoRepeats<T>(s: seq<T>) {
    forall i, j :: 0 <= i < j < |s| ==> s[i] != s[j]
  }

  /** Different keys have different values. */
  ghost predicate Injective<K, V>(m: map<K, V>) {
    forall j, k :: j in m && k in m && j != k ==> m[j] != m[k]
  }

  lemma ElemsSnoc<T>(c: seq<T>, j: nat)
    requires j < |c|
    ensures Elems(c[..j + 1]) == Elems(c[..j]) + {c[j]}
  {
    assert c[..j + 1] == c[..j] + [c[j]];
  }

  /** A sequence without repetition has as many elements as positions. */
  lemma {:induction false} ElemsCount<T>(c: seq<T>)
    requires NoRepeats(c)
    ensures |Elems(c)| == |c|
  {
    if c == [] {
    } else {
      var n := |c| - 1;
      ElemsCount(c[..n]);
      ElemsSnoc(c, n);
      assert c[..n + 1] == c && c[n] !in c[..n];
    }
  }

  lemma ElemsConcat<T>(a: seq<T>, b: seq<T>)
    ensures Elems(a + b) == Elems(a) + Elems(b)
  {}

  lemma NoRepeatsConcat<T>(a: seq<T>, b: seq<T>)
    requires NoRepeats(a) && NoRepeats(b) && Elems(a) !! Elems(b)
    ensures NoRepeats(a + b)
  {
    var c := a + b;
    forall i, j | 0 <= i < j < |c| ensures c[i] != c[j] {
      if i < |a| <= j { assert a[i] in Elems(a) && b[j - |a|] in Elems(b); }
    }
  }
}
