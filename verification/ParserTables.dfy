/** The compressed transition tables of src/parser.c, the linear scan that says what a key
    array means, and the binary searches of the execution loop. */
module ParserTables {

  const KEY_OFFSETS: seq<nat> :=
    [0, 0, 9, 15, 21, 30, 39, 48] +
    [54, 63, 69, 78, 84, 93, 99, 108]

  const TRANS_KEYS: seq<int> :=
    (
      (
        [0, 32, 38, 62, 124, 9, 13, 59] +
        [60, 0, 38, 59, 60, 62, 124, 0] +
        [32, 59, 124, 9, 13, 0, 32, 38]
      ) + (
        [62, 124, 9, 13, 59, 60, 0, 32] +
        [38, 62, 124, 9, 13, 59, 60, 0] +
        [32, 38, 62, 124, 9, 13, 59, 60] +
        [0, 38, 59, 60, 62, 124, 0, 32]
      )
    ) + (
      (
        [38, 62, 124, 9, 13, 59, 60, 0] +
        [38, 59, 60, 62, 124, 0, 32, 38] +
        [62, 124, 9, 13, 59, 60, 0, 38]
      ) + (
        [59, 60, 62, 124, 0, 32, 38, 62] +
        [124, 9, 13, 59, 60, 0, 38, 59] +
        [60, 62, 124, 0, 32, 38, 62, 124] +
        [9, 13, 59, 60, 0]
      )
    )

  const SINGLE_LENGTHS: seq<nat> :=
    [0, 5, 6, 4, 5, 5, 5, 6] +
    [5, 6, 5, 6, 5, 6, 5, 0]

  const RANGE_LENGTHS: seq<nat> :=
    [0, 2, 0, 1, 2, 2, 2, 0] +
    [2, 0, 2, 0, 2, 0, 2, 0]

  const INDEX_OFFSETS: seq<nat> :=
    [0, 0, 8, 15, 21, 29, 37, 45] +
    [52, 60, 67, 75, 82, 90, 97, 105]

  const INDICIES: seq<nat> :=
    (
      (
        [1, 2, 3, 3, 3, 2, 3, 0] +
        [1, 5, 6, 7, 8, 9, 4, 1] +
        [10, 6, 9, 10, 3, 3, 12, 3]
      ) + (
        [3, 3, 12, 3, 11, 3, 13, 3] +
        [3, 3, 13, 3, 4, 3, 7, 3] +
        [3, 3, 7, 3, 14, 1, 5, 6] +
        [3, 15, 9, 14, 3, 15, 3, 3]
      )
    ) + (
      (
        [3, 15, 3, 16, 1, 5, 6, 3] +
        [3, 9, 16, 3, 8, 3, 3, 3] +
        [8, 3, 17, 1, 5, 6, 18, 3]
      ) + (
        [9, 17, 3, 18, 3, 3, 3, 18] +
        [3, 19, 1, 5, 6, 3, 3, 9] +
        [19, 1, 20, 3, 3, 3, 20, 3] +
        [4, 3, 0]
      )
    )

  const TRANS_TARGS: seq<nat> :=
    [2, 15, 14, 0, 2, 3, 4, 6] +
    [10, 4, 3, 2, 5, 5, 7, 8] +
    [9, 11, 12, 13, 14]

  const TRANS_ACTIONS: seq<nat> :=
    [17, 9, 7, 0, 1, 13, 15, 0] +
    [0, 11, 0, 23, 20, 0, 3, 0] +
    [5, 5, 0, 3, 0]

  const ACTION_LISTS: seq<nat> :=
    [0, 1, 0, 1, 1, 1, 2, 1] +
    [3, 1, 4, 1, 5, 1, 6, 1] +
    [7, 2, 3, 0, 2, 4, 3, 3] +
    [4, 3, 0]

  const START := 1
  const ACCEPT := 15
  const ERROR := 0

  // ---------- What a key array means: a linear scan ----------

  /** Position of `c` among the `n` single keys from `off` on, or `n`. */
  function ScanSingles(keys: seq<int>, off: nat, n: nat, c: int): (i: nat)
    requires off + n <= |keys|
    ensures i <= n
    ensures i < n ==> keys[off + i] == c
    ensures forall j :: off <= j < off + i ==> keys[j] != c
    decreases n
  {
    if n == 0 || keys[off] == c then 0 else 1 + ScanSingles(keys, off + 1, n - 1, c)
  }

  /** Bounds of the `j`-th lo/hi pair of the pairs that start at `off`. */
  function Lo(keys: seq<int>, off: nat, j: nat): int
    requires off + 2 * j < |keys|
  {
    keys[off + 2 * j]
  }

  function Hi(keys: seq<int>, off: nat, j: nat): int
    requires off + 2 * j + 1 < |keys|
  {
    keys[off + 2 * j + 1]
  }

  /** Position of the first of the pairs `i..n` that holds `c`, or `n`. */
  function ScanRanges(keys: seq<int>, off: nat, i: nat, n: nat, c: int): (r: nat)
    requires i <= n && off + 2 * n <= |keys|
    ensures i <= r <= n
    ensures r < n ==> Lo(keys, off, r) <= c <= Hi(keys, off, r)
    ensures forall j :: i <= j < r ==> c < Lo(keys, off, j) || Hi(keys, off, j) < c
    decreases n - i
  {
    if i == n || Lo(keys, off, i) <= c <= Hi(keys, off, i) then i else ScanRanges(keys, off, i + 1, n, c)
  }

  function Scan(keys: seq<int>, off: nat, singles: nat, ranges: nat, c: int): nat
    requires off + singles + 2 * ranges <= |keys|
  {
    var i := ScanSingles(keys, off, singles, c);
    if i < singles then i else singles + ScanRanges(keys, off + singles, 0, ranges, c)
  }

  /** The layout that the binary searches rely on. */
  ghost predicate SortedSingles(keys: seq<int>, off: nat, n: nat)
    requires off + n <= |keys|
  {
    forall i, j :: off <= i < j < off + n ==> keys[i] < keys[j]
  }

  ghost predicate SortedRanges(keys: seq<int>, off: nat, n: nat)
    requires off + 2 * n <= |keys|
  {
    && (forall i :: 0 <= i < n ==> Lo(keys, off, i) <= Hi(keys, off, i))
    && (forall i, j :: 0 <= i < j < n ==> Hi(keys, off, i) < Lo(keys, off, j))
  }

  /** The search over the single keys; `upper` may step below `off`. */
  method SearchSingles(keys: seq<int>, off: nat, n: nat, c: int) returns (i: nat)
    requires off + n <= |keys| && SortedSingles(keys, off, n)
    ensures i == ScanSingles(keys, off, n, c)
  {
    if n > 0 {
      var lower: int, upper: int := off, off + n - 1;
      while true
        invariant off <= lower <= upper + 1 <= off + n
        invariant forall j :: off <= j < lower ==> keys[j] < c
        invariant forall j :: upper < j < off + n ==> c < keys[j]
        decreases upper - lower + 1
      {
        if upper < lower { break; }
        var mid := lower + (upper - lower) / 2;
        if c < keys[mid] {
          upper := mid - 1;
        } else if c > keys[mid] {
          lower := mid + 1;
        } else {
          return mid - off;
        }
      }
    }
    i := n;
  }

  /** The search over lo/hi pairs. Clearing the lowest bit of half the distance keeps
      `mid` on the first key of a pair. */
  method SearchRanges(keys: seq<int>, off: nat, n: nat, c: int) returns (i: nat)
    requires off + 2 * n <= |keys| && SortedRanges(keys, off, n)
    ensures i == ScanRanges(keys, off, 0, n, c)
  {
    if n > 0 {
      var lower: int, upper: int := off, off + 2 * n - 2;
      ghost var a: int, b: int := 0, n - 1;
      while true
        invariant lower == off + 2 * a && upper == off + 2 * b && 0 <= a <= b + 1 <= n
        invariant forall j :: 0 <= j < a ==> Hi(keys, off, j) < c
        invariant forall j :: b < j < n ==> c < Lo(keys, off, j)
        decreases upper - lower + 2
      {
        if upper < lower { break; }
        var half := (upper - lower) / 2;
        var mid := lower + (half - half % 2);
        ghost var m := (mid - off) / 2;
        assert mid == off + 2 * m && a <= m <= b;
        assert keys[mid] == Lo(keys, off, m) <= keys[mid + 1] == Hi(keys, off, m);
        if c < keys[mid] {
          upper, b := mid - 2, m - 1;
        } else if c > keys[mid + 1] {
          lower, a := mid + 2, m + 1;
        } else {
          return (mid - off) / 2;
        }
      }
    }
    i := n;
  }

  /** Both searches of the execution loop, in its order. */
  method Search(keys: seq<int>, off: nat, singles: nat, ranges: nat, c: int) returns (i: nat)
    requires off + singles + 2 * ranges <= |keys|
    requires SortedSingles(keys, off, singles) && SortedRanges(keys, off + singles, ranges)
    ensures i == Scan(keys, off, singles, ranges, c)
  {
    i := SearchSingles(keys, off, singles, c);
    if i == singles {
      var j := SearchRanges(keys, off + singles, ranges, c);
      i := singles + j;
    }
  }
}
