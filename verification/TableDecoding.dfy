/** The compressed tables of ParserTables hold exactly the transitions of Machine. */
module TableDecoding {
  import opened ParserTables
  import opened Machine

  /** The actions by the codes of the generated switch. */
  function ActionOf(code: nat): Action {
    match code
    case 0 => Append
    case 1 => AppendIn
    case 2 => AppendOut
    case 3 => New
    case 4 => Term
    case 5 => PipeSep
    case 6 => Bg
    case _ => SeqSep
  }

  function ActionsFrom(off: nat, n: nat): seq<Action>
    requires off + n <= |ACTION_LISTS|
    decreases n
  {
    if n == 0 then []
    else if n == 1 then [ActionOf(ACTION_LISTS[off])]
    else [ActionOf(ACTION_LISTS[off])] + ActionsFrom(off + 1, n - 1)
  }

  /** The length-prefixed action list at `off`; offset 0 is the empty list. */
  predicate ListOk(off: nat) {
    off < |ACTION_LISTS| && off + 1 + ACTION_LISTS[off] <= |ACTION_LISTS|
  }

  function ActionsAt(off: nat): seq<Action>
    requires ListOk(off)
  {
    ActionsFrom(off + 1, ACTION_LISTS[off])
  }

  /** The part of the key array that belongs to state `cs` is in bounds and sorted. */
  ghost predicate KeysOk(cs: nat)
    requires cs < 16
  {
    && KEY_OFFSETS[cs] + SINGLE_LENGTHS[cs] + 2 * RANGE_LENGTHS[cs] <= |TRANS_KEYS|
    && SortedSingles(TRANS_KEYS, KEY_OFFSETS[cs], SINGLE_LENGTHS[cs])
    && SortedRanges(TRANS_KEYS, KEY_OFFSETS[cs] + SINGLE_LENGTHS[cs], RANGE_LENGTHS[cs])
    && INDEX_OFFSETS[cs] + SINGLE_LENGTHS[cs] + RANGE_LENGTHS[cs] < |INDICIES|
  }

  /** The keys of states 1, 4, 5, 6, 8, 10, 12 and 14. */
  ghost predicate HasLeadKeys(keys: seq<int>, off: nat) {
    && off + 9 <= |keys|
    && keys[off] == 0 && keys[off + 1] == 32 && keys[off + 2] == 38 && keys[off + 3] == 62 && keys[off + 4] == 124
    && keys[off + 5] == 9 && keys[off + 6] == 13 && keys[off + 7] == 59 && keys[off + 8] == 60
  }

  // Where the keys of the three kinds of state send a character.

  function LeadSlot(c: int): nat {
    if c == 0 then 0 else if c == 32 then 1 else if c == 38 then 2 else if c == 62 then 3
    else if c == 124 then 4 else if 9 <= c <= 13 then 5 else if 59 <= c <= 60 then 6 else 7
  }

  function TextSlot(c: int): nat {
    if c == 0 then 0 else if c == 38 then 1 else if c == 59 then 2 else if c == 60 then 3
    else if c == 62 then 4 else if c == 124 then 5 else 6
  }

  function AmpersandSlot(c: int): nat {
    if c == 0 then 0 else if c == 32 then 1 else if c == 59 then 2
    else if c == 124 then 3 else if 9 <= c <= 13 then 4 else 5
  }

  lemma LeadSorted(keys: seq<int>, off: nat)
    requires HasLeadKeys(keys, off)
    ensures SortedSingles(keys, off, 5) && SortedRanges(keys, off + 5, 2)
  {}

  lemma LeadSingles(keys: seq<int>, off: nat, c: int)
    requires HasLeadKeys(keys, off)
    ensures ScanSingles(keys, off, 5, c)
         == if c == 0 then 0 else if c == 32 then 1 else if c == 38 then 2 else if c == 62 then 3
            else if c == 124 then 4 else 5
  {
    assert ScanSingles(keys, off + 3, 2, c) == if c == 62 then 0 else if c == 124 then 1 else 2;
  }

  lemma LeadKeys(keys: seq<int>, off: nat, c: int)
    requires HasLeadKeys(keys, off)
    ensures Scan(keys, off, 5, 2, c) == LeadSlot(c)
  {
    hide ScanSingles;
    LeadSingles(keys, off, c);
    assert ScanRanges(keys, off + 5, 1, 2, c) == if 59 <= c <= 60 then 1 else 2;
  }

  /** States 2, 7, 9, 11 and 13 share their keys. */
  lemma TextKeys(keys: seq<int>, off: nat, c: int)
    requires off + 6 <= |keys|
    requires keys[off] == 0 && keys[off + 1] == 38 && keys[off + 2] == 59
    requires keys[off + 3] == 60 && keys[off + 4] == 62 && keys[off + 5] == 124
    ensures SortedSingles(keys, off, 6) && SortedRanges(keys, off + 6, 0)
    ensures Scan(keys, off, 6, 0, c) == TextSlot(c)
  {
    assert ScanSingles(keys, off + 3, 3, c) == if c == 60 then 0 else if c == 62 then 1 else if c == 124 then 2 else 3;
  }

  /** The keys of state 3. */
  lemma AmpersandKeys(keys: seq<int>, off: nat, c: int)
    requires off + 6 <= |keys|
    requires keys[off] == 0 && keys[off + 1] == 32 && keys[off + 2] == 59 && keys[off + 3] == 124
    requires keys[off + 4] == 9 && keys[off + 5] == 13
    ensures SortedSingles(keys, off, 4) && SortedRanges(keys, off + 4, 1)
    ensures Scan(keys, off, 4, 1, c) == AmpersandSlot(c)
  {
    assert ScanSingles(keys, off + 2, 2, c) == if c == 59 then 0 else if c == 124 then 1 else 2;
  }

  /** What the tables say for state `cs` and character `c`. */
  function Transition(cs: nat, c: char): nat
    requires cs < 16 && KeysOk(cs)
  {
    INDEX_OFFSETS[cs] + Scan(TRANS_KEYS, KEY_OFFSETS[cs], SINGLE_LENGTHS[cs], RANGE_LENGTHS[cs], c as int)
  }

  predicate EntryOk(i: nat) {
    i < |TRANS_TARGS| && i < |TRANS_ACTIONS| && ListOk(TRANS_ACTIONS[i])
  }

  /** Target and actions of the `i`-th distinct transition. */
  function Entry(i: nat): (nat, seq<Action>)
    requires EntryOk(i)
  {
    (TRANS_TARGS[i], ActionsAt(TRANS_ACTIONS[i]))
  }

  /** The distinct transitions, decoded. */
  function DistinctEntry(i: nat): (nat, seq<Action>) {
    match i
    case 0 => (2, [New, Append])
    case 1 => (15, [Term])
    case 2 => (14, [New])
    case 3 => (0, [])
    case 4 => (2, [Append])
    case 5 => (3, [Bg])
    case 6 => (4, [SeqSep])
    case 7 => (6, [])
    case 8 => (10, [])
    case 9 => (4, [PipeSep])
    case 10 => (3, [])
    case 11 => (2, [Term, New, Append])
    case 12 => (5, [Term, New])
    case 13 => (5, [])
    case 14 => (7, [AppendIn])
    case 15 => (8, [])
    case 16 => (9, [AppendOut])
    case 17 => (11, [AppendOut])
    case 18 => (12, [])
    case 19 => (13, [AppendIn])
    case _ => (14, [])
  }

  lemma EntryIsDistinct(i: nat)
    requires i < 21
    ensures EntryOk(i) && Entry(i) == DistinctEntry(i)
  {
    match i
    case 0 => assert ActionsFrom(18, 2) == [New, Append];
    case 1 => case 2 => case 3 => case 4 => case 5 => case 6 => case 7 => case 8 => case 9 => case 10 =>
    case 11 =>
      assert ActionsFrom(25, 2) == [New, Append];
      assert ActionsFrom(24, 3) == [Term, New, Append];
    case 12 => assert ActionsFrom(21, 2) == [Term, New];
    case 13 => case 14 => case 15 => case 16 => case 17 => case 18 => case 19 => case 20 =>
  }

  predicate LeadState(cs: nat) {
    cs == 1 || cs == 4 || cs == 5 || cs == 6 || cs == 8 || cs == 10 || cs == 12 || cs == 14
  }

  predicate TextState(cs: nat) {
    cs == 2 || cs == 7 || cs == 9 || cs == 11 || cs == 13
  }

  function KeySlot(cs: nat, c: char): nat {
    if LeadState(cs) then LeadSlot(c as int)
    else if TextState(cs) then TextSlot(c as int)
    else AmpersandSlot(c as int)
  }

  lemma SlotIsTransition(cs: nat, c: char)
    requires 1 <= cs < 15
    ensures KeysOk(cs) && Transition(cs, c) == INDEX_OFFSETS[cs] + KeySlot(cs, c)
  {
    if LeadState(cs) {
      LeadTransition(cs, c);
    } else if TextState(cs) {
      TextTransition(cs, c);
    } else {
      AmpersandKeys(TRANS_KEYS, KEY_OFFSETS[cs], c as int);
    }
  }

  lemma LeadTransition(cs: nat, c: char)
    requires LeadState(cs)
    ensures KeysOk(cs) && Transition(cs, c) == INDEX_OFFSETS[cs] + KeySlot(cs, c)
  {
    hide HasLeadKeys, Scan, LeadSlot, SortedSingles, SortedRanges, TRANS_KEYS, INDICIES;
    LeadLayout(cs);
    LeadSorted(TRANS_KEYS, KEY_OFFSETS[cs]);
    LeadKeys(TRANS_KEYS, KEY_OFFSETS[cs], c as int);
  }

  lemma LeadLayout(cs: nat)
    requires LeadState(cs)
    ensures HasLeadKeys(TRANS_KEYS, KEY_OFFSETS[cs])
    ensures SINGLE_LENGTHS[cs] == 5 && RANGE_LENGTHS[cs] == 2 && INDEX_OFFSETS[cs] + 8 <= |INDICIES|
  {
    match cs case 1 => case 4 => case 5 => case 6 => case 8 => case 10 => case 12 => case 14 =>
  }

  lemma TextTransition(cs: nat, c: char)
    requires TextState(cs)
    ensures KeysOk(cs) && Transition(cs, c) == INDEX_OFFSETS[cs] + KeySlot(cs, c)
  {
    hide Scan, TextSlot, SortedSingles, SortedRanges, TRANS_KEYS, INDICIES;
    TextLayout(cs);
    TextKeys(TRANS_KEYS, KEY_OFFSETS[cs], c as int);
  }

  lemma TextLayout(cs: nat)
    requires TextState(cs)
    ensures var off := KEY_OFFSETS[cs];
      && off + 6 <= |TRANS_KEYS| && INDEX_OFFSETS[cs] + 7 <= |INDICIES|
      && SINGLE_LENGTHS[cs] == 6 && RANGE_LENGTHS[cs] == 0
      && TRANS_KEYS[off] == 0 && TRANS_KEYS[off + 1] == 38 && TRANS_KEYS[off + 2] == 59
      && TRANS_KEYS[off + 3] == 60 && TRANS_KEYS[off + 4] == 62 && TRANS_KEYS[off + 5] == 124
  {}

  /** The row of state `cs` in the index table, read as transitions. */
  ghost predicate RowOk(cs: nat, c: char)
    requires cs < 16
  {
    var t := INDEX_OFFSETS[cs] + KeySlot(cs, c);
    t < |INDICIES| && INDICIES[t] < 21 && DistinctEntry(INDICIES[t]) == Delta(cs, c)
  }

  // The rows of the index table. Their entries are read off first, so that the comparison with the
  // transitions needs no table.

  lemma Row1()
    ensures INDEX_OFFSETS[1] == 0 && 8 <= |INDICIES|
    ensures INDICIES[0] == 1 && INDICIES[1] == 2 && INDICIES[2] == 3 && INDICIES[3] == 3
    ensures INDICIES[4] == 3 && INDICIES[5] == 2 && INDICIES[6] == 3 && INDICIES[7] == 0
  {}

  lemma Row2()
    ensures INDEX_OFFSETS[2] == 8 && 15 <= |INDICIES|
    ensures INDICIES[8] == 1 && INDICIES[9] == 5 && INDICIES[10] == 6
    ensures INDICIES[11] == 7 && INDICIES[12] == 8 && INDICIES[13] == 9 && INDICIES[14] == 4
  {}

  lemma Row3()
    ensures INDEX_OFFSETS[3] == 15 && 21 <= |INDICIES|
    ensures INDICIES[15] == 1 && INDICIES[16] == 10 && INDICIES[17] == 6
    ensures INDICIES[18] == 9 && INDICIES[19] == 10 && INDICIES[20] == 3
  {}

  lemma Row4()
    ensures INDEX_OFFSETS[4] == 21 && 29 <= |INDICIES|
    ensures INDICIES[21] == 3 && INDICIES[22] == 12 && INDICIES[23] == 3 && INDICIES[24] == 3
    ensures INDICIES[25] == 3 && INDICIES[26] == 12 && INDICIES[27] == 3 && INDICIES[28] == 11
  {}

  lemma Row5()
    ensures INDEX_OFFSETS[5] == 29 && 37 <= |INDICIES|
    ensures INDICIES[29] == 3 && INDICIES[30] == 13 && INDICIES[31] == 3 && INDICIES[32] == 3
    ensures INDICIES[33] == 3 && INDICIES[34] == 13 && INDICIES[35] == 3 && INDICIES[36] == 4
  {}

  lemma Row6()
    ensures INDEX_OFFSETS[6] == 37 && 45 <= |INDICIES|
    ensures INDICIES[37] == 3 && INDICIES[38] == 7 && INDICIES[39] == 3 && INDICIES[40] == 3
    ensures INDICIES[41] == 3 && INDICIES[42] == 7 && INDICIES[43] == 3 && INDICIES[44] == 14
  {}

  lemma Row7()
    ensures INDEX_OFFSETS[7] == 45 && 52 <= |INDICIES|
    ensures INDICIES[45] == 1 && INDICIES[46] == 5 && INDICIES[47] == 6
    ensures INDICIES[48] == 3 && INDICIES[49] == 15 && INDICIES[50] == 9 && INDICIES[51] == 14
  {}

  lemma Row8()
    ensures INDEX_OFFSETS[8] == 52 && 60 <= |INDICIES|
    ensures INDICIES[52] == 3 && INDICIES[53] == 15 && INDICIES[54] == 3 && INDICIES[55] == 3
    ensures INDICIES[56] == 3 && INDICIES[57] == 15 && INDICIES[58] == 3 && INDICIES[59] == 16
  {}

  lemma Row9()
    ensures INDEX_OFFSETS[9] == 60 && 67 <= |INDICIES|
    ensures INDICIES[60] == 1 && INDICIES[61] == 5 && INDICIES[62] == 6
    ensures INDICIES[63] == 3 && INDICIES[64] == 3 && INDICIES[65] == 9 && INDICIES[66] == 16
  {}

  lemma Row10()
    ensures INDEX_OFFSETS[10] == 67 && 75 <= |INDICIES|
    ensures INDICIES[67] == 3 && INDICIES[68] == 8 && INDICIES[69] == 3 && INDICIES[70] == 3
    ensures INDICIES[71] == 3 && INDICIES[72] == 8 && INDICIES[73] == 3 && INDICIES[74] == 17
  {}

  lemma Row11()
    ensures INDEX_OFFSETS[11] == 75 && 82 <= |INDICIES|
    ensures INDICIES[75] == 1 && INDICIES[76] == 5 && INDICIES[77] == 6
    ensures INDICIES[78] == 18 && INDICIES[79] == 3 && INDICIES[80] == 9 && INDICIES[81] == 17
  {}

  lemma Row12()
    ensures INDEX_OFFSETS[12] == 82 && 90 <= |INDICIES|
    ensures INDICIES[82] == 3 && INDICIES[83] == 18 && INDICIES[84] == 3 && INDICIES[85] == 3
    ensures INDICIES[86] == 3 && INDICIES[87] == 18 && INDICIES[88] == 3 && INDICIES[89] == 19
  {}

  lemma Row13()
    ensures INDEX_OFFSETS[13] == 90 && 97 <= |INDICIES|
    ensures INDICIES[90] == 1 && INDICIES[91] == 5 && INDICIES[92] == 6
    ensures INDICIES[93] == 3 && INDICIES[94] == 3 && INDICIES[95] == 9 && INDICIES[96] == 19
  {}

  lemma Row14()
    ensures INDEX_OFFSETS[14] == 97 && 105 <= |INDICIES|
    ensures INDICIES[97] == 1 && INDICIES[98] == 20 && INDICIES[99] == 3 && INDICIES[100] == 3
    ensures INDICIES[101] == 3 && INDICIES[102] == 20 && INDICIES[103] == 3 && INDICIES[104] == 4
  {}

  lemma RowIsDelta(cs: nat, c: char)
    requires 1 <= cs < 15
    ensures RowOk(cs, c)
  {
    hide RowOk;
    if cs < 5 {
      RowsA(cs, c);
    } else if cs < 10 {
      RowsB(cs, c);
    } else {
      RowsC(cs, c);
    }
  }

  lemma RowsA(cs: nat, c: char)
    requires 1 <= cs < 5
    ensures RowOk(cs, c)
  {
    hide INDICIES, INDEX_OFFSETS;
    match cs
    case 1 => Row1();
    case 2 => Row2();
    case 3 => Row3();
    case 4 => Row4();
  }

  lemma RowsB(cs: nat, c: char)
    requires 5 <= cs < 10
    ensures RowOk(cs, c)
  {
    hide INDICIES, INDEX_OFFSETS;
    match cs
    case 5 => Row5();
    case 6 => Row6();
    case 7 => Row7();
    case 8 => Row8();
    case 9 => Row9();
  }

  lemma RowsC(cs: nat, c: char)
    requires 10 <= cs < 15
    ensures RowOk(cs, c)
  {
    hide INDICIES, INDEX_OFFSETS;
    match cs
    case 10 => Row10();
    case 11 => Row11();
    case 12 => Row12();
    case 13 => Row13();
    case 14 => Row14();
  }

  ghost predicate Encoded(cs: nat, c: char)
    requires cs < 16
  {
    && KeysOk(cs)
    && Transition(cs, c) < |INDICIES|
    && EntryOk(INDICIES[Transition(cs, c)])
    && Entry(INDICIES[Transition(cs, c)]) == Delta(cs, c)
  }

  /** For every live state and every character the compressed tables hold `Delta`. */
  lemma TablesEncodeDelta(cs: nat, c: char)
    requires 1 <= cs < 15
    ensures Encoded(cs, c)
  {
    SlotIsTransition(cs, c);
    RowIsDelta(cs, c);
    EntryIsDistinct(INDICIES[Transition(cs, c)]);
  }
}
