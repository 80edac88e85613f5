/** The block cipher of fs/security.c:279-389: a block is read into a matrix row by row, one column for
    each key character, and written out with the columns in the order of the sorted key. */
module Cipher {

  type Byte = x: int | 0 <= x < 256
  type Block = b: seq<Byte> | |b| == 1024 witness seq(1024, i => 0)

  /** The key lengths set_key accepts below KEY_SIZE. */
  predicate KeyLen(n: nat) { n == 2 || n == 4 || n == 8 || n == 16 }

  type Key = k: seq<int> | KeyLen(|k|) witness [1, 2]

  function ColSize(n: nat): (r: nat)
    requires KeyLen(n)
    ensures r >= 64
  {
    if n == 2 then 512 else if n == 4 then 256 else if n == 8 then 128 else 64
  }

  /** The matrix slot of row a in column c, and the index of that byte in the block. */
  function Pos(n: nat, c: nat, a: nat): (s: nat)
    requires KeyLen(n) && c < n && a < ColSize(n)
    ensures s < 1024
    ensures s == 1023 <==> c == n - 1 && a == ColSize(n) - 1
  {
    c * ColSize(n) + a
  }

  function Idx(n: nat, a: nat, c: nat): (i: nat)
    requires KeyLen(n) && c < n && a < ColSize(n)
    ensures i < 1024
    ensures i == 1023 <==> c == n - 1 && a == ColSize(n) - 1
  {
    a * n + c
  }

  function RowOf(n: nat, i: nat): (a: nat)
    requires KeyLen(n) && i < 1024
    ensures a < ColSize(n)
  {
    i / n
  }

  function ColOf(n: nat, i: nat): (c: nat)
    requires KeyLen(n) && i < 1024
    ensures c < n
  {
    i % n
  }

  /** The byte index kept in matrix slot s. */
  function Cell(n: nat, s: nat): (i: nat)
    requires KeyLen(n) && s < 1024
    ensures i < 1024
  {
    s % ColSize(n) * n + s / ColSize(n)
  }

  lemma IdxRowCol(n: nat, i: nat)
    requires KeyLen(n) && i < 1024
    ensures Idx(n, RowOf(n, i), ColOf(n, i)) == i
  {}

  lemma RowColIdx(n: nat, a: nat, c: nat)
    requires KeyLen(n) && c < n && a < ColSize(n)
    ensures RowOf(n, Idx(n, a, c)) == a && ColOf(n, Idx(n, a, c)) == c
  {}

  lemma CellPos(n: nat, a: nat, c: nat)
    requires KeyLen(n) && c < n && a < ColSize(n)
    ensures Cell(n, Pos(n, c, a)) == Idx(n, a, c)
  {
    if n == 2 {
      Divide512(c, a);
    } else if n == 4 {
      Divide256(c, a);
    } else if n == 8 {
      Divide128(c, a);
    } else {
      Divide64(c, a);
    }
  }

  lemma Divide512(c: nat, a: nat)
    requires a < 512
    ensures (c * 512 + a) % 512 == a && (c * 512 + a) / 512 == c
  {}

  lemma Divide256(c: nat, a: nat)
    requires a < 256
    ensures (c * 256 + a) % 256 == a && (c * 256 + a) / 256 == c
  {}

  lemma Divide128(c: nat, a: nat)
    requires a < 128
    ensures (c * 128 + a) % 128 == a && (c * 128 + a) / 128 == c
  {}

  lemma Divide64(c: nat, a: nat)
    requires a < 64
    ensures (c * 64 + a) % 64 == a && (c * 64 + a) / 64 == c
  {}

  /** The matrix built from a block; junk is what the scratch array holds in its last slot, which the
      index modulo 1023 never reaches. */
  function Matrix(data: Block, n: nat, junk: Byte): Block
    requires KeyLen(n)
  {
    seq(1024, s requires 0 <= s < 1024 => if s == 1023 then junk else data[Cell(n, s)])
  }

  predicate Columns(cols: seq<nat>, n: nat) { |cols| == n && forall c | 0 <= c < n :: cols[c] < n }

  /** The block written from matrix m with its columns in the order cols. */
  function Out(m: Block, n: nat, cols: seq<nat>): Block
    requires KeyLen(n) && Columns(cols, n)
  {
    seq(1024, i requires 0 <= i < 1024 => m[Pos(n, cols[ColOf(n, i)], RowOf(n, i))])
  }

  // ----- the sorting of the key and its columns -----

  /** The working copy of the key and, beside it, the column pointers. */
  datatype Sorting = Sorting(key: seq<int>, col: seq<nat>)

  predicate Even(st: Sorting) { |st.key| == |st.col| }

  function Swap(st: Sorting, i: nat, j: nat): (r: Sorting)
    requires Even(st) && i < |st.key| && j < |st.key|
    ensures Even(r) && |r.key| == |st.key|
  {
    Sorting(st.key[i := st.key[j]][j := st.key[i]], st.col[i := st.col[j]][j := st.col[i]])
  }

  /** encrypt_block's inner loop over j. */
  function Smallest(st: Sorting, i: nat, j: nat): (r: Sorting)
    requires Even(st) && i < |st.key| && j <= |st.key|
    ensures Even(r) && |r.key| == |st.key|
    decreases |st.key| - j
  {
    if j == |st.key| then st
    else Smallest(if st.key[j] < st.key[i] then Swap(st, i, j) else st, i, j + 1)
  }

  function Sort(st: Sorting, i: nat): (r: Sorting)
    requires Even(st) && i <= |st.key|
    ensures Even(r) && |r.key| == |st.key|
    decreases |st.key| - i
  {
    if i == |st.key| then st else Sort(Smallest(st, i, i), i + 1)
  }

  /** decrypt_block's inner loop that looks for key character i in the sorted key. */
  function Bring(key: seq<int>, st: Sorting, i: nat, j: nat): (r: Sorting)
    requires Even(st) && |key| == |st.key| && i < |key| && j <= |key|
    ensures Even(r) && |r.key| == |st.key|
    decreases |key| - j
  {
    if j == |key| then st
    else Bring(key, if key[i] == st.key[j] then Swap(st, i, j) else st, i, j + 1)
  }

  function Unsort(key: seq<int>, st: Sorting, i: nat): (r: Sorting)
    requires Even(st) && |key| == |st.key| && i <= |key|
    ensures Even(r) && |r.key| == |st.key|
    decreases |key| - i
  {
    if i == |key| then st else Unsort(key, Bring(key, st, i, i), i + 1)
  }

  function Id(n: nat): (r: seq<nat>)
    ensures |r| == n && forall i | 0 <= i < n :: r[i] == i
  {
    seq(n, i => i)
  }

  /** The state holds the characters of key, each beside the number of its column, every column once. */
  ghost predicate Labels(key: seq<int>, st: Sorting)
  {
    && |st.key| == |key| && |st.col| == |key|
    && (forall i | 0 <= i < |key| :: st.col[i] < |key| && st.key[i] == key[st.col[i]])
    && (forall i, j | 0 <= i < j < |key| :: st.col[i] != st.col[j])
  }

  lemma SwapLabels(key: seq<int>, st: Sorting, i: nat, j: nat)
    requires Labels(key, st) && i < |key| && j < |key|
    ensures Labels(key, Swap(st, i, j))
  {}

  lemma {:induction false} SmallestLabels(key: seq<int>, st: Sorting, i: nat, j: nat)
    requires Labels(key, st) && i < |key| && j <= |key|
    ensures Labels(key, Smallest(st, i, j))
    decreases |key| - j
  {
    if j < |key| {
      var st1 := if st.key[j] < st.key[i] then Swap(st, i, j) else st;
      SwapLabels(key, st, i, j);
      SmallestLabels(key, st1, i, j + 1);
    }
  }

  lemma {:induction false} SortLabels(key: seq<int>, st: Sorting, i: nat)
    requires Labels(key, st) && i <= |key|
    ensures Labels(key, Sort(st, i))
    decreases |key| - i
  {
    if i < |key| {
      SmallestLabels(key, st, i, i);
      SortLabels(key, Smallest(st, i, i), i + 1);
    }
  }

  lemma {:induction false} BringLabels(key: seq<int>, s: seq<int>, st: Sorting, i: nat, j: nat)
    requires Labels(s, st) && |key| == |s| && i < |key| && j <= |key|
    ensures Labels(s, Bring(key, st, i, j))
    decreases |key| - j
  {
    if j < |key| {
      SwapLabels(s, st, i, j);
      BringLabels(key, s, if key[i] == st.key[j] then Swap(st, i, j) else st, i, j + 1);
    }
  }

  lemma {:induction false} UnsortLabels(key: seq<int>, s: seq<int>, st: Sorting, i: nat)
    requires Labels(s, st) && |key| == |s| && i <= |key|
    ensures Labels(s, Unsort(key, st, i))
    decreases |key| - i
  {
    if i < |key| {
      BringLabels(key, s, st, i, i);
      UnsortLabels(key, s, Bring(key, st, i, i), i + 1);
    }
  }

  /** The column order encrypt_block writes with, and the one decrypt_block writes with. */
  function Sorted(key: Key): (st: Sorting)
    ensures Labels(key, st)
  {
    SortLabels(key, Sorting(key, Id(|key|)), 0);
    Sort(Sorting(key, Id(|key|)), 0)
  }

  function Unsorted(key: Key): (st: Sorting)
    ensures Labels(Sorted(key).key, st)
  {
    UnsortLabels(key, Sorted(key).key, Sorting(Sorted(key).key, Id(|key|)), 0);
    Unsort(key, Sorting(Sorted(key).key, Id(|key|)), 0)
  }

  function Encrypt(data: Block, key: Key, junk: Byte): Block
  {
    Out(Matrix(data, |key|, junk), |key|, Sorted(key).col)
  }

  function Decrypt(data: Block, key: Key, junk: Byte): Block
  {
    Out(Matrix(data, |key|, junk), |key|, Unsorted(key).col)
  }

  // ----- what the sorting does -----

  ghost predicate Distinct(s: seq<int>) { forall i, j | 0 <= i < j < |s| :: s[i] != s[j] }

  /** Positions before i hold the smallest characters, in order. */
  ghost predicate SortedTo(s: seq<int>, i: nat)
    requires i <= |s|
  {
    forall a, b | 0 <= a < i && a <= b < |s| :: s[a] <= s[b]
  }

  lemma {:induction false} SmallestSorts(st: Sorting, i: nat, j: nat)
    requires Even(st) && i < |st.key| && i <= j <= |st.key| && SortedTo(st.key, i) && forall b | i <= b < j ::
      st.key[i] <= st.key[b]
    ensures SortedTo(Smallest(st, i, j).key, i + 1)
    decreases |st.key| - j
  {
    if j < |st.key| {
      var st1 := if st.key[j] < st.key[i] then Swap(st, i, j) else st;
      SmallestSorts(st1, i, j + 1);
    }
  }

  lemma {:induction false} SortSorts(st: Sorting, i: nat)
    requires Even(st) && i <= |st.key| && SortedTo(st.key, i)
    ensures SortedTo(Sort(st, i).key, |st.key|)
    decreases |st.key| - i
  {
    if i < |st.key| {
      SmallestSorts(st, i, i);
      SortSorts(Smallest(st, i, i), i + 1);
    }
  }

  lemma {:induction false} BringFinds(key: seq<int>, st: Sorting, i: nat, j: nat, p: nat)
    requires Even(st) && |key| == |st.key| && i < |key| && i <= j <= p
      && (p == |key| || (p < |key| && st.key[p] == key[i]))
    requires forall k | j <= k < |key| && k != p :: st.key[k] != key[i]
    ensures Bring(key, st, i, j) == if p == |key| then st else Swap(st, i, p)
    decreases |key| - j
  {
    if j < |key| {
      if j == p {
        BringFinds(key, Swap(st, i, p), i, j + 1, |key|);
      } else {
        BringFinds(key, st, i, j + 1, p);
      }
    }
  }

  /** All characters of key stand in s. */
  ghost predicate Covers(s: seq<int>, key: seq<int>) { forall i | 0 <= i < |key| :: key[i] in s }

  lemma {:induction false} UnsortGivesKey(key: seq<int>, st: Sorting, i: nat)
    requires Even(st) && |key| == |st.key| && i <= |key| && Distinct(key) && Distinct(st.key) && Covers(st.key, key)
    requires st.key[..i] == key[..i]
    ensures Unsort(key, st, i).key == key
    decreases |key| - i
  {
    if i == |key| {
      assert st.key == st.key[..i] && key == key[..i];
    } else {
      var p: nat :| p < |key| && st.key[p] == key[i];
      forall a | 0 <= a < i ensures st.key[a] == key[a] {
        assert st.key[..i][a] == key[..i][a];
      }
      BringFinds(key, st, i, i, p);
      var st1 := Swap(st, i, p);
      SwapCovers(key, st, i, p);
      assert st1.key[..i + 1] == key[..i + 1] by {
        assert st1.key[..i] == st.key[..i];
      }
      UnsortGivesKey(key, st1, i + 1);
    }
  }

  lemma SwapCovers(key: seq<int>, st: Sorting, i: nat, p: nat)
    requires Even(st) && i < |st.key| && p < |st.key| && Covers(st.key, key) && Distinct(st.key)
    ensures Covers(Swap(st, i, p).key, key) && Distinct(Swap(st, i, p).key)
  {
    var s := Swap(st, i, p).key;
    forall k | 0 <= k < |key| ensures key[k] in s {
      var a :| 0 <= a < |st.key| && st.key[a] == key[k];
      assert s[if a == i then p else if a == p then i else a] == key[k];
    }
  }

  /** Sorted(key) holds the key characters in rising order, each beside its own column. */
  lemma SortedInOrder(key: Key)
    ensures forall i, j | 0 <= i <= j < |key| :: Sorted(key).key[i] <= Sorted(key).key[j]
    ensures Distinct(key) ==> Distinct(Sorted(key).key)
  {
    hide Sort;
    SortSorts(Sorting(key, Id(|key|)), 0);
  }

  lemma {:induction false} LabelsCover(key: seq<int>, st: Sorting)
    requires Labels(key, st)
    ensures Covers(st.key, key)
  {
    hide Labels;
    forall c | 0 <= c < |key| ensures key[c] in st.key {
      var i := ColumnStands(key, st, c);
    }
  }

  /** Every column stands somewhere: |key| different column numbers below |key| leave none out. */
  lemma ColumnStands(key: seq<int>, st: Sorting, c: nat) returns (i: nat)
    requires Labels(key, st) && c < |key|
    ensures i < |st.col| && |st.key| == |st.col| && st.col[i] == c && st.key[i] == key[c]
  {
    if forall k | 0 <= k < |st.col| :: st.col[k] != c {
      var all := set k | 0 <= k < |st.col| :: st.col[k];
      var below := Upto(|key|) - {c};
      DistinctCount(st.col);
      assert all <= below;
      SubsetSize(all, below);
    }
    i :| 0 <= i < |st.col| && st.col[i] == c;
  }

  lemma SubsetSize(a: set<nat>, b: set<nat>)
    requires a <= b
    ensures |a| <= |b|
  {
    assert b == a + (b - a);
  }

  lemma {:induction false} DistinctCount(s: seq<nat>)
    requires forall i, j | 0 <= i < j < |s| :: s[i] != s[j]
    ensures |set k | 0 <= k < |s| :: s[k]| == |s|
  {
    if s != [] {
      var n := |s| - 1;
      DistinctCount(s[..n]);
      assert (set k | 0 <= k < |s| :: s[k]) == (set k | 0 <= k < n :: s[..n][k]) + {s[n]};
    }
  }

  function Upto(n: nat): (r: set<nat>)
    ensures |r| == n && forall k: nat :: k in r <==> k < n
  {
    if n == 0 then {} else Upto(n - 1) + {n - 1}
  }

  lemma UnsortedIsKey(key: Key)
    requires Distinct(key)
    ensures Unsorted(key).key == key
  {
    hide Sort, Unsort;
    SortedInOrder(key);
    LabelsCover(key, Sorted(key));
    UnsortGivesKey(key, Sorting(Sorted(key).key, Id(|key|)), 0);
  }

  // ----- main results -----

  /** Decrypting with this key puts every column back where encrypting took it from. */
  predicate Undoes(key: Key)
  {
    forall c | 0 <= c < |key| :: Sorted(key).col[Unsorted(key).col[c]] == c
  }

  lemma DistinctUndoes(key: Key)
    requires Distinct(key)
    ensures Undoes(key)
  {
    UnsortedIsKey(key);
    var s, u := Sorted(key), Unsorted(key);
    hide Sorted, Unsorted;
  }

  /** encrypt_block permutes every row by the order that sorts the key, but for the cell of the last row
      that was read from the slot never written. */
  lemma EncryptPermutesRows(data: Block, key: Key, junk: Byte, a: nat, j: nat)
    requires a < ColSize(|key|) && j < |key|
    ensures
      var n, c := |key|, Sorted(key).col[j];
      Encrypt(data, key, junk)[Idx(n, a, j)] == if Idx(n, a, c) == 1023 then junk else data[Idx(n, a, c)]
  {
    hide Sorted, Pos, Cell, Idx, RowOf, ColOf;
    var n := |key|;
    RowColIdx(n, a, j);
    CellPos(n, a, Sorted(key).col[j]);
  }

  lemma DecryptPermutesRows(data: Block, key: Key, junk: Byte, a: nat, j: nat)
    requires a < ColSize(|key|) && j < |key|
    ensures
      var n, c := |key|, Unsorted(key).col[j];
      Decrypt(data, key, junk)[Idx(n, a, j)] == if Idx(n, a, c) == 1023 then junk else data[Idx(n, a, c)]
  {
    hide Unsorted, Pos, Cell, Idx, RowOf, ColOf;
    var n := |key|;
    RowColIdx(n, a, j);
    CellPos(n, a, Unsorted(key).col[j]);
  }

  /** What comes back of byte i when the column orders undo each other: the byte itself, but for byte 1023
      and the last byte of the column sorted last, which pass through the slot never written. */
  function ComesBack(data: Block, key: Key, junk: Byte, junk': Byte, i: nat): Byte
    requires i < 1024
  {
    if RowOf(|key|, i) == ColSize(|key|) - 1 && ColOf(|key|, i) == Sorted(key).col[|key| - 1] then junk'
    else if i == 1023 then junk else data[i]
  }

  /** With any key, all data comes back in this way exactly when the two column orders undo each other. */
  lemma BytesComeBackIff(key: Key, junk: Byte, junk': Byte)
    ensures Undoes(key) <==>
      forall data: Block, i: nat | i < 1024 ::
        Decrypt(Encrypt(data, key, junk), key, junk')[i] == ComesBack(data, key, junk, junk', i)
  {
    if Undoes(key) {
      hide Encrypt, Decrypt, ComesBack, Undoes;
      forall data: Block, i: nat | i < 1024
        ensures Decrypt(Encrypt(data, key, junk), key, junk')[i] == ComesBack(data, key, junk, junk', i)
      {
        ByteComesBack(data, key, junk, junk', i);
      }
    } else {
      var c :| 0 <= c < |key| && Sorted(key).col[Unsorted(key).col[c]] != c;
      hide Sorted, Unsorted, Encrypt, Decrypt, RowOf;
      NotBack(key, junk, junk', c);
    }
  }

  lemma ByteComesBack(data: Block, key: Key, junk: Byte, junk': Byte, i: nat)
    requires Undoes(key) && i < 1024
    ensures Decrypt(Encrypt(data, key, junk), key, junk')[i] == ComesBack(data, key, junk, junk', i)
  {
    var n, a, c := |key|, RowOf(|key|, i), ColOf(|key|, i);
    IdxRowCol(n, i);
    var u := Unsorted(key).col[c];
    assert Sorted(key).col[u] == c;
    assert u == n - 1 <==> c == Sorted(key).col[n - 1];
    hide Sorted, Unsorted, Encrypt, Decrypt, Idx, RowOf, ColOf;
    DecryptPermutesRows(Encrypt(data, key, junk), key, junk', a, c);
    EncryptPermutesRows(data, key, junk, a, u);
  }

  lemma RowAfterBoth(data: Block, key: Key, junk: Byte, junk': Byte, a: nat, c: nat)
    requires a < ColSize(|key|) - 1 && c < |key|
    ensures Decrypt(Encrypt(data, key, junk), key, junk')[Idx(|key|, a, c)]
      == data[Idx(|key|, a, Sorted(key).col[Unsorted(key).col[c]])]
  {
    hide Sorted, Unsorted, Encrypt, Decrypt, Idx;
    DecryptPermutesRows(Encrypt(data, key, junk), key, junk', a, c);
    EncryptPermutesRows(data, key, junk, a, Unsorted(key).col[c]);
  }

  lemma FirstRow(n: nat, c: nat)
    requires KeyLen(n) && c < n
    ensures Idx(n, 0, c) == c < 16 && RowOf(n, c) == 0 < ColSize(n) - 1
  {}

  /** A block whose first row has pairwise different bytes shows a column that is not put back. */
  lemma NotBack(key: Key, junk: Byte, junk': Byte, c: nat)
    requires c < |key| && Sorted(key).col[Unsorted(key).col[c]] != c
    ensures exists data: Block, i: nat :: i < 1024 &&
              Decrypt(Encrypt(data, key, junk), key, junk')[i] != ComesBack(data, key, junk, junk', i)
  {
    var data: Block := seq(1024, i => if i < 16 then i else 0);
    var w := Sorted(key).col[Unsorted(key).col[c]];
    FirstRow(|key|, c);
    FirstRow(|key|, w);
    assert ComesBack(data, key, junk, junk', c) == data[c] by { hide Sorted, Unsorted, Idx, RowOf; }
    hide Sorted, Unsorted, Encrypt, Decrypt, Idx, RowOf, ComesBack;
    RowAfterBoth(data, key, junk, junk', 0, c);
    assert Decrypt(Encrypt(data, key, junk), key, junk')[c] != data[c];
  }

  predicate Largest(key: Key, c: nat)
    requires c < |key|
  {
    forall k | 0 <= k < |key| :: key[k] <= key[c]
  }

  /** With a key of different characters decryption restores every byte, except that byte 1023 and the
      last byte of the column with the largest character come from the slot never written. */
  lemma RoundTrip(data: Block, key: Key, junk: Byte, junk': Byte, i: nat)
    requires Distinct(key) && i < 1024
    ensures
      var n := |key|;
      var back := Decrypt(Encrypt(data, key, junk), key, junk');
      back[i] == if RowOf(n, i) == ColSize(n) - 1 && Largest(key, ColOf(n, i)) then junk'
                 else if i == 1023 then junk else data[i]
  {
    var n, a, c := |key|, RowOf(|key|, i), ColOf(|key|, i);
    IdxRowCol(n, i);
    DistinctUndoes(key);
    LastIsLargest(key, c);
    hide Sorted, Unsorted, Encrypt, Decrypt, Idx, RowOf, ColOf, Largest, Distinct;
    DecryptPermutesRows(Encrypt(data, key, junk), key, junk', a, c);
    EncryptPermutesRows(data, key, junk, a, Unsorted(key).col[c]);
  }

  lemma LastIsLargest(key: Key, c: nat)
    requires Distinct(key) && c < |key|
    ensures Largest(key, c) <==> Unsorted(key).col[c] == |key| - 1
  {
    var s, u := Sorted(key), Unsorted(key);
    SortedInOrder(key);
    UnsortedIsKey(key);
    LabelsCover(key, s);
    hide Sorted, Unsorted;
    assert key[c] == s.key[u.col[c]];
    assert s.key[|key| - 1] == key[s.col[|key| - 1]];
    if u.col[c] == |key| - 1 {
      forall k | 0 <= k < |key| ensures key[k] <= key[c] {
        var p :| 0 <= p < |s.key| && s.key[p] == key[k];
      }
    }
  }

  /** A key with a repeated character need not work: with all characters equal the column that decryption
      writes first is the last one. */
  lemma RepeatedKeyFails(key: Key)
    requires forall i | 0 <= i < |key| :: key[i] == key[0]
    ensures !Undoes(key)
  {
    var n := |key|;
    var st := Sorting(key, Id(n));
    SortLeaves(st, 0);
    hide Sort, Bring, Unsort;
    BringLast(key, st, 0);
    UnsortKeepsFront(key, Bring(key, st, 0, 0), 1);
    assert Unsort(key, st, 0) == Unsort(key, Bring(key, st, 0, 0), 1) by { UnsortFirst(key, st); }
    assert Unsorted(key).col[0] == n - 1;
    assert Sorted(key).col[n - 1] == n - 1;
  }

  lemma UnsortFirst(key: seq<int>, st: Sorting)
    requires Even(st) && |key| == |st.key| > 0
    ensures Unsort(key, st, 0) == Unsort(key, Bring(key, st, 0, 0), 1)
  {}

  lemma {:induction false} SmallestLeaves(st: Sorting, i: nat, j: nat)
    requires Even(st) && i < |st.key| && j <= |st.key| && forall k | 0 <= k < |st.key| :: st.key[k] == st.key[0]
    ensures Smallest(st, i, j) == st
    decreases |st.key| - j
  {
    if j < |st.key| { SmallestLeaves(st, i, j + 1); }
  }

  lemma {:induction false} SortLeaves(st: Sorting, i: nat)
    requires Even(st) && i <= |st.key| && forall k | 0 <= k < |st.key| :: st.key[k] == st.key[0]
    ensures Sort(st, i) == st
    decreases |st.key| - i
  {
    if i < |st.key| {
      SmallestLeaves(st, i, i);
      SortLeaves(st, i + 1);
    }
  }

  /** With all characters equal every column is brought to the front in turn, and the last one stays there. */
  lemma {:induction false} BringLast(key: seq<int>, st: Sorting, j: nat)
    requires Even(st) && |key| == |st.key| && j < |key| && forall k | 0 <= k < |key| :: key[k] == st.key[k] == key[0]
    ensures Bring(key, st, 0, j).col[0] == st.col[|key| - 1]
    decreases |key| - j
  {
    var st1 := Swap(st, 0, j);
    if j + 1 < |key| {
      BringLast(key, st1, j + 1);
    } else {
      assert Bring(key, st1, 0, j + 1) == st1;
    }
  }

  lemma {:induction false} BringKeepsFront(key: seq<int>, st: Sorting, i: nat, j: nat)
    requires Even(st) && |key| == |st.key| && 1 <= i < |key| && i <= j <= |key|
    ensures Bring(key, st, i, j).col[0] == st.col[0]
    decreases |key| - j
  {
    if j < |key| { BringKeepsFront(key, if key[i] == st.key[j] then Swap(st, i, j) else st, i, j + 1); }
  }

  lemma {:induction false} UnsortKeepsFront(key: seq<int>, st: Sorting, i: nat)
    requires Even(st) && |key| == |st.key| && 1 <= i <= |key|
    ensures Unsort(key, st, i).col[0] == st.col[0]
    decreases |key| - i
  {
    if i < |key| {
      BringKeepsFront(key, st, i, i);
      UnsortKeepsFront(key, Bring(key, st, i, i), i + 1);
    }
  }
}
