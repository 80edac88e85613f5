/** encrypt_block, decrypt_block and rnd_key_gen (fs/security.c:218-389) as loops over arrays.  A column
    pointer is the number of its column; the scratch arrays start with arbitrary contents. */
module CipherCode {
  import opened Cipher

  /** The matrix slot the loop index k names when it has stepped i times by the column size modulo 1023. */
  function SlotAt(n: nat, i: nat): (s: nat)
    requires KeyLen(n) && i < 1024
    ensures s < 1023
  {
    IdxRowCol(n, i);
    if i == 1023 then 0 else Pos(n, ColOf(n, i), RowOf(n, i))
  }

  lemma StepRight(n: nat, a: nat, c: nat)
    requires KeyLen(n) && c + 1 < n && a < ColSize(n)
    ensures Idx(n, a, c + 1) == Idx(n, a, c) + 1 && Pos(n, c + 1, a) == Pos(n, c, a) + ColSize(n)
  {}

  lemma StepDown(n: nat, a: nat)
    requires KeyLen(n) && a + 1 < ColSize(n)
    ensures Idx(n, a + 1, 0) == Idx(n, a, n - 1) + 1 && Pos(n, 0, a + 1) == a + 1
      && Pos(n, n - 1, a) + ColSize(n) == 1024 + a
  {}

  lemma Mod1023(x: nat)
    requires x < 2046
    ensures x % 1023 == if x < 1023 then x else x - 1023
  {}

  lemma SlotNext(n: nat, i: nat)
    requires KeyLen(n) && i < 1023
    ensures SlotAt(n, i + 1) == (SlotAt(n, i) + ColSize(n)) % 1023
  {
    SlotAfter(n, i);
    Mod1023(SlotAt(n, i) + ColSize(n));
    hide *;
  }

  lemma SlotAfter(n: nat, i: nat)
    requires KeyLen(n) && i < 1023
    ensures ColSize(n) <= 512
    ensures
      var s := SlotAt(n, i) + ColSize(n);
      SlotAt(n, i + 1) == if s < 1023 then s else s - 1023
  {
    var a, c := RowOf(n, i), ColOf(n, i);
    IdxRowCol(n, i);
    SlotOf(n, a, c);
    Narrow(n);
    hide Idx, Pos, RowOf, ColOf, ColSize, KeyLen, SlotAt;
    if c + 1 < n {
      StepRight(n, a, c);
      SlotOf(n, a, c + 1);
    } else {
      StepDown(n, a);
      SlotOf(n, a + 1, 0);
    }
  }

  lemma Narrow(n: nat)
    requires KeyLen(n)
    ensures ColSize(n) <= 512
  {}

  lemma SlotOf(n: nat, a: nat, c: nat)
    requires KeyLen(n) && c < n && a < ColSize(n)
    ensures SlotAt(n, Idx(n, a, c)) == if Pos(n, c, a) == 1023 then 0 else Pos(n, c, a)
  {
    RowColIdx(n, a, c);
    hide Idx, Pos, RowOf, ColOf, ColSize, KeyLen;
  }

  lemma CellOfSlot(n: nat, i: nat)
    requires KeyLen(n) && i < 1023
    ensures Cell(n, SlotAt(n, i)) == i
  {
    IdxRowCol(n, i);
    CellPos(n, RowOf(n, i), ColOf(n, i));
  }

  lemma SlotOfCell(n: nat, s: nat)
    requires KeyLen(n) && s < 1023
    ensures Cell(n, s) < 1023 && SlotAt(n, Cell(n, s)) == s
  {
    var a, c := s % ColSize(n), s / ColSize(n);
    PosBack(n, s);
    CellPos(n, a, c);
    hide Cell, Idx, Pos, RowOf, ColOf;
    RowColIdx(n, a, c);
  }

  lemma PosBack(n: nat, s: nat)
    requires KeyLen(n) && s < 1024
    ensures s / ColSize(n) < n && Pos(n, s / ColSize(n), s % ColSize(n)) == s
  {}

  /** The first loop of both functions. */
  method BuildMatrix(data: array<Byte>, n: nat, matrix: array<Byte>)
    requires KeyLen(n) && data.Length == 1024 == matrix.Length && data != matrix
    modifies matrix
    ensures matrix[..] == Matrix(data[..], n, old(matrix[1023]))
  {
    hide SlotAt, Cell, KeyLen;
    var i, k := 0, 0;
    assert SlotAt(n, 0) == 0 by { SlotZero(n); }
    while i < 1024
      invariant 0 <= i <= 1024 && k < 1023 && (i < 1024 ==> k == SlotAt(n, i))
      invariant forall s | 1 <= s < 1023 && Cell(n, s) < i :: matrix[s] == data[Cell(n, s)]
      invariant matrix[1023] == old(matrix[1023])
    {
      if i < 1023 {
        CellOfSlot(n, i);
        SlotNext(n, i);
        forall s | 1 <= s < 1023 && Cell(n, s) == i ensures s == k {
          SlotOfCell(n, s);
        }
      } else {
        LastSlot(n);
        forall s | 1 <= s < 1023 ensures Cell(n, s) < 1023 {
          SlotOfCell(n, s);
        }
      }
      matrix[k] := data[i];
      k := (k + ColSize(n)) % 1023;
      i := i + 1;
    }
    matrix[0] := data[0];
    forall s | 0 <= s < 1023 ensures matrix[s] == data[Cell(n, s)] {
      SlotOfCell(n, s);
      SlotZero(n);
    }
  }

  lemma SlotZero(n: nat)
    requires KeyLen(n)
    ensures SlotAt(n, 0) == 0 && Cell(n, 0) == 0
  {
    CellPos(n, 0, 0);
    RowColIdx(n, 0, 0);
    assert Idx(n, 0, 0) == 0 && Pos(n, 0, 0) == 0;
    hide Cell, Idx, Pos, RowOf, ColOf;
  }

  lemma LastSlot(n: nat)
    requires KeyLen(n)
    ensures SlotAt(n, 1023) == 0
  {}

  function RowStart(n: nat, a: nat): nat { a * n }

  lemma RowNext(n: nat, a: nat)
    requires KeyLen(n) && a < ColSize(n)
    ensures RowStart(n, a + 1) == RowStart(n, a) + n
    ensures RowStart(n, a + 1) <= 1024 && (a + 1 == ColSize(n) ==> RowStart(n, a + 1) == 1024)
    ensures forall c: nat | c < n :: Idx(n, a, c) == RowStart(n, a) + c
  {}

  /** The last loops of both functions: out row by row, the columns in the order of the pointers. */
  method CopyOut(matrix: array<Byte>, n: nat, columns: array<nat>, buffer: array<Byte>)
    requires KeyLen(n) && matrix.Length == 1024 == buffer.Length && matrix != buffer && Columns(columns[..], n)
    modifies buffer
    ensures buffer[..] == Out(matrix[..], n, columns[..])
  {
    hide KeyLen, RowStart, Pos, Idx, ColOf, RowOf;
    var i, k := 0, 0;
    ghost var out := Out(matrix[..], n, columns[..]);
    assert RowStart(n, 0) == 0 by { FirstRow(n); }
    while i < ColSize(n)
      invariant 0 <= i <= ColSize(n) && k == RowStart(n, i) <= 1024 && (i == ColSize(n) ==> k == 1024)
      invariant forall t | 0 <= t < k :: buffer[t] == out[t]
    {
      RowNext(n, i);
      var j := 0;
      while j < n
        invariant 0 <= j <= n && k == RowStart(n, i) + j <= 1024
        invariant forall t | 0 <= t < k :: buffer[t] == out[t]
      {
        RowColIdx(n, i, j);
        assert k == Idx(n, i, j);
        buffer[k] := matrix[Pos(n, columns[j], i)];
        k := k + 1;
        j := j + 1;
      }
      i := i + 1;
    }
  }

  lemma FirstRow(n: nat)
    ensures RowStart(n, 0) == 0
  {}

  /** strcpy of the key, and the column pointers in their first order. */
  method SetUp(key: Key) returns (work: array<int>, columns: array<nat>)
    ensures fresh(work) && fresh(columns) && work[..] == key && columns[..] == Id(|key|)
  {
    work := new int[|key|](i requires 0 <= i < |key| => key[i]);
    columns := new nat[|key|](i => i);
  }

  /** encrypt_block.  buffer may be the data of the block itself. */
  method EncryptBlock(data: array<Byte>, buffer: array<Byte>, key: Key) returns (ghost junk: Byte)
    requires data.Length == 1024 == buffer.Length
    modifies buffer
    ensures buffer[..] == Encrypt(old(data[..]), key, junk)
  {
    hide Sort, Matrix, Out;
    var encrypted := new Byte[1024];
    junk := encrypted[1023];
    BuildMatrix(data, |key|, encrypted);
    var work, columns := SetUp(key);
    SortColumns(work, columns);
    assert columns[..] == Sorted(key).col;
    CopyOut(encrypted, |key|, columns, buffer);
  }

  method SortColumns(work: array<int>, columns: array<nat>)
    requires work.Length == columns.Length && work as object != columns as object
    modifies work, columns
    ensures Sorting(work[..], columns[..]) == Sort(Sorting(old(work[..]), old(columns[..])), 0)
  {
    var i, n := 0, work.Length;
    while i < n
      invariant 0 <= i <= n
      invariant Sort(Sorting(work[..], columns[..]), i) == old(Sort(Sorting(work[..], columns[..]), 0))
    {
      ghost var st := Sorting(work[..], columns[..]);
      var currMin := work[i];
      var j := i;
      while j < n
        invariant i <= j <= n && currMin == work[i]
        invariant Smallest(Sorting(work[..], columns[..]), i, j) == Smallest(st, i, i)
      {
        ghost var now := Sorting(work[..], columns[..]);
        if work[j] < currMin {
          columns[i], columns[j] := columns[j], columns[i];
          currMin := work[j];
          work[i], work[j] := work[j], work[i];
          assert Sorting(work[..], columns[..]) == Swap(now, i, j);
        }
        j := j + 1;
      }
      i := i + 1;
    }
  }

  /** decrypt_block's sort of the key alone: the same exchanges, so the same order. */
  method SortKey(work: array<int>, ghost col: seq<nat>)
    requires work.Length == |col|
    modifies work
    ensures work[..] == Sort(Sorting(old(work[..]), col), 0).key
  {
    var i, n := 0, work.Length;
    ghost var cur := col;
    while i < n
      invariant 0 <= i <= n == |cur|
      invariant Sort(Sorting(work[..], cur), i) == old(Sort(Sorting(work[..], col), 0))
    {
      ghost var st := Sorting(work[..], cur);
      var j := i;
      while j < n
        invariant i <= j <= n == |cur|
        invariant Smallest(Sorting(work[..], cur), i, j) == Smallest(st, i, i)
      {
        ghost var now := Sorting(work[..], cur);
        if work[j] < work[i] {
          work[i], work[j] := work[j], work[i];
          cur := cur[i := cur[j]][j := cur[i]];
          assert Sorting(work[..], cur) == Swap(now, i, j);
        }
        j := j + 1;
      }
      i := i + 1;
    }
  }

  method UnsortColumns(key: seq<int>, work: array<int>, columns: array<nat>)
    requires work.Length == columns.Length == |key| && work as object != columns as object
    modifies work, columns
    ensures Sorting(work[..], columns[..]) == Unsort(key, Sorting(old(work[..]), old(columns[..])), 0)
  {
    var i, n := 0, work.Length;
    while i < n
      invariant 0 <= i <= n
      invariant Unsort(key, Sorting(work[..], columns[..]), i) == old(Unsort(key, Sorting(work[..], columns[..]), 0))
    {
      ghost var st := Sorting(work[..], columns[..]);
      var j := i;
      while j < n
        invariant i <= j <= n
        invariant Bring(key, Sorting(work[..], columns[..]), i, j) == Bring(key, st, i, i)
      {
        ghost var now := Sorting(work[..], columns[..]);
        if key[i] == work[j] {
          work[i], work[j] := work[j], work[i];
          columns[i], columns[j] := columns[j], columns[i];
          assert Sorting(work[..], columns[..]) == Swap(now, i, j);
        }
        j := j + 1;
      }
      i := i + 1;
    }
  }

  /** decrypt_block. */
  method DecryptBlock(data: array<Byte>, buffer: array<Byte>, key: Key) returns (ghost junk: Byte)
    requires data.Length == 1024 == buffer.Length
    modifies buffer
    ensures buffer[..] == Decrypt(old(data[..]), key, junk)
  {
    hide Sort, Unsort, Matrix, Out;
    var decrypted := new Byte[1024];
    junk := decrypted[1023];
    BuildMatrix(data, |key|, decrypted);
    var work, columns := SetUp(key);
    SortKey(work, Id(|key|));
    assert work[..] == Sorted(key).key && columns[..] == Id(|key|);
    UnsortColumns(key, work, columns);
    assert columns[..] == Unsorted(key).col;
    CopyOut(decrypted, |key|, columns, buffer);
  }

  /** A block encrypted and decrypted in place with a key of different characters. */
  method EncryptThenDecrypt(block: array<Byte>, key: Key)
    requires block.Length == 1024 && Distinct(key)
    modifies block
    ensures forall i | 0 <= i < 1023 && !(RowOf(|key|, i) == ColSize(|key|) - 1 && Largest(key, ColOf(|key|, i))) ::
      block[i] == old(block[i])
  {
    hide Encrypt, Decrypt, RowOf, ColOf, Largest, Distinct;
    ghost var data := block[..];
    ghost var junk := EncryptBlock(block, block, key);
    ghost var junk' := DecryptBlock(block, block, key);
    forall i | 0 <= i < 1023 && !(RowOf(|key|, i) == ColSize(|key|) - 1 && Largest(key, ColOf(|key|, i)))
      ensures block[i] == data[i]
    {
      RoundTrip(data, key, junk, junk', i);
      assert block[..][i] == block[i];
    }
  }

  // ----- key generation -----

  const LOWER := "abcdefghijklmnopqrstuvwxyz"
  const UPPER := "ABCDEFGHIJKLMNOPQRSTUVWXYZ"
  const DIGITS := "123456789"

  /** char_set as rnd_key_gen starts with it. */
  function CharSet(): string { LOWER + UPPER + DIGITS }

  predicate DifferentChars(s: seq<char>) { forall i, j | 0 <= i < j < |s| :: s[i] != s[j] }

  /** s holds the characters from code c on, one after the other. */
  predicate Rising(s: string, c: nat) { forall i | 0 <= i < |s| :: s[i] as int == c + i }

  lemma LowerRises()
    ensures |LOWER| == 26 && Rising(LOWER, 97)
  {
    assert LOWER[0] == 'a';
    assert LOWER[1] == 'b';
    assert LOWER[2] == 'c';
    assert LOWER[3] == 'd';
    assert LOWER[4] == 'e';
    assert LOWER[5] == 'f';
    assert LOWER[6] == 'g';
    assert LOWER[7] == 'h';
    assert LOWER[8] == 'i';
    assert LOWER[9] == 'j';
    assert LOWER[10] == 'k';
    assert LOWER[11] == 'l';
    assert LOWER[12] == 'm';
    assert LOWER[13] == 'n';
    assert LOWER[14] == 'o';
    assert LOWER[15] == 'p';
    assert LOWER[16] == 'q';
    assert LOWER[17] == 'r';
    assert LOWER[18] == 's';
    assert LOWER[19] == 't';
    assert LOWER[20] == 'u';
    assert LOWER[21] == 'v';
    assert LOWER[22] == 'w';
    assert LOWER[23] == 'x';
    assert LOWER[24] == 'y';
    assert LOWER[25] == 'z';
  }

  lemma UpperRises()
    ensures |UPPER| == 26 && Rising(UPPER, 65)
  {
    assert UPPER[0] == 'A';
    assert UPPER[1] == 'B';
    assert UPPER[2] == 'C';
    assert UPPER[3] == 'D';
    assert UPPER[4] == 'E';
    assert UPPER[5] == 'F';
    assert UPPER[6] == 'G';
    assert UPPER[7] == 'H';
    assert UPPER[8] == 'I';
    assert UPPER[9] == 'J';
    assert UPPER[10] == 'K';
    assert UPPER[11] == 'L';
    assert UPPER[12] == 'M';
    assert UPPER[13] == 'N';
    assert UPPER[14] == 'O';
    assert UPPER[15] == 'P';
    assert UPPER[16] == 'Q';
    assert UPPER[17] == 'R';
    assert UPPER[18] == 'S';
    assert UPPER[19] == 'T';
    assert UPPER[20] == 'U';
    assert UPPER[21] == 'V';
    assert UPPER[22] == 'W';
    assert UPPER[23] == 'X';
    assert UPPER[24] == 'Y';
    assert UPPER[25] == 'Z';
  }

  lemma CharSetDiffers()
    ensures |CharSet()| == 61 && DifferentChars(CharSet()) && '\0' !in CharSet()
  {
    LowerRises();
    UpperRises();
    assert |DIGITS| == 9 && Rising(DIGITS, 49);
    hide LOWER, UPPER, DIGITS;
  }

  /** The characters left when number index is taken out and the last one moved to its place. */
  function Closed(rest: seq<char>, index: nat): (r: seq<char>)
    requires index < |rest|
    ensures |r| == |rest| - 1
  {
    var n := |rest| - 1;
    if index == n then rest[..n] else rest[..n][index := rest[n]]
  }

  /** The characters taken out one after the other, each by its tick modulo the number still there. */
  function Picked(rest: seq<char>, ticks: seq<nat>): (r: seq<char>)
    requires |ticks| <= |rest|
    ensures |r| == |ticks|
    decreases |ticks|
  {
    if ticks == [] then []
    else
      var index := ticks[0] % |rest|;
      [rest[index]] + Picked(Closed(rest, index), ticks[1..])
  }

  lemma ClosedHolds(rest: seq<char>, index: nat)
    requires DifferentChars(rest) && index < |rest|
    ensures DifferentChars(Closed(rest, index))
    ensures forall c :: c in Closed(rest, index) <==> c in rest && c != rest[index]
  {
    var r, n := Closed(rest, index), |rest| - 1;
    forall c | c in rest && c != rest[index] ensures c in r {
      var k :| 0 <= k < |rest| && rest[k] == c;
      assert r[if k == n then index else k] == c;
    }
    forall c | c in r ensures c in rest && c != rest[index] {
      var k :| 0 <= k < |r| && r[k] == c;
      assert rest[if k == index then n else k] == c;
    }
  }

  lemma PickOne(got: seq<char>, rest: seq<char>, ticks: seq<nat>, p: nat, len: nat)
    requires p < len <= |ticks| && len - p <= |rest|
    ensures
      var index := ticks[p] % |rest|;
      got + Picked(rest, ticks[p..len]) == got + [rest[index]] + Picked(Closed(rest, index), ticks[p + 1..len])
  {
    hide Closed;
    assert ticks[p..len][0] == ticks[p] && ticks[p..len][1..] == ticks[p + 1..len];
  }

  /** Every key of pairwise different characters of the set comes out for some ticks. */
  lemma {:induction false} EveryKeyComes(rest: seq<char>, key: seq<char>) returns (ticks: seq<nat>)
    requires DifferentChars(rest) && DifferentChars(key) && |key| <= |rest| && forall c | c in key :: c in rest
    ensures |ticks| == |key| && Picked(rest, ticks) == key
    decreases |key|
  {
    hide Picked, Closed, DifferentChars;
    if key == [] {
      PickNone(rest, []);
      return [];
    }
    var index := FindChar(rest, key);
    ClosedHolds(rest, index);
    DifferentTail(key);
    var later := EveryKeyComes(Closed(rest, index), key[1..]);
    PickFirst(rest, index, later);
    ticks := [index] + later;
  }

  lemma FindChar(rest: seq<char>, key: seq<char>) returns (index: nat)
    requires key != [] && forall c | c in key :: c in rest
    ensures index < |rest| && rest[index] == key[0]
  {
    assert key[0] in key;
    index :| 0 <= index < |rest| && rest[index] == key[0];
  }

  lemma DifferentTail(key: seq<char>)
    requires key != [] && DifferentChars(key)
    ensures DifferentChars(key[1..]) && forall c | c in key[1..] :: c in key && c != key[0]
  {}

  lemma PickFirst(rest: seq<char>, index: nat, later: seq<nat>)
    requires index < |rest| && |later| < |rest|
    ensures Picked(rest, [index] + later) == [rest[index]] + Picked(Closed(rest, index), later)
  {
    hide Picked;
    var ticks := [index] + later;
    assert ticks[0] % |rest| == index by { BelowModulus(index, |rest|); }
    assert ticks[1..] == later;
    hide Closed;
    PickedFirst(rest, ticks);
  }

  lemma BelowModulus(k: nat, n: nat)
    requires k < n
    ensures k % n == k
  {}

  lemma PickedFirst(rest: seq<char>, ticks: seq<nat>)
    requires 0 < |ticks| <= |rest|
    ensures Picked(rest, ticks) == [rest[ticks[0] % |rest|]] + Picked(Closed(rest, ticks[0] % |rest|), ticks[1..])
  {
    hide Closed;
  }

  /** Ticks that differ modulo the number of characters still there give different keys. */
  lemma {:induction false} KeysFollowTicks(rest: seq<char>, ticks: seq<nat>, ticks': seq<nat>, k: nat)
    requires DifferentChars(rest) && k < |ticks| == |ticks'| <= |rest| && Picked(rest, ticks) == Picked(rest, ticks')
    ensures ticks[k] % (|rest| - k) == ticks'[k] % (|rest| - k)
    decreases k
  {
    var index := ticks[0] % |rest|;
    assert Picked(rest, ticks)[0] == rest[index] && Picked(rest, ticks')[0] == rest[ticks'[0] % |rest|];
    if k > 0 {
      ClosedHolds(rest, index);
      assert Picked(rest, ticks)[1..] == Picked(Closed(rest, index), ticks[1..]);
      assert Picked(rest, ticks')[1..] == Picked(Closed(rest, index), ticks'[1..]);
      KeysFollowTicks(Closed(rest, index), ticks[1..], ticks'[1..], k - 1);
    }
  }

  /** One turn of the loop: the character goes to the key and the last one of the set takes its place. */
  method MoveChar(key: array<char>, p: nat, charSet: array<char>, setLen: nat, index: nat)
    requires p < key.Length && index < setLen <= charSet.Length && key != charSet
    modifies key, charSet
    ensures key[..p + 1] == old(key[..p]) + [old(charSet[index])]
    ensures charSet[..setLen - 1] == Closed(old(charSet[..setLen]), index)
  {
    assert old(charSet[..setLen])[..setLen - 1] == old(charSet[..setLen - 1]);
    key[p] := charSet[index];
    charSet[index] := charSet[setLen - 1];
    charSet[setLen - 1] := '\0';
  }

  /** rnd_key_gen.  ticks are the values read from the time stamp counter.  The characters are taken from
      the set without putting them back, so a key never has the same character twice. */
  method RndKeyGen(key: array<char>, level: nat, ticks: seq<nat>) returns (ghost len: nat)
    requires level <= 3 && key.Length == 32 && |ticks| >= 16
    modifies key
    ensures len == (if level == 0 then 2 else if level == 1 then 4 else if level == 2 then 8 else 16) && KeyLen(len)
    ensures key[len] == '\0' && '\0' !in key[..len] && DifferentChars(key[..len])
    ensures forall c | c in key[..len] :: c in CharSet()
    ensures |CharSet()| == 61 && key[..len] == Picked(CharSet(), ticks[..len])
  {
    CharSetDiffers();
    hide CharSet, DifferentChars, Closed, Picked;
    var charSet := new char[65](i requires 0 <= i < 65 => if i < 61 then CharSet()[i] else '\0');
    assert key[..0] + charSet[..61] == CharSet() == charSet[..61];
    var setLen := 61;
    var left := if level == 0 then 2 else if level == 1 then 4 else if level == 2 then 8 else 16;   // 2 << level
    len := left;
    var p := 0;
    assert ticks[0..len] == ticks[..len];
    while left > 0
      invariant 0 <= left && p + left == len <= 16 && setLen == 61 - p
      invariant key[..p] + Picked(charSet[..setLen], ticks[p..len]) == Picked(CharSet(), ticks[..len])
    {
      left := left - 1;
      PickOne(key[..p], charSet[..setLen], ticks, p, len);
      var index := ticks[p] % setLen;
      MoveChar(key, p, charSet, setLen, index);
      p := p + 1;
      setLen := setLen - 1;
    }
    PickNone(charSet[..setLen], ticks[p..len]);
    PickedDiffer(CharSet(), ticks[..len]);
    ghost var got := key[..p];
    assert got + [] == got;
    key[p] := '\0';
    assert key[..p] == got;
  }

  /** Nothing is picked twice. */
  lemma {:induction false} PickedDiffer(rest: seq<char>, ticks: seq<nat>)
    requires DifferentChars(rest) && |ticks| <= |rest|
    ensures DifferentChars(Picked(rest, ticks)) && forall c | c in Picked(rest, ticks) :: c in rest
    decreases |ticks|
  {
    hide Picked, Closed, DifferentChars;
    if ticks == [] {
      PickNone(rest, ticks);
      OneOrNone(Picked(rest, ticks));
    } else {
      var index := ticks[0] % |rest|;
      ClosedHolds(rest, index);
      PickedDiffer(Closed(rest, index), ticks[1..]);
      PickedFirst(rest, ticks);
      DifferentCons(rest[index], Picked(Closed(rest, index), ticks[1..]));
    }
  }

  lemma OneOrNone(s: seq<char>)
    requires |s| <= 1
    ensures DifferentChars(s)
  {}

  lemma DifferentCons(c: char, s: seq<char>)
    requires DifferentChars(s) && c !in s
    ensures DifferentChars([c] + s)
  {}

  lemma PickNone(rest: seq<char>, ticks: seq<nat>)
    requires ticks == []
    ensures Picked(rest, ticks) == []
  {}
}
