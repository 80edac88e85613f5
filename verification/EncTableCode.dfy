/** The table functions of fs/security.c as loops over the array of entries. */
module EncTableCode {
  import opened EncTable
  import opened EncRemove

  /** The index expression of the three functions with the macros written out as the preprocessor does. */
  function HashIndex(x: nat, i: nat): (index: nat)
    ensures index == Probe(x, i) < 61
  {
    (x % 61 + i * 1 + (x % (61 - 1))) % 61
  }

  class HashTable {
    const values: array<Entry>

    constructor ()
      ensures values.Length == 61 && fresh(values) && values[..] == Empty()
    {
      values := new Entry[61](i => Entry(0, NO_KEY));
    }

    /** search_func. */
    method Search(x: nat) returns (index: int)
      requires values.Length == 61 && (HasFree(values[..]) || Has(values[..], x))
      ensures index == EncTable.Search(values[..], x)
    {
      hide HashIndex, Probe;
      ghost var t: Table := values[..];
      FreeStops(t, x);
      var i := 0;
      while true
        invariant 0 <= i < 61 && FindFrom(t, x, 0) == FindFrom(t, x, i) < 61
        decreases 61 - i
      {
        index := HashIndex(x, i);
        i := i + 1;
        if values[index].ino == x { return; }
        if values[index].ino == 0 { break; }
      }
      index := -1;
    }

    /** add_func. */
    method Add(value: Entry) returns (index: int)
      requires values.Length == 61 && (HasFree(values[..]) || Has(values[..], value.ino))
      modifies values
      ensures (values[..], index) == EncTable.Add(old(values[..]), value)
    {
      hide HashIndex, Probe;
      ghost var t: Table := values[..];
      FreeStops(t, value.ino);
      var i := 0;
      while true
        invariant 0 <= i < 61 && FindFrom(t, value.ino, 0) == FindFrom(t, value.ino, i) < 61 && values[..] == t
        decreases 61 - i
      {
        index := HashIndex(value.ino, i);
        i := i + 1;
        if values[index].ino == value.ino { return -1; }
        if values[index].ino == 0 { break; }
      }
      values[index] := value;
    }

    /** compare_hash: whether the two hashes agree. */
    method CompareHash(hash1: HKey, hash2: HKey) returns (same: bool)
      ensures same == (hash1 == hash2)
    {
      for i := 0 to 14
        invariant hash1[..i] == hash2[..i]
      {
        if hash1[i] != hash2[i] { return false; }
      }
      assert hash1 == hash1[..14] && hash2 == hash2[..14];
      return true;
    }

    /** One turn of the loop of remove_func after the entry was found. */
    method AddAgain(index: nat)
      requires values.Length == 61 && index < 61
      modifies values
      ensures values[..] == Turn(old(values[..]), index)
    {
      var tmp := values[index];
      values[index] := values[index].(ino := 0);
      assert values[..] == Clear(old(values[..]), index);
      ClearHasFree(old(values[..]), index);
      hide FindFrom, HasFree;
      var slot := Add(tmp);
    }

    /** remove_func: it ends with the result of Remove, in every table in which the search for the inode ends. */
    method Remove(x: nat, key: HKey) returns (code: int)
      requires values.Length == 61 && x != 0 && (HasFree(values[..]) || Has(values[..], x))
      modifies values
      ensures (values[..], code) == EncTable.Remove(old(values[..]), x, key)
    {
      hide EncTable.Remove, Clear, FindFrom, HasFree, Has, Turn, Reinsert, Probe, HashIndex, Looking, Weight, Gap;
      ghost var t0: Table := values[..];
      ghost var m := RemovePlan(t0, x, key);
      var found := false;
      var i := 0;
      var index := HashIndex(x, i);
      i := i + 1;
      while values[index].ino != 0
        invariant 1 <= i && index == Probe(x, i - 1)
        invariant if found then HasFree(values[..])
          && EncTable.Remove(t0, x, key) == (Reinsert(values[..], x, i - 1), 1)
                  else i - 1 <= m && values[..] == t0
        decreases !found, if found then Weight(values[..], 61) else m + 1 - i,
                  if found then Gap(values[..], index, 61) else 0
      {
        if values[index].ino == x && !found {
          var same := CompareHash(key, values[index].key);
          Arrived(t0, x, key, m, i - 1);
          if !same { return -EINVAL; }
          found := true;
          ClearIs(t0, index);
          values[index] := values[index].(ino := 0);
          index := HashIndex(x, i);
          i := i + 1;
          assert values[..] == Clear(t0, Probe(x, m));
        } else if found {
          TurnShrinks(values[..], index);
          NextGap(values[..], x, i - 1);
          ReinsertOnce(values[..], x, i - 1);
          AddAgain(index);
        } else {
          Passed(t0, x, key, m, i - 1);
        }
        index := HashIndex(x, i);
        i := i + 1;
      }
      if found {
        ReinsertDone(values[..], x, i - 1);
        return 1;
      }
      Missed(t0, x, key, m, i - 1);
      return -1;
    }
  }

  /** The search of remove_func ends at probe m: that slot holds x or is free, and none before it does. */
  ghost predicate Looking(t: Table, x: nat, m: nat)
  {
    && m <= 60 && (t[Probe(x, m)].ino == x || t[Probe(x, m)].ino == 0)
    && forall i: nat | i < m :: t[Probe(x, i)].ino != x && t[Probe(x, i)].ino != 0
  }

  /** What Remove does once the search has ended at probe m. */
  ghost predicate Planned(t: Table, x: nat, key: HKey, m: nat)
  {
    var s := Probe(x, m);
    && HasFree(Clear(t, s))
    && EncTable.Remove(t, x, key) == if t[s].ino != x then (t, -1) else if t[s].key != key then (t, -EINVAL)
                                     else (Reinsert(Clear(t, s), x, m + 2), 1)
  }

  lemma RemovePlan(t: Table, x: nat, key: HKey) returns (m: nat)
    requires HasFree(t) || Has(t, x)
    ensures m <= 60 && Looking(t, x, m) && Planned(t, x, key, m)
  {
    FreeStops(t, x);
    m := FindFrom(t, x, 0);
    ClearHasFree(t, Probe(x, m));
    hide FindFrom, Reinsert, Probe, Clear, HasFree;
  }

  lemma Arrived(t: Table, x: nat, key: HKey, m: nat, i: nat)
    requires Looking(t, x, m) && Planned(t, x, key, m) && x != 0 && i <= m && t[Probe(x, i)].ino == x
    ensures i == m && HasFree(Clear(t, Probe(x, m)))
    ensures t[Probe(x, m)].key != key ==> EncTable.Remove(t, x, key) == (t, -EINVAL)
    ensures t[Probe(x, m)].key == key ==> EncTable.Remove(t, x, key) == (Reinsert(Clear(t, Probe(x, m)), x, m + 2), 1)
  {
    hide FindFrom, HasFree, Reinsert, Probe, EncTable.Remove, Clear;
  }

  lemma Passed(t: Table, x: nat, key: HKey, m: nat, i: nat)
    requires Looking(t, x, m) && i <= m && t[Probe(x, i)].ino != x && t[Probe(x, i)].ino != 0
    ensures i < m
  {}

  lemma Missed(t: Table, x: nat, key: HKey, m: nat, i: nat)
    requires Looking(t, x, m) && Planned(t, x, key, m) && x != 0 && i <= m && t[Probe(x, i)].ino == 0
    ensures EncTable.Remove(t, x, key) == (t, -1)
  {}

  lemma ClearIs(t: Table, s: nat)
    requires s < 61
    ensures Clear(t, s) == t[s := t[s].(ino := 0)]
  {}

  lemma ReinsertOnce(t: Table, x: nat, i: nat)
    requires HasFree(t) && t[Probe(x, i)].ino != 0
    ensures HasFree(Turn(t, Probe(x, i))) && Reinsert(t, x, i) == Reinsert(Turn(t, Probe(x, i)), x, i + 1)
  {
    TurnShrinks(t, Probe(x, i));
  }

  lemma ReinsertDone(t: Table, x: nat, i: nat)
    requires HasFree(t) && t[Probe(x, i)].ino == 0
    ensures Reinsert(t, x, i) == t
  {}
}
