/** The hash table of the buffer cache: taking a buffer off its chain and putting it on another
    (fs/buffer.c:85-121), on the values of the link fields. */
module CacheTable {
  import opened Cache
  import opened CacheLinks

  const NR_HASH: nat := 307

  function Hash(dev: nat, blk: nat): (h: nat)
    ensures h < NR_HASH
  {
    ((((dev % 0x1_0000) as bv16) ^ ((blk % 0x1_0000) as bv16)) as nat) % 307
  }

  /** The link fields by buffer, the chain heads, and the chains they form. */
  datatype Links = Links(next: seq<int>, prev: seq<int>, heads: seq<int>, chain: seq<seq<nat>>)

  /** Every buffer but off is on the chain of its block if it has a device, and unlinked otherwise;
      off itself, if it is a buffer at all, is on no chain. */
  ghost predicate Table(b: seq<Buffer>, l: Links, off: nat)
  {
    && AllLinked(l.next, l.prev, l.heads, l.chain) && |l.heads| == NR_HASH && |l.next| == |b|
    && (forall h: nat, x: nat {:trigger x in l.chain[h]} | h < NR_HASH && x in l.chain[h] ::
      x < |b| && x != off && b[x].dev != 0 && Hash(b[x].dev, b[x].blk) == h)
    && (forall x | 0 <= x < |b| && x != off && b[x].dev != 0 :: x in l.chain[Hash(b[x].dev, b[x].blk)])
    && (forall x | 0 <= x < |b| && x != off && b[x].dev == 0 :: l.next[x] == l.prev[x] == -1)
  }

  /** The first occurrence of x in s. */
  function IndexOf(s: seq<nat>, x: nat): (k: nat)
    requires x in s
    ensures k < |s| && s[k] == x
  {
    if s[0] == x then 0 else 1 + IndexOf(s[1..], x)
  }

  /** The hash half of remove_from_queues for buffer i of block (dev, blk). */
  ghost function Unhashed(l: Links, i: nat, h: nat): Links
    requires i < |l.next| == |l.prev| && h < |l.heads| == |l.chain|
    requires -1 <= l.next[i] < |l.next| && -1 <= l.prev[i] < |l.next|
  {
    Links(if l.prev[i] >= 0 then l.next[l.prev[i] := l.next[i]] else l.next,
          if l.next[i] >= 0 then l.prev[l.next[i] := l.prev[i]] else l.prev,
          if l.heads[h] == i then l.heads[h := l.next[i]] else l.heads,
          if i in l.chain[h] then l.chain[h := Drop(l.chain[h], IndexOf(l.chain[h], i))] else l.chain)
  }

  /** The hash half of insert_into_queues, with a check for an empty chain before the back link of the
      old head is set. */
  ghost function Rehashed(l: Links, i: nat, dev: nat, h: nat): Links
    requires i < |l.next| == |l.prev| && h < |l.heads| == |l.chain| && -1 <= l.heads[h] < |l.next|
  {
    if dev == 0 then Links(l.next[i := -1], l.prev[i := -1], l.heads, l.chain)
    else
      var prev1 := l.prev[i := -1];
      Links(l.next[i := l.heads[h]],
            if l.heads[h] >= 0 then prev1[l.heads[h] := i] else prev1,
            l.heads[h := i],
            l.chain[h := [i] + l.chain[h]])
  }

  /** Taking buffer i off chain h: the chains stay linked, and only i is gone. */
  lemma UnhashedLinks(l: Links, i: nat, h: nat)
    requires AllLinked(l.next, l.prev, l.heads, l.chain) && h < |l.chain| && i in l.chain[h]
    ensures i < |l.next| && -1 <= l.next[i] < |l.next| && -1 <= l.prev[i] < |l.next| && l.prev[i] != i && l.next[i] != i
    ensures var l' := Unhashed(l, i, h);
            && AllLinked(l'.next, l'.prev, l'.heads, l'.chain) && |l'.heads| == |l.heads| && |l'.next| == |l.next|
            && (forall g, x | 0 <= g < |l.chain| :: x in l'.chain[g] <==> x in l.chain[g] && x != i)
            && (forall x | 0 <= x < |l.next| && x !in l.chain[h] :: l'.next[x] == l.next[x] && l'.prev[x] == l.prev[x])
  {
    hide ChainLinked; hide Separate;
    var c := IndexOf(l.chain[h], i);
    UnhashKeeps(l.next, l.prev, l.heads, l.chain, h, c);
    DropOne(l, h, c);
    var l' := Unhashed(l, i, h);
    assert l'.chain == l.chain[h := Drop(l.chain[h], c)];
    forall g, x | 0 <= g < |l.chain| ensures x in l'.chain[g] <==> x in l.chain[g] && x != i {
    }
  }

  lemma UnhashTable(b: seq<Buffer>, l: Links, i: nat)
    requires Table(b, l, |b|) && i < |b|
    ensures -1 <= l.next[i] < |b| && -1 <= l.prev[i] < |b| && l.prev[i] != i && l.next[i] != i
    ensures Table(b, Unhashed(l, i, Hash(b[i].dev, b[i].blk)), i)
  {
    hide Hash; hide ChainLinked; hide Separate;
    var h := Hash(b[i].dev, b[i].blk);
    if b[i].dev == 0 {
      assert i !in l.chain[h];
      NotAHead(l, h, i);
    } else {
      UnhashedLinks(l, i, h);
      hide Unhashed; hide AllLinked;
    }
  }

  lemma DropOne(l: Links, h: nat, c: nat)
    requires AllLinked(l.next, l.prev, l.heads, l.chain) && h < |l.chain| && c < |l.chain[h]|
    ensures var ch := l.chain[h];
            && ch[c] !in Drop(ch, c) && (forall x | x != ch[c] :: x in Drop(ch, c) <==> x in ch)
            && (c > 0 ==> ch[c - 1] != ch[c]) && (c + 1 < |ch| ==> ch[c + 1] != ch[c])
            && (forall g | 0 <= g < |l.chain| && g != h :: ch[c] !in l.chain[g])
            && (forall k | 0 <= k < |ch| :: ch[k] in ch)
  {}

  lemma NotAHead(l: Links, h: nat, i: nat)
    requires AllLinked(l.next, l.prev, l.heads, l.chain) && h < |l.chain| && i !in l.chain[h]
    ensures l.heads[h] != i
  {}

  lemma HeadsInRange(b: seq<Buffer>, l: Links, off: nat, h: nat)
    requires Table(b, l, off) && h < NR_HASH
    ensures -1 <= l.heads[h] < |b| && (l.heads[h] >= 0 ==> l.heads[h] in l.chain[h])
  {}

  lemma RehashTable(b: seq<Buffer>, l: Links, i: nat)
    requires Table(b, l, i) && i < |b|
    ensures var h := Hash(b[i].dev, b[i].blk);
            -1 <= l.heads[h] < |b| && Table(b, Rehashed(l, i, b[i].dev, h), |b|)
  {
    var h := Hash(b[i].dev, b[i].blk);
    HeadsInRange(b, l, i, h);
    hide Hash; hide ChainLinked; hide Separate;
    if b[i].dev == 0 {
      ResetKeeps(l.next, l.prev, l.heads, l.chain, i);
    } else {
      HashKeeps(l.next, l.prev, l.heads, l.chain, h, i);
    }
  }
}
