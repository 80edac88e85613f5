/** The links of the buffer cache: the circular free ring and the hash chains (fs/buffer.c:88-121), on
    the sequences of link fields.  A link is a buffer index; -1 stands for NULL in the chains. */
module CacheLinks {

  ghost predicate NoDup(s: seq<nat>)
  {
    forall k, l | 0 <= k < l < |s| :: s[k] != s[l]
  }

  function RingNext(ring: seq<nat>, k: nat): nat
    requires k < |ring|
  {
    if k + 1 < |ring| then ring[k + 1] else ring[0]
  }

  function RingPrev(ring: seq<nat>, k: nat): nat
    requires k < |ring|
  {
    if k > 0 then ring[k - 1] else ring[|ring| - 1]
  }

  /** nf and pf link exactly the buffers of ring, in that order, into a circle. */
  ghost predicate RingLinked(nf: seq<int>, pf: seq<int>, ring: seq<nat>)
  {
    && |nf| == |pf| && |ring| > 0 && NoDup(ring)
    && (forall k | 0 <= k < |ring| :: ring[k] < |nf|)
    && (forall k {:trigger nf[ring[k]]} {:trigger pf[ring[k]]} {:trigger RingNext(ring, k)} | 0 <= k < |ring| ::
          nf[ring[k]] == RingNext(ring, k) && pf[ring[k]] == RingPrev(ring, k))
  }

  function ChainNext(ch: seq<nat>, k: nat): int
    requires k < |ch|
  {
    if k + 1 < |ch| then ch[k + 1] else -1
  }

  function ChainPrev(ch: seq<nat>, k: nat): int
    requires k < |ch|
  {
    if k > 0 then ch[k - 1] else -1
  }

  /** next and prev link exactly the buffers of ch, in that order, from head on. */
  ghost predicate ChainLinked(next: seq<int>, prev: seq<int>, head: int, ch: seq<nat>)
  {
    && |next| == |prev| && NoDup(ch)
    && head == (if ch == [] then -1 else ch[0])
    && (forall k | 0 <= k < |ch| :: ch[k] < |next|)
    && (forall k {:trigger next[ch[k]]} {:trigger prev[ch[k]]} {:trigger ChainNext(ch, k)} | 0 <= k < |ch| ::
          next[ch[k]] == ChainNext(ch, k) && prev[ch[k]] == ChainPrev(ch, k))
  }

  function Drop(s: seq<nat>, k: nat): (r: seq<nat>)
    requires k < |s|
    ensures |r| == |s| - 1
    ensures forall l | 0 <= l < |r| :: r[l] == if l < k then s[l] else s[l + 1]
  {
    s[..k] + s[k + 1..]
  }

  lemma Dropped(s: seq<nat>, k: nat)
    requires k < |s| && NoDup(s)
    ensures NoDup(Drop(s, k)) && s[k] !in Drop(s, k)
    ensures forall x | x in Drop(s, k) :: x in s
  {}

  /** Unlinking the k-th buffer leaves the circle of the others. */
  lemma RingRemove(nf: seq<int>, pf: seq<int>, ring: seq<nat>, k: nat)
    requires RingLinked(nf, pf, ring) && |ring| >= 2 && k < |ring|
    ensures var i := ring[k];
            && nf[i] == RingNext(ring, k) < |nf| && pf[i] == RingPrev(ring, k) < |nf|
            && RingLinked(nf[pf[i] := nf[i]], pf[nf[i] := pf[i]], Drop(ring, k))
            && (if k == 0 then nf[i] else ring[0]) == Drop(ring, k)[0]
  {
    var i, ring' := ring[k], Drop(ring, k);
    RingFacts(nf, pf, ring, k);
    assert (if k == 0 then nf[i] else ring[0]) == ring'[0];
    var nf', pf' := nf[pf[i] := nf[i]], pf[nf[i] := pf[i]];
    Dropped(ring, k);
    forall l | 0 <= l < |ring'|
      ensures ring'[l] < |nf'| && nf'[ring'[l]] == RingNext(ring', l) && pf'[ring'[l]] == RingPrev(ring', l)
    {
      hide RingLinked; hide NoDup; hide RingNext; hide RingPrev;
      RingRemoveAt(nf, pf, ring, k, l);
    }
    MakeRing(nf', pf', ring');
  }

  lemma RingFacts(nf: seq<int>, pf: seq<int>, ring: seq<nat>, k: nat)
    requires RingLinked(nf, pf, ring) && k < |ring|
    ensures NoDup(ring) && |nf| == |pf|
    ensures nf[ring[k]] == RingNext(ring, k) < |nf| && pf[ring[k]] == RingPrev(ring, k) < |nf|
  {}

  lemma MakeRing(nf: seq<int>, pf: seq<int>, ring: seq<nat>)
    requires |nf| == |pf| && |ring| > 0 && NoDup(ring)
    requires forall l | 0 <= l < |ring| ::
      ring[l] < |nf| && nf[ring[l]] == RingNext(ring, l) && pf[ring[l]] == RingPrev(ring, l)
    ensures RingLinked(nf, pf, ring)
  {}

  lemma Differ(s: seq<nat>, a: nat, b: nat)
    requires NoDup(s) && a < |s| && b < |s| && a != b
    ensures s[a] != s[b]
  {}

  lemma RingRemoveAt(nf: seq<int>, pf: seq<int>, ring: seq<nat>, k: nat, l: nat)
    requires RingLinked(nf, pf, ring) && |ring| >= 2 && k < |ring| && l < |ring| - 1
    ensures var (i, ring') := (ring[k], Drop(ring, k));
            && nf[i] < |nf| && pf[i] < |nf| && ring'[l] < |nf|
            && nf[pf[i] := nf[i]][ring'[l]] == RingNext(ring', l)
            && pf[nf[i] := pf[i]][ring'[l]] == RingPrev(ring', l)
  {
    hide NoDup;
    var n := |ring|;
    var before, after := (if k == 0 then n - 1 else k - 1), (if k == n - 1 then 0 else k + 1);
    assert pf[ring[k]] == ring[before] && nf[ring[k]] == ring[after];
    var m := if l < k then l else l + 1;
    if m != before { Differ(ring, m, before); }
    if m != after { Differ(ring, m, after); }
    assert nf[ring[m]] == RingNext(ring, m) && pf[ring[m]] == RingPrev(ring, m);
  }

  /** Linking a buffer in before the head of the circle puts it at the end of the ring. */
  lemma RingInsert(nf: seq<int>, pf: seq<int>, ring: seq<nat>, i: nat)
    requires RingLinked(nf, pf, ring) && i < |nf| && i !in ring
    ensures var (first, last) := (ring[0], ring[|ring| - 1]);
            && pf[first] == last
            && RingLinked(nf[i := first][last := i], pf[i := last][first := i], ring + [i])
  {
    var (first, last) := (ring[0], ring[|ring| - 1]);
    var nf', pf', ring' := nf[i := first][last := i], pf[i := last][first := i], ring + [i];
    assert pf[first] == RingPrev(ring, 0);
    forall l | 0 <= l < |ring'|
      ensures ring'[l] < |nf'| && nf'[ring'[l]] == RingNext(ring', l) && pf'[ring'[l]] == RingPrev(ring', l)
    {
      if l < |ring| {
        assert ring'[l] == ring[l] && ring[l] in ring;
        assert nf[ring[l]] == RingNext(ring, l) && pf[ring[l]] == RingPrev(ring, l);
      }
    }
  }

  /** Unlinking the k-th buffer of a chain leaves the chain of the others. */
  lemma ChainRemove(next: seq<int>, prev: seq<int>, head: int, ch: seq<nat>, k: nat)
    requires ChainLinked(next, prev, head, ch) && k < |ch|
    ensures next[ch[k]] == ChainNext(ch, k) && prev[ch[k]] == ChainPrev(ch, k)
    ensures head == ch[k] <==> k == 0
    ensures var prev' := if k + 1 < |ch| then prev[ch[k + 1] := prev[ch[k]]] else prev;
            var next' := if k > 0 then next[ch[k - 1] := next[ch[k]]] else next;
            ChainLinked(next', prev', if k == 0 then next[ch[k]] else head, Drop(ch, k))
  {
    var prev' := if k + 1 < |ch| then prev[ch[k + 1] := prev[ch[k]]] else prev;
    var next' := if k > 0 then next[ch[k - 1] := next[ch[k]]] else next;
    var ch' := Drop(ch, k);
    ChainEnds(next, prev, head, ch, k);
    Dropped(ch, k);
    hide NoDup; hide ChainNext; hide ChainPrev; hide Drop; hide ChainLinked;
    forall l | 0 <= l < |ch'|
      ensures ch'[l] < |next'| && next'[ch'[l]] == ChainNext(ch', l) && prev'[ch'[l]] == ChainPrev(ch', l)
    {
      ChainRemoveAt(next, prev, head, ch, k, l);
    }
    MakeChain(next', prev', if k == 0 then next[ch[k]] else head, ch');
  }

  lemma ChainEnds(next: seq<int>, prev: seq<int>, head: int, ch: seq<nat>, k: nat)
    requires ChainLinked(next, prev, head, ch) && k < |ch|
    ensures |next| == |prev| && forall l | 0 <= l < |ch| :: ch[l] < |next|
    ensures next[ch[k]] == ChainNext(ch, k) && prev[ch[k]] == ChainPrev(ch, k) && NoDup(ch)
    ensures head == ch[k] <==> k == 0
    ensures (if k == 0 then next[ch[k]] else head) == if Drop(ch, k) == [] then -1 else Drop(ch, k)[0]
  {
    if k > 0 { Differ(ch, 0, k); }
  }

  lemma MakeChain(next: seq<int>, prev: seq<int>, head: int, ch: seq<nat>)
    requires |next| == |prev| && NoDup(ch) && head == (if ch == [] then -1 else ch[0])
    requires forall k | 0 <= k < |ch| ::
      ch[k] < |next| && next[ch[k]] == ChainNext(ch, k) && prev[ch[k]] == ChainPrev(ch, k)
    ensures ChainLinked(next, prev, head, ch)
  {}

  lemma ChainRemoveAt(next: seq<int>, prev: seq<int>, head: int, ch: seq<nat>, k: nat, l: nat)
    requires ChainLinked(next, prev, head, ch) && k < |ch| && l < |ch| - 1
    ensures var prev' := if k + 1 < |ch| then prev[ch[k + 1] := prev[ch[k]]] else prev;
            var next' := if k > 0 then next[ch[k - 1] := next[ch[k]]] else next;
            var ch' := Drop(ch, k);
            ch'[l] < |next| && next'[ch'[l]] == ChainNext(ch', l) && prev'[ch'[l]] == ChainPrev(ch', l)
  {
    hide NoDup;
    var m := if l < k then l else l + 1;
    if k > 0 && m != k - 1 { Differ(ch, m, k - 1); }
    if k + 1 < |ch| && m != k + 1 { Differ(ch, m, k + 1); }
    assert next[ch[m]] == ChainNext(ch, m) && prev[ch[m]] == ChainPrev(ch, m);
    assert next[ch[k]] == ChainNext(ch, k) && prev[ch[k]] == ChainPrev(ch, k);
  }

  /** Linking a buffer in at the head of a chain; the back link of an old head is set only if there is one. */
  lemma ChainInsert(next: seq<int>, prev: seq<int>, head: int, ch: seq<nat>, i: nat)
    requires ChainLinked(next, prev, head, ch) && i < |next| && i !in ch
    ensures -1 <= head < |next|
    ensures var prev1 := prev[i := -1];
            ChainLinked(next[i := head], if head >= 0 then prev1[head := i] else prev1, i, [i] + ch)
  {}

  // ----- all chains together -----

  /** Each head starts the chain of its bucket, and no buffer is on two chains. */
  ghost predicate AllLinked(next: seq<int>, prev: seq<int>, heads: seq<int>, chain: seq<seq<nat>>)
  {
    && |heads| == |chain| && |next| == |prev|
    && (forall h | 0 <= h < |chain| :: ChainLinked(next, prev, heads[h], chain[h]))
    && Separate(chain)
  }

  ghost predicate Separate(chain: seq<seq<nat>>)
  {
    forall g, h, x | 0 <= g < |chain| && 0 <= h < |chain| && x in chain[g] && x in chain[h] :: g == h
  }

  lemma SeparateKept(chain: seq<seq<nat>>, h: nat, ch: seq<nat>)
    requires Separate(chain) && h < |chain| && forall x | x in ch :: x in chain[h] || forall g | 0 <= g < |chain| ::
      x !in chain[g]
    ensures Separate(chain[h := ch])
  {}

  /** All chains but the h-th keep their links when only links of buffers of that chain, or of buffers on
      no chain, change. */
  lemma OtherChains(next: seq<int>, prev: seq<int>, next': seq<int>, prev': seq<int>, heads: seq<int>,
      chain: seq<seq<nat>>, h: nat, changed: seq<nat>)
    requires AllLinked(next, prev, heads, chain) && |next'| == |prev'| == |next|
    requires forall x | 0 <= x < |next| && x !in changed :: next'[x] == next[x] && prev'[x] == prev[x]
    requires forall g, x | 0 <= g < |chain| && g != h && x in changed :: x !in chain[g]
    ensures forall g | 0 <= g < |chain| && g != h :: ChainLinked(next', prev', heads[g], chain[g])
  {}

  lemma UnhashKeeps(next: seq<int>, prev: seq<int>, heads: seq<int>, chain: seq<seq<nat>>, h: nat, c: nat)
    requires AllLinked(next, prev, heads, chain) && h < |chain| && c < |chain[h]|
    ensures var ch := chain[h];
            var i := ch[c];
            && i < |next| && next[i] == ChainNext(ch, c) && prev[i] == ChainPrev(ch, c) && (heads[h] == i <==> c == 0)
            && (c + 1 < |ch| ==> ch[c + 1] < |next|) && (c > 0 ==> ch[c - 1] < |next|)
            && AllLinked(if c > 0 then next[ch[c - 1] := next[i]] else next,
                         if c + 1 < |ch| then prev[ch[c + 1] := prev[i]] else prev,
                         if c == 0 then heads[h := next[i]] else heads,
                         chain[h := Drop(ch, c)])
  {
    hide NoDup; hide ChainNext; hide ChainPrev;
    var ch := chain[h];
    var i := ch[c];
    ChainRemove(next, prev, heads[h], ch, c);
    Dropped(ch, c);
    var next' := if c > 0 then next[ch[c - 1] := next[i]] else next;
    var prev' := if c + 1 < |ch| then prev[ch[c + 1] := prev[i]] else prev;
    SeparateKept(chain, h, Drop(ch, c));
    hide ChainLinked; hide Separate;
    assert (c > 0 ==> ch[c - 1] in ch) && (c + 1 < |ch| ==> ch[c + 1] in ch);
    ApartFrom(chain, h);
    OtherChains(next, prev, next', prev', heads, chain, h, ch);
  }

  lemma ApartFrom(chain: seq<seq<nat>>, h: nat)
    requires Separate(chain) && h < |chain|
    ensures forall g, x | 0 <= g < |chain| && g != h && x in chain[h] :: x !in chain[g]
  {}

  lemma HashKeeps(next: seq<int>, prev: seq<int>, heads: seq<int>, chain: seq<seq<nat>>, h: nat, i: nat)
    requires AllLinked(next, prev, heads, chain) && h < |chain| && i < |next| && forall g | 0 <= g < |chain| ::
      i !in chain[g]
    ensures -1 <= heads[h] < |next|
    ensures var prev1 := prev[i := -1];
            AllLinked(next[i := heads[h]], if heads[h] >= 0 then prev1[heads[h] := i]
                else prev1, heads[h := i], chain[h := [i] + chain[h]])
  {
    ChainInsert(next, prev, heads[h], chain[h], i);
    var next' := next[i := heads[h]];
    var prev' := if heads[h] >= 0 then prev[i := -1][heads[h] := i] else prev[i := -1];
    assert heads[h] >= 0 ==> heads[h] in chain[h];
    SeparateKept(chain, h, [i] + chain[h]);
    ApartFrom(chain, h);
    hide ChainLinked; hide Separate;
    OtherChains(next, prev, next', prev', heads, chain, h, [i] + chain[h]);
  }

  /** Resetting the links of a buffer on no chain. */
  lemma ResetKeeps(next: seq<int>, prev: seq<int>, heads: seq<int>, chain: seq<seq<nat>>, i: nat)
    requires AllLinked(next, prev, heads, chain) && i < |next| && forall g | 0 <= g < |chain| :: i !in chain[g]
    ensures AllLinked(next[i := -1], prev[i := -1], heads, chain)
  {}
}
