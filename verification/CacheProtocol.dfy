/** getblk, get_hash_table and brelse (fs/buffer.c:140-221) run by any number of processes.  The kernel
    is not preempted, so a step runs from one point where a process may sleep to the next.  Locks, and
    with them who sleeps how long, are left open: any process may take its next step at any time. */
module CacheProtocol {
  import opened Counting

  /** queued: the buffer is in the free list and, if it has a device, on its hash chain. */
  datatype Buf = Buf(dev: nat, blk: nat, count: nat, queued: bool)

  /** Where a process is; dev and blk are what it asked for. */
  datatype Pc =
    | Idle
    | Trying(dev: nat, blk: nat)                      // at "repeat" in getblk
    | Waiting(b: nat, dev: nat, blk: nat, alloc: bool) // in get_hash_table after b_count++; alloc: called by getblk
    | Scanning(b: nat, dev: nat, blk: nat)            // waiting for an idle buffer of the free list
    | Starved(dev: nat, blk: nat)                     // sleeping on buffer_wait
    | Evicting(b: nat, dev: nat, blk: nat)            // in sync_dev, with its buffer off all queues
    | Releasing(b: nat)                               // in brelse
    | Undoing(b: nat, dev: nat, blk: nat, alloc: bool) // in brelse after a mismatch

  /** A buffer in use, with the block it was handed out for. */
  datatype Ref = Ref(b: nat, dev: nat, blk: nat)
  datatype Proc = Proc(pc: Pc, held: seq<Ref>)
  datatype State = State(bufs: seq<Buf>, procs: seq<Proc>)

  /** A process starts a call or takes its next step; next is the buffer a scan looks at then. */
  datatype Action =
    | CallGetblk(p: nat, dev: nat, blk: nat)
    | CallGetHash(p: nat, dev: nat, blk: nat)
    | CallBrelse(p: nat, k: nat)
    | Resume(p: nat, next: nat)

  /** find_buffer: the queued buffer with this block; |bufs| when there is none. */
  function Find(bufs: seq<Buf>, dev: nat, blk: nat, k: nat): (i: nat)
    requires k <= |bufs|
    ensures k <= i <= |bufs|
    ensures i < |bufs| ==> bufs[i].queued && bufs[i].dev == dev && bufs[i].blk == blk
    ensures forall j | k <= j < i :: !(bufs[j].queued && bufs[j].dev == dev && bufs[j].blk == blk)
    decreases |bufs| - k
  {
    if k == |bufs| || (bufs[k].queued && bufs[k].dev == dev && bufs[k].blk == blk) then k
        else Find(bufs, dev, blk, k + 1)
  }

  function SetPc(s: State, p: nat, pc: Pc): (s': State)
    requires p < |s.procs|
    ensures |s'.procs| == |s.procs| && |s'.bufs| == |s.bufs|
  {
    s.(procs := s.procs[p := s.procs[p].(pc := pc)])
  }

  function Bump(s: State, b: nat, n: int): (s': State)
    requires b < |s.bufs|
    ensures |s'.procs| == |s.procs| && |s'.bufs| == |s.bufs|
  {
    if s.bufs[b].count + n >= 0 then s.(bufs := s.bufs[b := s.bufs[b].(count := s.bufs[b].count + n)]) else s
  }

  /** The buffer is returned to the caller, who holds it from then on. */
  function Return(s: State, p: nat, b: nat): (s': State)
    requires p < |s.procs| && b < |s.bufs|
    ensures |s'.procs| == |s.procs| && |s'.bufs| == |s.bufs|
  {
    s.(procs := s.procs[p := Proc(Idle, s.procs[p].held + [Ref(b, s.bufs[b].dev, s.bufs[b].blk)])])
  }

  /** get_hash_table from its "repeat" on; when nothing is found getblk goes on to the free list. */
  function Lookup(s: State, p: nat, dev: nat, blk: nat, alloc: bool, next: nat): (s': State)
    requires p < |s.procs|
    ensures |s'.procs| == |s.procs| && |s'.bufs| == |s.bufs|
  {
    var i := Find(s.bufs, dev, blk, 0);
    if i < |s.bufs| then SetPc(Bump(s, i, 1), p, Waiting(i, dev, blk, alloc))
    else if alloc then Scan(s, p, dev, blk, next)
    else SetPc(s, p, Idle)
  }

  /** The scan of the free list reaches buffer next if that one is idle, or finds none. */
  function Scan(s: State, p: nat, dev: nat, blk: nat, next: nat): (s': State)
    requires p < |s.procs|
    ensures |s'.procs| == |s.procs| && |s'.bufs| == |s.bufs|
  {
    if next < |s.bufs| && s.bufs[next].count == 0 then SetPc(s, p, Scanning(next, dev, blk))
    else SetPc(s, p, Starved(dev, blk))
  }

  function Step(s: State, a: Action): (s': State)
    ensures |s'.procs| == |s.procs| && |s'.bufs| == |s.bufs|
  {
    if a.p >= |s.procs| then s
    else
      match a
      case CallGetblk(p, dev, blk) =>
        if s.procs[p].pc.Idle? && dev != 0 then SetPc(s, p, Trying(dev, blk)) else s
      case CallGetHash(p, dev, blk) =>
        if s.procs[p].pc.Idle? && dev != 0 then Lookup(s, p, dev, blk, false, 0) else s
      case CallBrelse(p, k) =>
        if s.procs[p].pc.Idle? && k < |s.procs[p].held| then
          var held := s.procs[p].held;
          s.(procs := s.procs[p := Proc(Releasing(held[k].b), held[..k] + held[k + 1..])])
        else s
      case Resume(p, next) => Resumed(s, p, next)
  }

  function Resumed(s: State, p: nat, next: nat): (s': State)
    requires p < |s.procs|
    ensures |s'.procs| == |s.procs| && |s'.bufs| == |s.bufs|
  {
    match s.procs[p].pc
    case Idle => s
    case Trying(dev, blk) => Lookup(s, p, dev, blk, true, next)
    case Waiting(b, dev, blk, alloc) =>
      if b >= |s.bufs| then s
      else if s.bufs[b].dev != dev || s.bufs[b].blk != blk then SetPc(s, p, Undoing(b, dev, blk, alloc))
      else Return(s, p, b)
    case Undoing(b, dev, blk, alloc) =>
      if b >= |s.bufs| then s else Lookup(Bump(s, b, -1), p, dev, blk, alloc, next)
    case Scanning(b, dev, blk) =>
      if b >= |s.bufs| then s
      else if s.bufs[b].count == 0 then
        SetPc(s.(bufs := s.bufs[b := s.bufs[b].(count := 1, queued := false)]), p, Evicting(b, dev, blk))
      else Scan(s, p, dev, blk, next)
    case Starved(dev, blk) => SetPc(s, p, Trying(dev, blk))
    case Evicting(b, dev, blk) =>
      if b >= |s.bufs| then s
      else if Find(s.bufs, dev, blk, 0) < |s.bufs| then
        SetPc(s.(bufs := s.bufs[b := Buf(0, 0, 0, true)]), p, Trying(dev, blk))
      else
        Return(s.(bufs := s.bufs[b := Buf(dev, blk, s.bufs[b].count, true)]), p, b)
    case Releasing(b) =>
      if b >= |s.bufs| then s else SetPc(Bump(s, b, -1), p, Idle)
  }

  // ----- the invariant -----

  /** The buffers a process has a reference to. */
  function Row(pr: Proc): (row: seq<nat>)
  {
    PcRefs(pr.pc) + HeldRefs(pr.held)
  }

  function PcRefs(pc: Pc): seq<nat>
  {
    match pc
    case Waiting(b, _, _, _) => [b]
    case Evicting(b, _, _) => [b]
    case Releasing(b) => [b]
    case Undoing(b, _, _, _) => [b]
    case _ => []
  }

  function HeldRefs(held: seq<Ref>): (row: seq<nat>)
    ensures |row| == |held| && forall k | 0 <= k < |held| :: row[k] == held[k].b
  {
    seq(|held|, k requires 0 <= k < |held| => held[k].b)
  }

  function Rows(procs: seq<Proc>): (rows: seq<seq<nat>>)
    ensures |rows| == |procs| && forall p | 0 <= p < |procs| :: rows[p] == Row(procs[p])
  {
    seq(|procs|, p requires 0 <= p < |procs| => Row(procs[p]))
  }

  function Users(s: State, b: nat): nat { Total(Rows(s.procs), b) }

  /** What a process knows about the buffers it refers to. */
  ghost predicate Knows(bufs: seq<Buf>, pr: Proc)
  {
    && (match pr.pc
        case Waiting(b, dev, blk, _) => b < |bufs| && bufs[b].queued && bufs[b].dev == dev != 0 && bufs[b].blk == blk
        case Evicting(b, dev, blk) => b < |bufs| && !bufs[b].queued && dev != 0
        case Releasing(b) => b < |bufs| && bufs[b].queued
        case Undoing(_, _, _, _) => false
        case Scanning(b, dev, _) => dev != 0
        case Trying(dev, _) => dev != 0
        case Starved(dev, _) => dev != 0
        case Idle => true)
    && (forall k | 0 <= k < |pr.held| ::
          var r := pr.held[k];
          r.b < |bufs| && bufs[r.b].queued && bufs[r.b].dev == r.dev && bufs[r.b].blk == r.blk)
  }

  ghost predicate Distinct(bufs: seq<Buf>)
  {
    forall i, j | 0 <= i < |bufs| && 0 <= j < |bufs| && bufs[i].queued && bufs[j].queued &&
      bufs[i].dev != 0 && bufs[i].dev == bufs[j].dev && bufs[i].blk == bufs[j].blk :: i == j
  }

  ghost predicate Inv(s: State)
  {
    && (forall b | 0 <= b < |s.bufs| :: s.bufs[b].count == Users(s, b))
    && (forall b | 0 <= b < |s.bufs| && !s.bufs[b].queued :: s.bufs[b].count == 1)
    && (forall p | 0 <= p < |s.procs| :: Knows(s.bufs, s.procs[p]))
    && Distinct(s.bufs)
  }

  /** A process that refers to buffer b is one of its users. */
  lemma UserCounts(s: State, p: nat, b: nat)
    requires p < |s.procs| && b in Row(s.procs[p])
    ensures Users(s, b) >= 1
  {
    var row := Row(s.procs[p]);
    var k :| 0 <= k < |row| && row[k] == b;
    CountPositive(row, k);
    TotalAtLeast(Rows(s.procs), p, b);
  }

  lemma TwoUsers(s: State, p: nat, q: nat, b: nat)
    requires p < |s.procs| && q < |s.procs| && p != q && b in Row(s.procs[p]) && b in Row(s.procs[q])
    ensures Users(s, b) >= 2
  {
    var row, row' := Row(s.procs[p]), Row(s.procs[q]);
    var k :| 0 <= k < |row| && row[k] == b;
    var l :| 0 <= l < |row'| && row'[l] == b;
    CountPositive(row, k);
    CountPositive(row', l);
    TotalTwoRows(Rows(s.procs), p, q, b);
  }

  /** Replacing a process changes the users by the change of its references. */
  lemma UsersUpdate(s: State, p: nat, pr: Proc, b: nat)
    requires p < |s.procs|
    ensures Total(Rows(s.procs[p := pr]), b) + Count(Row(s.procs[p]), b) == Users(s, b) + Count(Row(pr), b)
  {
    assert Rows(s.procs[p := pr]) == Rows(s.procs)[p := Row(pr)];
    TotalUpdate(Rows(s.procs), p, Row(pr), b);
  }

  /** What a step may do to the buffers that others rely on. */
  lemma KnowsKept(bufs: seq<Buf>, bufs': seq<Buf>, pr: Proc, b: nat)
    requires Knows(bufs, pr) && |bufs'| == |bufs| && forall i | 0 <= i < |bufs| && i != b ::
      bufs'[i].(count := 0) == bufs[i].(count := 0)
    requires b !in Row(pr) || (b < |bufs| && bufs'[b].(count := 0) == bufs[b].(count := 0))
    ensures Knows(bufs', pr)
  {
    forall k | 0 <= k < |pr.held| ensures pr.held[k].b in Row(pr) { assert HeldRefs(pr.held)[k] in HeldRefs(pr.held); }
  }

  function PcCount(pc: Pc, b: nat): nat { if b in PcRefs(pc) then 1 else 0 }

  lemma RowCount(pr: Proc, b: nat)
    ensures Count(Row(pr), b) == PcCount(pr.pc, b) + Count(HeldRefs(pr.held), b)
  {}

  lemma HeldAppend(held: seq<Ref>, r: Ref, b: nat)
    ensures Count(HeldRefs(held + [r]), b) == Count(HeldRefs(held), b) + (if r.b == b then 1 else 0)
  {
    assert HeldRefs(held + [r]) == HeldRefs(held) + [r.b];
  }

  lemma HeldConcat(g: seq<Ref>, h: seq<Ref>)
    ensures HeldRefs(g + h) == HeldRefs(g) + HeldRefs(h)
  {}

  lemma HeldRemove(held: seq<Ref>, k: nat, b: nat)
    requires k < |held|
    ensures Count(HeldRefs(held), b)
      == Count(HeldRefs(held[..k] + held[k + 1..]), b) + (if held[k].b == b then 1 else 0)
  {
    var g, h := held[..k], held[k + 1..];
    assert held == g + ([held[k]] + h);
    HeldConcat(g, [held[k]] + h);
    HeldConcat([held[k]], h);
    HeldConcat(g, h);
    assert HeldRefs([held[k]]) == [held[k].b];
    hide HeldRefs;
    assert multiset(HeldRefs(held)) == multiset(HeldRefs(g)) + multiset{held[k].b} + multiset(HeldRefs(h));
    assert multiset(HeldRefs(g + h)) == multiset(HeldRefs(g)) + multiset(HeldRefs(h));
  }

  /** The obligations of a step of process p, which becomes pr and leaves the buffers as bufs. */
  lemma StepInv(s: State, p: nat, pr: Proc, bufs: seq<Buf>)
    requires Inv(s) && p < |s.procs| && |bufs| == |s.bufs|
    requires forall b: nat | b < |bufs| ::
               bufs[b].count == s.bufs[b].count - Count(Row(s.procs[p]), b) + Count(Row(pr), b)
    requires forall b | 0 <= b < |bufs| && !bufs[b].queued :: bufs[b].count == 1
    requires Knows(bufs, pr) && Distinct(bufs)
    requires forall q | 0 <= q < |s.procs| && q != p :: Knows(bufs, s.procs[q])
    ensures Inv(State(bufs, s.procs[p := pr]))
  {
    var s' := State(bufs, s.procs[p := pr]);
    forall b | 0 <= b < |bufs| ensures bufs[b].count == Users(s', b) {
      UsersUpdate(s, p, pr, b);
    }
  }

  /** A step that leaves the buffers alone and moves references only within the process. */
  lemma SamePlace(s: State, p: nat, pr: Proc)
    requires Inv(s) && p < |s.procs| && Knows(s.bufs, pr)
    requires forall b: nat | b < |s.bufs| :: Count(Row(pr), b) == Count(Row(s.procs[p]), b)
    ensures Inv(s.(procs := s.procs[p := pr]))
  {
    StepInv(s, p, pr, s.bufs);
  }

  /** One buffer changes; nobody but p may refer to it unless only its count changes. */
  lemma OneBuffer(s: State, p: nat, pr: Proc, b: nat, buf: Buf)
    requires Inv(s) && p < |s.procs| && b < |s.bufs|
    requires buf.(count := 0) == s.bufs[b].(count := 0) || forall q | 0 <= q < |s.procs| && q != p ::
      b !in Row(s.procs[q])
    requires forall x: nat | x < |s.bufs| ::
               s.bufs[b := buf][x].count == s.bufs[x].count - Count(Row(s.procs[p]), x) + Count(Row(pr), x)
    requires !buf.queued ==> buf.count == 1
    requires Knows(s.bufs[b := buf], pr) && Distinct(s.bufs[b := buf])
    ensures Inv(State(s.bufs[b := buf], s.procs[p := pr]))
  {
    hide Count; hide Users; hide Knows; hide Distinct; hide Row;
    forall q | 0 <= q < |s.procs| && q != p ensures Knows(s.bufs[b := buf], s.procs[q]) {
      KnowsKept(s.bufs, s.bufs[b := buf], s.procs[q], b);
    }
    StepInv(s, p, pr, s.bufs[b := buf]);
  }

  lemma Unreferenced(s: State, b: nat)
    requires Inv(s) && b < |s.bufs| && s.bufs[b].count == 0
    ensures s.bufs[b].queued && forall q | 0 <= q < |s.procs| :: b !in Row(s.procs[q])
  {
    forall q | 0 <= q < |s.procs| ensures b !in Row(s.procs[q]) {
      if b in Row(s.procs[q]) { UserCounts(s, q, b); }
    }
  }

  lemma SoleUser(s: State, p: nat, b: nat)
    requires Inv(s) && p < |s.procs| && b < |s.bufs| && s.bufs[b].count == 1 && b in Row(s.procs[p])
    ensures forall q | 0 <= q < |s.procs| && q != p :: b !in Row(s.procs[q])
  {
    forall q | 0 <= q < |s.procs| && q != p ensures b !in Row(s.procs[q]) {
      if b in Row(s.procs[q]) { TwoUsers(s, p, q, b); }
    }
  }

  lemma LookupKeeps(s: State, p: nat, dev: nat, blk: nat, alloc: bool, next: nat)
    requires Inv(s) && p < |s.procs| && (s.procs[p].pc.Idle? || s.procs[p].pc.Trying?) && dev != 0
    ensures Inv(Lookup(s, p, dev, blk, alloc, next))
  {
    hide Count; hide Users;
    var i := Find(s.bufs, dev, blk, 0);
    var pr := s.procs[p];
    if i < |s.bufs| {
      var pr' := pr.(pc := Waiting(i, dev, blk, alloc));
      forall x: nat ensures Count(Row(pr'), x)
          == Count(Row(pr), x) + (if x == i then 1 else 0) { RowCount(pr, x); RowCount(pr', x); }
      OneBuffer(s, p, pr', i, s.bufs[i].(count := s.bufs[i].count + 1));
    } else if alloc {
      ScanKeeps(s, p, dev, blk, next);
    } else {
      MoveKeeps(s, p, Idle);
    }
  }

  lemma MoveKeeps(s: State, p: nat, pc: Pc)
    requires Inv(s) && p < |s.procs| && PcRefs(s.procs[p].pc) == PcRefs(pc) == []
      && Knows(s.bufs, s.procs[p].(pc := pc))
    ensures Inv(SetPc(s, p, pc))
  {
    SamePlace(s, p, s.procs[p].(pc := pc));
  }

  lemma ScanKeeps(s: State, p: nat, dev: nat, blk: nat, next: nat)
    requires Inv(s) && p < |s.procs| && PcRefs(s.procs[p].pc) == [] && dev != 0
    ensures Inv(Scan(s, p, dev, blk, next))
  {
    if next < |s.bufs| && s.bufs[next].count == 0 { MoveKeeps(s, p, Scanning(next, dev, blk)); }
    else { MoveKeeps(s, p, Starved(dev, blk)); }
  }

  lemma TakeKeeps(s: State, p: nat)
    requires Inv(s) && p < |s.procs| && s.procs[p].pc.Scanning?
    requires s.procs[p].pc.b < |s.bufs| && s.bufs[s.procs[p].pc.b].count == 0
    ensures Inv(Resumed(s, p, 0))
  {
    hide Count; hide Users;
    var pr := s.procs[p];
    var (b, dev, blk) := (pr.pc.b, pr.pc.dev, pr.pc.blk);
    var pr' := pr.(pc := Evicting(b, dev, blk));
    Unreferenced(s, b);
    forall x: nat ensures Count(Row(pr'), x)
        == Count(Row(pr), x) + (if x == b then 1 else 0) { RowCount(pr, x); RowCount(pr', x); }
    var bufs := s.bufs[b := s.bufs[b].(count := 1, queued := false)];
    KnowsKept(s.bufs, bufs, pr, b);
    OneBuffer(s, p, pr', b, bufs[b]);
  }

  lemma EvictKeeps(s: State, p: nat)
    requires Inv(s) && p < |s.procs| && s.procs[p].pc.Evicting?
    ensures Inv(Resumed(s, p, 0))
  {
    hide Count; hide Users;
    var pr := s.procs[p];
    var (b, dev, blk) := (pr.pc.b, pr.pc.dev, pr.pc.blk);
    assert Knows(s.bufs, pr);
    assert PcRefs(pr.pc)[0] == b && b in Row(pr);
    SoleUser(s, p, b);
    NotHeld(s, p, b);
    if Find(s.bufs, dev, blk, 0) < |s.bufs| {
      var pr' := pr.(pc := Trying(dev, blk));
      forall x: nat ensures Count(Row(pr'), x)
          == Count(Row(pr), x) - (if x == b then 1 else 0) { RowCount(pr, x); RowCount(pr', x); }
      OneBuffer(s, p, pr', b, Buf(0, 0, 0, true));
    } else {
      var pr' := Proc(Idle, pr.held + [Ref(b, dev, blk)]);
      forall x: nat ensures Count(Row(pr'), x) == Count(Row(pr), x) {
        RowCount(pr, x); RowCount(pr', x); HeldAppend(pr.held, Ref(b, dev, blk), x);
      }
      OneBuffer(s, p, pr', b, Buf(dev, blk, s.bufs[b].count, true));
    }
  }

  /** The evicting process does not hold its buffer: what it holds is queued. */
  lemma NotHeld(s: State, p: nat, b: nat)
    requires Inv(s) && p < |s.procs| && b < |s.bufs| && !s.bufs[b].queued
    ensures forall k | 0 <= k < |s.procs[p].held| :: s.procs[p].held[k].b != b
  {
    assert Knows(s.bufs, s.procs[p]);
  }

  lemma ReturnKeeps(s: State, p: nat)
    requires Inv(s) && p < |s.procs| && s.procs[p].pc.Waiting?
    ensures s.procs[p].pc.b < |s.bufs| && Inv(Return(s, p, s.procs[p].pc.b))
  {
    hide Count; hide Users;
    var pr := s.procs[p];
    assert Knows(s.bufs, pr);
    var r := Ref(pr.pc.b, s.bufs[pr.pc.b].dev, s.bufs[pr.pc.b].blk);
    var pr' := Proc(Idle, pr.held + [r]);
    forall x: nat ensures Count(Row(pr'), x) == Count(Row(pr), x) {
      RowCount(pr, x); RowCount(pr', x); HeldAppend(pr.held, r, x);
    }
    SamePlace(s, p, pr');
  }

  lemma CountOnly(bufs: seq<Buf>, b: nat, n: nat, pr: Proc)
    requires b < |bufs| && Distinct(bufs) && Knows(bufs, pr)
    ensures var bufs' := bufs[b := bufs[b].(count := n)];
            Distinct(bufs') && Knows(bufs', pr) && Knows(bufs', pr.(pc := Idle))
  {
  }

  /** A buffer some process refers to is in use. */
  lemma InUse(s: State, p: nat, b: nat)
    requires Inv(s) && p < |s.procs| && b in Row(s.procs[p]) && b < |s.bufs|
    ensures s.bufs[b].count > 0
  {
    UserCounts(s, p, b);
    hide Users; hide Knows; hide Distinct; hide Row;
  }

  lemma ReleaseKeeps(s: State, p: nat)
    requires Inv(s) && p < |s.procs| && s.procs[p].pc.Releasing?
    ensures s.procs[p].pc.b < |s.bufs| && s.bufs[s.procs[p].pc.b].count > 0
    ensures Inv(Resumed(s, p, 0))
  {
    hide Count; hide Users; hide Distinct;
    var pr := s.procs[p];
    var b := pr.pc.b;
    assert Knows(s.bufs, pr);
    assert PcRefs(pr.pc)[0] == b && b in Row(pr);
    InUse(s, p, b);
    CountOnly(s.bufs, b, s.bufs[b].count - 1, pr);
    hide Knows;
    var pr' := pr.(pc := Idle);
    forall x: nat ensures Count(Row(pr'), x)
        == Count(Row(pr), x) - (if x == b then 1 else 0) { RowCount(pr, x); RowCount(pr', x); }
    OneBuffer(s, p, pr', b, s.bufs[b].(count := s.bufs[b].count - 1));
  }

  lemma CallBrelseKeeps(s: State, p: nat, k: nat)
    requires Inv(s) && p < |s.procs| && s.procs[p].pc.Idle? && k < |s.procs[p].held|
    ensures Inv(Step(s, CallBrelse(p, k)))
  {
    hide Count; hide Users;
    var pr := s.procs[p];
    assert Knows(s.bufs, pr);
    var held := pr.held[..k] + pr.held[k + 1..];
    var pr' := Proc(Releasing(pr.held[k].b), held);
    forall x: nat ensures Count(Row(pr'), x)
        == Count(Row(pr), x) { RowCount(pr, x); RowCount(pr', x); HeldRemove(pr.held, k, x); }
    forall l | 0 <= l < |held| ensures held[l] == pr.held[if l < k then l else l + 1] {}
    SamePlace(s, p, pr');
  }

  // ----- main results -----

  lemma StepKeepsInv(s: State, a: Action)
    requires Inv(s)
    ensures Inv(Step(s, a))
  {
    hide Users; hide Distinct; hide Count; hide Lookup; hide Scan; hide Row;
    if a.p < |s.procs| {
      var pr := s.procs[a.p];
      assert Knows(s.bufs, pr);
      match a
      case CallGetblk(p, dev, blk) => if pr.pc.Idle? && dev != 0 { MoveKeeps(s, p, Trying(dev, blk)); }
      case CallGetHash(p, dev, blk) => if pr.pc.Idle? && dev != 0 { LookupKeeps(s, p, dev, blk, false, 0); }
      case CallBrelse(p, k) => if pr.pc.Idle? && k < |pr.held| { CallBrelseKeeps(s, p, k); }
      case Resume(p, next) =>
        match pr.pc
        case Idle =>
        case Trying(dev, blk) => LookupKeeps(s, p, dev, blk, true, next);
        case Waiting(b, dev, blk, alloc) => ReturnKeeps(s, p);
        case Undoing(_, _, _, _) =>
        case Scanning(b, dev, blk) =>
          if b < |s.bufs| && s.bufs[b].count == 0 { TakeKeeps(s, p); }
          else if b < |s.bufs| { ScanKeeps(s, p, dev, blk, next); }
        case Starved(dev, blk) => MoveKeeps(s, p, Trying(dev, blk));
        case Evicting(_, _, _) => EvictKeeps(s, p);
        case Releasing(_) => ReleaseKeeps(s, p);
    }
  }

  function Run(s: State, acts: seq<Action>): State
    decreases |acts|
  {
    if acts == [] then s else Run(Step(s, acts[0]), acts[1..])
  }

  /** The machine after buffer_init, with np processes. */
  function Boot(nb: nat, np: nat): State
  {
    State(seq(nb, _ => Buf(0, 0, 0, true)), seq(np, _ => Proc(Idle, [])))
  }

  lemma BootInv(nb: nat, np: nat)
    ensures Inv(Boot(nb, np))
  {
    var s := Boot(nb, np);
    forall b: nat | b < nb ensures Users(s, b) == 0 {
      forall p | 0 <= p < np ensures Count(Rows(s.procs)[p], b) == 0 { assert Rows(s.procs)[p] == []; }
      TotalZero(Rows(s.procs), b);
    }
  }

  lemma {:induction false} RunInv(s: State, acts: seq<Action>)
    requires Inv(s)
    ensures Inv(Run(s, acts))
    decreases |acts|
  {
    hide Inv; hide Step;
    if acts != [] {
      StepKeepsInv(s, acts[0]);
      RunInv(Step(s, acts[0]), acts[1..]);
    }
  }

  /** What the invariant says of buffers in use. */
  ghost predicate Identity(s: State)
  {
    && Distinct(s.bufs)
    && (forall p | 0 <= p < |s.procs| :: !s.procs[p].pc.Undoing?)
    && (forall p | 0 <= p < |s.procs| && s.procs[p].pc.Waiting? ::
          var pc := s.procs[p].pc;
          pc.b < |s.bufs| && s.bufs[pc.b].dev == pc.dev && s.bufs[pc.b].blk == pc.blk)
    && (forall p, k | 0 <= p < |s.procs| && 0 <= k < |s.procs[p].held| ::
          var r := s.procs[p].held[k];
          r.b < |s.bufs| && s.bufs[r.b].count > 0 && s.bufs[r.b].dev == r.dev && s.bufs[r.b].blk == r.blk)
  }

  lemma HeldInUse(s: State, p: nat, k: nat)
    requires Inv(s) && p < |s.procs| && k < |s.procs[p].held|
    ensures s.procs[p].held[k].b < |s.bufs| && s.bufs[s.procs[p].held[k].b].count > 0
  {
    hide Users, Distinct;
    assert Knows(s.bufs, s.procs[p]);
    var b := s.procs[p].held[k].b;
    assert HeldRefs(s.procs[p].held)[k] == b;
    assert Row(s.procs[p])[|PcRefs(s.procs[p].pc)| + k] == b;
    InUse(s, p, b);
  }

  lemma InvIdentity(s: State)
    requires Inv(s)
    ensures Identity(s)
  {
    hide Users; hide Distinct;
    forall p | 0 <= p < |s.procs| ensures Knows(s.bufs, s.procs[p]) {}
    forall p, k | 0 <= p < |s.procs| && 0 <= k < |s.procs[p].held|
      ensures s.procs[p].held[k].b < |s.bufs| && s.bufs[s.procs[p].held[k].b].count > 0
    {
      HeldInUse(s, p, k);
    }
  }

  /** In every interleaving: no two queued buffers carry the same block; a process waiting in
      get_hash_table finds its buffer unchanged, so the mismatch retry is never taken; and every buffer
      handed out is in use and still carries the block it was handed out for. */
  lemma IdentityHolds(nb: nat, np: nat, acts: seq<Action>)
    ensures Identity(Run(Boot(nb, np), acts))
  {
    BootInv(nb, np);
    RunInv(Boot(nb, np), acts);
    InvIdentity(Run(Boot(nb, np), acts));
  }

  /** A buffer in use keeps its block in every step, unless its only user took it off the queues when it
      was idle and is about to give it a new one. */
  lemma UsedBufferKeepsBlock(s: State, a: Action, b: nat)
    requires Inv(s) && b < |s.bufs| && s.bufs[b].count > 0
    ensures var s' := Step(s, a);
            |s'.bufs| == |s.bufs| &&
            ((s'.bufs[b].dev == s.bufs[b].dev && s'.bufs[b].blk == s.bufs[b].blk)
             || (!s.bufs[b].queued && s.bufs[b].count == 1 && a.p < |s.procs| && s.procs[a.p].pc.Evicting?
               && s.procs[a.p].pc.b == b))
  {
    hide Users;
    if a.p < |s.procs| { assert Knows(s.bufs, s.procs[a.p]); }
  }
}
