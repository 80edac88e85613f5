/** The calls of getblk, get_hash_table and brelse (fs/buffer.c:140-221) from their start to their end: what was
    asked for is what is handed out, and a process left alone gets through. */
module CacheCalls {
  import opened CacheProtocol

  /** The call a process has open, as it was made: for getblk alloc is set, for get_hash_table it is not. */
  datatype Request = NoRequest | Ask(dev: nat, blk: nat, alloc: bool)

  /** The call that action a belongs to: a new one, or the one its process has open. */
  function Current(want: seq<Request>, s: State, a: Action): Request
    requires |want| == |s.procs| && a.p < |s.procs|
  {
    match a
    case CallGetblk(p, dev, blk) => if s.procs[p].pc.Idle? && dev != 0 then Ask(dev, blk, true) else want[p]
    case CallGetHash(p, dev, blk) => if s.procs[p].pc.Idle? && dev != 0 then Ask(dev, blk, false) else want[p]
    case _ => want[a.p]
  }

  /** The open calls after an action: a call is open until its process is back in its own code. */
  function Wanted(want: seq<Request>, s: State, a: Action): (r: seq<Request>)
    requires |want| == |s.procs|
    ensures |r| == |want|
  {
    if a.p >= |s.procs| then want
    else want[a.p := if Step(s, a).procs[a.p].pc.Idle? then NoRequest else Current(want, s, a)]
  }

  /** The open calls after a run, kept from the calls themselves. */
  function History(want: seq<Request>, s: State, acts: seq<Action>): (r: seq<Request>)
    requires |want| == |s.procs|
    ensures |r| == |want| == |Run(s, acts).procs|
    decreases |acts|
  {
    if acts == [] then want
    else
      History(Wanted(want, s, acts[0]), Step(s, acts[0]), acts[1..])
  }

  /** Inside a call a process is after the block it asked for. */
  ghost predicate Pursues(pc: Pc, want: Request)
  {
    match pc
    case Idle => want == NoRequest
    case Releasing(_) => want == NoRequest
    case Trying(dev, blk) => want == Ask(dev, blk, true)
    case Scanning(_, dev, blk) => want == Ask(dev, blk, true)
    case Starved(dev, blk) => want == Ask(dev, blk, true)
    case Evicting(_, dev, blk) => want == Ask(dev, blk, true)
    case Waiting(_, dev, blk, alloc) => want == Ask(dev, blk, alloc)
    case Undoing(_, dev, blk, alloc) => want == Ask(dev, blk, alloc)
  }

  ghost predicate AllPursue(s: State, want: seq<Request>)
  {
    |want| == |s.procs| && forall p | 0 <= p < |s.procs| :: Pursues(s.procs[p].pc, want[p])
  }

  /** What an action does to the buffers its process holds: a call that ends hands out at most one, for the
      block of that call; getblk always does, get_hash_table unless no buffer carries the block. */
  ghost predicate Answers(s: State, s': State, p: nat, want: Request)
  {
    p < |s.procs| == |s'.procs| &&
    var held, held', ended := s.procs[p].held, s'.procs[p].held, s'.procs[p].pc.Idle?;
    if want.Ask? && ended && |held'| > |held| then
      exists b :: held' == held + [Ref(b, want.dev, want.blk)]
    else
      && |held'| <= |held|
      && (want.Ask? ==> held' == held)
      && (want.Ask? && ended ==> !want.alloc && Find(s.bufs, want.dev, want.blk, 0) == |s.bufs|)
  }

  lemma StepAnswers(s: State, a: Action, want: seq<Request>)
    requires Inv(s) && AllPursue(s, want)
    ensures AllPursue(Step(s, a), Wanted(want, s, a))
    ensures a.p < |s.procs| ==> Answers(s, Step(s, a), a.p, Current(want, s, a))
    ensures |Step(s, a).procs| == |s.procs|
  {
    if a.p < |s.procs| {
      StepPursues(s, a, want);
      StepHands(s, a, want);
      hide Pursues; hide Answers; hide Current; hide Inv;
    }
  }

  lemma StepPursues(s: State, a: Action, want: seq<Request>)
    requires Inv(s) && AllPursue(s, want) && a.p < |s.procs|
    ensures Pursues(Step(s, a).procs[a.p].pc, Wanted(want, s, a)[a.p])
    ensures forall q | 0 <= q < |s.procs| && q != a.p :: Step(s, a).procs[q] == s.procs[q]
  {
    hide Users; hide Distinct; hide Find;
    assert Pursues(s.procs[a.p].pc, want[a.p]);
    assert Knows(s.bufs, s.procs[a.p]);
  }

  lemma StepHands(s: State, a: Action, want: seq<Request>)
    requires Inv(s) && AllPursue(s, want) && a.p < |s.procs|
    ensures Answers(s, Step(s, a), a.p, Current(want, s, a))
  {
    hide Users; hide Distinct; hide Find;
    assert Pursues(s.procs[a.p].pc, want[a.p]);
    assert Knows(s.bufs, s.procs[a.p]);
    var held, held' := s.procs[a.p].held, Step(s, a).procs[a.p].held;
    if |held'| > |held| { assert held' == held + [held'[|held|]]; }
  }

  lemma {:induction false} RunPursues(s: State, acts: seq<Action>, want: seq<Request>)
    requires Inv(s) && AllPursue(s, want)
    ensures AllPursue(Run(s, acts), History(want, s, acts))
    decreases |acts|
  {
    hide Inv; hide Step; hide AllPursue; hide Answers; hide Wanted; hide Current;
    if acts != [] {
      PursueSize(s, want);
      StepKeepsInv(s, acts[0]);
      StepAnswers(s, acts[0], want);
      RunPursues(Step(s, acts[0]), acts[1..], Wanted(want, s, acts[0]));
    }
  }

  lemma PursueSize(s: State, want: seq<Request>)
    requires AllPursue(s, want)
    ensures |want| == |s.procs|
  {}

  /** In every interleaving a call that ends with a buffer ends with one for the device and block its caller
      asked for, getblk never ends without one, and get_hash_table only when no buffer carries the block. */
  lemma HandedOutAsAsked(nb: nat, np: nat, acts: seq<Action>, a: Action)
    ensures
      var s, want := Run(Boot(nb, np), acts), History(seq(np, _ => NoRequest), Boot(nb, np), acts);
      && |s.procs| == np
      && (a.p < np ==> Answers(s, Step(s, a), a.p, Current(want, s, a)))
      && Identity(Step(s, a))
  {
    var s0, none := Boot(nb, np), seq(np, _ => NoRequest);
    BootInv(nb, np);
    RunInv(s0, acts);
    assert AllPursue(s0, none);
    RunPursues(s0, acts, none);
    var s, want := Run(s0, acts), History(none, s0, acts);
    StepKeepsInv(s, a);
    hide Run; hide History; hide Inv; hide Boot; hide Step; hide Answers; hide Current;
    InvIdentity(Step(s, a));
    PursueSize(s, want);
    StepAnswers(s, a, want);
  }

  /** A process left alone in getblk gets its buffer, if the block is cached or a buffer is idle. */
  lemma GetblkEnds(s: State, p: nat, dev: nat, blk: nat, b: nat)
    requires Inv(s) && p < |s.procs| && s.procs[p].pc == Idle && dev != 0 && b < |s.bufs|
    requires var i := Find(s.bufs, dev, blk, 0); if i < |s.bufs| then b == i else s.bufs[b].count == 0
    ensures
      var hit := Find(s.bufs, dev, blk, 0) < |s.bufs|;
      var s' := Run(s, if hit then [CallGetblk(p, dev, blk), Resume(p, b), Resume(p, b)]
                       else [CallGetblk(p, dev, blk), Resume(p, b), Resume(p, b), Resume(p, b)]);
      && s'.procs == s.procs[p := Proc(Idle, s.procs[p].held + [Ref(b, dev, blk)])]
      && s'.bufs == s.bufs[b := Buf(dev, blk, s.bufs[b].count + 1, true)]
  {
    hide Users; hide Distinct; hide Run;
    var s1 := Step(s, CallGetblk(p, dev, blk));
    var s2 := Step(s1, Resume(p, b));
    var s3 := Step(s2, Resume(p, b));
    if Find(s.bufs, dev, blk, 0) < |s.bufs| {
      RunThree(s, CallGetblk(p, dev, blk), Resume(p, b), Resume(p, b));
    } else {
      var s4 := Step(s3, Resume(p, b));
      assert s3.procs[p].pc == Evicting(b, dev, blk);
      assert Find(s3.bufs, dev, blk, 0) == |s3.bufs|;
      RunThree(s1, Resume(p, b), Resume(p, b), Resume(p, b));
      RunFirst(s, CallGetblk(p, dev, blk), [Resume(p, b), Resume(p, b), Resume(p, b)]);
      assert [CallGetblk(p, dev, blk)] + [Resume(p, b), Resume(p, b), Resume(p, b)]
          == [CallGetblk(p, dev, blk), Resume(p, b), Resume(p, b), Resume(p, b)];
      assert s4.procs[p] == Proc(Idle, s.procs[p].held + [Ref(b, dev, blk)]);
    }
  }

  predicate Cached(s: State, dev: nat, blk: nat) { Find(s.bufs, dev, blk, 0) < |s.bufs| }

  predicate IdleBuffer(s: State, b: nat) { b < |s.bufs| && s.bufs[b].count == 0 }

  /** A process inside a call whose block is cached or for which buffer b is idle, or that already has a buffer. */
  predicate CanGo(s: State, p: nat, b: nat)
    requires p < |s.procs|
  {
    match s.procs[p].pc
    case Waiting(_, _, _, _) => true
    case Evicting(_, _, _) => true
    case Trying(dev, blk) => Cached(s, dev, blk) || IdleBuffer(s, b)
    case Starved(dev, blk) => Cached(s, dev, blk) || IdleBuffer(s, b)
    case Scanning(x, dev, blk) => x < |s.bufs| && (Cached(s, dev, blk) || IdleBuffer(s, x) || IdleBuffer(s, b))
    case _ => false
  }

  /** The steps that the process takes at most when it runs alone and its scans look at buffer b. */
  function StepsLeft(s: State, p: nat, b: nat): (n: nat)
    requires p < |s.procs|
    ensures n <= 5
  {
    match s.procs[p].pc
    case Waiting(_, _, _, _) => 1
    case Evicting(_, dev, blk) => if Cached(s, dev, blk) then 3 else 1
    case Trying(dev, blk) => if Cached(s, dev, blk) then 2 else 3
    case Starved(dev, blk) => if Cached(s, dev, blk) then 3 else 4
    case Scanning(x, dev, blk) =>
      (if Cached(s, dev, blk) then 4 else 2) + if IdleBuffer(s, x) || !IdleBuffer(s, b) then 0 else 1
    case _ => 0
  }

  lemma GoesOn(s: State, p: nat, b: nat)
    requires Inv(s) && p < |s.procs| && CanGo(s, p, b)
    ensures
      var s' := Step(s, Resume(p, b));
      s'.procs[p].pc.Idle? || (CanGo(s', p, b) && StepsLeft(s', p, b) < StepsLeft(s, p, b))
  {
    hide Users, Distinct, Find;
    assert Knows(s.bufs, s.procs[p]);
    match s.procs[p].pc
    case Scanning(x, dev, blk) => FindElsewhere(s.bufs, x, s.bufs[x].(count := 1, queued := false), dev, blk);
    case Evicting(x, dev, blk) => FindElsewhere(s.bufs, x, Buf(0, 0, 0, true), dev, blk);
    case _ =>
  }

  /** A buffer that does not carry the block afterwards makes it cached by no means, and takes it from the cache
      only if it carried it before. */
  lemma FindElsewhere(bufs: seq<Buf>, x: nat, buf: Buf, dev: nat, blk: nat)
    requires x < |bufs| && !(buf.queued && buf.dev == dev && buf.blk == blk)
    ensures Find(bufs[x := buf], dev, blk, 0) < |bufs| ==> Find(bufs, dev, blk, 0) < |bufs|
    ensures !bufs[x].queued && Find(bufs, dev, blk, 0) < |bufs| ==> Find(bufs[x := buf], dev, blk, 0) < |bufs|
  {
    var i, j := Find(bufs, dev, blk, 0), Find(bufs[x := buf], dev, blk, 0);
    hide Find;
    if i < |bufs| { assert i != x ==> bufs[x := buf][i] == bufs[i]; }
    if j < |bufs| { assert j != x && bufs[x := buf][j] == bufs[j]; }
  }

  /** The process takes n steps with nobody in between. */
  function Alone(s: State, p: nat, b: nat, n: nat): (s': State)
    ensures |s'.procs| == |s.procs|
    decreases n
  {
    if n == 0 then s else Alone(Step(s, Resume(p, b)), p, b, n - 1)
  }

  lemma {:induction false} IdleStays(s: State, p: nat, b: nat, n: nat)
    requires p < |s.procs| && s.procs[p].pc.Idle?
    ensures Alone(s, p, b, n) == s
  {
    if n > 0 { IdleStays(s, p, b, n - 1); }
  }

  /** The open call of the process has ended with a buffer for its block. */
  ghost predicate Served(s: State, s': State, p: nat, want: seq<Request>)
  {
    && p < |s.procs| == |s'.procs| == |want| && want[p].Ask? && s'.procs[p].pc.Idle?
    && exists x :: s'.procs[p].held == s.procs[p].held + [Ref(x, want[p].dev, want[p].blk)]
  }

  /** A process inside getblk or get_hash_table that runs alone ends its call with a buffer for the block it
      asked for, in at most five steps, once the block is cached or a buffer is idle. */
  lemma {:induction false} AloneEnds(s: State, want: seq<Request>, p: nat, b: nat, n: nat)
    requires Inv(s) && AllPursue(s, want) && p < |s.procs| && CanGo(s, p, b) && n >= StepsLeft(s, p, b)
    ensures Served(s, Alone(s, p, b, n), p, want)
    decreases n
  {
    hide *;
    Pursuing(s, want, p, b);
    var s1, want1 := Step(s, Resume(p, b)), Wanted(want, s, Resume(p, b));
    StepKeepsInv(s, Resume(p, b));
    StepAnswers(s, Resume(p, b), want);
    GoesOn(s, p, b);
    AloneTurn(s, p, b, n);
    if s1.procs[p].pc.Idle? {
      IdleStays(s1, p, b, n - 1);
    } else {
      AloneEnds(s1, want1, p, b, n - 1);
      ServedLater(s, s1, Alone(s1, p, b, n - 1), p, want, want1);
    }
  }

  lemma AloneTurn(s: State, p: nat, b: nat, n: nat)
    requires n > 0
    ensures Alone(s, p, b, n) == Alone(Step(s, Resume(p, b)), p, b, n - 1)
  {}

  lemma ServedLater(s: State, s1: State, s': State, p: nat, want: seq<Request>, want1: seq<Request>)
    requires p < |s.procs| == |s1.procs| == |want| == |want1| && s1.procs[p].held == s.procs[p].held
    requires want1[p] == want[p] && Served(s1, s', p, want1)
    ensures Served(s, s', p, want)
  {}

  /** What one step alone does for the call: it ends with a buffer, or goes on with the same request. */
  lemma Pursuing(s: State, want: seq<Request>, p: nat, b: nat)
    requires Inv(s) && AllPursue(s, want) && p < |s.procs| && CanGo(s, p, b)
    ensures |want| == |s.procs| && StepsLeft(s, p, b) > 0
    ensures
      var s1 := Step(s, Resume(p, b));
      if s1.procs[p].pc.Idle? then Served(s, s1, p, want)
      else s1.procs[p].held == s.procs[p].held && Wanted(want, s, Resume(p, b))[p] == want[p]
  {
    StepHands(s, Resume(p, b), want);
    assert Pursues(s.procs[p].pc, want[p]);
    assert Knows(s.bufs, s.procs[p]);
    hide Users, Distinct, Find;
    if s.procs[p].pc.Waiting? { assert Step(s, Resume(p, b)) == Return(s, p, s.procs[p].pc.b); }
  }

  /** A process left alone in get_hash_table gets the buffer of the block, or nothing when no buffer carries it. */
  lemma GetHashEnds(s: State, p: nat, dev: nat, blk: nat)
    requires Inv(s) && p < |s.procs| && s.procs[p].pc == Idle && dev != 0
    ensures
      var b, s' := Find(s.bufs, dev, blk, 0), Run(s, [CallGetHash(p, dev, blk), Resume(p, 0)]);
      if b == |s.bufs| then s' == s
      else
        && s'.procs == s.procs[p := Proc(Idle, s.procs[p].held + [Ref(b, dev, blk)])]
        && s'.bufs == s.bufs[b := s.bufs[b].(count := s.bufs[b].count + 1)]
  {
    hide Users, Distinct, Run;
    RunTwo(s, CallGetHash(p, dev, blk), Resume(p, 0));
  }

  /** Process p has one reference less, the k-th, and its buffer one user less. */
  ghost predicate GivenBack(s: State, s': State, p: nat, k: nat)
    requires p < |s.procs| && k < |s.procs[p].held|
  {
    var held := s.procs[p].held;
    var b := held[k].b;
    && b < |s.bufs| && s.bufs[b].count > 0
    && s'.procs == s.procs[p := Proc(Idle, held[..k] + held[k + 1..])]
    && s'.bufs == s.bufs[b := s.bufs[b].(count := s.bufs[b].count - 1)]
  }

  /** A process left alone in brelse gives back the reference it names. */
  lemma BrelseEnds(s: State, p: nat, k: nat)
    requires Inv(s) && p < |s.procs| && s.procs[p].pc == Idle && k < |s.procs[p].held|
    ensures GivenBack(s, Run(s, [CallBrelse(p, k), Resume(p, 0)]), p, k)
  {
    HeldInUse(s, p, k);
    BrelseRuns(s, p, k);
    hide *;
  }

  lemma BrelseRuns(s: State, p: nat, k: nat)
    requires p < |s.procs| && s.procs[p].pc == Idle && k < |s.procs[p].held|
    requires s.procs[p].held[k].b < |s.bufs| && s.bufs[s.procs[p].held[k].b].count > 0
    ensures GivenBack(s, Run(s, [CallBrelse(p, k), Resume(p, 0)]), p, k)
  {
    var b := s.procs[p].held[k].b;
    hide Run, Step;
    RunTwo(s, CallBrelse(p, k), Resume(p, 0));
    BrelseBegins(s, p, k);
    BrelseGivesBack(Step(s, CallBrelse(p, k)), p, b);
  }

  lemma BrelseBegins(s: State, p: nat, k: nat)
    requires p < |s.procs| && s.procs[p].pc == Idle && k < |s.procs[p].held|
    ensures
      var held := s.procs[p].held;
      Step(s, CallBrelse(p, k)) == s.(procs := s.procs[p := Proc(Releasing(held[k].b), held[..k] + held[k + 1..])])
  {
    hide Resumed, Lookup;
  }

  lemma BrelseGivesBack(s: State, p: nat, b: nat)
    requires p < |s.procs| && s.procs[p].pc == Releasing(b) && b < |s.bufs| && s.bufs[b].count > 0
    ensures Step(s, Resume(p, 0))
         == State(s.bufs[b := s.bufs[b].(count := s.bufs[b].count - 1)], s.procs[p := Proc(Idle, s.procs[p].held)])
  {
    hide Lookup, Scan, Find;
  }

  lemma RunTwo(s: State, a: Action, b: Action)
    ensures Run(s, [a, b]) == Step(Step(s, a), b)
  {
    hide Step;
    assert [a, b] == [a] + ([b] + []);
    RunFirst(s, a, [b] + []);
    RunFirst(Step(s, a), b, []);
  }

  lemma RunFirst(s: State, a: Action, acts: seq<Action>)
    ensures Run(s, [a] + acts) == Run(Step(s, a), acts)
  {
    hide Step;
    assert ([a] + acts)[1..] == acts;
  }

  lemma RunThree(s: State, a: Action, b: Action, c: Action)
    ensures Run(s, [a, b, c]) == Step(Step(Step(s, a), b), c)
  {
    hide Step;
    assert [a, b, c] == [a] + ([b] + ([c] + []));
    RunFirst(s, a, [b] + ([c] + []));
    RunFirst(Step(s, a), b, [c] + []);
    RunFirst(Step(Step(s, a), b), c, []);
  }
}
