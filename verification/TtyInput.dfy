/** What typed characters become (kernel/tty_io.c:132-196, 217-252): which action each one causes, what can reach
    a reader at all, and when a reader is let through. */
module TtyInput {
  import opened Tty

  /** What a typed character stands for under the input settings: carriage return and newline as the three
      settings for them say, and capitals as small letters if asked for. */
  predicate StandsFor(e: Settings, raw: int, c: int)
  {
    && (raw == 13 && e.crnl ==> c == 10)
    && (raw == 13 && !e.crnl ==> c == 13)
    && (raw == 10 && e.nlcr ==> c == 13)
    && (raw == 10 && !e.nlcr ==> c == 10)
    && (65 <= raw <= 90 && e.uclc ==> c == raw - 65 + 97)
    && (raw != 13 && raw != 10 && !(65 <= raw <= 90 && e.uclc) ==> c == raw)
  }

  /** A carriage return that the settings drop. */
  predicate Dropped(e: Settings, raw: int) { raw == 13 && e.nocr && !e.crnl }

  /** Exactly when a character is dropped, erases, stops or starts output, interrupts, or is entered, and as what. */
  lemma ActionIs(e: Settings, raw: int, c: int)
    requires StandsFor(e, raw, c)
    ensures
      var a := ActionFor(e, raw);
      var edits := e.canon && c in {e.erase, e.stop, e.start};
      && (a == Erase <==> !Dropped(e, raw) && e.canon && c == e.erase)
      && (a == Flow(true) <==> !Dropped(e, raw) && e.canon && c == e.stop && c != e.erase)
      && (a == Flow(false) <==> !Dropped(e, raw) && e.canon && c == e.start && c != e.erase && c != e.stop)
      && (a == Skip <==> Dropped(e, raw) || (c == e.intr && !e.isig && !edits))
      && (forall d :: a == Enter(d) <==> d == c && !Dropped(e, raw) && !edits && (e.isig || c != e.intr))
  {}

  /** A character that can be in the secondary queue at all. */
  predicate Passable(e: Settings, c: int)
  {
    && (e.uclc ==> !(65 <= c <= 90))
    && (c == 13 && (e.crnl || e.nocr) ==> e.nlcr)
    && (c == 10 && e.nlcr ==> e.crnl)
    && (e.canon ==> c != e.erase && c != e.stop && c != e.start)
    && (!e.isig ==> c != e.intr)
  }

  /** The last flow control character typed was a stop. */
  ghost predicate StoppedBy(e: Settings, input: seq<int>)
  {
    exists k :: 0 <= k < |input| && ActionFor(e, input[k]) == Flow(true) && NoFlow(e, input, k + 1)
  }

  predicate NoFlow(e: Settings, input: seq<int>, from: nat)
  {
    forall j | from <= j < |input| :: !ActionFor(e, input[j]).Flow?
  }

  /** The characters typed during a run. */
  function TypedIn(evs: seq<Event>): seq<int>
  {
    if evs == [] then []
    else TypedIn(evs[..|evs| - 1]) + if evs[|evs| - 1].Typed? then [evs[|evs| - 1].c] else []
  }

  ghost predicate Cooked(e: Settings, s: Sys, typed: seq<int>)
  {
    && Valid(s.line) && s.input + s.readq == typed
    && (forall c | c in s.line.kept :: Passable(e, c))
    && (s.line.stopped <==> StoppedBy(e, s.input))
  }

  lemma EnteredPassable(e: Settings, raw: int)
    ensures ActionFor(e, raw).Enter? ==> Passable(e, ActionFor(e, raw).c)
  {}

  lemma StoppedNext(e: Settings, input: seq<int>, raw: int)
    ensures StoppedBy(e, input + [raw]) <==>
      ActionFor(e, raw) == Flow(true) || (!ActionFor(e, raw).Flow? && StoppedBy(e, input))
  {
    hide ActionFor;
    if ActionFor(e, raw) == Flow(true) {
      assert NoFlow(e, input + [raw], |input| + 1) && (input + [raw])[|input|] == raw;
    } else if !ActionFor(e, raw).Flow? && StoppedBy(e, input) {
      var k :| 0 <= k < |input| && ActionFor(e, input[k]) == Flow(true) && NoFlow(e, input, k + 1);
      assert (input + [raw])[k] == input[k] && NoFlow(e, input + [raw], k + 1);
    }
    if StoppedBy(e, input + [raw]) {
      var k :| 0 <= k < |input + [raw]| && ActionFor(e, (input + [raw])[k]) == Flow(true)
               && NoFlow(e, input + [raw], k + 1);
      if k < |input| {
        assert !ActionFor(e, (input + [raw])[|input|]).Flow?;
        forall j | k + 1 <= j < |input| ensures !ActionFor(e, input[j]).Flow? { assert (input + [raw])[j] == input[j]; }
        assert NoFlow(e, input, k + 1);
      }
    }
  }

  lemma CookNextKeeps(e: Settings, s: Sys, typed: seq<int>)
    requires Cooked(e, s, typed) && s.readq != [] && Left(s.line) > 0
    ensures Cooked(e, CookNext(e, s), typed)
  {
    var raw := s.readq[0];
    EnteredPassable(e, raw);
    StoppedNext(e, s.input, raw);
    hide ActionFor, StoppedBy, Passable;
    assert s.input + s.readq == (s.input + [raw]) + s.readq[1..];
  }

  lemma {:induction false} CookAllKeeps(e: Settings, s: Sys, typed: seq<int>)
    requires Cooked(e, s, typed)
    ensures var s' := CookAll(e, s); Cooked(e, s', typed) && (s'.readq == [] || |Ring(s'.line)| == 1023)
    decreases |s.readq|
  {
    if s.readq != [] && Left(s.line) != 0 {
      CookNextKeeps(e, s, typed);
      hide Cooked;
      CookAllKeeps(e, CookNext(e, s), typed);
    }
  }

  /** A read takes characters until it has as many as it has room for, or the ring is empty, or, in canonical mode,
      it has taken an EOF character; it does not stop before. */
  lemma {:induction false} TakeLoopEnds(e: Settings, l: Line, nr: nat, out: seq<int>)
    requires Valid(l) && nr > 0 && Ring(l) != []
    ensures
      var l' := TakeLoop(e, l, nr, out).0;
      var n := l'.floor - l.floor;
      && l'.kept == l.kept && l'.stopped == l.stopped && 0 < n <= nr && l'.floor <= |l.kept|
      && (e.canon ==> forall k | l.floor <= k < l'.floor - 1 :: l.kept[k] != e.eof)
      && (n == nr || l'.floor == |l.kept| || (e.canon && l.kept[l'.floor - 1] == e.eof))
    decreases nr
  {
    var c, l1 := l.kept[l.floor], TakeNext(e, l);
    hide Break;
    if !(c == e.eof && e.canon) && nr != 1 && Ring(l1) != [] { TakeLoopEnds(e, l1, nr - 1, out + [c]); }
  }

  lemma StepCooks(e: Settings, s: Sys, ev: Event, typed: seq<int>)
    requires Cooked(e, s, typed)
    ensures Cooked(e, Step(e, s, ev), typed + if ev.Typed? then [ev.c] else [])
  {
    match ev
    case Typed(c) => assert s.input + (s.readq + [c]) == (s.input + s.readq) + [c];
    case Cook => CookAllKeeps(e, s, typed);
    case Read(nr) =>
      hide TakeLoop, StoppedBy, Passable;
      if nr > 0 && MayRead(e, s.line) { TakeLoopEnds(e, s.line, nr, []); }
  }

  lemma {:induction false} RunCooks(e: Settings, evs: seq<Event>)
    ensures Cooked(e, Run(e, Fresh(), evs), TypedIn(evs))
  {
    if evs != [] {
      RunCooks(e, evs[..|evs| - 1]);
      hide Cooked, Step;
      StepCooks(e, Run(e, Fresh(), evs[..|evs| - 1]), evs[|evs| - 1], TypedIn(evs[..|evs| - 1]));
    }
  }

  lemma {:induction false} PassedFrom(e: Settings, s: seq<int>)
    ensures forall c | c in Passed(e, s) :: c in s && !(e.canon && c == e.eof)
  {
    if s != [] { PassedFrom(e, s[..|s| - 1]); }
  }

  /** Over every run each typed character is taken once and in order, those not yet taken wait in the read queue;
      a reader never gets a capital letter, carriage return or newline that the settings replace, nor in canonical
      mode an editing or EOF character, nor an interrupt character that has interrupted; and output is stopped
      exactly when the last flow control character was a stop. */
  lemma ReadersGetCooked(e: Settings, evs: seq<Event>)
    ensures
      var s := Run(e, Fresh(), evs);
      && s.input + s.readq == TypedIn(evs)
      && (forall c | c in s.output :: Passable(e, c) && !(e.canon && c == e.eof))
      && (s.line.stopped <==> StoppedBy(e, s.input))
  {
    RunCooks(e, evs);
    DataCountsLines(e, evs);
    var s := Run(e, Fresh(), evs);
    PassedFrom(e, s.line.kept[..s.line.floor]);
    hide Run, Passed, Passable, StoppedBy;
  }

  lemma {:induction false} BreaksFound(e: Settings, s: seq<int>)
    ensures Breaks(e, s) > 0 <==> exists k :: 0 <= k < |s| && Break(e, s[k])
  {
    if s != [] { BreaksFound(e, s[..|s| - 1]); }
  }

  /** A reader goes on exactly when there is something to read and, in canonical mode, a whole line of it or fewer
      than 21 places left in the ring. */
  lemma ReaderWaitsForLine(e: Settings, evs: seq<Event>)
    ensures
      var ring := Ring(Run(e, Fresh(), evs).line);
      MayRead(e, Run(e, Fresh(), evs).line) <==>
        ring != [] && (!e.canon || (exists k :: 0 <= k < |ring| && Break(e, ring[k])) || |ring| >= 1003)
  {
    DataCountsLines(e, evs);
    var s := Run(e, Fresh(), evs);
    BreaksFound(e, Ring(s.line));
    hide Run, Breaks, Passed;
  }
}
