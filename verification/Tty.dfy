/** The line discipline (kernel/tty_io.c:132-196, 217-252; include/linux/tty.h:24-34): what copy_to_cooked
    puts in the secondary queue and what tty_read takes out of it.  Echo and signals are not part of this. */
module Tty {

  /** The termios settings the two functions look at, and the control characters. */
  datatype Settings = Settings(canon: bool, isig: bool, crnl: bool, nocr: bool, nlcr: bool, uclc: bool,
                               eof: int, erase: int, stop: int, start: int, intr: int)

  datatype Action = Skip | Erase | Flow(stopped: bool) | Enter(c: int)

  function ToLower(c: int): int { if 65 <= c <= 90 then c + 32 else c }

  /** What copy_to_cooked does with a character of the read queue. */
  function ActionFor(e: Settings, raw: int): Action
  {
    if raw == 13 && !e.crnl && e.nocr then Skip
    else
      var c0 := if raw == 13 && e.crnl then 10 else if raw == 10 && e.nlcr then 13 else raw;
      var c := if e.uclc then ToLower(c0) else c0;
      if e.canon && c == e.erase then Erase
      else if e.canon && c == e.stop then Flow(true)
      else if e.canon && c == e.start then Flow(false)
      else if !e.isig && c == e.intr then Skip
      else Enter(c)
  }

  /** A newline or the EOF character: erase stops there. */
  predicate Break(e: Settings, c: int) { c == 10 || c == e.eof }

  /** The secondary queue with its past: kept is what has been entered and not erased, the first floor
      characters of it have been read, the rest is in the ring.  data is the queue's data field. */
  datatype Line = Line(kept: seq<int>, floor: nat, data: int, stopped: bool)

  predicate Valid(l: Line) { l.floor <= |l.kept| && |l.kept| - l.floor <= 1023 }

  function Ring(l: Line): seq<int>
    requires Valid(l)
  {
    l.kept[l.floor..]
  }

  /** LEFT of the secondary queue. */
  function Left(l: Line): int
    requires Valid(l)
  {
    1023 - |Ring(l)|
  }

  function CookOne(e: Settings, l: Line, raw: int): (l': Line)
    requires Valid(l) && Left(l) > 0
    ensures Valid(l')
  {
    match ActionFor(e, raw)
    case Skip => l
    case Flow(stopped) => l.(stopped := stopped)
    case Erase => if Ring(l) == [] || Break(e, l.kept[|l.kept| - 1]) then l else l.(kept := l.kept[..|l.kept| - 1])
    case Enter(c) => l.(kept := l.kept + [c], data := if Break(e, c) then l.data + 1 else l.data)
  }

  /** GETCH from the secondary queue, with the data field kept up. */
  function TakeNext(e: Settings, l: Line): (l': Line)
    requires Valid(l) && Ring(l) != []
    ensures Valid(l') && l'.kept == l.kept && l'.floor == l.floor + 1 <= |l.kept|
  {
    l.(floor := l.floor + 1, data := if Break(e, l.kept[l.floor]) then l.data - 1 else l.data)
  }

  /** The do loop of tty_read with room for nr more characters; out is what goes to the reader. */
  function TakeLoop(e: Settings, l: Line, nr: nat, out: seq<int>): (r: (Line, seq<int>))
    requires Valid(l) && nr > 0 && Ring(l) != []
    ensures Valid(r.0)
    decreases nr
  {
    var c := l.kept[l.floor];
    var l1 := TakeNext(e, l);
    if c == e.eof && e.canon then (l1, out)
    else if nr == 1 || Ring(l1) == [] then (l1, out + [c])
    else TakeLoop(e, l1, nr - 1, out + [c])
  }

  /** Whether tty_read goes on without sleeping: in canonical mode it waits for a line, or for a nearly full ring. */
  predicate MayRead(e: Settings, l: Line)
    requires Valid(l)
  {
    Ring(l) != [] && !(e.canon && l.data == 0 && Left(l) > 20)
  }

  // ----- runs -----

  /** input is every character copy_to_cooked has taken so far and output every character given to readers;
      lost tells whether an erase has ever been lost. */
  datatype Sys = Sys(line: Line, readq: seq<int>, input: seq<int>, output: seq<int>, lost: bool)

  datatype Event = Typed(c: int) | Cook | Read(nr: nat)

  /** An erase that finds the ring empty because the line it belongs to has been read already. */
  predicate LosesErase(e: Settings, l: Line, raw: int)
    requires Valid(l)
  {
    ActionFor(e, raw).Erase? && Ring(l) == [] && l.kept != [] && !Break(e, l.kept[|l.kept| - 1])
  }

  /** copy_to_cooked. */
  function CookAll(e: Settings, s: Sys): (s': Sys)
    requires Valid(s.line)
    ensures Valid(s'.line)
    decreases |s.readq|
  {
    if s.readq == [] || Left(s.line) == 0 then s
    else CookAll(e, CookNext(e, s))
  }

  function CookNext(e: Settings, s: Sys): (s': Sys)
    requires Valid(s.line) && s.readq != [] && Left(s.line) > 0
    ensures Valid(s'.line)
  {
    var c := s.readq[0];
    Sys(CookOne(e, s.line, c), s.readq[1..], s.input + [c], s.output, s.lost || LosesErase(e, s.line, c))
  }

  /** Read is one turn of tty_read with room for nr characters; it does nothing when tty_read would sleep. */
  function Step(e: Settings, s: Sys, ev: Event): (s': Sys)
    requires Valid(s.line)
    ensures Valid(s'.line)
  {
    match ev
    case Typed(c) => s.(readq := s.readq + [c])
    case Cook => CookAll(e, s)
    case Read(nr) =>
      if nr == 0 || !MayRead(e, s.line) then s
      else
        var (l, out) := TakeLoop(e, s.line, nr, []);
        s.(line := l, output := s.output + out)
  }

  // ----- the invariant -----

  function Breaks(e: Settings, s: seq<int>): nat
  {
    if s == [] then 0 else Breaks(e, s[..|s| - 1]) + if Break(e, s[|s| - 1]) then 1 else 0
  }

  lemma {:induction false} BreaksSplit(e: Settings, a: seq<int>, b: seq<int>)
    ensures Breaks(e, a + b) == Breaks(e, a) + Breaks(e, b)
  {
    if b == [] {
      assert a + b == a;
    } else {
      assert (a + b)[..|a + b| - 1] == a + b[..|b| - 1];
      BreaksSplit(e, a, b[..|b| - 1]);
    }
  }

  /** A line editor without a reader: it enters characters and erases back to the last newline or EOF. */
  function Edited(e: Settings, input: seq<int>): seq<int>
  {
    if input == [] then []
    else
      EditOne(e, Edited(e, input[..|input| - 1]), input[|input| - 1])
  }

  function EditOne(e: Settings, line: seq<int>, raw: int): seq<int>
  {
    match ActionFor(e, raw)
    case Skip => line
    case Flow(_) => line
    case Erase => if line == [] || Break(e, line[|line| - 1]) then line else line[..|line| - 1]
    case Enter(c) => line + [c]
  }

  /** The part of kept that readers were given: in canonical mode the EOF characters are not passed on. */
  function Passed(e: Settings, s: seq<int>): seq<int>
  {
    if s == [] then []
    else Passed(e, s[..|s| - 1]) + if s[|s| - 1] == e.eof && e.canon then [] else [s[|s| - 1]]
  }

  /** Both editors agree from cut and from m on, behind the first lost erase, and the plain one is shorter by then. */
  ghost predicate Apart(kept: seq<int>, edited: seq<int>, floor: nat, cut: nat, m: nat)
  {
    && m < cut <= floor && cut <= |kept| && m <= |edited| && |edited| - m == |kept| - cut
    && forall k | cut <= k < |kept| :: kept[k] == edited[k - cut + m]
  }

  ghost predicate Inv(e: Settings, s: Sys)
  {
    && Valid(s.line) && s.line.data == Breaks(e, Ring(s.line))
    && s.output == Passed(e, s.line.kept[..s.line.floor])
    && if s.lost then exists cut: nat, m: nat ::
      Apart(s.line.kept, Edited(e, s.input), s.line.floor, cut, m) else s.line.kept == Edited(e, s.input)
  }

  lemma BreaksLast(e: Settings, s: seq<int>, c: int)
    ensures Breaks(e, s + [c]) == Breaks(e, s) + if Break(e, c) then 1 else 0
  {}

  lemma CookData(e: Settings, l: Line, raw: int)
    requires Valid(l) && Left(l) > 0 && l.data == Breaks(e, Ring(l))
    ensures CookOne(e, l, raw).data == Breaks(e, Ring(CookOne(e, l, raw)))
  {
    hide Breaks, Break;
    var l' := CookOne(e, l, raw);
    if ActionFor(e, raw).Erase? && l' != l {
      assert Ring(l) == Ring(l') + [l.kept[|l.kept| - 1]];
      BreaksLast(e, Ring(l'), l.kept[|l.kept| - 1]);
    } else if ActionFor(e, raw).Enter? {
      assert Ring(l') == Ring(l) + [ActionFor(e, raw).c];
      BreaksLast(e, Ring(l), ActionFor(e, raw).c);
    }
  }

  lemma EditedNext(e: Settings, input: seq<int>, raw: int)
    ensures Edited(e, input + [raw]) == EditOne(e, Edited(e, input), raw)
  {}

  lemma ApartNext(e: Settings, l: Line, edited: seq<int>, raw: int, cut: nat, m: nat) returns (cut': nat, m': nat)
    requires Valid(l) && Left(l) > 0 && Apart(l.kept, edited, l.floor, cut, m)
    ensures Apart(CookOne(e, l, raw).kept, EditOne(e, edited, raw), l.floor, cut', m')
  {
    var edited' := EditOne(e, edited, raw);
    if ActionFor(e, raw).Erase? && Ring(l) == [] {
      cut', m' := |l.kept|, |edited'|;
    } else {
      cut', m' := cut, m;
      if ActionFor(e, raw).Erase? { assert l.kept[|l.kept| - 1] == edited[|edited| - 1]; }
    }
  }

  lemma CookFloor(e: Settings, l: Line, raw: int)
    requires Valid(l) && Left(l) > 0
    ensures CookOne(e, l, raw).floor == l.floor && CookOne(e, l, raw).kept[..l.floor] == l.kept[..l.floor]
  {}

  lemma CookKept(e: Settings, l: Line, raw: int)
    requires Valid(l) && Left(l) > 0
    ensures !LosesErase(e, l, raw) ==> CookOne(e, l, raw).kept == EditOne(e, l.kept, raw)
    ensures LosesErase(e, l, raw) ==>
      |l.kept| > 0 && Apart(CookOne(e, l, raw).kept, EditOne(e, l.kept, raw), l.floor, |l.kept|, |l.kept| - 1)
  {
    assert Ring(l) == [] <==> l.floor == |l.kept|;
    hide Ring, ActionFor, Break;
  }

  lemma CookNextKeeps(e: Settings, s: Sys)
    requires Inv(e, s) && s.readq != [] && Left(s.line) > 0
    ensures Inv(e, CookNext(e, s))
  {
    var s', c := CookNext(e, s), s.readq[0];
    CookData(e, s.line, c);
    CookFloor(e, s.line, c);
    CookKept(e, s.line, c);
    EditedNext(e, s.input, c);
    hide Edited, Passed, Breaks, Apart, CookOne, EditOne, LosesErase, Ring;
    if s.lost {
      var cut: nat, m: nat :| Apart(s.line.kept, Edited(e, s.input), s.line.floor, cut, m);
      var _, _ := ApartNext(e, s.line, Edited(e, s.input), c, cut, m);
    }
  }

  lemma {:induction false} CookAllKeeps(e: Settings, s: Sys)
    requires Inv(e, s)
    ensures Inv(e, CookAll(e, s))
    decreases |s.readq|
  {
    hide Inv, CookNext;
    InvIsValid(e, s);
    if s.readq != [] && Left(s.line) != 0 {
      CookNextKeeps(e, s);
      CookNextTakes(e, s);
      CookAllKeeps(e, CookNext(e, s));
    }
  }

  lemma InvIsValid(e: Settings, s: Sys)
    requires Inv(e, s)
    ensures Valid(s.line)
  {}

  lemma CookNextTakes(e: Settings, s: Sys)
    requires Valid(s.line) && s.readq != [] && Left(s.line) > 0
    ensures CookNext(e, s).readq == s.readq[1..]
  {}

  /** A reader takes characters from the front of the ring and data goes down with the newlines and EOFs among them. */
  lemma {:induction false} TakeLoopTakes(e: Settings, l: Line, nr: nat, out: seq<int>)
    requires Valid(l) && nr > 0 && Ring(l) != [] && l.data == Breaks(e, Ring(l))
    ensures
      var (l', out') := TakeLoop(e, l, nr, out);
      && l'.kept == l.kept && l.floor < l'.floor <= |l.kept| && l'.data == Breaks(e, Ring(l'))
      && out' == out + Passed(e, l.kept[l.floor..l'.floor])
    decreases nr
  {
    var c := l.kept[l.floor];
    var l1 := TakeNext(e, l);
    TakeOne(e, l);
    hide Breaks, Passed, Break, TakeNext, Valid;
    if !(c == e.eof && e.canon) && nr != 1 && Ring(l1) != [] {
      TakeLoopTakes(e, l1, nr - 1, out + [c]);
      hide TakeLoop;
      PassedFirst(e, l.kept, l.floor, TakeLoop(e, l1, nr - 1, out + [c]).0.floor, out);
    }
  }

  lemma PassedFirst(e: Settings, kept: seq<int>, from: nat, upto: nat, out: seq<int>)
    requires from < upto <= |kept|
    ensures
      var c := kept[from];
      out + Passed(e, kept[from..upto])
          == (out + if c == e.eof && e.canon then [] else [c]) + Passed(e, kept[from + 1..upto])
  {
    var c := kept[from];
    assert kept[from..upto] == [c] + kept[from + 1..upto];
    PassedSplit(e, [c], kept[from + 1..upto]);
    assert [c][..0] == [] && Passed(e, [c]) == if c == e.eof && e.canon then [] else [c];
  }

  lemma TakeOne(e: Settings, l: Line)
    requires Valid(l) && Ring(l) != [] && l.data == Breaks(e, Ring(l))
    ensures
      var c := l.kept[l.floor];
      && TakeNext(e, l).data == Breaks(e, Ring(TakeNext(e, l)))
      && Passed(e, [c]) == (if c == e.eof && e.canon then [] else [c]) && l.kept[l.floor..l.floor + 1] == [c]
  {
    var c := l.kept[l.floor];
    assert Ring(l) == [c] + l.kept[l.floor + 1..];
    BreaksSplit(e, [c], l.kept[l.floor + 1..]);
    assert Breaks(e, [c]) == if Break(e, c) then 1 else 0 by {
      assert [c][..0] == [];
    }
    assert [c][..0] == [];
  }

  lemma {:induction false} PassedSplit(e: Settings, a: seq<int>, b: seq<int>)
    ensures Passed(e, a + b) == Passed(e, a) + Passed(e, b)
  {
    if b == [] {
      assert a + b == a;
    } else {
      assert (a + b)[..|a + b| - 1] == a + b[..|b| - 1];
      PassedSplit(e, a, b[..|b| - 1]);
    }
  }

  lemma ReadKeeps(e: Settings, s: Sys, nr: nat)
    requires Inv(e, s) && nr > 0 && Ring(s.line) != []
    ensures
      var (l, out) := TakeLoop(e, s.line, nr, []);
      Inv(e, s.(line := l, output := s.output + out))
  {
    hide TakeLoop, Passed, Edited, Breaks;
    var l := TakeLoop(e, s.line, nr, []).0;
    TakeLoopTakes(e, s.line, nr, []);
    assert l.kept[..l.floor] == s.line.kept[..s.line.floor] + s.line.kept[s.line.floor..l.floor];
    PassedSplit(e, s.line.kept[..s.line.floor], s.line.kept[s.line.floor..l.floor]);
    if s.lost {
      var cut: nat, m: nat :| Apart(s.line.kept, Edited(e, s.input), s.line.floor, cut, m);
      assert Apart(l.kept, Edited(e, s.input), l.floor, cut, m);
    }
  }

  lemma StepKeeps(e: Settings, s: Sys, ev: Event)
    requires Inv(e, s)
    ensures Inv(e, Step(e, s, ev))
  {
    hide CookAll, TakeLoop, Edited, Passed, Breaks;
    match ev
    case Typed(c) =>
    case Cook => CookAllKeeps(e, s);
    case Read(nr) => if nr > 0 && MayRead(e, s.line) { ReadKeeps(e, s, nr); }
  }

  function Run(e: Settings, s: Sys, evs: seq<Event>): (s': Sys)
    requires Valid(s.line)
    ensures Valid(s'.line)
  {
    if evs == [] then s else Step(e, Run(e, s, evs[..|evs| - 1]), evs[|evs| - 1])
  }

  lemma {:induction false} RunKeeps(e: Settings, s: Sys, evs: seq<Event>)
    requires Inv(e, s)
    ensures Inv(e, Run(e, s, evs))
  {
    hide Inv, Step;
    InvIsValid(e, s);
    if evs != [] {
      RunKeeps(e, s, evs[..|evs| - 1]);
      StepKeeps(e, Run(e, s, evs[..|evs| - 1]), evs[|evs| - 1]);
    }
  }

  function Fresh(): Sys { Sys(Line([], 0, 0, false), [], [], [], false) }

  /** Over every run of typing, copy_to_cooked and tty_read the data field is the number of newlines and EOF
      characters in the secondary ring, and readers were given the characters in front of the ring in order. */
  lemma DataCountsLines(e: Settings, evs: seq<Event>)
    ensures
      var s := Run(e, Fresh(), evs);
      && s.line.data == Breaks(e, Ring(s.line)) && |Ring(s.line)| <= 1023
      && s.output == Passed(e, s.line.kept[..s.line.floor])
  {
    RunKeeps(e, Fresh(), evs);
    hide Run, Breaks, Passed;
  }

  /** The ring is what a line editor makes of all characters taken so far, less what has been read, if and
      only if no erase ever came when the part of a line it belonged to had already been read. */
  lemma RingIsEditedInput(e: Settings, evs: seq<Event>)
    ensures
      var s := Run(e, Fresh(), evs);
      var edited := Edited(e, s.input);
      !s.lost <==> s.line.floor <= |edited| && edited == s.line.kept[..s.line.floor] + Ring(s.line)
  {
    RunKeeps(e, Fresh(), evs);
    var s := Run(e, Fresh(), evs);
    assert s.line.kept == s.line.kept[..s.line.floor] + Ring(s.line);
    hide Run, Breaks, Passed, Edited;
    if s.lost {
      var cut: nat, m: nat :| Apart(s.line.kept, Edited(e, s.input), s.line.floor, cut, m);
      assert |Edited(e, s.input)| < |s.line.kept|;
    }
  }

  function Canonical(): Settings { Settings(true, true, false, false, false, false, 4, 127, 19, 17, 3) }

  lemma RunNext(e: Settings, evs: seq<Event>, ev: Event)
    ensures Run(e, Fresh(), evs + [ev]) == Step(e, Run(e, Fresh(), evs), ev)
  {
    assert (evs + [ev])[..|evs|] == evs;
  }

  /** Such an erase happens: with c typed behind a line and read together with it, erasing c comes too late.
      A reader was given the c, while a line editor takes it back. */
  lemma EraseComesTooLate()
    ensures
      var e := Canonical();
      var s := Run(e, Fresh(), [Typed(97), Typed(10), Typed(99), Cook, Read(3), Typed(127), Cook]);
      s.lost && s.output == [97, 10, 99] && Ring(s.line) == [] && Edited(e, s.input) == [97, 10]
  {
    var e := Canonical();
    hide Run, Step, Edited;
    var evs := [Typed(97), Typed(10), Typed(99)];
    ThreeTyped(e);
    RunNext(e, evs, Cook);
    RunNext(e, evs + [Cook], Read(3));
    RunNext(e, evs + [Cook] + [Read(3)], Typed(127));
    RunNext(e, evs + [Cook] + [Read(3)] + [Typed(127)], Cook);
    CookThree(e, Run(e, Fresh(), evs));
    ReadThree(e, Run(e, Fresh(), evs + [Cook]));
    EraseLate(e, Run(e, Fresh(), evs + [Cook] + [Read(3)]));
    assert evs + [Cook] + [Read(3)] + [Typed(127)] + [Cook]
        == [Typed(97), Typed(10), Typed(99), Cook, Read(3), Typed(127), Cook];
  }

  lemma ThreeTyped(e: Settings)
    ensures Run(e, Fresh(), [Typed(97), Typed(10), Typed(99)]) == Fresh().(readq := [97, 10, 99])
  {
    assert [Typed(97), Typed(10), Typed(99)] == [] + [Typed(97)] + [Typed(10)] + [Typed(99)];
    RunNext(e, [], Typed(97));
    RunNext(e, [] + [Typed(97)], Typed(10));
    RunNext(e, [] + [Typed(97)] + [Typed(10)], Typed(99));
  }

  lemma CookThree(e: Settings, s: Sys)
    requires e == Canonical() && s == Fresh().(readq := [97, 10, 99])
    ensures Step(e, s, Cook) == Sys(Line([97, 10, 99], 0, 1, false), [], [97, 10, 99], [], false)
  {
    var s1, s2, s3 := CookNext(e, s), Sys(Line([97, 10], 0, 1, false), [99], [97, 10], [], false),
        Sys(Line([97, 10, 99], 0, 1, false), [], [97, 10, 99], [], false);
    assert s1 == Sys(Line([97], 0, 0, false), [10, 99], [97], [], false);
    assert CookNext(e, s1) == s2;
    assert CookNext(e, s2) == s3;
    assert CookAll(e, s3) == s3;
    assert CookAll(e, s2) == s3;
    assert CookAll(e, s1) == s3;
  }

  lemma ReadThree(e: Settings, s: Sys)
    requires e == Canonical() && s == Sys(Line([97, 10, 99], 0, 1, false), [], [97, 10, 99], [], false)
    ensures Step(e, s, Read(3)) == Sys(Line([97, 10, 99], 3, 0, false), [], [97, 10, 99], [97, 10, 99], false)
  {
    var l1, l2, l3 := Line([97, 10, 99], 1, 1, false), Line([97, 10, 99], 2, 0, false), Line([97, 10, 99], 3, 0, false);
    assert TakeNext(e, s.line) == l1 && TakeNext(e, l1) == l2 && TakeNext(e, l2) == l3;
    assert Ring(l1) == [10, 99] && Ring(l2) == [99];
    assert [97, 10] + [99] == [97, 10, 99] && [97] + [10] == [97, 10] && [] + [97] == [97];
    assert TakeLoop(e, l2, 1, [97, 10]) == (l3, [97, 10, 99]);
    assert TakeLoop(e, l1, 2, [97]) == (l3, [97, 10, 99]);
    assert TakeLoop(e, s.line, 3, []) == (l3, [97, 10, 99]);
  }

  lemma EraseLate(e: Settings, s: Sys)
    requires e == Canonical() && s == Sys(Line([97, 10, 99], 3, 0, false), [], [97, 10, 99], [97, 10, 99], false)
    ensures
      var s' := Step(e, Step(e, s, Typed(127)), Cook);
      s' == Sys(s.line, [], [97, 10, 99, 127], [97, 10, 99], true) && Edited(e, s'.input) == [97, 10]
  {
    var s1, s2 := s.(readq := [127]), Sys(s.line, [], [97, 10, 99, 127], [97, 10, 99], true);
    assert Step(e, s, Typed(127)) == s1;
    assert CookNext(e, s1) == s2;
    assert CookAll(e, s2) == s2;
    EditedThree(e);
  }

  lemma EditedThree(e: Settings)
    requires e == Canonical()
    ensures Edited(e, [97, 10, 99, 127]) == [97, 10]
  {
    EnterErase(e, [97, 10], 99, 127);
    EnterTwo(e, 97, 10);
    hide Edited, ActionFor, Canonical;
    assert [97, 10] + [99] + [127] == [97, 10, 99, 127];
  }

  lemma EnterTwo(e: Settings, a: int, b: int)
    requires ActionFor(e, a) == Enter(a) && ActionFor(e, b) == Enter(b)
    ensures Edited(e, [a, b]) == [a, b]
  {
    assert Edited(e, []) == [];
    EditedNext(e, [], a);
    EditedNext(e, [a], b);
    hide Edited, ActionFor;
    assert [] + [a] == [a] && [a] + [b] == [a, b];
  }

  /** Erasing takes back a character just entered. */
  lemma EnterErase(e: Settings, input: seq<int>, c: int, erase: int)
    requires ActionFor(e, c) == Enter(c) && ActionFor(e, erase).Erase? && !Break(e, c)
    ensures Edited(e, input + [c] + [erase]) == Edited(e, input)
  {
    EditedNext(e, input, c);
    EditedNext(e, input + [c], erase);
    hide Edited, ActionFor, Break;
    assert (Edited(e, input) + [c])[..|Edited(e, input)|] == Edited(e, input);
  }

  /** An erase takes back at most the last character of the ring, never a newline or EOF and never what has
      been read. */
  lemma EraseStopsAtBreaks(e: Settings, l: Line, raw: int)
    requires Valid(l) && Left(l) > 0 && ActionFor(e, raw).Erase?
    ensures
      var l' := CookOne(e, l, raw);
      && l'.floor == l.floor && l'.data == l.data && Breaks(e, l'.kept) == Breaks(e, l.kept)
      && (l' == l <==> Ring(l) == [] || Break(e, Ring(l)[|Ring(l)| - 1]))
      && (l' != l ==> l.kept == l'.kept + [l.kept[|l.kept| - 1]])
  {
  }

  /** A canonical read that starts at a full line gives out no more than up to the first EOF character, and
      never that character. */
  lemma {:induction false} CanonicalReadStops(e: Settings, l: Line, nr: nat, out: seq<int>)
    requires Valid(l) && nr > 0 && Ring(l) != [] && e.canon && e.eof !in out
    ensures
      var (l', out') := TakeLoop(e, l, nr, out);
      && e.eof !in out' && |out'| <= |out| + nr && l.floor < l'.floor <= |l.kept| && l'.kept == l.kept
      && forall k | l.floor <= k < l'.floor - 1 :: l.kept[k] != e.eof
    decreases nr
  {
    var c := l.kept[l.floor];
    var l1 := TakeNext(e, l);
    if c != e.eof && nr != 1 && Ring(l1) != [] { CanonicalReadStops(e, l1, nr - 1, out + [c]); }
  }
}
