/** Pipes (fs/pipe.c:7-50, include/linux/fs.h:104-110): any number of readers and writers whose calls are
    cut at their sleep points, where the others go on. */
module Pipe {

  type Byte = b: int | 0 <= b < 256

  /** The page and the two positions kept in i_zone; users is i_count, 2 while both ends are open. */
  datatype Ring = Ring(page: seq<Byte>, head: nat, tail: nat, users: nat)

  predicate Shape(r: Ring) { |r.page| == 4096 && r.head < 4096 && r.tail < 4096 }

  /** PIPE_SIZE, PIPE_EMPTY and PIPE_FULL. */
  function Size(r: Ring): (n: nat)
    requires Shape(r)
    ensures n < 4096
  {
    (r.head - r.tail) % 4096
  }

  predicate Empty(r: Ring) { r.head == r.tail }

  predicate Full(r: Ring)
    requires Shape(r)
  {
    Size(r) == 4095
  }

  function Put(r: Ring, b: Byte): (r': Ring)
    requires Shape(r)
    ensures Shape(r')
  {
    r.(page := r.page[r.head := b], head := (r.head + 1) % 4096)
  }

  function Front(r: Ring): Byte
    requires Shape(r)
  {
    r.page[r.tail]
  }

  function Drop(r: Ring): (r': Ring)
    requires Shape(r)
    ensures Shape(r')
  {
    r.(tail := (r.tail + 1) % 4096)
  }

  /** The bytes in the ring, oldest first. */
  function Contents(r: Ring): (s: seq<Byte>)
    requires Shape(r)
    ensures |s| == Size(r)
  {
    seq(Size(r), k requires 0 <= k < Size(r) => r.page[(r.tail + k) % 4096])
  }

  /** A byte in a log, with the process whose call moved it. */
  datatype Item = Item(who: nat, byte: Byte)

  /** What a process is doing, or the call it made last: from and upto mark the part of the log the call saw. */
  datatype Proc =
    | Never
    | Reading(count: nat, from: nat)
    | Writing(data: seq<Byte>, done: nat, from: nat)
    | HasRead(count: nat, got: seq<Byte>, from: nat, upto: nat)
    | HasWritten(data: seq<Byte>, ret: int, from: nat, upto: nat)

  datatype Sys = Sys(ring: Ring, written: seq<Item>, read: seq<Item>, proc: seq<Proc>)

  datatype Event =
    | BeginRead(p: nat, count: nat)
    | BeginWrite(p: nat, data: seq<Byte>)
    | Continue(p: nat)
    | SetUsers(n: nat)

  predicate Valid(s: Sys) { Shape(s.ring) }

  /** The copy loop of read_pipe: got has been moved so far. */
  function ReadLoop(s: Sys, p: nat, count: nat, got: seq<Byte>): (r: (Sys, seq<Byte>))
    requires Valid(s) && |got| <= count
    ensures Valid(r.0) && |r.1| <= count && r.0.proc == s.proc
    decreases count - |got|
  {
    if |got| == count || Empty(s.ring) then (s, got)
    else
      var b := Front(s.ring);
      ReadLoop(s.(ring := Drop(s.ring), read := s.read + [Item(p, b)]), p, count, got + [b])
  }

  /** read_pipe from the test for an empty pipe on: it returns 0 without writers, sleeps, or reads. */
  function TryRead(s: Sys, p: nat, count: nat, from: nat): (s': Sys)
    requires Valid(s) && p < |s.proc|
    ensures Valid(s') && |s'.proc| == |s.proc|
  {
    if Empty(s.ring) then s.(proc :=
        s.proc[p := if s.ring.users != 2 then HasRead(count, [], from, |s.read|) else Reading(count, from)])
    else
      var (s1, got) := ReadLoop(s, p, count, []);
      s1.(proc := s1.proc[p := HasRead(count, got, from, |s1.read|)])
  }

  /** The loop of write_pipe with done bytes written: it finishes, gives up without readers, or sleeps. */
  function TryWrite(s: Sys, p: nat, data: seq<Byte>, done: nat, from: nat): (s': Sys)
    requires Valid(s) && p < |s.proc| && done <= |data|
    ensures Valid(s') && |s'.proc| == |s.proc|
    decreases |data| - done
  {
    if done == |data| then s.(proc := s.proc[p := HasWritten(data, done, from, |s.written|)])
    else if Full(s.ring) then
      s.(proc := s.proc[p := if s.ring.users != 2 then HasWritten(data, done, from, |s.written|)
          else Writing(data, done, from)])
    else TryWrite(s.(ring := Put(s.ring, data[done]), written := s.written + [Item(p, data[done])]), p, data, done + 1,
        from)
  }

  /** One stretch of running between sleep points.  Continue is a sleeping call that runs again. */
  function Step(s: Sys, e: Event): (s': Sys)
    requires Valid(s)
    ensures Valid(s') && |s'.proc| == |s.proc|
  {
    match e
    case BeginRead(p, count) =>
      if p >= |s.proc| || s.proc[p].Reading? || s.proc[p].Writing? then s else TryRead(s, p, count, |s.read|)
    case BeginWrite(p, data) =>
      if p >= |s.proc| || s.proc[p].Reading? || s.proc[p].Writing? then s
      else if s.ring.users != 2 then s.(proc := s.proc[p := HasWritten(data, -1, |s.written|, |s.written|)])
      else TryWrite(s, p, data, 0, |s.written|)
    case Continue(p) =>
      if p >= |s.proc| then s
      else if s.proc[p].Reading? then TryRead(s, p, s.proc[p].count, s.proc[p].from)
      else if s.proc[p].Writing? && s.proc[p].done <= |s.proc[p].data|
      then TryWrite(s, p, s.proc[p].data, s.proc[p].done, s.proc[p].from)
      else s
    case SetUsers(n) => s.(ring := s.ring.(users := n))
  }

  // ----- the ring is a queue -----

  lemma PutAppends(r: Ring, b: Byte)
    requires Shape(r) && !Full(r)
    ensures Contents(Put(r, b)) == Contents(r) + [b]
  {
    var r' := Put(r, b);
    SizePut(r, b);
    forall k | 0 <= k < Size(r') ensures Contents(r')[k] == (Contents(r) + [b])[k] {
      SlotsApart(r, k);
    }
  }

  lemma SizePut(r: Ring, b: Byte)
    requires Shape(r) && !Full(r)
    ensures Size(Put(r, b)) == Size(r) + 1
  {}

  lemma SlotsApart(r: Ring, k: nat)
    requires Shape(r) && k <= Size(r)
    ensures (r.tail + k) % 4096 == r.head <==> k == Size(r)
  {}

  lemma DropTakesFront(r: Ring)
    requires Shape(r) && !Empty(r)
    ensures Contents(r) == [Front(r)] + Contents(Drop(r))
  {
    var r' := Drop(r);
    SizeDrop(r);
    forall k | 0 <= k < Size(r) ensures Contents(r)[k] == ([Front(r)] + Contents(r'))[k] {
      NextSlot(r, k);
    }
  }

  lemma SizeDrop(r: Ring)
    requires Shape(r) && !Empty(r)
    ensures Size(r) == Size(Drop(r)) + 1
  {}

  lemma NextSlot(r: Ring, k: nat)
    requires Shape(r) && k < 4096
    ensures k > 0 ==> ((r.tail + 1) % 4096 + (k - 1)) % 4096 == (r.tail + k) % 4096
    ensures k == 0 ==> (r.tail + k) % 4096 == r.tail
  {}

  lemma EmptyIsEmpty(r: Ring)
    requires Shape(r)
    ensures Empty(r) <==> Contents(r) == []
  {}

  // ----- the invariant -----

  function Bytes(log: seq<Item>): (r: seq<Byte>)
    ensures |r| == |log| && forall k | 0 <= k < |log| :: r[k] == log[k].byte
  {
    seq(|log|, k requires 0 <= k < |log| => log[k].byte)
  }

  /** The bytes of a log that process p moved. */
  function Mine(log: seq<Item>, p: nat): seq<Byte>
  {
    if log == [] then []
    else Mine(log[..|log| - 1], p) + if log[|log| - 1].who == p then [log[|log| - 1].byte] else []
  }

  /** Bytes written so far are the bytes read so far followed by the contents of the ring. */
  ghost predicate Fifo(s: Sys)
    requires Valid(s)
  {
    Bytes(s.written) == Bytes(s.read) + Contents(s.ring)
  }

  /** What a call has moved since it began, according to the logs. */
  ghost predicate Accounted(s: Sys, p: nat)
    requires p < |s.proc|
  {
    match s.proc[p]
    case Never => true
    case Reading(_, from) => from <= |s.read| && Mine(s.read[from..], p) == []
    case Writing(data, done, from) => done <= |data| && from <= |s.written|
        && Mine(s.written[from..], p) == data[..done]
    case HasRead(count, got, from, upto) => |got| <= count && from <= upto <= |s.read|
        && Mine(s.read[from..upto], p) == got
    case HasWritten(data, ret, from, upto) =>
      -1 <= ret <= |data| && from <= upto <= |s.written|
          && Mine(s.written[from..upto], p) == data[..if ret < 0 then 0 else ret]
  }

  ghost predicate Inv(s: Sys) { Valid(s) && Fifo(s) && forall p: nat | p < |s.proc| :: Accounted(s, p) }

  lemma MineLast(log: seq<Item>, x: Item, p: nat)
    ensures Mine(log + [x], p) == Mine(log, p) + if x.who == p then [x.byte] else []
  {}

  lemma SameAccount(s: Sys, s': Sys, p: nat)
    requires p < |s.proc| && |s'.proc| == |s.proc| && s'.proc[p] == s.proc[p] && Accounted(s, p)
    requires s'.read == s.read && s'.written == s.written
    ensures Accounted(s', p)
  {}

  /** Another process's byte at the end of a log does not disturb what a call has moved. */
  lemma OthersRead(s: Sys, s': Sys, x: Item, p: nat)
    requires p < |s.proc| && |s'.proc| == |s.proc| && s'.proc[p] == s.proc[p] && Accounted(s, p) && x.who != p
    requires s'.read == s.read + [x] && s'.written == s.written
    ensures Accounted(s', p)
  {
    if s.proc[p].Reading? {
      var from := s.proc[p].from;
      assert s'.read[from..] == s.read[from..] + [x];
      MineLast(s.read[from..], x, p);
    }
    if s.proc[p].HasRead? {
      assert s'.read[s.proc[p].from..s.proc[p].upto] == s.read[s.proc[p].from..s.proc[p].upto];
    }
  }

  lemma OthersWritten(s: Sys, s': Sys, x: Item, p: nat)
    requires p < |s.proc| && |s'.proc| == |s.proc| && s'.proc[p] == s.proc[p] && Accounted(s, p) && x.who != p
    requires s'.written == s.written + [x] && s'.read == s.read
    ensures Accounted(s', p)
  {
    if s.proc[p].Writing? {
      var from := s.proc[p].from;
      assert s'.written[from..] == s.written[from..] + [x];
      MineLast(s.written[from..], x, p);
    }
    if s.proc[p].HasWritten? {
      assert s'.written[s.proc[p].from..s.proc[p].upto] == s.written[s.proc[p].from..s.proc[p].upto];
    }
  }

  /** All but the process that runs are accounted for, and that one has moved what it believes. */
  ghost predicate ReadMid(s: Sys, p: nat, got: seq<Byte>, from: nat)
  {
    && Valid(s) && Fifo(s) && p < |s.proc| && from <= |s.read| && Mine(s.read[from..], p) == got
    && forall u: nat | u < |s.proc| && u != p :: Accounted(s, u)
  }

  function ReadOne(s: Sys, p: nat): (s': Sys)
    requires Valid(s)
    ensures Valid(s')
  {
    s.(ring := Drop(s.ring), read := s.read + [Item(p, Front(s.ring))])
  }

  lemma ReadOneKeeps(s: Sys, p: nat, got: seq<Byte>, from: nat)
    requires ReadMid(s, p, got, from) && !Empty(s.ring)
    ensures ReadMid(ReadOne(s, p), p, got + [Front(s.ring)], from)
  {
    ReadOneFifo(s, p);
    hide Bytes, Contents, Accounted, Size, Drop, Front, Fifo;
    var b, s1 := Front(s.ring), ReadOne(s, p);
    assert s1.read[from..] == s.read[from..] + [Item(p, b)];
    MineLast(s.read[from..], Item(p, b), p);
    hide Mine;
    ReadOneOthers(s, p);
  }

  lemma ReadOneFifo(s: Sys, p: nat)
    requires Valid(s) && Fifo(s) && !Empty(s.ring)
    ensures Fifo(ReadOne(s, p))
  {
    DropTakesFront(s.ring);
    hide Contents, Drop, Front, Size;
    assert Bytes(ReadOne(s, p).read) == Bytes(s.read) + [Front(s.ring)];
  }

  lemma ReadOneOthers(s: Sys, p: nat)
    requires Valid(s) && !Empty(s.ring) && forall u: nat | u < |s.proc| && u != p :: Accounted(s, u)
    ensures forall u: nat | u < |s.proc| && u != p :: Accounted(ReadOne(s, p), u)
  {
    hide Accounted, Drop, Front;
    forall u: nat | u < |s.proc| && u != p ensures Accounted(ReadOne(s, p), u) {
      OthersRead(s, ReadOne(s, p), Item(p, Front(s.ring)), u);
    }
  }

  lemma {:induction false} ReadLoopKeeps(s: Sys, p: nat, count: nat, got: seq<Byte>, from: nat)
    requires ReadMid(s, p, got, from) && |got| <= count
    ensures var (s', got') := ReadLoop(s, p, count, got); ReadMid(s', p, got', from) && s'.written == s.written
    decreases count - |got|
  {
    if |got| != count && !Empty(s.ring) {
      ReadOneKeeps(s, p, got, from);
      hide Mine, Fifo, Accounted, Size, Drop, Front;
      ReadLoopKeeps(ReadOne(s, p), p, count, got + [Front(s.ring)], from);
    }
  }

  /** The copy loop takes as many bytes as there are, at most count. */
  lemma {:induction false} ReadLoopTakes(s: Sys, p: nat, count: nat, got: seq<Byte>)
    requires Valid(s) && |got| <= count
    ensures
      var k := if count - |got| < Size(s.ring) then count - |got| else Size(s.ring);
      var (s', got') := ReadLoop(s, p, count, got);
      got' == got + Contents(s.ring)[..k] && Contents(s'.ring) == Contents(s.ring)[k..]
    decreases count - |got|
  {
    EmptyIsEmpty(s.ring);
    if |got| != count && !Empty(s.ring) {
      DropTakesFront(s.ring);
      SizeDrop(s.ring);
      hide Contents, Size, Drop, Front, Empty, Shape;
      ReadLoopTakes(ReadOne(s, p), p, count, got + [Front(s.ring)]);
    }
  }

  /** The loop of write_pipe writes until the pipe is full, and no more than it was given. */
  lemma {:induction false} TryWriteGives(s: Sys, p: nat, data: seq<Byte>, done: nat, from: nat)
    requires Valid(s) && p < |s.proc| && done <= |data|
    ensures
      var room := 4095 - Size(s.ring);
      var upto := if |data| - done < room then |data| else done + room;
      Contents(TryWrite(s, p, data, done, from).ring) == Contents(s.ring) + data[done..upto]
    decreases |data| - done
  {
    if done < |data| && !Full(s.ring) {
      PutAppends(s.ring, data[done]);
      SizePut(s.ring, data[done]);
      hide Contents, Put;
      TryWriteGives(s.(ring := Put(s.ring, data[done]), written := s.written + [Item(p, data[done])]), p, data,
          done + 1, from);
    }
  }

  lemma ReadKeeps(s: Sys, p: nat, count: nat, from: nat)
    requires ReadMid(s, p, [], from)
    ensures Inv(TryRead(s, p, count, from))
  {
    ReadLoopKeeps(s, p, count, [], from);
    hide ReadLoop, ReadMid, Accounted, Fifo, Contents;
    if Empty(s.ring) {
      ReadStops(s, p, count, [], from, if s.ring.users != 2 then HasRead(count, [], from, |s.read|)
          else Reading(count, from));
    } else {
      var (s1, got) := ReadLoop(s, p, count, []);
      ReadStops(s1, p, count, got, from, HasRead(count, got, from, |s1.read|));
    }
  }

  /** The process stops running with what it has moved. */
  lemma ReadStops(s: Sys, p: nat, count: nat, got: seq<Byte>, from: nat, pr: Proc)
    requires ReadMid(s, p, got, from) && |got| <= count
    requires pr == HasRead(count, got, from, |s.read|) || (pr == Reading(count, from) && got == [])
    ensures Inv(s.(proc := s.proc[p := pr]))
  {
    hide Contents, Bytes, Mine;
    var s' := s.(proc := s.proc[p := pr]);
    assert s'.read[from..|s'.read|] == s'.read[from..];
    forall u: nat | u < |s.proc| && u != p ensures Accounted(s', u) {
      SameAccount(s, s', u);
    }
  }

  ghost predicate WriteMid(s: Sys, p: nat, data: seq<Byte>, done: nat, from: nat)
  {
    && Valid(s) && Fifo(s) && p < |s.proc| && done <= |data| && from <= |s.written|
    && Mine(s.written[from..], p) == data[..done]
    && forall u: nat | u < |s.proc| && u != p :: Accounted(s, u)
  }

  lemma {:induction false} WriteKeeps(s: Sys, p: nat, data: seq<Byte>, done: nat, from: nat)
    requires WriteMid(s, p, data, done, from)
    ensures Inv(TryWrite(s, p, data, done, from))
    decreases |data| - done
  {
    if done == |data| || Full(s.ring) {
      WriteStops(s, p, data, done, from);
    } else {
      var x := Item(p, data[done]);
      var s1 := s.(ring := Put(s.ring, data[done]), written := s.written + [x]);
      PutAppends(s.ring, data[done]);
      assert Bytes(s1.written) == Bytes(s.written) + [data[done]];
      assert s1.written[from..] == s.written[from..] + [x];
      MineLast(s.written[from..], x, p);
      assert data[..done + 1] == data[..done] + [data[done]];
      forall u: nat | u < |s.proc| && u != p ensures Accounted(s1, u) {
        OthersWritten(s, s1, x, u);
      }
      hide Mine, Bytes, Contents, Accounted, Size, Put;
      WriteKeeps(s1, p, data, done + 1, from);
    }
  }

  lemma WriteStops(s: Sys, p: nat, data: seq<Byte>, done: nat, from: nat)
    requires WriteMid(s, p, data, done, from) && (done == |data| || Full(s.ring))
    ensures Inv(TryWrite(s, p, data, done, from))
  {
    var s' := TryWrite(s, p, data, done, from);
    hide Contents, Bytes, Mine, Size;
    assert s'.written[from..|s'.written|] == s'.written[from..];
    forall u: nat | u < |s.proc| && u != p ensures Accounted(s', u) {
      SameAccount(s, s', u);
    }
  }

  lemma StepKeeps(s: Sys, e: Event)
    requires Inv(s)
    ensures Inv(Step(s, e))
  {
    assert s.read[|s.read|..] == [] && s.written[|s.written|..] == [] && s.written[|s.written|..|s.written|] == [];
    hide TryRead, TryWrite, Bytes, Contents, Size;
    match e
    case BeginRead(p, count) =>
      if p < |s.proc| && !s.proc[p].Reading? && !s.proc[p].Writing? { ReadKeeps(s, p, count, |s.read|); }
    case BeginWrite(p, data) =>
      if p < |s.proc| && !s.proc[p].Reading? && !s.proc[p].Writing? {
        if s.ring.users == 2 { WriteKeeps(s, p, data, 0, |s.written|); }
        assert data[..0] == [];
        forall u: nat | u < |s.proc| && s.ring.users != 2 ensures Accounted(Step(s, e), u) {
          assert Accounted(s, u);
        }
      }
    case Continue(p) =>
      if p < |s.proc| {
        assert Accounted(s, p);
        if s.proc[p].Reading? { ReadKeeps(s, p, s.proc[p].count, s.proc[p].from); }
        if s.proc[p].Writing? { WriteKeeps(s, p, s.proc[p].data, s.proc[p].done, s.proc[p].from); }
      }
    case SetUsers(n) => UsersOnly(s, n);
  }

  lemma UsersOnly(s: Sys, n: nat)
    requires Inv(s)
    ensures Inv(s.(ring := s.ring.(users := n)))
  {
    var s' := s.(ring := s.ring.(users := n));
    assert Contents(s'.ring) == Contents(s.ring);
    forall p: nat | p < |s.proc| ensures Accounted(s', p) {
      assert Accounted(s, p);
    }
  }

  function Run(s: Sys, es: seq<Event>): (s': Sys)
    requires Valid(s)
    ensures Valid(s') && |s'.proc| == |s.proc|
  {
    if es == [] then s else Step(Run(s, es[..|es| - 1]), es[|es| - 1])
  }

  lemma {:induction false} RunKeeps(s: Sys, es: seq<Event>)
    requires Inv(s)
    ensures Inv(Run(s, es))
  {
    hide Fifo, Accounted, Step;
    if es != [] {
      RunKeeps(s, es[..|es| - 1]);
      StepKeeps(Run(s, es[..|es| - 1]), es[|es| - 1]);
    }
  }

  /** A pipe as get_pipe_inode leaves it; the page holds whatever it held. */
  function Fresh(page: seq<Byte>, procs: nat): Sys { Sys(Ring(page, 0, 0, 2), [], [], seq(procs, p => Never)) }

  /** Over every interleaving of read_pipe and write_pipe at their sleep points the pipe is a queue of at
      most 4095 bytes, and each call returns exactly the bytes it moved. */
  lemma PipeIsFifo(page: seq<Byte>, procs: nat, es: seq<Event>, p: nat)
    requires |page| == 4096 && p < procs
    ensures
      var s := Run(Fresh(page, procs), es);
      && Bytes(s.written) == Bytes(s.read) + Contents(s.ring) && |Contents(s.ring)| <= 4095
      && Accounted(s, p)
  {
    var s := Fresh(page, procs);
    assert Contents(s.ring) == [];
    assert Inv(s);
    RunKeeps(s, es);
    hide Run, Accounted;
  }

  /** Event e lets process p run. */
  predicate Runs(s: Sys, e: Event, p: nat)
    requires p < |s.proc|
  {
    match e
    case BeginRead(q, _) => q == p && !s.proc[p].Reading? && !s.proc[p].Writing?
    case BeginWrite(q, _) => q == p && !s.proc[p].Reading? && !s.proc[p].Writing?
    case Continue(q) => q == p
    case SetUsers(_) => false
  }

  function Min(a: int, b: int): int { if a < b then a else b }

  /** The log entries of process p for these bytes. */
  function Moved(p: nat, bytes: seq<Byte>): (r: seq<Item>)
    ensures |r| == |bytes| && forall k | 0 <= k < |r| :: r[k] == Item(p, bytes[k])
  {
    seq(|bytes|, k requires 0 <= k < |bytes| => Item(p, bytes[k]))
  }

  /** The other processes and the ends of the pipe stay as they are. */
  ghost predicate OnlyProc(s: Sys, s': Sys, p: nat)
  {
    && s'.ring.users == s.ring.users && p < |s.proc| == |s'.proc|
    && forall u | 0 <= u < |s.proc| && u != p :: s'.proc[u] == s.proc[u]
  }

  /** How a stretch of read_pipe ends: asleep at an empty pipe with a writer, with 0 at one without, else with as
      many of the oldest bytes as there are and it asked for. */
  ghost predicate ReaderEnds(s: Sys, s': Sys, p: nat, count: nat, from: nat)
    requires Valid(s) && Valid(s')
  {
    var c := Contents(s.ring);
    var n := Min(count, |c|);
    && OnlyProc(s, s', p) && s'.written == s.written && s'.read == s.read + Moved(p, c[..n])
    && Contents(s'.ring) == c[n..]
    && s'.proc[p] == if c == [] && s.ring.users == 2 then Reading(count, from)
                     else HasRead(count, c[..n], from, |s.read| + n)
  }

  /** How a stretch of write_pipe ends, with done bytes written before: as many bytes follow as there is room for,
      and then it is done, or gives up without readers, or sleeps with the pipe full. */
  ghost predicate WriterEnds(s: Sys, s': Sys, p: nat, data: seq<Byte>, done: nat, from: nat)
    requires Valid(s) && Valid(s') && done <= |data|
  {
    var c := Contents(s.ring);
    var upto := Min(|data|, done + 4095 - |c|);
    && OnlyProc(s, s', p) && s'.read == s.read
    && done <= upto && s'.written == s.written + Moved(p, data[done..upto])
    && Contents(s'.ring) == c + data[done..upto]
    && s'.proc[p] == if upto < |data| && s.ring.users == 2 then Writing(data, upto, from)
                     else HasWritten(data, upto, from, |s.written| + upto - done)
  }

  lemma {:induction false} ReadLoopLogs(s: Sys, p: nat, count: nat, got: seq<Byte>)
    requires Valid(s) && |got| <= count
    ensures
      var (s', got') := ReadLoop(s, p, count, got);
      && |got| <= |got'| && s'.ring.users == s.ring.users && s'.proc == s.proc && s'.written == s.written
      && s'.read == s.read + Moved(p, got'[|got|..])
    decreases count - |got|
  {
    if |got| != count && !Empty(s.ring) {
      var b := Front(s.ring);
      ReadLoopLogs(ReadOne(s, p), p, count, got + [b]);
      var got' := ReadLoop(s, p, count, got).1;
      var (s1, got1) := ReadLoop(ReadOne(s, p), p, count, got + [b]);
      ReadLoopTakes(ReadOne(s, p), p, count, got + [b]);
      assert got1[|got|] == b;
      assert Moved(p, got1[|got|..]) == [Item(p, b)] + Moved(p, got1[|got| + 1..]);
    }
  }

  lemma ReadEnds(s: Sys, p: nat, count: nat, from: nat)
    requires Valid(s) && p < |s.proc|
    ensures ReaderEnds(s, TryRead(s, p, count, from), p, count, from)
  {
    EmptyIsEmpty(s.ring);
    ReadLoopTakes(s, p, count, []);
    ReadLoopLogs(s, p, count, []);
    hide ReadLoop, Contents;
  }

  lemma {:induction false} WriteEnds(s: Sys, p: nat, data: seq<Byte>, done: nat, from: nat)
    requires Valid(s) && p < |s.proc| && done <= |data|
    ensures WriterEnds(s, TryWrite(s, p, data, done, from), p, data, done, from)
    decreases |data| - done
  {
    if done < |data| && !Full(s.ring) {
      var s1 := s.(ring := Put(s.ring, data[done]), written := s.written + [Item(p, data[done])]);
      PutAppends(s.ring, data[done]);
      hide Contents, Put, WriterEnds;
      WriteEnds(s1, p, data, done + 1, from);
      WriteOneMore(s, s1, TryWrite(s, p, data, done, from), p, data, done, from);
    } else {
      WriteNoMore(s, p, data, done, from);
    }
  }

  lemma WriteNoMore(s: Sys, p: nat, data: seq<Byte>, done: nat, from: nat)
    requires Valid(s) && p < |s.proc| && done <= |data| && (done == |data| || Full(s.ring))
    ensures WriterEnds(s, TryWrite(s, p, data, done, from), p, data, done, from)
  {
    hide Contents;
    assert data[done..done] == [] && Moved(p, []) == [];
  }

  /** One byte written before the rest. */
  lemma WriteOneMore(s: Sys, s1: Sys, s': Sys, p: nat, data: seq<Byte>, done: nat, from: nat)
    requires Valid(s) && Valid(s1) && Valid(s') && done < |data| && WriterEnds(s1, s', p, data, done + 1, from)
    requires OnlyProc(s, s1, p) && s1.proc == s.proc && s1.read == s.read && |Contents(s.ring)| < 4095
    requires s1.written == s.written + [Item(p, data[done])] && Contents(s1.ring) == Contents(s.ring) + [data[done]]
    ensures WriterEnds(s, s', p, data, done, from)
  {
    hide Contents, Size, Shape, Full;
    var upto := Min(|data|, done + 4095 - |Contents(s.ring)|);
    assert data[done..upto] == [data[done]] + data[done + 1..upto];
    assert Moved(p, data[done..upto]) == [Item(p, data[done])] + Moved(p, data[done + 1..upto]);
    hide Moved;
    Associate(Contents(s.ring), data[done], data[done + 1..upto]);
    Associate(s.written, Item(p, data[done]), Moved(p, data[done + 1..upto]));
  }

  lemma Associate<T>(a: seq<T>, x: T, b: seq<T>)
    ensures (a + [x]) + b == a + ([x] + b)
  {}

  ghost predicate Idle(s: Sys, p: nat) { p < |s.proc| && !s.proc[p].Reading? && !s.proc[p].Writing? }

  /** What a stretch of running does, told from the state before it. */
  ghost predicate StretchDone(s: Sys, e: Event, s': Sys)
    requires Inv(s) && Valid(s')
  {
    match e
    case BeginRead(p, count) => if Idle(s, p) then ReaderEnds(s, s', p, count, |s.read|) else s' == s
    case BeginWrite(p, data) =>
      if !Idle(s, p) then s' == s
      else if s.ring.users != 2 then
        && OnlyProc(s, s', p) && s'.proc[p] == HasWritten(data, -1, |s.written|, |s.written|)
        && s'.ring == s.ring && s'.read == s.read && s'.written == s.written
      else WriterEnds(s, s', p, data, 0, |s.written|)
    case Continue(p) =>
      if Idle(s, p) || p >= |s.proc| then s' == s
      else
        (match s.proc[p]
         case Reading(count, from) => ReaderEnds(s, s', p, count, from)
         case Writing(data, done, from) => done <= |data| && WriterEnds(s, s', p, data, done, from)
         case _ => true)
    case SetUsers(n) => s' == s.(ring := s.ring.(users := n))
  }

  /** Every stretch of a call between two sleep points ends as it should. */
  lemma StretchEnds(s: Sys, e: Event)
    requires Inv(s)
    ensures StretchDone(s, e, Step(s, e))
  {
    hide Accounted, Fifo, ReadLoop, TryWrite, TryRead, ReaderEnds, WriterEnds;
    match e
    case BeginRead(p, count) => if Idle(s, p) { ReadEnds(s, p, count, |s.read|); }
    case BeginWrite(p, data) => if Idle(s, p) { WriteEnds(s, p, data, 0, |s.written|); }
    case Continue(p) =>
      if p < |s.proc| && s.proc[p].Reading? { ReadEnds(s, p, s.proc[p].count, s.proc[p].from); }
      if p < |s.proc| && s.proc[p].Writing? {
        DoneFits(s, p);
        WriteEnds(s, p, s.proc[p].data, s.proc[p].done, s.proc[p].from);
      }
    case SetUsers(n) =>
  }

  /** A call goes back to sleep exactly when it can do nothing more: a reader at an empty pipe, a writer at a full
      one, and only while the other end is open. */
  lemma SleepsOnlyWhenStuck(s: Sys, e: Event, p: nat)
    requires Inv(s) && p < |s.proc| && Runs(s, e, p)
    ensures
      var s' := Step(s, e);
      && (s'.proc[p].Reading? <==> (e.BeginRead? || s.proc[p].Reading?) && Contents(s.ring) == [] && s.ring.users == 2)
      && (s'.proc[p].Reading? ==> Contents(s'.ring) == [] && s'.ring.users == 2)
      && (s'.proc[p].Writing? ==> |Contents(s'.ring)| == 4095 && s'.ring.users == 2)
      && (s'.proc[p].HasWritten? && s'.proc[p] != s.proc[p] && s'.ring.users == 2 ==>
            s'.proc[p].ret == |s'.proc[p].data|)
  {
    StretchEnds(s, e);
    hide Accounted, Fifo, Step;
    if e.Continue? && s.proc[p].Writing? { DoneFits(s, p); }
  }

  lemma DoneFits(s: Sys, p: nat)
    requires p < |s.proc| && Accounted(s, p)
    ensures s.proc[p].Writing? ==> s.proc[p].done <= |s.proc[p].data|
  {}
}
