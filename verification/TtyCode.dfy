/** copy_to_cooked and the read loop of tty_read on the two ring buffers of a terminal, with the ring
    macros of include/linux/tty.h:24-34. */
module TtyCode {
  import opened Tty

  /** A tty_queue: a buffer of TTY_BUF_SIZE characters with its head and tail. */
  datatype Queue = Queue(buf: seq<int>, head: nat, tail: nat)

  predicate Shape(q: Queue) { |q.buf| == 1024 && q.head < 1024 && q.tail < 1024 }

  /** The macro LEFT. */
  function LeftOf(head: nat, tail: nat): (n: nat)
    ensures n < 1024
  {
    (tail - head - 1) % 1024
  }

  /** The macro CHARS. */
  function Chars(q: Queue): (n: nat)
    requires Shape(q)
    ensures n < 1024
  {
    (q.head - q.tail) % 1024
  }

  /** The characters in the queue, oldest first. */
  function Items(q: Queue): (s: seq<int>)
    requires Shape(q)
    ensures |s| == Chars(q)
  {
    seq(Chars(q), k requires 0 <= k < Chars(q) => q.buf[(q.tail + k) % 1024])
  }

  /** EMPTY and FULL mean what they say: LEFT is the room for 1023 characters that is left. */
  lemma LeftIsRoom(q: Queue)
    requires Shape(q)
    ensures LeftOf(q.head, q.tail) == 1023 - |Items(q)| && (q.head == q.tail <==> Items(q) == [])
  {
    assert |Items(q)| == Chars(q);
  }

  lemma SlotOf(q: Queue, k: nat)
    requires Shape(q) && k <= Chars(q)
    ensures (q.tail + k) % 1024 == q.head <==> k == Chars(q)
  {}

  function Put(q: Queue, c: int): (q': Queue)
    requires Shape(q)
    ensures Shape(q')
  {
    Queue(q.buf[q.head := c], (q.head + 1) % 1024, q.tail)
  }

  function Get(q: Queue): (q': Queue)
    requires Shape(q)
    ensures Shape(q')
  {
    q.(tail := (q.tail + 1) % 1024)
  }

  function Dec(q: Queue): (q': Queue)
    requires Shape(q)
    ensures Shape(q')
  {
    q.(head := (q.head - 1) % 1024)
  }

  lemma PutEnters(q: Queue, c: int)
    requires Shape(q) && Chars(q) < 1023
    ensures Items(Put(q, c)) == Items(q) + [c]
  {
    assert Chars(Put(q, c)) == Chars(q) + 1;
    forall k | 0 <= k <= Chars(q) ensures Items(Put(q, c))[k] == (Items(q) + [c])[k] {
      SlotOf(q, k);
    }
  }

  lemma PutIs(q: Queue, c: int)
    requires Shape(q)
    ensures Put(q, c) == Queue(q.buf[q.head := c], (q.head + 1) % 1024, q.tail) && |Items(q)| == Chars(q)
  {}

  /** The head meets the tail exactly when 1023 characters are there already. */
  lemma NextIsTail(q: Queue)
    requires Shape(q)
    ensures (q.head + 1) % 1024 == q.tail <==> |Items(q)| == 1023
  {}

  /** The slot of the head holds no character. */
  lemma PutFull(q: Queue, c: int)
    requires Shape(q)
    ensures Items(q.(buf := q.buf[q.head := c])) == Items(q)
  {
    var q' := q.(buf := q.buf[q.head := c]);
    forall k | 0 <= k < Chars(q) ensures Items(q')[k] == Items(q)[k] {
      SlotOf(q, k);
    }
  }

  lemma CharsOf(q: Queue)
    requires Shape(q)
    ensures |Items(q)| == (q.head - q.tail) % 1024
  {}

  /** With the head set back the first characters are left. */
  lemma FirstItems(q: Queue, head: nat, n: nat)
    requires Shape(q) && head < 1024 && n == (head - q.tail) % 1024 <= |Items(q)|
    ensures Items(q.(head := head)) == Items(q)[..n]
  {}

  lemma GetTakes(q: Queue)
    requires Shape(q) && q.head != q.tail
    ensures Items(q) == [q.buf[q.tail]] + Items(Get(q))
  {
    assert Chars(Get(q)) + 1 == Chars(q);
    forall k | 0 <= k < Chars(q) ensures Items(q)[k] == ([q.buf[q.tail]] + Items(Get(q)))[k] {
      NextSlot(q.tail, k);
    }
  }

  lemma NextSlot(tail: nat, k: nat)
    requires tail < 1024 && k < 1024
    ensures k > 0 ==> ((tail + 1) % 1024 + (k - 1)) % 1024 == (tail + k) % 1024
    ensures k == 0 ==> (tail + k) % 1024 == tail
  {}

  /** DEC(head) takes back the last character, which LAST names. */
  lemma DecTakesBack(q: Queue)
    requires Shape(q) && q.head != q.tail
    ensures Items(q) == Items(Dec(q)) + [q.buf[(q.head - 1) % 1024]]
  {
    CharsDec(q);
    LastSlot(q);
    forall k | 0 <= k < Chars(q) ensures Items(q)[k] == (Items(Dec(q)) + [q.buf[(q.head - 1) % 1024]])[k] {
      if k == Chars(q) - 1 { assert (q.tail + k) % 1024 == (q.head - 1) % 1024; }
    }
  }

  lemma CharsDec(q: Queue)
    requires Shape(q) && q.head != q.tail
    ensures Chars(Dec(q)) + 1 == Chars(q)
  {
    CharsIs(q);
    CharsIs(Dec(q));
    assert Dec(q).head == if q.head == 0 then 1023 else q.head - 1;
    hide Chars, Dec;
  }

  lemma CharsIs(q: Queue)
    requires Shape(q)
    ensures Chars(q) == if q.head >= q.tail then q.head - q.tail else q.head - q.tail + 1024
  {}

  lemma LastSlot(q: Queue)
    requires Shape(q) && q.head != q.tail
    ensures Chars(q) > 0 && (q.tail + (Chars(q) - 1)) % 1024 == (q.head - 1) % 1024
  {}

  /** What the code knows of a line: the ring, without the past. */
  function Forget(l: Line): (r: Line)
    requires Tty.Valid(l)
    ensures Tty.Valid(r) && Ring(r) == Ring(l)
  {
    Line(Ring(l), 0, l.data, l.stopped)
  }

  /** Editing and reading depend on nothing but the ring. */
  lemma CookForgets(e: Settings, l: Line, raw: int)
    requires Tty.Valid(l) && Left(l) > 0
    ensures Forget(CookOne(e, l, raw)) == CookOne(e, Forget(l), raw)
  {
    var l' := CookOne(e, l, raw);
    if ActionFor(e, raw).Erase? && l' != l { assert Ring(l') == Ring(l)[..|Ring(l)| - 1]; }
    if ActionFor(e, raw).Enter? { assert Ring(l') == Ring(l) + [ActionFor(e, raw).c]; }
  }

  lemma {:induction false} TakeForgets(e: Settings, l: Line, k: Line, nr: nat, out: seq<int>)
    requires Tty.Valid(l) && Tty.Valid(k) && Forget(l) == Forget(k) && nr > 0 && Ring(l) != []
    ensures
      var (l', out') := TakeLoop(e, l, nr, out);
      var (k', out2) := TakeLoop(e, k, nr, out);
      Forget(l') == Forget(k') && out' == out2
    decreases nr
  {
    TakeIs(e, l);
    TakeIs(e, k);
    SameRing(l, k);
    NextForgets(e, l, k);
    hide TakeNext, Forget, Ring;
    if !(l.kept[l.floor] == e.eof && e.canon) && nr > 1 && Ring(TakeNext(e, l)) != [] {
      TakeForgets(e, TakeNext(e, l), TakeNext(e, k), nr - 1, out + [l.kept[l.floor]]);
    }
  }

  lemma SameRing(l: Line, k: Line)
    requires Tty.Valid(l) && Tty.Valid(k) && Forget(l) == Forget(k)
    ensures Ring(l) == Ring(k) && l.data == k.data && l.stopped == k.stopped
    ensures Ring(l) != [] ==> l.kept[l.floor] == k.kept[k.floor]
  {
    assert Ring(l) == Ring(k);
    assert Ring(l) != [] ==> Ring(l)[0] == Ring(k)[0];
  }

  lemma NextForgets(e: Settings, l: Line, k: Line)
    requires Tty.Valid(l) && Tty.Valid(k) && Forget(l) == Forget(k) && Ring(l) != [] && Ring(k) != []
    ensures Forget(TakeNext(e, l)) == Forget(TakeNext(e, k)) && Ring(TakeNext(e, l)) == Ring(TakeNext(e, k))
  {
    SameRing(l, k);
    assert Ring(TakeNext(e, l)) == Ring(l)[1..];
    assert Ring(TakeNext(e, k)) == Ring(k)[1..];
  }

  lemma TakeIs(e: Settings, l: Line)
    requires Tty.Valid(l) && Ring(l) != []
    ensures TakeNext(e, l)
      == l.(floor := l.floor + 1, data := if Ring(l)[0] == 10 || Ring(l)[0] == e.eof then l.data - 1 else l.data)
    ensures Ring(l) == [l.kept[l.floor]] + Ring(TakeNext(e, l))
  {}

  /** The secondary queue and its data field as a line without a past. */
  ghost function LineOf(q: Queue, data: int, stopped: bool): (l: Line)
    requires Shape(q)
    ensures Tty.Valid(l) && Ring(l) == Items(q)
  {
    Line(Items(q), 0, data, stopped)
  }

  class Terminal {
    const readBuf: array<int>
    var readHead: nat
    var readTail: nat
    const cookedBuf: array<int>
    var cookedHead: nat
    var cookedTail: nat
    var data: int
    var stopped: bool

    ghost predicate Ready()
      reads this, readBuf, cookedBuf
    {
      readBuf != cookedBuf && Shape(ReadQ()) && Shape(Secondary())
    }

    ghost function ReadQ(): Queue
      reads this, readBuf
    {
      Queue(readBuf[..], readHead, readTail)
    }

    ghost function Secondary(): Queue
      reads this, cookedBuf
    {
      Queue(cookedBuf[..], cookedHead, cookedTail)
    }

    ghost function State(): Line
      reads this, readBuf, cookedBuf
      requires Ready()
    {
      LineOf(Secondary(), data, stopped)
    }

    constructor ()
      ensures Ready() && fresh(readBuf) && fresh(cookedBuf) && Items(ReadQ()) == [] && State() == Fresh().line
    {
      readBuf := new int[1024];
      cookedBuf := new int[1024];
      readHead, readTail, cookedHead, cookedTail := 0, 0, 0, 0;
      data, stopped := 0, false;
      new;
      LeftIsRoom(ReadQ());
      LeftIsRoom(Secondary());
    }

    /** put_queue: the characters of a key enter the read queue together, or not at all when they do not fit. */
    method PutQueue(cs: seq<int>) returns (ok: bool)
      requires Ready() && cs != []
      modifies this`readHead, readBuf
      ensures Ready() && State() == old(State()) && ok == (|Items(old(ReadQ()))| + |cs| <= 1023)
      ensures Items(ReadQ()) == if ok then Items(old(ReadQ())) + cs else Items(old(ReadQ()))
    {
      ghost var q0 := ReadQ();
      var h: nat, k: nat := readHead, 0;
      CharsOf(q0);
      hide Items, Chars, Put;
      assert Items(q0) + cs[..0] == Items(q0);
      while k < |cs|
        invariant 0 <= k <= |cs| && h < 1024 && Ready() && readHead == q0.head && State() == old(State())
        invariant Items(Queue(readBuf[..], h, readTail)) == Items(q0) + cs[..k] && |Items(q0)| + k <= 1023
      {
        ghost var q := Queue(readBuf[..], h, readTail);
        PutIs(q, cs[k]);
        LeftIsRoom(q);
        readBuf[h] := cs[k];
        h := (h + 1) % 1024;
        NextIsTail(q);
        if h == readTail {
          PutFull(q, cs[k]);
          FirstItems(Queue(readBuf[..], q.head, readTail), q0.head, |Items(q0)|);
          assert Items(ReadQ()) == Items(q0);
          return false;
        }
        PutEnters(q, cs[k]);
        assert cs[..k + 1] == cs[..k] + [cs[k]];
        k := k + 1;
      }
      assert cs[..k] == cs;
      readHead := h;
      ok := true;
    }

    /** The tests of copy_to_cooked on a character, up to what is to be done with it. */
    method Classify(e: Settings, raw: int) returns (action: Action)
      ensures action == ActionFor(e, raw)
    {
      var c := raw;
      if c == 13 {
        if e.crnl {
          c := 10;
        } else if e.nocr {
          return Skip;
        }
      } else if c == 10 && e.nlcr {
        c := 13;
      }
      if e.uclc { c := ToLower(c); }
      if e.canon {
        if c == e.erase { return Erase; }
        if c == e.stop { return Flow(true); }
        if c == e.start { return Flow(false); }
      }
      if !e.isig && c == e.intr { return Skip; }
      return Enter(c);
    }

    /** Erasing: nothing happens at an empty ring, a newline or an EOF character. */
    method EraseLast(e: Settings)
      requires Ready()
      modifies this`cookedHead
      ensures Ready()
      ensures Items(Secondary()) == var s := old(Items(Secondary())); if s == [] || Break(e, s[|s| - 1]) then s
        else s[..|s| - 1]
    {
      LeftIsRoom(Secondary());
      ghost var q := Secondary();
      hide Items;
      if cookedHead == cookedTail { return; }
      DecTakesBack(q);
      var last := cookedBuf[(cookedHead - 1) % 1024];
      if last == 10 || last == e.eof { return; }
      cookedHead := (cookedHead - 1) % 1024;
      assert Secondary() == Dec(q);
    }

    method EnterChar(e: Settings, c: int)
      requires Ready() && LeftOf(cookedHead, cookedTail) != 0
      modifies this`cookedHead, this`data, cookedBuf
      ensures Ready() && Items(Secondary()) == old(Items(Secondary())) + [c]
      ensures data == old(data) + if Break(e, c) then 1 else 0
    {
      LeftIsRoom(Secondary());
      PutEnters(Secondary(), c);
      ghost var q := Put(Secondary(), c);
      hide Items;
      if c == 10 || c == e.eof { data := data + 1; }
      cookedBuf[cookedHead] := c;
      cookedHead := (cookedHead + 1) % 1024;
      assert Secondary() == q;
    }

    method GetRaw() returns (raw: int)
      requires Ready() && readHead != readTail
      modifies this`readTail
      ensures Ready() && old(Items(ReadQ())) == [raw] + Items(ReadQ())
    {
      GetTakes(ReadQ());
      ghost var q := ReadQ();
      hide Items;
      raw := readBuf[readTail];
      readTail := (readTail + 1) % 1024;
      assert ReadQ() == Get(q);
    }

    /** copy_to_cooked. */
    method CopyToCooked(e: Settings)
      requires Ready()
      modifies this, cookedBuf
      ensures Ready()
      ensures
        var s := CookAll(e, Sys(old(State()), old(Items(ReadQ())), [], [], false));
        State() == s.line && Items(ReadQ()) == s.readq
    {
      ghost var start := Sys(State(), Items(ReadQ()), [], [], false);
      ghost var now := start;
      hide CookNext, CookOne, Items, ActionFor, CookAll, LeftOf;
      LeftIsRoom(ReadQ());
      LeftIsRoom(Secondary());
      while readHead != readTail && LeftOf(cookedHead, cookedTail) != 0
        invariant Ready() && now.line == State() && now.readq == Items(ReadQ())
        invariant CookAll(e, now) == CookAll(e, start)
        invariant (readHead == readTail <==> now.readq == []) && LeftOf(cookedHead, cookedTail) == Left(now.line)
        decreases |now.readq|
      {
        CookTurn(e, now);
        CookNextIs(e, now);
        now := CookNext(e, now);
        LeftIsRoom(ReadQ());
        LeftIsRoom(Secondary());
      }
      CookAllEnds(e, now);
    }

    /** One turn of the loop. */
    method CookTurn(e: Settings, ghost now: Sys)
      requires Ready() && now.line == State() && now.readq == Items(ReadQ()) && now.readq != [] && Left(now.line) > 0
        && readHead != readTail
      requires LeftOf(cookedHead, cookedTail) != 0
      modifies this, cookedBuf
      ensures Ready() && State() == CookNext(e, now).line && Items(ReadQ()) == CookNext(e, now).readq
    {
      hide CookNext, CookOne, Items, ActionFor, LeftOf;
      CookNextIs(e, now);
      var raw := GetRaw();
      ApplyAction(e, raw);
    }

    method ApplyAction(e: Settings, raw: int)
      requires Ready() && LeftOf(cookedHead, cookedTail) != 0 && Left(State()) > 0
      modifies this`cookedHead, this`data, this`stopped, cookedBuf
      ensures Ready() && State() == CookOne(e, old(State()), raw)
    {
      hide Items, ActionFor;
      var action := Classify(e, raw);
      match action
      case Skip =>
      case Flow(stop) => stopped := stop;
      case Erase => EraseLast(e);
      case Enter(c) => EnterChar(e, c);
    }

    /** GETCH from the secondary queue, with the data field kept up. */
    method TakeChar(e: Settings, ghost now: Line) returns (c: int)
      requires Ready() && cookedHead != cookedTail && Tty.Valid(now) && Forget(now) == State() && Ring(now) != []
      modifies this`cookedTail, this`data
      ensures Ready() && c == now.kept[now.floor] && State() == Forget(TakeNext(e, now))
    {
      GetTakes(Secondary());
      ghost var q := Secondary();
      hide Items, TakeNext, Break, LeftOf;
      TakeIs(e, now);
      c := cookedBuf[cookedTail];
      assert c == Ring(now)[0];
      cookedTail := (cookedTail + 1) % 1024;
      assert Secondary() == Get(q);
      if c == e.eof || c == 10 { data := data - 1; }
      assert Ring(TakeNext(e, now)) == Items(Secondary());
    }

    /** The do loop of tty_read; out is what is put into the reader's buffer. */
    method ReadLoop(e: Settings, nr: nat) returns (out: seq<int>)
      requires Ready() && nr > 0 && MayRead(e, State())
      modifies this`cookedTail, this`data
      ensures Ready()
      ensures
        var (l, taken) := TakeLoop(e, old(State()), nr, []);
        State() == Forget(l) && out == taken
    {
      ghost var start, now := State(), State();
      var left := nr;
      out := [];
      LeftIsRoom(Secondary());
      hide Items, TakeNext, Break, LeftOf;
      while true
        invariant Ready() && left > 0 && cookedHead != cookedTail && Tty.Valid(now) && Forget(now) == State()
          && Ring(now) != []
        invariant TakeLoop(e, now, left, out) == TakeLoop(e, start, nr, [])
        decreases left
      {
        ghost var next := TakeNext(e, now);
        var c := TakeChar(e, now);
        LeftIsRoom(Secondary());
        if c == e.eof && e.canon {
          now := next;
          return;
        }
        out := out + [c];
        left := left - 1;
        now := next;
        if left == 0 || cookedHead == cookedTail { return; }
      }
    }
  }

  lemma CookAllEnds(e: Settings, s: Sys)
    requires Tty.Valid(s.line) && (s.readq == [] || Left(s.line) == 0)
    ensures CookAll(e, s) == s
  {}

  lemma CookNextIs(e: Settings, s: Sys)
    requires Tty.Valid(s.line) && s.readq != [] && Left(s.line) > 0
    ensures CookNext(e, s).line == CookOne(e, s.line, s.readq[0]) && CookNext(e, s).readq == s.readq[1..]
    ensures CookAll(e, s) == CookAll(e, CookNext(e, s))
  {}
}
