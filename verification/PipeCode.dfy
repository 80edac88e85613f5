/** read_pipe and write_pipe (fs/pipe.c:7-50) between two sleep points, on the pipe's page. */
module PipeCode {
  import opened Pipe

  lemma DropIs(r: Ring)
    requires Shape(r)
    ensures Drop(r) == r.(tail := (r.tail + 1) % 4096) && Front(r) == r.page[r.tail]
  {}

  class PipeInode {
    const page: array<Byte>
    var head: nat
    var tail: nat
    var users: nat

    ghost predicate Ready()
      reads this, page
    {
      page.Length == 4096 && head < 4096 && tail < 4096
    }

    ghost function State(): Ring
      reads this, page
    {
      Ring(page[..], head, tail, users)
    }

    /** get_pipe_inode. */
    constructor ()
      ensures Ready() && fresh(page) && Contents(State()) == [] && users == 2
    {
      page := new Byte[4096];
      head, tail, users := 0, 0, 2;
    }

    /** The copy loop of read_pipe into the caller's buffer. */
    method ReadBytes(buf: array<Byte>, count: nat) returns (n: nat)
      requires Ready() && count <= buf.Length && buf != page
      modifies this`tail, buf
      ensures Ready() && n == (if count < |Contents(old(State()))| then count else |Contents(old(State()))|)
      ensures buf[..n] == Contents(old(State()))[..n] && buf[n..] == old(buf[n..])
      ensures Contents(State()) == Contents(old(State()))[n..]
    {
      ghost var all := Contents(State());
      n := 0;
      EmptyIsEmpty(State());
      hide Contents, Size, Drop, Front;
      while n < count && head != tail
        invariant Ready() && 0 <= n <= count && n <= |all| && buf[..n] == all[..n] && buf[n..] == old(buf[..])[n..]
        invariant Contents(State()) == all[n..] && (head == tail <==> n == |all|)
      {
        ghost var r := State();
        DropTakesFront(r);
        DropIs(r);
        buf[n] := page[tail];
        tail := (tail + 1) % 4096;
        n := n + 1;
        assert State() == Drop(r) && all[n - 1..] == [all[n - 1]] + all[n..];
        EmptyIsEmpty(State());
      }
    }

    /** The loop of write_pipe from byte done of buf on, until the pipe is full or all is written. */
    method WriteBytes(buf: seq<Byte>, done: nat) returns (upto: nat)
      requires Ready() && done <= |buf|
      modifies this`head, page
      ensures Ready() && done <= upto <= |buf|
      ensures Contents(State()) == Contents(old(State())) + buf[done..upto]
      ensures upto == |buf| || |Contents(State())| == 4095
    {
      ghost var all := Contents(State());
      upto := done;
      hide Contents;
      while upto < |buf| && (head - tail) % 4096 != 4095
        invariant Ready() && done <= upto <= |buf| && Contents(State()) == all + buf[done..upto]
      {
        ghost var r := State();
        PutAppends(r, buf[upto]);
        page[head] := buf[upto];
        head := (head + 1) % 4096;
        assert State() == Put(r, buf[upto]);
        upto := upto + 1;
      }
    }
  }
}
