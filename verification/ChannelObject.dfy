/** The channel as one thread at a time uses it: the calls that do not wait, on the ring buffer in place,
    against a queue. */
module ChannelObject {
  import opened Channel
  import opened Numbers

  function Cell(head: int, i: int): int {
    (head + i) % CAP
  }

  /** The cells from `head` up to `tail`, around the ring. */
  function Window(cells: seq<int>, head: int, tail: int): (queue: seq<int>)
    requires |cells| == CAP
  {
    seq(Occupied(head, tail), i requires 0 <= i => cells[Cell(head, i)])
  }

  lemma OtherCell(head: int, tail: int, i: int)
    requires 0 <= head < CAP && 0 <= tail < CAP && 0 <= i < Occupied(head, tail)
    ensures Cell(head, i) != tail
  {
  }

  lemma OneMore(head: int, tail: int)
    requires 0 <= head < CAP && 0 <= tail < CAP && Occupied(head, tail) < CAP - 1
    ensures Occupied(head, (tail + 1) % CAP) == Occupied(head, tail) + 1
    ensures Cell(head, Occupied(head, tail)) == tail
  {
  }

  lemma WindowPush(cells: seq<int>, head: int, tail: int, v: int)
    requires |cells| == CAP && 0 <= head < CAP && 0 <= tail < CAP && Occupied(head, tail) < CAP - 1
    ensures Window(cells[tail := v], head, (tail + 1) % CAP) == Window(cells, head, tail) + [v]
  {
    var n := Occupied(head, tail);
    OneMore(head, tail);
    forall i | 0 <= i < n ensures cells[tail := v][Cell(head, i)] == cells[Cell(head, i)] {
      OtherCell(head, tail, i);
    }
  }

  lemma WindowPop(cells: seq<int>, head: int, tail: int)
    requires |cells| == CAP && 0 <= head < CAP && 0 <= tail < CAP && head != tail
    ensures Window(cells, head, tail) == [cells[head]] + Window(cells, (head + 1) % CAP, tail)
  {
    var n := Occupied(head, tail);
    assert n >= 1 && Occupied((head + 1) % CAP, tail) == n - 1;
    forall i | 1 <= i < n ensures Cell(head, i) == Cell((head + 1) % CAP, i - 1) {
    }
  }

  class RingChannel {
    var head: int
    var tail: int
    var closed: bool
    const data: array<int>

    ghost predicate Valid()
      reads this
    {
      data.Length == CAP && 0 <= head < CAP && 0 <= tail < CAP
    }

    ghost function Contents(): (queue: seq<int>)
      requires Valid()
      reads this, data
      ensures |queue| <= CAP - 1
    {
      Window(data[..], head, tail)
    }

    constructor ()
      ensures Valid() && fresh(data) && Contents() == [] && !closed
    {
      head, tail, closed := 0, 0, false;
      data := new int[CAP];
    }

    method TrySend(value: int) returns (sent: int)
      requires Valid()
      modifies this`tail, data
      ensures Valid()
      ensures sent == if |old(Contents())| < CAP - 1 then 1 else 0
      ensures Contents() == old(Contents()) + if sent == 1 then [AsWord(value)] else []
    {
      var len := Occupied(head, tail);
      if len >= CAP - 1 {
        return 0;
      }
      WindowPush(data[..], head, tail, AsWord(value));
      data[tail % CAP] := AsWord(value);
      tail := (tail + 1) % CAP;
      sent := 1;
      assert data[..] == old(data[..])[old(tail) := AsWord(value)];
    }

    method TryReceive() returns (value: int)
      requires Valid()
      modifies this`head
      ensures Valid()
      ensures old(Contents()) == [] ==> value == 0 && Contents() == []
      ensures old(Contents()) != [] ==>
                value == ToNumber(old(Contents())[0]) && Contents() == old(Contents())[1..]
    {
      if head == tail {
        return 0;
      }
      WindowPop(data[..], head, tail);
      value := ToNumber(data[head % CAP]);
      head := (head + 1) % CAP;
    }

    method Close()
      requires Valid()
      modifies this`closed
      ensures Valid() && closed && Contents() == old(Contents())
    {
      closed := true;
    }

    method Len() returns (len: int)
      requires Valid()
      ensures len == |Contents()|
    {
      len := Occupied(head, tail);
    }

    method IsFull() returns (full: bool)
      requires Valid()
      ensures full <==> |Contents()| == CAP - 1
    {
      var len := Len();
      full := len >= CAP - 1;
    }
  }
}
