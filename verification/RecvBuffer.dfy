/** The receive buffer of a socket: a queue of message chunks read as one stream of bytes. */
module RecvBuffer {
  import opened Wrappers

  type Byte = x: int | 0 <= x < 256
  type Bytes = seq<Byte>

  /** The stream that a queue of chunks stands for. */
  function Flat(chunks: seq<Bytes>): Bytes {
    if chunks == [] then [] else chunks[0] + Flat(chunks[1..])
  }

  lemma {:induction false} FlatAppend(chunks: seq<Bytes>, chunk: Bytes)
    ensures Flat(chunks + [chunk]) == Flat(chunks) + chunk
    decreases |chunks|
  {
    if chunks == [] {
      assert [chunk][1..] == [] && Flat([chunk]) == chunk + Flat([]);
    } else {
      assert (chunks + [chunk])[1..] == chunks[1..] + [chunk];
      FlatAppend(chunks[1..], chunk);
    }
  }

  function Min(a: int, b: int): int {
    if a < b then a else b
  }

  function Max(a: int, b: int): int {
    if a < b then b else a
  }

  /** How many bytes a read of `len` gets. */
  function Available(chunks: seq<Bytes>, len: int): (n: nat)
    ensures n <= |Flat(chunks)|
  {
    Min(Max(len, 0), |Flat(chunks)|)
  }

  /** What `read_byte` answers: no chunk at all, a chunk without a first byte, or a byte. */
  datatype ByteRead = NoData | Undefined | Got(value: Byte)

  /** The head chunk without its first `k` bytes, or no head chunk if that is all of it. */
  function DropFront(chunks: seq<Bytes>, k: nat): (rest: seq<Bytes>)
    requires chunks != [] && k <= |chunks[0]|
    ensures Flat(rest) == Flat(chunks)[k..]
  {
    assert Flat(chunks) == chunks[0] + Flat(chunks[1..]);
    if k == |chunks[0]| then chunks[1..]
    else
      assert ([chunks[0][k..]] + chunks[1..])[1..] == chunks[1..];
      [chunks[0][k..]] + chunks[1..]
  }

  /** The queue after a read that asks for `want` bytes: it takes chunks off the front until it has enough. */
  function Drop(chunks: seq<Bytes>, want: int): (rest: seq<Bytes>)
    ensures Flat(rest) == Flat(chunks)[Available(chunks, want)..]
    decreases |chunks|
  {
    if chunks == [] || want <= 0 then chunks
    else
      assert Flat(chunks) == chunks[0] + Flat(chunks[1..]);
      if want < |chunks[0]| then DropFront(chunks, want) else Drop(chunks[1..], want - |chunks[0]|)
  }

  /** Where the queue is cut by a read: the chunks before `k` and the first `cut` bytes of that chunk are gone, and
      all chunks behind it are as they were. */
  lemma {:induction false} DropKeepsChunks(chunks: seq<Bytes>, want: int) returns (k: nat, cut: nat)
    ensures k <= |chunks| && |Flat(chunks[..k])| + cut == Available(chunks, want)
    ensures if k == |chunks| then cut == 0 && Drop(chunks, want) == []
            else cut <= |chunks[k]| && Drop(chunks, want) == [chunks[k][cut..]] + chunks[k + 1..]
    ensures cut > 0 ==> cut < |chunks[k]|
    decreases |chunks|
  {
    hide *;
    k, cut := 0, 0;
    if chunks == [] {
      DropNothing(want);
    } else if want < |chunks[0]| {
      DropWithin(chunks, want);
      cut := if want <= 0 then 0 else want;
    } else if want <= 0 {
      DropWithin(chunks, want);
    } else {
      DropHead(chunks, want);
      k, cut := DropKeepsChunks(chunks[1..], want - |chunks[0]|);
      PartsBehind(chunks, k);
      k := k + 1;
    }
  }

  lemma DropNothing(want: int)
    ensures Drop([], want) == [] && Available([], want) == 0 && Flat([]) == []
  {
  }

  lemma DropWithin(chunks: seq<Bytes>, want: int)
    requires chunks != [] && (want <= 0 || want < |chunks[0]|)
    ensures var cut := if want <= 0 then 0 else want;
            Drop(chunks, want) == [chunks[0][cut..]] + chunks[1..] && Available(chunks, want) == cut
    ensures chunks[..0] == [] && Flat(chunks[..0]) == []
  {
    assert Flat(chunks) == chunks[0] + Flat(chunks[1..]);
    hide Flat;
    assert chunks == [chunks[0][0..]] + chunks[1..];
    assert chunks[..0] == [];
    assert Flat([]) == [] by {
      DropNothing(0);
    }
  }

  lemma DropHead(chunks: seq<Bytes>, want: int)
    requires chunks != [] && want > 0 && want >= |chunks[0]|
    ensures Drop(chunks, want) == Drop(chunks[1..], want - |chunks[0]|)
    ensures Available(chunks, want) == |chunks[0]| + Available(chunks[1..], want - |chunks[0]|)
  {
    assert Flat(chunks) == chunks[0] + Flat(chunks[1..]);
    hide Flat, DropFront;
  }

  /** The first chunks and what follows them, seen from behind the head. */
  lemma PartsBehind(chunks: seq<Bytes>, k: nat)
    requires chunks != [] && k <= |chunks[1..]|
    ensures |Flat(chunks[..k + 1])| == |chunks[0]| + |Flat(chunks[1..][..k])|
    ensures chunks[1..][k..] == chunks[k + 1..] && (k < |chunks[1..]| ==> chunks[1..][k + 1..] == chunks[k + 2..])
  {
    assert chunks[..k + 1][1..] == chunks[1..][..k];
  }

  /** The head chunk loses its first byte, and goes if that was all. */
  lemma HeadByte(chunks: seq<Bytes>, rest: seq<Bytes>)
    requires chunks != [] && chunks[0] != []
    requires rest == if |chunks[0]| == 1 then chunks[1..] else [chunks[0][1..]] + chunks[1..]
    ensures chunks == [[chunks[0][0]]] + rest ||
            (rest != [] && rest[0] != [] && chunks == [[chunks[0][0]] + rest[0]] + rest[1..])
  {
    var b := chunks[0];
    if |b| == 1 {
      assert b == [b[0]] && chunks == [b] + chunks[1..];
    } else {
      assert [b[0]] + b[1..] == b && rest[1..] == chunks[1..];
    }
  }

  class Socket {
    var recvBuf: seq<Bytes>
    /** All bytes that have arrived, and all that the reads have handed out. */
    ghost var arrived: Bytes
    ghost var delivered: Bytes

    /** Nothing is lost, duplicated or reordered between arrival and delivery. */
    ghost predicate Valid()
      reads this
    {
      delivered + Flat(recvBuf) == arrived
    }

    constructor ()
      ensures Valid() && recvBuf == [] && delivered == []
    {
      recvBuf, arrived, delivered := [], [], [];
    }

    method OnMessage(data: Bytes)
      requires Valid()
      modifies this
      ensures Valid()
      ensures arrived == old(arrived) + data && delivered == old(delivered)
      ensures recvBuf == old(recvBuf) + [data]
    {
      FlatAppend(recvBuf, data);
      recvBuf := recvBuf + [data];
      arrived := arrived + data;
    }

    /** Hands out the head chunk. */
    method Read() returns (r: Option<Bytes>)
      requires Valid()
      modifies this
      ensures Valid() && arrived == old(arrived)
      ensures r.None? <==> old(recvBuf) == []
      ensures r.None? ==> recvBuf == old(recvBuf) && delivered == old(delivered)
      ensures r.Some? ==> old(recvBuf) == [r.value] + recvBuf && delivered == old(delivered) + r.value
    {
      if recvBuf == [] {
        return None;
      }
      r := Some(recvBuf[0]);
      delivered := delivered + recvBuf[0];
      recvBuf := recvBuf[1..];
      assert old(recvBuf) == [r.value] + recvBuf;
    }

    /** Hands out the next byte of the stream, unless the head chunk is empty: then the answer is undefined,
        and the chunk stays where it is. */
    method ReadByte() returns (r: ByteRead)
      requires Valid()
      modifies this
      ensures Valid() && arrived == old(arrived)
      ensures r.NoData? <==> old(recvBuf) == []
      ensures r.Undefined? <==> old(recvBuf) != [] && old(recvBuf)[0] == []
      ensures !r.Got? ==> recvBuf == old(recvBuf) && delivered == old(delivered)
      ensures r.Got? ==> Flat(old(recvBuf)) == [r.value] + Flat(recvBuf) && delivered == old(delivered) + [r.value]
      ensures r.Got? ==> old(recvBuf) == [[r.value]] + recvBuf
                         || (recvBuf != [] && recvBuf[0] != [] && old(recvBuf) == [[r.value] + recvBuf[0]] + recvBuf[1..])
      ensures r.Got? ==> recvBuf == DropFront(old(recvBuf), 1)
    {
      if recvBuf == [] {
        return NoData;
      }
      var buf := recvBuf[0];
      if buf == [] {
        recvBuf := recvBuf[0 := buf];
        return Undefined;
      }
      r := Got(buf[0]);
      ghost var rest := DropFront(recvBuf, 1);
      if |buf| == 1 {
        recvBuf := recvBuf[1..];
      } else {
        recvBuf := recvBuf[0 := buf[1..]];
      }
      assert recvBuf == rest;
      assert Flat(old(recvBuf))[0] == buf[0];
      HeadByte(old(recvBuf), recvBuf);
      delivered := delivered + [buf[0]];
    }

    /** Copies from the head chunk as much as it holds of the `want` bytes still asked for. */
    method TakeFromHead(dst: array<Byte>, at: nat, want: nat) returns (take: nat)
      requires Valid() && recvBuf != [] && want > 0 && at + Min(|recvBuf[0]|, want) <= dst.Length
      modifies this, dst
      ensures Valid() && arrived == old(arrived)
      ensures take == Min(|old(recvBuf)[0]|, want) <= |Flat(old(recvBuf))|
      ensures Flat(recvBuf) == Flat(old(recvBuf))[take..]
      ensures delivered == old(delivered) + Flat(old(recvBuf))[..take]
      ensures Written(old(dst[..]), dst[..], at, Flat(old(recvBuf)), take)
      ensures take == want || |recvBuf| < |old(recvBuf)|
      ensures Drop(recvBuf, want - take) == Drop(old(recvBuf), want)
    {
      hide Drop, Flat, Min;
      TakenWithin(recvBuf, want);
      take := Min(|recvBuf[0]|, want);
      HeadFirst(recvBuf, take);
      DropAfterHead(recvBuf, want);
      Resplit(delivered, Flat(recvBuf), take);
      CopyInto(dst, at, recvBuf[0][..take]);
      delivered := delivered + recvBuf[0][..take];
      recvBuf := DropFront(recvBuf, take);
    }

    /** Copies exactly `min(len, available)` bytes of the stream to consecutive places from `at` on, over
        however many chunks that takes, and leaves everything else in `dst` alone. */
    method ReadBytes(dst: array<Byte>, at: nat, len: int) returns (read: nat)
      requires Valid() && at + Available(recvBuf, len) <= dst.Length
      modifies this, dst
      ensures Valid() && arrived == old(arrived)
      ensures read == Available(old(recvBuf), len)
      ensures Written(old(dst[..]), dst[..], at, Flat(old(recvBuf)), read)
      ensures recvBuf == Drop(old(recvBuf), len)
      ensures delivered == old(delivered) + Flat(old(recvBuf))[..read]
    {
      hide Flat, Valid, Written, Available, Min, Drop, DropFront, Max;
      read := 0;
      ghost var all, before := Flat(recvBuf), dst[..];
      ghost var goal := Available(recvBuf, len);
      NothingWritten(before, at, all);
      while read < len && recvBuf != []
        invariant Valid() && arrived == old(arrived)
        invariant read <= goal && at + goal <= dst.Length
        invariant Flat(recvBuf) == all[read..]
        invariant Drop(recvBuf, len - read) == Drop(old(recvBuf), len)
        invariant delivered == old(delivered) + all[..read]
        invariant Written(before, dst[..], at, all, read)
        decreases len - read, |recvBuf|
      {
        ghost var now := dst[..];
        HeadWithin(old(recvBuf), recvBuf, read, len);
        var take := TakeFromHead(dst, at + read, len - read);
        WriteMore(before, now, dst[..], at, all, read, take);
        TakeMore(old(delivered), all, read, take);
        read := read + take;
      }
      AllTaken(old(recvBuf), recvBuf, read, len);
    }
  }

  lemma NothingWritten(before: Bytes, at: nat, all: Bytes)
    requires at <= |before|
    ensures Written(before, before, at, all, 0)
  {
  }

  lemma AllTaken(start: seq<Bytes>, chunks: seq<Bytes>, read: nat, len: int)
    requires read <= Available(start, len) && Flat(chunks) == Flat(start)[read..] && (read >= len || chunks == [])
    ensures read == Available(start, len)
    ensures Drop(chunks, len - read) == chunks
  {
  }

  /** `now` is `before` with the first `n` bytes of the stream written from `at` on. */
  ghost predicate Written(before: Bytes, now: Bytes, at: nat, all: Bytes, n: nat) {
    n <= |all| && at + n <= |before| && now == before[..at] + all[..n] + before[at + n..]
  }

  lemma WriteMore(before: Bytes, now: Bytes, next: Bytes, at: nat, all: Bytes, read: nat, take: nat)
    requires Written(before, now, at, all, read) && read + take <= |all|
    requires Written(now, next, at + read, all[read..], take)
    ensures Written(before, next, at, all, read + take)
  {
    assert all[..read + take] == all[..read] + all[read..][..take];
    assert now[..at + read] == before[..at] + all[..read];
    assert now[at + read + take..] == before[at + read + take..];
  }

  lemma TakenWithin(chunks: seq<Bytes>, want: nat)
    requires chunks != []
    ensures 0 <= Min(|chunks[0]|, want) <= |chunks[0]| && Min(|chunks[0]|, want) <= want
    ensures Min(|chunks[0]|, want) == want || |DropFront(chunks, Min(|chunks[0]|, want))| < |chunks|
  {
  }

  lemma Resplit(start: Bytes, rest: Bytes, k: nat)
    requires k <= |rest|
    ensures start + rest == start + rest[..k] + rest[k..]
  {
  }

  lemma DropAfterHead(chunks: seq<Bytes>, want: nat)
    requires chunks != [] && want > 0
    ensures var take := Min(|chunks[0]|, want);
            Drop(DropFront(chunks, take), want - take) == Drop(chunks, want)
  {
  }

  lemma HeadFirst(chunks: seq<Bytes>, take: nat)
    requires chunks != [] && take <= |chunks[0]|
    ensures take <= |Flat(chunks)| && chunks[0][..take] == Flat(chunks)[..take]
  {
    assert Flat(chunks) == chunks[0] + Flat(chunks[1..]);
  }

  lemma HeadWithin(start: seq<Bytes>, chunks: seq<Bytes>, read: nat, len: int)
    requires chunks != [] && read <= Available(start, len) && read < len && Flat(chunks) == Flat(start)[read..]
    ensures read + Min(|chunks[0]|, len - read) <= Available(start, len) <= |Flat(start)|
  {
    HeadFirst(chunks, Min(|chunks[0]|, len - read));
  }

  lemma TakeMore(start: Bytes, all: Bytes, read: nat, take: nat)
    requires read + take <= |all|
    ensures start + all[..read + take] == start + all[..read] + all[read..][..take]
    ensures all[read..][take..] == all[read + take..]
  {
    assert all[..read + take] == all[..read] + all[read..][..take];
  }

  method CopyInto(dst: array<Byte>, at: nat, src: Bytes)
    requires at + |src| <= dst.Length
    modifies dst
    ensures dst[..] == old(dst[..at]) + src + old(dst[at + |src|..])
  {
    for i := 0 to |src|
      invariant dst[..] == old(dst[..at]) + src[..i] + old(dst[at + i..])
    {
      dst[at + i] := src[i];
    }
  }

  // ---------- chunking cannot be observed ----------

  /** One event on a socket: a message, or a read of one byte or of several. */
  datatype Event = Arrive(chunk: Bytes) | TakeByte | TakeBytes(len: int)

  ghost predicate NoEmptyChunk(chunks: seq<Bytes>) {
    forall c :: c in chunks ==> c != []
  }

  lemma {:induction false} DropKeepsNonEmpty(chunks: seq<Bytes>, want: int)
    requires NoEmptyChunk(chunks)
    ensures NoEmptyChunk(Drop(chunks, want))
    decreases |chunks|
  {
    hide *;
    if chunks == [] {
      DropNothing(want);
    } else if want <= 0 || want < |chunks[0]| {
      DropWithin(chunks, want);
      CutHead(chunks, if want <= 0 then 0 else want);
    } else {
      DropHead(chunks, want);
      CutHead(chunks, 0);
      DropKeepsNonEmpty(chunks[1..], want - |chunks[0]|);
    }
  }

  lemma CutHead(chunks: seq<Bytes>, cut: nat)
    requires chunks != [] && NoEmptyChunk(chunks) && (cut == 0 || cut < |chunks[0]|)
    ensures cut <= |chunks[0]| && NoEmptyChunk([chunks[0][cut..]] + chunks[1..]) && NoEmptyChunk(chunks[1..])
  {
    assert forall c :: c in chunks[1..] ==> c in chunks;
    assert chunks[0] in chunks;
  }

  /** The answers of a run on the queue of chunks; a byte that is not there reads as nothing. */
  function Answers(chunks: seq<Bytes>, events: seq<Event>): seq<Bytes>
    decreases |events|
  {
    if events == [] then []
    else
      match events[0]
      case Arrive(chunk) => Answers(chunks + [chunk], events[1..])
      case TakeByte =>
        if chunks == [] || chunks[0] == [] then [[]] + Answers(chunks, events[1..])
        else [[chunks[0][0]]] + Answers(DropFront(chunks, 1), events[1..])
      case TakeBytes(len) =>
        var n := Available(chunks, len);
        [Flat(chunks)[..n]] + Answers(Drop(chunks, len), events[1..])
  }

  /** The answers of a run on a plain stream of bytes. */
  function StreamAnswers(bytes: Bytes, events: seq<Event>): seq<Bytes>
    decreases |events|
  {
    if events == [] then []
    else
      match events[0]
      case Arrive(chunk) => StreamAnswers(bytes + chunk, events[1..])
      case TakeByte =>
        if bytes == [] then [[]] + StreamAnswers(bytes, events[1..])
        else [[bytes[0]]] + StreamAnswers(bytes[1..], events[1..])
      case TakeBytes(len) =>
        var n := Min(Max(len, 0), |bytes|);
        [bytes[..n]] + StreamAnswers(bytes[n..], events[1..])
  }

  ghost predicate NoEmptyArrival(events: seq<Event>) {
    forall i :: 0 <= i < |events| ==> (events[i].Arrive? ==> events[i].chunk != [])
  }

  /** While no message is empty, the queue of chunks answers every run of reads as one plain stream would:
      how the bytes were cut into messages cannot be observed. */
  lemma {:induction false} ChunksAreAStream(chunks: seq<Bytes>, events: seq<Event>)
    requires NoEmptyChunk(chunks) && NoEmptyArrival(events)
    ensures Answers(chunks, events) == StreamAnswers(Flat(chunks), events)
    decreases |events|
  {
    if events != [] {
      var rest := events[1..];
      assert NoEmptyArrival(rest);
      match events[0]
      case Arrive(chunk) =>
        FlatAppend(chunks, chunk);
        ChunksAreAStream(chunks + [chunk], rest);
      case TakeByte =>
        if chunks == [] {
          ChunksAreAStream(chunks, rest);
        } else {
          assert chunks[0] in chunks;
          assert Flat(chunks) == chunks[0] + Flat(chunks[1..]);
          DropIsFront(chunks);
          DropKeepsNonEmpty(chunks, 1);
          ChunksAreAStream(DropFront(chunks, 1), rest);
        }
      case TakeBytes(len) =>
        DropKeepsNonEmpty(chunks, len);
        ChunksAreAStream(Drop(chunks, len), rest);
    }
  }

  lemma DropIsFront(chunks: seq<Bytes>)
    requires chunks != [] && chunks[0] != []
    ensures 1 <= |Flat(chunks)| && Drop(chunks, 1) == DropFront(chunks, 1)
  {
  }

  /** An empty message is different: it hides the bytes behind it from reads of one byte. */
  lemma EmptyMessageBlocks(byte: Byte)
    ensures Answers([], [Arrive([]), Arrive([byte]), TakeByte]) == [[]]
    ensures StreamAnswers([], [Arrive([]), Arrive([byte]), TakeByte]) == [[byte]]
  {
    var chunks: seq<Bytes> := [[], [byte]];
    var e0, e1, e2: Event := Arrive([]), Arrive([byte]), TakeByte;
    assert [e0, e1, e2][1..] == [e1, e2] && [e1, e2][1..] == [e2] && [e2][1..] == [];
    var none: seq<Bytes>, nothing: Bytes := [], [];
    assert none + [[]] + [[byte]] == chunks;
    assert Answers(chunks, [e2]) == [[]] + Answers(chunks, []);
    assert StreamAnswers([byte], [e2]) == [[byte]] + StreamAnswers([], []);
    assert nothing + [] + [byte] == [byte];
  }
}
