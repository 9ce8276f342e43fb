/** The bounded message buffer of hxlib/mq.c: a ring of fixed-size slots in one byte buffer. */
module MqRing {
  import opened Bytes

  type Message = seq<Byte>

  /** The buffer fields of a queue control block; cur is mq_curmsgs. */
  datatype Ring = Ring(maxmsg: nat, msgsize: nat, buf: seq<Byte>, lens: seq<nat>, head: nat, tail: nat, cur: int)

  /** Where slot i starts: i * size, as repeated addition. */
  function Offset(i: nat, size: nat): (o: nat)
  {
    if i == 0 then 0 else Offset(i - 1, size) + size
  }

  lemma {:induction false} OffsetIsProduct(i: nat, size: nat)
    ensures Offset(i, size) == i * size
  {
    if i > 0 {
      OffsetIsProduct(i - 1, size);
      assert (i - 1) * size + size == i * size;
    }
  }

  lemma {:induction false} OffsetSteps(i: nat, j: nat, size: nat)
    requires i < j
    ensures Offset(i, size) + size <= Offset(j, size)
  {
    if i < j - 1 {
      OffsetSteps(i, j - 1, size);
    }
  }

  /** The slot k places after i. */
  function Pos(i: nat, k: nat, n: nat): nat { if i + k < n then i + k else i + k - n }

  lemma WrapAround(x: nat, n: nat)
    requires 0 < n && x < 2 * n
    ensures x % n == if x < n then x else x - n
  {
    if x >= n {
      assert x == n * 1 + (x - n);
    }
  }

  /** The buffers have the sizes that the code allocates. */
  predicate Shaped(r: Ring)
  {
    && r.maxmsg > 0 && |r.buf| == Offset(r.maxmsg, r.msgsize) && |r.lens| == r.maxmsg
    && r.head < r.maxmsg && r.tail < r.maxmsg
  }

  /** The bytes of slot i. */
  ghost function SlotAt(r: Ring, i: nat): Message
    requires Shaped(r) && i < r.maxmsg && r.lens[i] <= r.msgsize
  {
    OffsetSteps(i, r.maxmsg, r.msgsize);
    r.buf[Offset(i, r.msgsize)..Offset(i, r.msgsize) + r.lens[i]]
  }

  ghost predicate Wf(r: Ring)
  {
    && Shaped(r) && 0 <= r.cur <= r.maxmsg
    && r.tail == Pos(r.head, r.cur, r.maxmsg)
    && forall k | 0 <= k < r.cur :: r.lens[Pos(r.head, k, r.maxmsg)] <= r.msgsize
  }

  /** The queued messages, oldest first. */
  ghost function Contents(r: Ring): seq<Message>
    requires Wf(r)
  {
    seq(r.cur, k requires 0 <= k < r.cur => SlotAt(r, Pos(r.head, k, r.maxmsg)))
  }

  /** The locked section of a send. */
  function Enqueue(r: Ring, msg: Message): Ring
    requires r.maxmsg > 0 && r.tail < |r.lens| && Offset(r.tail, r.msgsize) + |msg| <= |r.buf|
  {
    var off := Offset(r.tail, r.msgsize);
    r.(buf := r.buf[..off] + msg + r.buf[off + |msg|..], lens := r.lens[r.tail := |msg|],
       tail := (r.tail + 1) % r.maxmsg, cur := r.cur + 1)
  }

  /** The locked section of a receive. */
  function Dequeue(r: Ring): (Ring, Message)
    requires r.maxmsg > 0 && r.head < |r.lens| && Offset(r.head, r.msgsize) + r.lens[r.head] <= |r.buf|
  {
    var off := Offset(r.head, r.msgsize);
    (r.(head := (r.head + 1) % r.maxmsg, cur := r.cur - 1), r.buf[off..off + r.lens[r.head]])
  }

  lemma Splice(buf: seq<Byte>, off: nat, msg: Message, lo: nat, hi: nat)
    requires off + |msg| <= |buf| && lo <= hi <= |buf| && (hi <= off || off + |msg| <= lo)
    ensures (buf[..off] + msg + buf[off + |msg|..])[lo..hi] == buf[lo..hi]
  {
  }

  /** Writing one slot leaves every other slot as it was. */
  lemma OtherSlot(r: Ring, msg: Message, i: nat)
    requires Shaped(r) && |msg| <= r.msgsize && i < r.maxmsg && i != r.tail && r.lens[i] <= r.msgsize
    ensures Offset(r.tail, r.msgsize) + |msg| <= |r.buf|
    ensures Shaped(Enqueue(r, msg)) && SlotAt(Enqueue(r, msg), i) == SlotAt(r, i)
  {
    OffsetSteps(r.tail, r.maxmsg, r.msgsize);
    OffsetSteps(i, r.maxmsg, r.msgsize);
    WrapAround(r.tail + 1, r.maxmsg);
    if i < r.tail {
      OffsetSteps(i, r.tail, r.msgsize);
    } else {
      OffsetSteps(r.tail, i, r.msgsize);
    }
    var o := Offset(i, r.msgsize);
    Splice(r.buf, Offset(r.tail, r.msgsize), msg, o, o + r.lens[i]);
  }

  /** A send into a queue with room appends the message and disturbs no queued message. */
  lemma EnqueueAppends(r: Ring, msg: Message)
    requires Wf(r) && r.cur < r.maxmsg && |msg| <= r.msgsize
    ensures Offset(r.tail, r.msgsize) + |msg| <= |r.buf|
    ensures Wf(Enqueue(r, msg)) && Contents(Enqueue(r, msg)) == Contents(r) + [msg]
  {
    OffsetSteps(r.tail, r.maxmsg, r.msgsize);
    WrapAround(r.tail + 1, r.maxmsg);
    var r' := Enqueue(r, msg);
    assert SlotAt(r', r.tail) == msg;
    forall k | 0 <= k < r.cur
      ensures r'.lens[Pos(r.head, k, r.maxmsg)] <= r.msgsize
      ensures SlotAt(r', Pos(r.head, k, r.maxmsg)) == SlotAt(r, Pos(r.head, k, r.maxmsg))
    {
      OtherSlot(r, msg, Pos(r.head, k, r.maxmsg));
    }
  }

  lemma DequeueKeepsWf(r: Ring)
    requires Wf(r) && r.cur > 0
    ensures Pos(r.head, 0, r.maxmsg) == r.head && Offset(r.head, r.msgsize) + r.lens[r.head] <= |r.buf|
    ensures Wf(Dequeue(r).0)
    ensures forall k | 0 <= k < r.cur - 1 :: Pos(Dequeue(r).0.head, k, r.maxmsg) == Pos(r.head, k + 1, r.maxmsg)
  {
    OffsetSteps(r.head, r.maxmsg, r.msgsize);
    assert Pos(r.head, 0, r.maxmsg) == r.head;
    WrapAround(r.head + 1, r.maxmsg);
    forall k | 0 <= k < r.cur - 1
      ensures Pos(Dequeue(r).0.head, k, r.maxmsg) == Pos(r.head, k + 1, r.maxmsg)
    {
    }
  }

  /** A receive from a non-empty queue returns the oldest message and leaves the rest in order. */
  lemma DequeueTakesOldest(r: Ring)
    requires Wf(r) && r.cur > 0
    ensures Offset(r.head, r.msgsize) + r.lens[r.head] <= |r.buf|
    ensures var (r', msg) := Dequeue(r);
      Wf(r') && Contents(r) == [msg] + Contents(r')
  {
    DequeueKeepsWf(r);
    var (r', msg) := Dequeue(r);
    forall k | 0 <= k < r'.cur
      ensures Contents(r')[k] == Contents(r)[k + 1]
    {
      assert Pos(r'.head, k, r.maxmsg) == Pos(r.head, k + 1, r.maxmsg);
    }
  }

  /** The part of a queue control block that the lock guards. */
  class QueueBuffer {
    const maxmsg: nat
    const msgsize: nat
    const buf: array<Byte>
    const msgLen: array<nat>
    var head: nat
    var tail: nat
    var curmsgs: int

    ghost function View(): Ring
      reads this, buf, msgLen
    {
      Ring(maxmsg, msgsize, buf[..], msgLen[..], head, tail, curmsgs)
    }

    constructor (maxmsg: nat, msgsize: nat, buf: array<Byte>, msgLen: array<nat>)
      requires maxmsg > 0 && buf.Length == maxmsg * msgsize && msgLen.Length == maxmsg
      ensures this.buf == buf && this.msgLen == msgLen && this.maxmsg == maxmsg && this.msgsize == msgsize
      ensures Wf(View()) && Contents(View()) == []
    {
      this.maxmsg, this.msgsize, this.buf, this.msgLen := maxmsg, msgsize, buf, msgLen;
      head, tail, curmsgs := 0, 0, 0;
      OffsetIsProduct(maxmsg, msgsize);
    }

    /** Lines 309-315 of mq_send_internal, between lock and unlock. */
    method EnqueueLocked(msg: Message)
      requires Wf(View()) && curmsgs < maxmsg && |msg| <= msgsize
      modifies this, buf, msgLen
      ensures Offset(old(tail), msgsize) + |msg| <= buf.Length
      ensures View() == Enqueue(old(View()), msg)
      ensures Wf(View()) && Contents(View()) == old(Contents(View())) + [msg]
    {
      ghost var r := View();
      EnqueueAppends(r, msg);
      OffsetIsProduct(tail, msgsize);
      var off := tail * msgsize;
      forall i | 0 <= i < |msg| {
        buf[off + i] := msg[i];
      }
      msgLen[tail] := |msg|;
      tail := (tail + 1) % maxmsg;
      curmsgs := curmsgs + 1;
      assert buf[..] == Enqueue(r, msg).buf;
    }

    /** Lines 363-369 of mq_receive_internal, between lock and unlock. */
    method DequeueLocked() returns (msg: Message)
      requires Wf(View()) && curmsgs > 0
      modifies this
      ensures Offset(old(head), msgsize) + msgLen[old(head)] <= buf.Length && (View(), msg) == Dequeue(old(View()))
      ensures Wf(View()) && old(Contents(View())) == [msg] + Contents(View())
    {
      DequeueTakesOldest(View());
      OffsetIsProduct(head, msgsize);
      var actual := msgLen[head];
      var off := head * msgsize;
      msg := buf[off..off + actual];
      head := (head + 1) % maxmsg;
      curmsgs := curmsgs - 1;
    }
  }
}
