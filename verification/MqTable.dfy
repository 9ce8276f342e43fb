/** The descriptor table of hxlib/mq.c: names, reference counts and storage under mq_open, mq_close and mq_unlink. */
module MqTable {
  import opened Bytes
  import opened MqRing
  import opened Options
  import MqProtocol

  const MQ_MAX_OPEN: nat := 64
  const MQ_NAME_MAX: nat := 255

  datatype Errno = EINVAL | ENAMETOOLONG | EEXIST | ENOENT | ENFILE | ENOMEM | ENOSPC | EBADF
  datatype Result = Ok(mqdes: nat) | Err(errno: Errno)

  datatype Attr = Attr(maxmsg: int, msgsize: int)

  /** Which of the calls that a creation makes fails, if any. */
  datatype Failure = NoFailure | NoBuffer | NoLengths | NoSemMsgs | NoSemSpace | NoMutex

  /** The storage that belongs to a queue: its ring, and the two semaphores' initial values. */
  datatype Storage = Released | Storage(ring: Ring, msgs: nat, space: nat)

  datatype Slot = Slot(name: string, nonblock: bool, inUse: bool, unlinked: bool, refcount: int, storage: Storage)

  /** A zeroed control block. */
  const FREE_SLOT := Slot("", false, false, false, 0, Released)

  type Table = t: seq<Slot> | |t| == MQ_MAX_OPEN witness Repeat(FREE_SLOT, MQ_MAX_OPEN)

  predicate Linked(s: Slot, name: string) { s.inUse && !s.unlinked && s.name == name }

  /** strncpy into the 257-byte name field. */
  function StoredName(name: string): string { if |name| <= MQ_NAME_MAX + 1 then name else name[..MQ_NAME_MAX + 1] }

  /** The buffer malloc is asked for: the product of two size_t values, modulo 2^32. */
  function BufferSize(maxmsg: nat, msgsize: nat): nat { maxmsg * msgsize % 0x1_0000_0000 }

  function NewStorage(attr: Attr): Storage
    requires attr.maxmsg > 0 && attr.msgsize > 0
  {
    Storage(Ring(attr.maxmsg, attr.msgsize, Repeat(0, BufferSize(attr.maxmsg, attr.msgsize)), Repeat(0, attr.maxmsg), 0, 0, 0),
            0, attr.maxmsg)
  }

  /** The first slot from i on that satisfies the search, or MQ_MAX_OPEN. */
  function FirstLinked(t: Table, name: string, i: nat): (r: nat)
    requires i <= MQ_MAX_OPEN
    ensures i <= r <= MQ_MAX_OPEN
    decreases MQ_MAX_OPEN - i
  {
    if i == MQ_MAX_OPEN || Linked(t[i], name) then i else FirstLinked(t, name, i + 1)
  }

  function FirstFree(t: Table, i: nat): (r: nat)
    requires i <= MQ_MAX_OPEN
    ensures i <= r <= MQ_MAX_OPEN
    decreases MQ_MAX_OPEN - i
  {
    if i == MQ_MAX_OPEN || !t[i].inUse then i else FirstFree(t, i + 1)
  }

  /** The slot a creation leaves: complete, or given back at the first failing call. */
  function CreatedSlot(name: string, nonblock: bool, attr: Attr, failure: Failure): (Slot, Option<Errno>)
    requires attr.maxmsg > 0 && attr.msgsize > 0
  {
    if failure == NoBuffer || failure == NoLengths then (FREE_SLOT, Some(ENOMEM))
    else
      var filled := Slot(StoredName(name), nonblock, true, false, 1, NewStorage(attr));
      if failure == NoSemMsgs || failure == NoSemSpace || attr.maxmsg > MqProtocol.SEM_VALUE_MAX then
        (filled.(inUse := false, storage := Released), Some(ENOSPC))
      else if failure == NoMutex then (filled.(inUse := false, storage := Released), Some(ENOMEM))
      else (filled, None)
  }

  function Open(t: Table, name: Option<string>, create: bool, excl: bool, nonblock: bool, attr: Option<Attr>, failure: Failure)
    : (Table, Result)
  {
    if name == None || |name.value| == 0 || name.value[0] != '/' then (t, Err(EINVAL))
    else if |name.value| > MQ_NAME_MAX + 1 then (t, Err(ENAMETOOLONG))
    else
      var i := FirstLinked(t, name.value, 0);
      if i < MQ_MAX_OPEN then
        if excl then (t, Err(EEXIST))
        else (t[i := t[i].(refcount := t[i].refcount + 1, nonblock := t[i].nonblock || nonblock)], Ok(i))
      else if !create then (t, Err(ENOENT))
      else if attr == None || attr.value.maxmsg <= 0 || attr.value.msgsize <= 0 then (t, Err(EINVAL))
      else
        var j := FirstFree(t, 0);
        if j == MQ_MAX_OPEN then (t, Err(ENFILE))
        else
          var (slot, errno) := CreatedSlot(name.value, nonblock, attr.value, failure);
          (t[j := slot], match errno case None => Ok(j) case Some(e) => Err(e))
  }

  function Close(t: Table, mqdes: int): (Table, Result)
  {
    if !(0 <= mqdes < MQ_MAX_OPEN && t[mqdes].inUse) then (t, Err(EBADF))
    else
      var s := t[mqdes].(refcount := t[mqdes].refcount - 1);
      (t[mqdes := if s.refcount <= 0 then s.(inUse := false, storage := Released) else s], Ok(0))
  }

  function Unlink(t: Table, name: Option<string>): (Table, Result)
  {
    if name == None || |name.value| == 0 || name.value[0] != '/' then (t, Err(EINVAL))
    else
      var i := FirstLinked(t, name.value, 0);
      if i < MQ_MAX_OPEN then (t[i := t[i].(unlinked := true)], Ok(0)) else (t, Err(ENOENT))
  }

  lemma {:induction false} FirstLinkedFinds(t: Table, name: string, i: nat)
    requires i <= MQ_MAX_OPEN
    ensures forall k | i <= k < FirstLinked(t, name, i) :: !Linked(t[k], name)
    ensures FirstLinked(t, name, i) < MQ_MAX_OPEN ==> Linked(t[FirstLinked(t, name, i)], name)
    decreases MQ_MAX_OPEN - i
  {
    if i < MQ_MAX_OPEN && !Linked(t[i], name) {
      FirstLinkedFinds(t, name, i + 1);
    }
  }

  lemma {:induction false} FirstFreeFinds(t: Table, i: nat)
    requires i <= MQ_MAX_OPEN
    ensures forall k | i <= k < FirstFree(t, i) :: t[k].inUse
    ensures FirstFree(t, i) < MQ_MAX_OPEN ==> !t[FirstFree(t, i)].inUse
    decreases MQ_MAX_OPEN - i
  {
    if i < MQ_MAX_OPEN && t[i].inUse {
      FirstFreeFinds(t, i + 1);
    }
  }

  // ---------------------------------------------------------------- runs

  datatype Call =
    | DoOpen(name: Option<string>, create: bool, excl: bool, nonblock: bool, attr: Option<Attr>, failure: Failure)
    | DoClose(mqdes: int)
    | DoUnlink(uname: Option<string>)

  function Apply(t: Table, c: Call): (Table, Result)
  {
    match c
    case DoOpen(name, create, excl, nonblock, attr, failure) => Open(t, name, create, excl, nonblock, attr, failure)
    case DoClose(mqdes) => Close(t, mqdes)
    case DoUnlink(name) => Unlink(t, name)
  }

  const EMPTY_TABLE: Table := Repeat(FREE_SLOT, MQ_MAX_OPEN)

  /** The table after a sequence of calls, starting from the zeroed static table. */
  function After(calls: seq<Call>): Table
  {
    if calls == [] then EMPTY_TABLE else Apply(After(calls[..|calls| - 1]), calls[|calls| - 1]).0
  }

  /** How many successful opens of descriptor i the calls made, less how many successful closes. */
  function Outstanding(calls: seq<Call>, i: nat): int
  {
    if calls == [] then 0
    else
      var c := calls[|calls| - 1];
      var r := Apply(After(calls[..|calls| - 1]), c).1;
      Outstanding(calls[..|calls| - 1], i) +
        (if c.DoOpen? && r == Ok(i) then 1 else if c.DoClose? && c.mqdes == i && r.Ok? then -1 else 0)
  }

  ghost predicate NamesUnique(t: Table)
  {
    forall i, j | 0 <= i < j < MQ_MAX_OPEN && t[i].inUse && !t[i].unlinked && t[j].inUse && !t[j].unlinked ::
      t[i].name != t[j].name
  }

  /** The counts of one slot agree with the outstanding opens, and it has storage exactly while it has opens. */
  ghost predicate SlotCounts(s: Slot, opens: int)
  {
    && opens == (if s.inUse then s.refcount else 0)
    && (s.inUse <==> opens > 0)
    && (s.inUse <==> s.storage.Storage?)
  }

  lemma ApplyUnique(t: Table, c: Call)
    requires NamesUnique(t)
    ensures NamesUnique(Apply(t, c).0)
  {
    if c.DoOpen? && c.name.Some? {
      FirstLinkedFinds(t, c.name.value, 0);
      FirstFreeFinds(t, 0);
    } else if c.DoUnlink? && c.uname.Some? {
      FirstLinkedFinds(t, c.uname.value, 0);
    }
  }

  lemma ApplyCounts(t: Table, c: Call, i: nat, opens: int)
    requires i < MQ_MAX_OPEN && SlotCounts(t[i], opens)
    ensures var (t', r) := Apply(t, c);
      SlotCounts(t'[i], opens + (if c.DoOpen? && r == Ok(i) then 1 else if c.DoClose? && c.mqdes == i && r.Ok? then -1 else 0))
  {
    if c.DoOpen? && c.name.Some? {
      FirstLinkedFinds(t, c.name.value, 0);
      FirstFreeFinds(t, 0);
    } else if c.DoUnlink? && c.uname.Some? {
      FirstLinkedFinds(t, c.uname.value, 0);
    }
  }

  /** Over every sequence of opens, closes and unlinks: a name is linked to at most one slot, a slot's reference count is
      its outstanding opens, and it keeps its storage exactly until the last of them is closed. */
  lemma {:induction false} TableInvariant(calls: seq<Call>)
    ensures NamesUnique(After(calls))
    ensures forall i | 0 <= i < MQ_MAX_OPEN :: SlotCounts(After(calls)[i], Outstanding(calls, i))
  {
    if calls != [] {
      var n := |calls| - 1;
      TableInvariant(calls[..n]);
      ApplyUnique(After(calls[..n]), calls[n]);
      forall i | 0 <= i < MQ_MAX_OPEN
        ensures SlotCounts(After(calls)[i], Outstanding(calls, i))
      {
        ApplyCounts(After(calls[..n]), calls[n], i, Outstanding(calls[..n], i));
      }
    }
  }

  /** A call touches only the slot it names or creates. */
  lemma Frame(t: Table, c: Call, i: nat)
    requires i < MQ_MAX_OPEN
    ensures var (t', r) := Apply(t, c);
      t'[i] == t[i]
      || (c.DoOpen? && (r == Ok(i) || !t[i].inUse))
      || (c.DoClose? && c.mqdes == i)
      || (c.DoUnlink? && c.uname.Some? && Linked(t[i], c.uname.value))
  {
    if c.DoOpen? && c.name.Some? {
      FirstLinkedFinds(t, c.name.value, 0);
      FirstFreeFinds(t, 0);
    } else if c.DoUnlink? && c.uname.Some? {
      FirstLinkedFinds(t, c.uname.value, 0);
    }
  }

  /** Unlinking hides the name at once, and only the name: the open queue keeps its contents and its opens. */
  lemma UnlinkHides(t: Table, name: string)
    requires NamesUnique(t)
    ensures var (t', r) := Unlink(t, Some(name));
      && (forall i | 0 <= i < MQ_MAX_OPEN :: !Linked(t'[i], name) || r == Err(EINVAL))
      && (forall i | 0 <= i < MQ_MAX_OPEN :: t'[i] == t[i].(unlinked := t'[i].unlinked))
  {
    FirstLinkedFinds(t, name, 0);
  }

  /** A queue recreated under an unlinked name gets another slot with fresh, empty storage; the old queue, still open
      somewhere, is untouched. */
  lemma RecreatedIsSeparate(t: Table, name: string, nonblock: bool, attr: Attr, excl: bool, failure: Failure, kept: nat)
    requires NamesUnique(t) && kept < MQ_MAX_OPEN && Linked(t[kept], name)
    requires Open(Unlink(t, Some(name)).0, Some(name), true, excl, nonblock, Some(attr), failure).1.Ok?
    ensures var (t', r) := Open(Unlink(t, Some(name)).0, Some(name), true, excl, nonblock, Some(attr), failure);
      && r.mqdes != kept && r.mqdes < MQ_MAX_OPEN && !t[r.mqdes].inUse
      && t'[kept] == t[kept].(unlinked := true)
      && attr.maxmsg > 0 && attr.msgsize > 0
      && t'[r.mqdes] == Slot(name, nonblock, true, false, 1, NewStorage(attr))
  {
    var u := Unlink(t, Some(name)).0;
    FirstLinkedFinds(t, name, 0);
    UnlinkHides(t, name);
    FirstLinkedFinds(u, name, 0);
    FirstFreeFinds(u, 0);
  }

  // ---------------------------------------------------------------- what each call answers

  predicate ValidName(name: string) { 0 < |name| <= 256 && name[0] == '/' }

  /** Opening a linked name without O_EXCL gives its descriptor, counts the open and adds O_NONBLOCK; with O_EXCL it is an
      error. O_CREAT and the attributes make no difference. */
  lemma OpenLinked(t: Table, i: nat, name: string, create: bool, excl: bool, nonblock: bool, attr: Option<Attr>, failure: Failure)
    requires NamesUnique(t) && i < MQ_MAX_OPEN && Linked(t[i], name) && ValidName(name)
    ensures var (t', r) := Open(t, Some(name), create, excl, nonblock, attr, failure);
      && (excl ==> r == Err(EEXIST) && t' == t)
      && (!excl ==>
            && r == Ok(i) && t'[i].refcount == t[i].refcount + 1 && t'[i].nonblock == (t[i].nonblock || nonblock)
            && t'[i].name == t[i].name && t'[i].inUse && !t'[i].unlinked && t'[i].storage == t[i].storage
            && forall k | 0 <= k < MQ_MAX_OPEN && k != i :: t'[k] == t[k])
  {
    FirstLinkedFinds(t, name, 0);
  }

  lemma OpenBadName(t: Table, name: Option<string>, create: bool, excl: bool, nonblock: bool, attr: Option<Attr>, failure: Failure)
    requires name == None || !ValidName(name.value)
    ensures Open(t, name, create, excl, nonblock, attr, failure) ==
      (t, Err(if name.Some? && |name.value| > 256 && name.value[0] == '/' then ENAMETOOLONG else EINVAL))
  {
  }

  predicate GoodAttr(attr: Option<Attr>) { attr.Some? && attr.value.maxmsg > 0 && attr.value.msgsize > 0 }

  /** Opening a name that is linked nowhere fails without O_CREAT, without positive attributes, and with a full table, in
      this order, and leaves the table alone. */
  lemma OpenAbsentRefused(t: Table, name: string, create: bool, excl: bool, nonblock: bool, attr: Option<Attr>, failure: Failure)
    requires ValidName(name) && forall k | 0 <= k < MQ_MAX_OPEN :: !Linked(t[k], name)
    requires !create || !GoodAttr(attr) || forall k | 0 <= k < MQ_MAX_OPEN :: t[k].inUse
    ensures Open(t, Some(name), create, excl, nonblock, attr, failure) ==
      (t, Err(if !create then ENOENT else if !GoodAttr(attr) then EINVAL else ENFILE))
  {
    FirstLinkedFinds(t, name, 0);
    FirstFreeFinds(t, 0);
  }

  /** With a free slot j, the first, everything depends on the calls that fill it: no memory, no semaphore (or too large a
      count for one), or a new queue with one open and an empty ring. A failed creation leaves the slot free. */
  lemma OpenAbsentCreates(t: Table, j: nat, name: string, excl: bool, nonblock: bool, attr: Attr, failure: Failure)
    requires ValidName(name) && forall k | 0 <= k < MQ_MAX_OPEN :: !Linked(t[k], name)
    requires GoodAttr(Some(attr)) && j < MQ_MAX_OPEN && !t[j].inUse && forall k | 0 <= k < j :: t[k].inUse
    ensures var (t', r) := Open(t, Some(name), true, excl, nonblock, Some(attr), failure);
      && (forall k | 0 <= k < MQ_MAX_OPEN && k != j :: t'[k] == t[k])
      && (r == Ok(j) <==> failure == NoFailure && attr.maxmsg <= 32767)
      && (r == Err(ENOMEM) <==>
            failure == NoBuffer || failure == NoLengths || (failure == NoMutex && attr.maxmsg <= 32767))
      && (r == Err(ENOSPC) <==>
            failure == NoSemMsgs || failure == NoSemSpace
            || ((failure == NoFailure || failure == NoMutex) && attr.maxmsg > 32767))
      && (r.Err? ==> !t'[j].inUse && t'[j].storage == Released)
      && (r.Ok? ==>
            && Linked(t'[j], name) && t'[j].refcount == 1 && t'[j].nonblock == nonblock && t'[j].storage.Storage?
            && var q := t'[j].storage;
               q.msgs == 0 && q.space == attr.maxmsg && q.ring.maxmsg == attr.maxmsg && q.ring.msgsize == attr.msgsize
               && q.ring.head == 0 && q.ring.tail == 0 && q.ring.cur == 0 && |q.ring.lens| == attr.maxmsg
               && |q.ring.buf| == attr.maxmsg * attr.msgsize % 0x1_0000_0000)
  {
    FirstLinkedFinds(t, name, 0);
    FirstFreeFinds(t, 0);
  }

  /** Unlinking: EINVAL for a bad name, ENOENT for an absent one, and otherwise the one slot with the name loses it. */
  lemma UnlinkAnswers(t: Table, name: Option<string>)
    requires NamesUnique(t)
    ensures var (t', r) := Unlink(t, name);
      var bad := name == None || |name.value| == 0 || name.value[0] != '/';
      && (bad ==> r == Err(EINVAL) && t' == t)
      && (!bad && (forall k | 0 <= k < MQ_MAX_OPEN :: !Linked(t[k], name.value)) ==> r == Err(ENOENT) && t' == t)
      && forall i | 0 <= i < MQ_MAX_OPEN && !bad && Linked(t[i], name.value) ::
           r == Ok(0) && t' == t[i := t[i].(unlinked := true)]
  {
    if name.Some? {
      FirstLinkedFinds(t, name.value, 0);
    }
  }

  /** Closing: EBADF for a descriptor that is out of range or not open; otherwise one open less, and nothing else changes
      while one remains. With the last one the slot is free and its storage released. */
  lemma CloseAnswers(t: Table, mqdes: int)
    ensures var (t', r) := Close(t, mqdes);
      var open := 0 <= mqdes < MQ_MAX_OPEN && t[mqdes].inUse;
      && (!open ==> r == Err(EBADF) && t' == t)
      && (open ==>
            && r == Ok(0) && (forall k | 0 <= k < MQ_MAX_OPEN && k != mqdes :: t'[k] == t[k])
            && t'[mqdes].refcount == t[mqdes].refcount - 1 && t'[mqdes].name == t[mqdes].name
            && t'[mqdes].unlinked == t[mqdes].unlinked && t'[mqdes].nonblock == t[mqdes].nonblock
            && (t[mqdes].refcount > 1 ==> t'[mqdes].inUse && t'[mqdes].storage == t[mqdes].storage)
            && (t[mqdes].refcount <= 1 ==> !t'[mqdes].inUse && t'[mqdes].storage == Released))
  {
  }

  /** The protocol's state right after a queue with these attributes has been created. */
  ghost predicate JustCreated(attr: Attr, s: MqProtocol.State)
  {
    && 0 < attr.maxmsg <= MqProtocol.SEM_VALUE_MAX && attr.msgsize > 0
    && s.ring == NewStorage(attr).ring && s.msgs == NewStorage(attr).msgs && s.space == NewStorage(attr).space
    && s.lock == None && s.sent == [] && s.received == []
    && forall t | 0 <= t < |s.pcs| :: s.pcs[t] == MqProtocol.Idle
  }

  /** A created queue starts the protocol, if and only if its byte buffer really has room for all messages. */
  lemma CreatedStartsProtocol(attr: Attr, s: MqProtocol.State)
    requires JustCreated(attr, s)
    ensures MqProtocol.Initial(s) <==> attr.maxmsg * attr.msgsize < 0x1_0000_0000
  {
    OffsetIsProduct(attr.maxmsg, attr.msgsize);
    WrapsIfLarge(attr.maxmsg * attr.msgsize);
  }

  lemma WrapsIfLarge(p: nat)
    ensures p % 0x1_0000_0000 <= p && (p % 0x1_0000_0000 == p <==> p < 0x1_0000_0000)
  {
  }

  /** Some run of sends copies a message beyond the end of the buffer, if and only if it has not. */
  lemma CreatedOverruns(attr: Attr, s: MqProtocol.State)
    requires JustCreated(attr, s) && s.pcs != []
    ensures MqProtocol.CanOverrun(s) == (attr.maxmsg * attr.msgsize >= 0x1_0000_0000)
  {
    OffsetIsProduct(attr.maxmsg, attr.msgsize);
    WrapsIfLarge(attr.maxmsg * attr.msgsize);
    MqProtocol.OverrunIffShort(s);
  }

  /** Eight messages of 2^29 + 1 bytes get a buffer of 8 bytes, so the first message of 9 bytes leaves it. */
  lemma ShortBuffer(attr: Attr, s: MqProtocol.State, msg: Message) returns (events: seq<MqProtocol.Event>)
    requires attr.maxmsg == 8 && attr.msgsize == 0x2000_0001 && JustCreated(attr, s) && s.pcs != [] && |msg| == 9
    ensures |s.ring.buf| == 8 && MqProtocol.Overruns(MqProtocol.Run(s, events), 0)
    ensures MqProtocol.Run(s, events).pcs[0] == MqProtocol.SendLocked(msg)
  {
    assert MqProtocol.Run(s, []) == s;
    assert |s.ring.buf| == 8 && s.pcs[0 := MqProtocol.Idle] == s.pcs;
    var n, size, room, k := 8, 0x2000_0001, 8, 0;
    var r := MqProtocol.BeginSend(s, s, s.pcs, n, size, room, k, msg);
    events :| MqProtocol.Run(s, events) == r;
  }

  // ---------------------------------------------------------------- the table in place

  /** g_qcb, updated in place by the three calls. */
  class QueueTable {
    const slots: array<Slot>

    ghost predicate Valid() reads this { slots.Length == MQ_MAX_OPEN }

    ghost function View(): Table
      requires Valid()
      reads this, slots
    {
      slots[..]
    }

    constructor ()
      ensures Valid() && fresh(slots) && View() == EMPTY_TABLE
    {
      slots := new Slot[MQ_MAX_OPEN](_ => FREE_SLOT);
    }

    method FindLinked(name: string) returns (i: nat)
      requires Valid()
      ensures i == FirstLinked(View(), name, 0) <= MQ_MAX_OPEN
    {
      i := 0;
      while i < MQ_MAX_OPEN && !Linked(slots[i], name)
        invariant i <= MQ_MAX_OPEN && FirstLinked(View(), name, 0) == FirstLinked(View(), name, i)
      {
        i := i + 1;
      }
    }

    method FindFree() returns (i: nat)
      requires Valid()
      ensures i == FirstFree(View(), 0) <= MQ_MAX_OPEN
    {
      i := 0;
      while i < MQ_MAX_OPEN && slots[i].inUse
        invariant i <= MQ_MAX_OPEN && FirstFree(View(), 0) == FirstFree(View(), i)
      {
        i := i + 1;
      }
    }

    method MqOpen(name: Option<string>, create: bool, excl: bool, nonblock: bool, attr: Option<Attr>, failure: Failure)
      returns (r: Result)
      requires Valid()
      modifies slots
      ensures (View(), r) == Open(old(View()), name, create, excl, nonblock, attr, failure)
    {
      if name == None || |name.value| == 0 || name.value[0] != '/' {
        return Err(EINVAL);
      }
      if |name.value| > MQ_NAME_MAX + 1 {
        return Err(ENAMETOOLONG);
      }
      var i := FindLinked(name.value);
      if i < MQ_MAX_OPEN {
        if excl {
          return Err(EEXIST);
        }
        slots[i] := slots[i].(refcount := slots[i].refcount + 1);
        if nonblock {
          slots[i] := slots[i].(nonblock := true);
        }
        assert View() == old(View())[i := slots[i]];
        return Ok(i);
      }
      if !create {
        return Err(ENOENT);
      }
      if attr == None || attr.value.maxmsg <= 0 || attr.value.msgsize <= 0 {
        return Err(EINVAL);
      }
      i := FindFree();
      if i == MQ_MAX_OPEN {
        return Err(ENFILE);
      }
      var (slot, errno) := CreatedSlot(name.value, nonblock, attr.value, failure);
      slots[i] := slot;
      return match errno case None => Ok(i) case Some(e) => Err(e);
    }

    method MqClose(mqdes: int) returns (r: Result)
      requires Valid()
      modifies slots
      ensures (View(), r) == Close(old(View()), mqdes)
    {
      if !(0 <= mqdes < MQ_MAX_OPEN && slots[mqdes].inUse) {
        return Err(EBADF);
      }
      slots[mqdes] := slots[mqdes].(refcount := slots[mqdes].refcount - 1);
      if slots[mqdes].refcount <= 0 {
        slots[mqdes] := slots[mqdes].(inUse := false, storage := Released);
      }
      assert View() == old(View())[mqdes := slots[mqdes]];
      return Ok(0);
    }

    method MqUnlink(name: Option<string>) returns (r: Result)
      requires Valid()
      modifies slots
      ensures (View(), r) == Unlink(old(View()), name)
    {
      if name == None || |name.value| == 0 || name.value[0] != '/' {
        return Err(EINVAL);
      }
      var i := FindLinked(name.value);
      if i < MQ_MAX_OPEN {
        slots[i] := slots[i].(unlinked := true);
        return Ok(0);
      }
      return Err(ENOENT);
    }
  }
}
