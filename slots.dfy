/**
 * The connection table: `MAX_CONNECTIONS` slots, each with a status byte,
 * the client socket, the handler thread and the handler's selector buffer.
 * The listening loop sweeps finished slots and hands the next connection to
 * the lowest free slot; each handler marks its slot finished on exit; stopping
 * the server frees every slot in use.
 */
module Slots {
  import opened Io

  const MAX_CONNECTIONS: nat := 10
  const SOCKERR: int := -1
  /** Status flags of a slot. */
  const CONN_FINISHED: bv8 := 0x01
  const CONN_INUSE: bv8 := 0x02

  /**
   * One `client_conn_t`. Thread handles and selector buffers are opaque
   * identities; `None` is `NULL`.
   */
  datatype Slot = Slot(status: bv8, sockfd: int, thread: Option<nat>, selector: Option<nat>)

  /** What `main` puts in every slot before the server starts. */
  const IDLE: Slot := Slot(0, SOCKERR, None, None)

  predicate InUse(s: Slot) {
    s.status & CONN_INUSE != 0
  }

  predicate Finished(s: Slot) {
    s.status & CONN_FINISHED != 0
  }

  /**
   * What every slot keeps true between transitions: a finished handler has
   * given its socket up, and a slot in use whose handler still runs has a
   * thread and an open socket.
   */
  predicate SlotOk(s: Slot) {
    (Finished(s) ==> s.sockfd == SOCKERR) &&
    (InUse(s) && !Finished(s) ==> s.thread.Some? && s.sockfd >= 0)
  }

  predicate TableOk(slots: seq<Slot>) {
    forall i :: 0 <= i < |slots| ==> SlotOk(slots[i])
  }

  // ---------------------------------------------------------------------
  // One slot at a time.

  /** The sweep of one slot: a finished slot is joined and emptied; its socket field is left alone. */
  function Swept(s: Slot): (r: Slot)
    ensures !Finished(r)
    ensures r.sockfd == s.sockfd
    ensures Finished(s) ==> r.status == 0 && r.thread.None? && r.selector.None?
    ensures !Finished(s) ==> r == s
  {
    if Finished(s) then s.(status := 0, thread := None, selector := None) else s
  }

  /** A handler leaving: its socket is closed and forgotten and the finished flag is added to the status. */
  function Exited(s: Slot): (r: Slot)
    ensures Finished(r) && r.sockfd == SOCKERR
    ensures InUse(r) == InUse(s)
    ensures r.thread == s.thread && r.selector == s.selector
  {
    var st := s.status | CONN_FINISHED;
    assert st & CONN_INUSE == s.status & CONN_INUSE;
    s.(status := st, sockfd := SOCKERR)
  }

  /** `server_stop` on one slot: a slot in use is emptied, its socket closed and its thread joined; its selector stays. */
  function Stopped(s: Slot): (r: Slot)
    ensures !InUse(r)
    ensures InUse(s) ==> r == Slot(0, SOCKERR, None, s.selector)
    ensures !InUse(s) ==> r == s
  {
    if InUse(s) then s.(status := 0, sockfd := SOCKERR, thread := None) else s
  }

  /**
   * One claim of a free slot: a failed `accept` leaves the slot free with no
   * socket; a failed `pthread_create` closes the accepted socket but leaves
   * its number in the slot and the slot free; otherwise the slot is in use
   * by the new thread.
   */
  function Claimed(s: Slot, accepted: Option<nat>, spawned: Option<nat>): (r: Slot)
    ensures r.selector == s.selector
    ensures InUse(r) <==> accepted.Some? && spawned.Some?
    ensures InUse(r) ==> r == Slot(CONN_INUSE, accepted.value, spawned, s.selector)
    ensures !InUse(r) ==> r.status == 0 && r.thread == s.thread
    ensures accepted.None? ==> r.sockfd == SOCKERR
  {
    match accepted
    case None => s.(status := 0, sockfd := SOCKERR)
    case Some(fd) =>
      match spawned
      case None => s.(status := 0, sockfd := fd)
      case Some(t) => s.(status := CONN_INUSE, sockfd := fd, thread := spawned)
  }

  // ---------------------------------------------------------------------
  // The whole table.

  function SweptAll(slots: seq<Slot>): (r: seq<Slot>)
    ensures |r| == |slots|
  {
    seq(|slots|, i requires 0 <= i < |slots| => Swept(slots[i]))
  }

  function StoppedAll(slots: seq<Slot>): (r: seq<Slot>)
    ensures |r| == |slots|
  {
    seq(|slots|, i requires 0 <= i < |slots| => Stopped(slots[i]))
  }

  /** The index of the lowest slot not in use, or `|slots|` when every slot is. */
  function FirstFree(slots: seq<Slot>): (k: nat)
    ensures k <= |slots|
    ensures forall j :: 0 <= j < k ==> InUse(slots[j])
    ensures k < |slots| ==> !InUse(slots[k])
  {
    if slots == [] then 0
    else if !InUse(slots[0]) then 0
    else 1 + FirstFree(slots[1..])
  }

  /** One pass of the accepting loop: the lowest free slot, if any, is claimed. */
  function ClaimedAll(slots: seq<Slot>, accepted: Option<nat>, spawned: Option<nat>): (r: seq<Slot>)
    ensures |r| == |slots|
  {
    var k := FirstFree(slots);
    if k == |slots| then slots else slots[k := Claimed(slots[k], accepted, spawned)]
  }

  // ---------------------------------------------------------------------
  // Properties.

  /** Sweeping empties exactly the finished slots, and a second sweep finds nothing more to do. */
  lemma SweepExactlyFinished(slots: seq<Slot>)
    ensures forall i :: 0 <= i < |slots| ==>
              (Finished(slots[i]) <==> SweptAll(slots)[i] != slots[i])
    ensures forall i :: 0 <= i < |slots| ==> !Finished(SweptAll(slots)[i])
    ensures SweptAll(SweptAll(slots)) == SweptAll(slots)
  {
    forall i | 0 <= i < |slots| && Finished(slots[i])
      ensures SweptAll(slots)[i] != slots[i]
    {
      assert !Finished(SweptAll(slots)[i]);
    }
  }

  /** A handler still running keeps its slot through a sweep, and no slot becomes in use. */
  lemma SweepKeepsRunning(slots: seq<Slot>)
    ensures forall i :: 0 <= i < |slots| && InUse(slots[i]) && !Finished(slots[i]) ==> SweptAll(slots)[i] == slots[i]
    ensures forall i :: 0 <= i < |slots| && InUse(SweptAll(slots)[i]) ==> InUse(slots[i])
  {
  }

  /**
   * A pass of the accepting loop changes at most one slot, the lowest free
   * one, and leaves every slot in use alone; the new connection is served
   * exactly when both `accept` and `pthread_create` succeed.
   */
  lemma ClaimTouchesOne(slots: seq<Slot>, accepted: Option<nat>, spawned: Option<nat>)
    ensures var r := ClaimedAll(slots, accepted, spawned);
            forall j :: 0 <= j < |slots| && j != FirstFree(slots) ==> r[j] == slots[j]
    ensures var r := ClaimedAll(slots, accepted, spawned);
            forall j :: 0 <= j < |slots| && InUse(slots[j]) ==> r[j] == slots[j]
    ensures var r := ClaimedAll(slots, accepted, spawned);
            var k := FirstFree(slots);
            k < |slots| ==> (InUse(r[k]) <==> accepted.Some? && spawned.Some?)
    ensures FirstFree(slots) == |slots| ==> ClaimedAll(slots, accepted, spawned) == slots
  {
  }

  /** With every slot in use the server accepts nothing: a full table is left as it is. */
  lemma FullTableRefuses(slots: seq<Slot>, accepted: Option<nat>, spawned: Option<nat>)
    requires forall i :: 0 <= i < |slots| ==> InUse(slots[i])
    ensures ClaimedAll(slots, accepted, spawned) == slots
  {
    assert FirstFree(slots) == |slots|;
  }

  /** After a stop no slot is in use, and no socket that was in use is left open. */
  lemma StopFreesAll(slots: seq<Slot>)
    ensures forall i :: 0 <= i < |slots| ==> !InUse(StoppedAll(slots)[i])
    ensures forall i :: 0 <= i < |slots| && InUse(slots[i]) ==>
              StoppedAll(slots)[i].sockfd == SOCKERR && StoppedAll(slots)[i].thread.None?
    ensures forall i :: 0 <= i < |slots| && !InUse(slots[i]) ==> StoppedAll(slots)[i] == slots[i]
  {
  }

  /** The freshly initialised table is idle and keeps the invariant. */
  lemma InitialTableOk()
    ensures var t := seq(MAX_CONNECTIONS, i => IDLE);
            TableOk(t) && FirstFree(t) == 0
  {
  }

  /** Every transition of one slot keeps the invariant. */
  lemma TransitionsKeepSlotOk(s: Slot, accepted: Option<nat>, spawned: Option<nat>, buffer: nat)
    requires SlotOk(s)
    ensures SlotOk(Swept(s))
    ensures SlotOk(Exited(s))
    ensures SlotOk(Stopped(s))
    ensures SlotOk(Claimed(s, accepted, spawned))
    ensures SlotOk(s.(selector := Some(buffer)))
  {
  }

  /** The sweep, a claim and a stop each keep the invariant of the whole table. */
  lemma TableTransitionsKeepOk(slots: seq<Slot>, accepted: Option<nat>, spawned: Option<nat>)
    requires TableOk(slots)
    ensures TableOk(SweptAll(slots))
    ensures TableOk(ClaimedAll(slots, accepted, spawned))
    ensures TableOk(StoppedAll(slots))
  {
    var k := FirstFree(slots);
    if k < |slots| {
      TransitionsKeepSlotOk(slots[k], accepted, spawned, 0);
    }
    forall i | 0 <= i < |slots|
      ensures SlotOk(SweptAll(slots)[i]) && SlotOk(StoppedAll(slots)[i])
    {
      TransitionsKeepSlotOk(slots[i], accepted, spawned, 0);
    }
  }

  /** Replacing one slot by one that keeps the slot invariant keeps the table's. */
  lemma TableUpdateOk(slots: seq<Slot>, i: nat, s: Slot)
    requires TableOk(slots) && i < |slots| && SlotOk(s)
    ensures TableOk(slots[i := s])
  {
    var u := slots[i := s];
    forall j | 0 <= j < |u|
      ensures SlotOk(u[j])
    {
      if j != i {
        assert u[j] == slots[j];
      }
    }
  }

  // ---------------------------------------------------------------------
  // The table as the server holds it.

  class ConnectionTable {
    var slots: array<Slot>
    var running: bool

    /** The table has its fixed size and every slot keeps the slot invariant. */
    ghost predicate Valid()
      reads this, slots
    {
      slots.Length == MAX_CONNECTIONS && TableOk(slots[..])
    }

    /** The loop in `main` that empties every slot, with the server not yet running. */
    constructor ()
      ensures Valid() && fresh(slots) && !running
      ensures slots[..] == seq(MAX_CONNECTIONS, i => IDLE)
    {
      running := false;
      slots := new Slot[MAX_CONNECTIONS](i => IDLE);
      InitialTableOk();
    }

    /** The clean-up loop at the top of each pass of `server_loop`. */
    method Sweep()
      requires Valid()
      modifies slots
      ensures Valid()
      ensures slots[..] == SweptAll(old(slots[..]))
    {
      for i := 0 to slots.Length
        invariant slots[..i] == SweptAll(old(slots[..]))[..i]
        invariant slots[i..] == old(slots[i..])
      {
        var s := slots[i];
        if s.status & CONN_FINISHED != 0 {
          slots[i] := s.(status := 0, thread := None, selector := None);
        }
        assert slots[..i + 1] == slots[..i] + [Swept(old(slots[i]))];
      }
      TableTransitionsKeepOk(old(slots[..]), None, None);
    }

    /**
     * The accepting loop of `server_loop`: slots in use are skipped, and the
     * first free slot gets the outcome of `accept` and `pthread_create`,
     * after which the loop ends. Returns the slot tried, if any.
     */
    method Claim(accepted: Option<nat>, spawned: Option<nat>) returns (tried: Option<nat>)
      requires Valid()
      modifies slots
      ensures Valid()
      ensures slots[..] == ClaimedAll(old(slots[..]), accepted, spawned)
      ensures tried.None? <==> FirstFree(old(slots[..])) == MAX_CONNECTIONS
      ensures tried.Some? ==> tried.value == FirstFree(old(slots[..]))
    {
      ghost var before := slots[..];
      TableTransitionsKeepOk(before, accepted, spawned);
      var i := 0;
      while i < slots.Length
        invariant 0 <= i <= slots.Length
        invariant slots[..] == before
        invariant forall j :: 0 <= j < i ==> InUse(slots[j])
      {
        var s := slots[i];
        if s.status & CONN_INUSE == 0 {
          assert FirstFree(before) == i by {
            FirstFreeAt(before, i);
          }
          match accepted {
            case None =>
              slots[i] := s.(status := 0, sockfd := SOCKERR);
            case Some(fd) =>
              match spawned {
                case None =>
                  slots[i] := s.(status := 0, sockfd := fd);
                case Some(t) =>
                  slots[i] := s.(status := CONN_INUSE, sockfd := fd, thread := spawned);
              }
          }
          return Some(i);
        }
        i := i + 1;
      }
      FirstFreeAt(before, i);
      return None;
    }

    /** `server_process_request` storing the address of its selector buffer in its slot. */
    method HandlerStart(i: nat, buffer: nat)
      requires Valid() && i < MAX_CONNECTIONS
      modifies slots
      ensures Valid()
      ensures slots[..] == old(slots[..])[i := old(slots[i]).(selector := Some(buffer))]
    {
      var s := slots[i];
      TransitionsKeepSlotOk(s, None, None, buffer);
      TableUpdateOk(slots[..], i, s.(selector := Some(buffer)));
      slots[i] := s.(selector := Some(buffer));
    }

    /** The end of `server_process_request`: the socket is closed and forgotten and the slot marked finished. */
    method HandlerExit(i: nat)
      requires Valid() && i < MAX_CONNECTIONS
      modifies slots
      ensures Valid()
      ensures slots[..] == old(slots[..])[i := Exited(old(slots[i]))]
    {
      var s := slots[i];
      TransitionsKeepSlotOk(s, None, None, 0);
      TableUpdateOk(slots[..], i, Exited(s));
      slots[i] := s.(status := s.status | CONN_FINISHED, sockfd := SOCKERR);
    }

    /** `server_stop`: the server stops running and every slot in use is emptied. */
    method Stop()
      requires Valid()
      modifies this, slots
      ensures Valid() && slots == old(slots) && !running
      ensures slots[..] == StoppedAll(old(slots[..]))
    {
      running := false;
      for i := 0 to slots.Length
        invariant slots == old(slots) && !running
        invariant slots[..i] == StoppedAll(old(slots[..]))[..i]
        invariant slots[i..] == old(slots[i..])
      {
        var s := slots[i];
        if s.status & CONN_INUSE != 0 {
          slots[i] := s.(status := 0, sockfd := SOCKERR, thread := None);
        }
        assert slots[..i + 1] == slots[..i] + [Stopped(old(slots[i]))];
      }
      TableTransitionsKeepOk(old(slots[..]), None, None);
    }
  }

  /** A scan that has seen only slots in use up to `k`, and a free one at `k` if any, has found the first free slot. */
  lemma FirstFreeAt(slots: seq<Slot>, k: nat)
    requires k <= |slots|
    requires forall j :: 0 <= j < k ==> InUse(slots[j])
    requires k < |slots| ==> !InUse(slots[k])
    ensures FirstFree(slots) == k
  {
  }
}
