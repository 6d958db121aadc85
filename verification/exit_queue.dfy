/** The exit-dispatch queue and the exit-mode indicator byte derived from it
    (WillsIO.cpp:345-437). */
module ExitQueue {
  import opened Bytes
  import opened IoState

  /** Destination codes, the high nibble of a request. */
  const MAIN: Byte := 0x10
  const GOODS: Byte := 0x20
  const BRANCH: Byte := 0x40
  const THROUGH: Byte := 0x80

  // ---------------------------------------------------------------------
  // Shape of the queue
  // ---------------------------------------------------------------------

  /** The requests waiting in `q`: its leading non-zero entries. */
  function Pending(q: seq<Byte>): (p: seq<Byte>)
    ensures |p| <= |q|
    ensures forall i :: 0 <= i < |p| ==> p[i] == q[i] && p[i] != 0
    ensures |p| < |q| ==> q[|p|] == 0
  {
    if q == [] || q[0] == 0 then [] else [q[0]] + Pending(q[1..])
  }

  /** Non-zero entries form a prefix: no empty slot precedes a request. */
  predicate WellShaped(q: seq<Byte>)
  {
    forall i, j :: 0 <= i < j < |q| && q[i] == 0 ==> q[j] == 0
  }

  /** Index of the first empty slot at or after `i`, or `|q|` if none. */
  function FirstEmpty(q: seq<Byte>, i: nat): (r: nat)
    requires i <= |q|
    ensures i <= r <= |q|
    ensures r < |q| ==> q[r] == 0
    ensures forall j :: i <= j < r ==> q[j] != 0
    decreases |q| - i
  {
    if i == |q| then |q|
    else if q[i] == 0 then i
    else FirstEmpty(q, i + 1)
  }

  /** Request `v` names siding `siding` (a zero byte names nothing). */
  predicate ForSiding(v: Byte, siding: Byte)
  {
    v != 0 && v & 0x0F == siding
  }

  /** Siding `siding` is waiting in the queue or is being dispatched. */
  predicate SidingQueued(io: Io, siding: Byte)
  {
    || (exists i :: 0 <= i < QueueLength && ForSiding(io.exitQueue[i], siding))
    || ForSiding(io.activeExit, siding)
  }

  // ---------------------------------------------------------------------
  // Indicator encoding
  // ---------------------------------------------------------------------

  /** Every flashing destination (low nibble) is also lit (high nibble). */
  predicate FlashImpliesLit(d: Byte)
  {
    forall k :: 0 <= k < 4 ==> Bit8(d, k) ==> Bit8(d, k + 4)
  }

  lemma HighNibbleBit(v: Byte, k: nat)
    requires k < 8
    ensures Bit8(v & 0xF0, k) <==> 4 <= k && Bit8(v, k)
    ensures Bit8((v & 0xF0) >> 4, k) <==> k < 4 && Bit8(v, k + 4)
  {
    if k == 0 {} else if k == 1 {} else if k == 2 {} else if k == 3 {}
    else if k == 4 {} else if k == 5 {} else if k == 6 {} else {}
  }

  lemma OrBit(a: Byte, b: Byte, k: nat)
    requires k < 8
    ensures Bit8(a | b, k) <==> Bit8(a, k) || Bit8(b, k)
  {
  }

  /** Some request in `q` targets the destination of bit `k`. */
  predicate QueuedFor(q: Queue, k: nat)
    requires k < 8
  {
    exists i :: 0 <= i < QueueLength && Bit8(q[i], k)
  }

  /** OR of the destination nibbles of the first `n` slots, as the loop at
      WillsIO.cpp:365-367 accumulates it. */
  function QueuedModes(q: Queue, n: nat): (m: Byte)
    requires n <= QueueLength
    ensures forall k :: 0 <= k < 8 ==>
      (Bit8(m, k) <==> 4 <= k && exists i :: 0 <= i < n && Bit8(q[i], k))
  {
    if n == 0 then 0
    else
      var m := QueuedModes(q, n - 1) | (q[n - 1] & 0xF0);
      assert forall k :: 0 <= k < 8 ==>
        (Bit8(m, k) <==> Bit8(QueuedModes(q, n - 1), k) || (4 <= k && Bit8(q[n - 1], k))) by {
        forall k | 0 <= k < 8
          ensures Bit8(m, k) <==> Bit8(QueuedModes(q, n - 1), k) || (4 <= k && Bit8(q[n - 1], k))
        {
          OrBit(QueuedModes(q, n - 1), q[n - 1] & 0xF0, k);
          HighNibbleBit(q[n - 1], k);
        }
      }
      m
  }

  /** Bit k of the indicator byte built from the queued modes and `myExit`. */
  lemma DisplayBits(queued: Byte, myExit: Byte, k: nat)
    requires k < 8
    ensures Bit8((queued | (myExit & 0xF0)) | ((myExit & 0xF0) >> 4), k)
      <==> Bit8(queued, k) || (4 <= k && Bit8(myExit, k)) || (k < 4 && Bit8(myExit, k + 4))
  {
    OrBit(queued | (myExit & 0xF0), (myExit & 0xF0) >> 4, k);
    OrBit(queued, myExit & 0xF0, k);
    HighNibbleBit(myExit, k);
  }

  /** `IO::setExitModeDisplay(myExit)`: a destination is lit when some
      queued request or `myExit` targets it, and flashes exactly when
      `myExit` targets it.  The next scan then refreshes the indicators. */
  function SetExitModeDisplay(io: Io, myExit: Byte): (r: Io)
    ensures forall k :: 4 <= k < 8 ==>
      (Bit8(r.exitModeDisplay, k) <==> QueuedFor(io.exitQueue, k) || Bit8(myExit, k))
    ensures forall k :: 0 <= k < 4 ==>
      (Bit8(r.exitModeDisplay, k) <==> Bit8(myExit, k + 4))
    ensures FlashImpliesLit(r.exitModeDisplay)
    ensures r.halfSecond == 1
    ensures r == io.(exitModeDisplay := r.exitModeDisplay, halfSecond := 1)
  {
    var queued := QueuedModes(io.exitQueue, QueueLength);
    var d := (queued | (myExit & 0xF0)) | ((myExit & 0xF0) >> 4);
    forall k | 0 <= k < 8
      ensures Bit8(d, k) <==> Bit8(queued, k) || (4 <= k && Bit8(myExit, k)) || (k < 4 && Bit8(myExit, k + 4))
    {
      DisplayBits(queued, myExit, k);
    }
    assert forall k :: 4 <= k < 8 ==> (Bit8(queued, k) <==> QueuedFor(io.exitQueue, k));
    io.(exitModeDisplay := d, halfSecond := 1)
  }

  // ---------------------------------------------------------------------
  // Queue operations
  // ---------------------------------------------------------------------

  datatype Pushed = Pushed(io: Io, accepted: bool)

  datatype Popped = Popped(io: Io, value: Byte)

  /** `IO::addToQueue(queue)`.  A zero value purges the queue, forgets the
      active exit and switches every indicator off; a non-zero value takes
      the first empty slot, or is refused with nothing changed. */
  function AddToQueue(io: Io, v: Byte): (r: Pushed)
    ensures v == 0 ==>
      && r.accepted
      && r.io.exitQueue == EmptyQueue
      && r.io.activeExit == 0
      && r.io.exitModeDisplay == 0
      && r.io.halfSecond == 1
      && r.io.pointValues == io.pointValues
      && r.io.totiValues == io.totiValues
      && r.io.blinker == io.blinker
    ensures v != 0 ==> (r.accepted <==> exists i :: 0 <= i < QueueLength && io.exitQueue[i] == 0)
    ensures v != 0 && r.accepted ==>
      exists k :: 0 <= k < QueueLength && io.exitQueue[k] == 0
        && (forall j :: 0 <= j < k ==> io.exitQueue[j] != 0)
        && r.io == io.(exitQueue := io.exitQueue[k := v])
    ensures v != 0 && !r.accepted ==> r.io == io
  {
    if v == 0 then
      var cleared := SetExitModeDisplay(io.(exitQueue := EmptyQueue, activeExit := 0), 0);
      assert cleared.exitModeDisplay == 0 by {
        var d := cleared.exitModeDisplay;
        assert forall k :: 0 <= k < 8 ==> !Bit8(d, k);
        assert !Bit8(d, 0) && !Bit8(d, 1) && !Bit8(d, 2) && !Bit8(d, 3);
        assert !Bit8(d, 4) && !Bit8(d, 5) && !Bit8(d, 6) && !Bit8(d, 7);
      }
      Pushed(cleared, true)
    else
      var k := FirstEmpty(io.exitQueue, 0);
      if k < QueueLength then Pushed(io.(exitQueue := io.exitQueue[k := v]), true)
      else Pushed(io, false)
  }

  /** `IO::getFromQueue()`: hands out slot 0 (zero when empty), moves the
      other requests one slot forward and remembers the value as the active
      exit, even when it is zero. */
  function GetFromQueue(io: Io): (r: Popped)
    ensures r.value == io.exitQueue[0]
    ensures forall i :: 0 <= i < QueueLength - 1 ==> r.io.exitQueue[i] == io.exitQueue[i + 1]
    ensures r.io.exitQueue[QueueLength - 1] == 0
    ensures r.io == io.(exitQueue := r.io.exitQueue, activeExit := r.value)
  {
    var q: Queue := io.exitQueue[1..] + [0];
    Popped(io.(exitQueue := q, activeExit := io.exitQueue[0]), io.exitQueue[0])
  }

  /** `IO::isThisSidingQueued(siding)`, with the source's loop: the active
      exit is consulted inside the loop, so a siding being dispatched counts
      as queued. */
  method IsThisSidingQueued(io: Io, siding: Byte) returns (found: bool)
    ensures found <==> SidingQueued(io, siding)
  {
    var i := 0;
    while i < QueueLength
      invariant 0 <= i <= QueueLength
      invariant forall j :: 0 <= j < i ==> !ForSiding(io.exitQueue[j], siding)
      invariant 0 < i ==> !ForSiding(io.activeExit, siding)
    {
      var v := io.exitQueue[i];
      if v != 0 && v & 0x0F == siding {
        return true;
      }
      if io.activeExit != 0 && io.activeExit & 0x0F == siding {
        return true;
      }
      i := i + 1;
    }
    return false;
  }

  /** `IO::queueNotEmpty()`: looks at slot 0 only, which on a well-shaped
      queue is the same as asking whether any request is waiting. */
  function QueueNotEmpty(io: Io): (r: bool)
    ensures WellShaped(io.exitQueue) ==> (r <==> Pending(io.exitQueue) != [])
    ensures WellShaped(io.exitQueue) ==> (r <==> exists i :: 0 <= i < QueueLength && io.exitQueue[i] != 0)
  {
    io.exitQueue[0] != 0
  }

  /** `IO::clearActiveExit()`: afterwards only the queue itself makes a
      siding count as queued. */
  function ClearActiveExit(io: Io): (r: Io)
    ensures r.exitQueue == io.exitQueue
    ensures forall s: Byte :: SidingQueued(r, s) <==>
      exists i :: 0 <= i < QueueLength && ForSiding(io.exitQueue[i], s)
    ensures r == io.(activeExit := 0)
  {
    io.(activeExit := 0)
  }

  // ---------------------------------------------------------------------
  // Properties across calls
  // ---------------------------------------------------------------------

  lemma WellShapedLayout(q: Queue)
    requires WellShaped(q)
    ensures forall i :: 0 <= i < QueueLength ==> (q[i] != 0 <==> i < |Pending(q)|)
    ensures FirstEmpty(q, 0) == |Pending(q)|
  {
    var n := |Pending(q)|;
    assert forall i :: 0 <= i < n ==> q[i] != 0;
    if n < QueueLength {
      assert q[n] == 0;
      assert forall i :: n <= i < QueueLength ==> q[i] == 0;
    }
  }

  /** A non-zero request is accepted exactly when fewer than four are
      waiting; it then joins the end of the waiting line, and the queue keeps
      its shape. */
  lemma AddAppends(io: Io, v: Byte)
    requires WellShaped(io.exitQueue) && v != 0
    ensures var r := AddToQueue(io, v);
      && (r.accepted <==> |Pending(io.exitQueue)| < QueueLength)
      && WellShaped(r.io.exitQueue)
      && (r.accepted ==> Pending(r.io.exitQueue) == Pending(io.exitQueue) + [v])
      && (!r.accepted ==> r.io == io)
  {
    var q := io.exitQueue;
    var p := Pending(q);
    WellShapedLayout(q);
    var r := AddToQueue(io, v);
    if |p| < QueueLength {
      var q' := q[|p| := v];
      assert r.io.exitQueue == q';
      assert forall i :: 0 <= i < QueueLength ==> (q'[i] != 0 <==> i < |p| + 1);
      PendingOfLayout(q', p + [v]);
    }
  }

  /** Popping hands out the oldest waiting request (0 when none wait) and
      leaves the rest waiting in order. */
  lemma PopTakesOldest(io: Io)
    requires WellShaped(io.exitQueue)
    ensures var r := GetFromQueue(io);
      var p := Pending(io.exitQueue);
      && WellShaped(r.io.exitQueue)
      && r.value == (if p == [] then 0 else p[0])
      && Pending(r.io.exitQueue) == (if p == [] then [] else p[1..])
      && r.io.activeExit == r.value
  {
    var q := io.exitQueue;
    var p := Pending(q);
    WellShapedLayout(q);
    var r := GetFromQueue(io);
    var q' := r.io.exitQueue;
    if p == [] {
      assert forall i :: 0 <= i < QueueLength ==> q'[i] == 0;
      PendingOfLayout(q', []);
    } else {
      assert forall i :: 0 <= i < QueueLength ==> (q'[i] != 0 <==> i < |p| - 1);
      PendingOfLayout(q', p[1..]);
    }
  }

  /** A queue whose non-zero slots are exactly the first |p| and hold p. */
  lemma PendingOfLayout(q: Queue, p: seq<Byte>)
    requires |p| <= QueueLength
    requires forall i :: 0 <= i < QueueLength ==> (q[i] != 0 <==> i < |p|)
    requires forall i :: 0 <= i < |p| ==> q[i] == p[i]
    ensures Pending(q) == p
    ensures WellShaped(q)
  {
    var pq := Pending(q);
    if |pq| < QueueLength {
      assert q[|pq|] == 0;
    }
    if 0 < |pq| {
      assert q[|pq| - 1] != 0;
    }
    assert |pq| == |p|;
  }

  /** Adding each of `vs` in turn; the acceptance flags are collected. */
  function AddAll(io: Io, vs: seq<Byte>): (r: Io)
    decreases |vs|
  {
    if vs == [] then io else AddAll(AddToQueue(io, vs[0]).io, vs[1..])
  }

  /** Popping `n` times; the handed-out values in order. */
  function PopAll(io: Io, n: nat): (r: (Io, seq<Byte>))
    ensures |r.1| == n
    decreases n
  {
    if n == 0 then (io, [])
    else
      var p := GetFromQueue(io);
      var rest := PopAll(p.io, n - 1);
      (rest.0, [p.value] + rest.1)
  }

  lemma AppendFirst<T>(p: seq<T>, vs: seq<T>)
    requires vs != []
    ensures p + [vs[0]] + vs[1..] == p + vs
  {
    assert [vs[0]] + vs[1..] == vs;
  }

  /** Requests that fit are all accepted and queue up behind those waiting. */
  lemma {:induction false} AddAllAppends(io: Io, vs: seq<Byte>)
    requires WellShaped(io.exitQueue)
    requires forall i :: 0 <= i < |vs| ==> vs[i] != 0
    requires |Pending(io.exitQueue)| + |vs| <= QueueLength
    ensures WellShaped(AddAll(io, vs).exitQueue)
    ensures Pending(AddAll(io, vs).exitQueue) == Pending(io.exitQueue) + vs
    decreases |vs|
  {
    if vs != [] {
      var io' := AddToQueue(io, vs[0]).io;
      assert WellShaped(io'.exitQueue) && Pending(io'.exitQueue) == Pending(io.exitQueue) + [vs[0]] by {
        AddAppends(io, vs[0]);
      }
      assert forall i :: 0 <= i < |vs[1..]| ==> vs[1..][i] != 0;
      AddAllAppends(io', vs[1..]);
      assert AddAll(io, vs) == AddAll(io', vs[1..]);
      AppendFirst(Pending(io.exitQueue), vs);
    }
  }

  lemma TakeAfterFirst<T>(p: seq<T>, n: nat)
    requires 0 < n <= |p|
    ensures [p[0]] + p[1..][..n - 1] == p[..n]
    ensures p[1..][n - 1..] == p[n..]
  {
  }

  /** Popping `n` times hands out the first `n` waiting requests, oldest
      first. */
  lemma {:induction false} PopAllTakesInOrder(io: Io, n: nat)
    requires WellShaped(io.exitQueue)
    requires n <= |Pending(io.exitQueue)|
    ensures PopAll(io, n).1 == Pending(io.exitQueue)[..n]
    ensures WellShaped(PopAll(io, n).0.exitQueue)
    ensures Pending(PopAll(io, n).0.exitQueue) == Pending(io.exitQueue)[n..]
    decreases n
  {
    if n > 0 {
      var pend := Pending(io.exitQueue);
      var p := GetFromQueue(io);
      assert p.value == pend[0] && WellShaped(p.io.exitQueue) && Pending(p.io.exitQueue) == pend[1..] by {
        PopTakesOldest(io);
      }
      var rest := PopAll(p.io, n - 1);
      PopAllTakesInOrder(p.io, n - 1);
      assert PopAll(io, n) == (rest.0, [p.value] + rest.1);
      TakeAfterFirst(pend, n);
    }
  }

  /** First in, first out: up to four requests added to an empty queue come
      back out in the order they went in. */
  lemma Fifo(io: Io, vs: seq<Byte>)
    requires io.exitQueue == EmptyQueue
    requires |vs| <= QueueLength
    requires forall i :: 0 <= i < |vs| ==> vs[i] != 0
    ensures PopAll(AddAll(io, vs), |vs|).1 == vs
  {
    assert Pending(io.exitQueue) == [];
    AddAllAppends(io, vs);
    PopAllTakesInOrder(AddAll(io, vs), |vs|);
  }

  /** With four requests waiting, a fifth is refused and nothing changes. */
  lemma FullQueueRefuses(io: Io, vs: seq<Byte>, v: Byte)
    requires io.exitQueue == EmptyQueue
    requires |vs| == QueueLength
    requires forall i :: 0 <= i < |vs| ==> vs[i] != 0
    requires v != 0
    ensures !AddToQueue(AddAll(io, vs), v).accepted
    ensures AddToQueue(AddAll(io, vs), v).io == AddAll(io, vs)
  {
    assert Pending(io.exitQueue) == [];
    AddAllAppends(io, vs);
    AddAppends(AddAll(io, vs), v);
  }

  /** A siding counts as queued once its request is accepted, and stays so
      when that request is popped: the popped request becomes the active
      exit.  Clearing the active exit then leaves it queued only if another
      request for it waits. */
  lemma PoppedSidingStaysQueued(io: Io, v: Byte)
    requires WellShaped(io.exitQueue) && v != 0
    requires AddToQueue(io, v).accepted
    ensures var added := AddToQueue(io, v).io;
      && SidingQueued(added, v & 0x0F)
      && (Pending(io.exitQueue) == [] ==>
            var popped := GetFromQueue(added);
            && popped.value == v
            && SidingQueued(popped.io, v & 0x0F)
            && (SidingQueued(ClearActiveExit(popped.io), v & 0x0F) <==>
                  exists i :: 0 <= i < QueueLength && ForSiding(popped.io.exitQueue[i], v & 0x0F)))
  {
    AddAppends(io, v);
    var added := AddToQueue(io, v).io;
    var k := |Pending(io.exitQueue)|;
    assert Pending(added.exitQueue)[k] == v;
    assert ForSiding(added.exitQueue[k], v & 0x0F);
    if Pending(io.exitQueue) == [] {
      PopTakesOldest(added);
    }
  }

  /** The next pop overwrites the active exit even from an empty queue, so
      a lone request's siding stops counting as queued without the active
      exit ever being cleared. */
  lemma NextPopForgetsSiding(io: Io, v: Byte)
    requires WellShaped(io.exitQueue) && Pending(io.exitQueue) == [] && v != 0
    ensures var once := GetFromQueue(AddToQueue(io, v).io);
      var twice := GetFromQueue(once.io);
      && once.value == v && SidingQueued(once.io, v & 0x0F)
      && twice.value == 0 && !SidingQueued(twice.io, v & 0x0F)
  {
    WellShapedLayout(io.exitQueue);
    var q := io.exitQueue;
    assert q[0] == 0;
    var added := AddToQueue(io, v).io;
    assert added.exitQueue == q[0 := v];
    var once := GetFromQueue(added);
    assert once.value == v;
    assert forall i :: 0 <= i < QueueLength ==> once.io.exitQueue[i] == 0;
    var twice := GetFromQueue(once.io);
    assert forall i :: 0 <= i < QueueLength ==> twice.io.exitQueue[i] == 0;
  }

  /** Popping never makes a siding that was waiting in the queue stop
      counting as queued. */
  lemma PopKeepsQueuedSidings(io: Io, siding: Byte)
    requires WellShaped(io.exitQueue)
    requires exists i :: 0 <= i < QueueLength && ForSiding(io.exitQueue[i], siding)
    ensures SidingQueued(GetFromQueue(io).io, siding)
  {
    var i :| 0 <= i < QueueLength && ForSiding(io.exitQueue[i], siding);
    var r := GetFromQueue(io);
    if i == 0 {
      assert ForSiding(r.io.activeExit, siding);
    } else {
      assert ForSiding(r.io.exitQueue[i - 1], siding);
    }
  }

  /** Purging leaves a well-shaped empty queue, no active exit and an
      indicator byte with every destination dark. */
  lemma PurgeEmpties(io: Io, s: Byte)
    ensures var r := AddToQueue(io, 0).io;
      && WellShaped(r.exitQueue) && Pending(r.exitQueue) == []
      && !SidingQueued(r, s)
      && !QueueNotEmpty(r)
  {
  }

  /** The dispatch example: a MAIN request from siding 1, popped and
      displayed as active, lights and flashes MAIN and nothing else. */
  lemma MainFromSidingOneFlashes(io: Io)
    requires io.exitQueue == EmptyQueue
    ensures var added := AddToQueue(io, MAIN | 0x01);
      var popped := GetFromQueue(added.io);
      var shown := SetExitModeDisplay(popped.io, popped.value);
      && added.accepted
      && popped.value == 0x11
      && shown.exitModeDisplay == 0x11
  {
    var added := AddToQueue(io, MAIN | 0x01);
    var popped := GetFromQueue(added.io);
    assert popped.io.exitQueue == EmptyQueue;
    var d := SetExitModeDisplay(popped.io, popped.value).exitModeDisplay;
    assert Bit8(d, 0) && !Bit8(d, 1) && !Bit8(d, 2) && !Bit8(d, 3);
    assert Bit8(d, 4) && !Bit8(d, 5) && !Bit8(d, 6) && !Bit8(d, 7);
  }
}
