/** The receive stream of the SoapySDR driver: a third, local count beside the two of the kernel
    tells which buffers of the shared ring are in the hands of the client. */
module SoapyRx {
  import opened DmaConfig
  import opened WriterChannel
  import Ring = RxDevice
  import HwCount
  import opened Bits

  const DETECT_EVERY_OVERFLOW := true

  /** Result of `acquireReadBuffer`; a failed `assert` of the source is an outcome of its own. */
  datatype Acquired = Handle(n: nat, slot: nat) | Timeout | Overflow | Thrown | AssertFailed(line: nat)

  /** One entry of the history: a handle given out, or a jump caused by an overflow. */
  datatype Grant = Given(n: nat) | Jumped(to: nat)

  function NextHandle(log: seq<Grant>): nat {
    if log == [] then 0
    else match log[|log| - 1]
      case Given(n) => n + 1
      case Jumped(to) => to
  }

  /** Every entry follows the one before: the next handle, or a jump ahead of it. */
  ghost predicate LogOk(log: seq<Grant>) {
    log == [] ||
    (var front := log[..|log| - 1];
     && LogOk(front)
     && match log[|log| - 1]
        case Given(n) => n == NextHandle(front)
        case Jumped(to) => to >= NextHandle(front))
  }

  function Handles(log: seq<Grant>): seq<nat> {
    if log == [] then []
    else
      var front := Handles(log[..|log| - 1]);
      match log[|log| - 1]
      case Given(n) => front + [n]
      case Jumped(_) => front
  }

  lemma {:induction false} NextHandleMonotone(log: seq<Grant>, i: nat)
    requires LogOk(log) && i <= |log|
    ensures LogOk(log[..i]) && NextHandle(log[..i]) <= NextHandle(log)
    decreases |log|
  {
    if i == |log| {
      assert log[..i] == log;
    } else {
      NextHandleMonotone(log[..|log| - 1], i);
      assert log[..|log| - 1][..i] == log[..i];
    }
  }

  /** Over a whole run the handles increase strictly. */
  lemma HandlesIncrease(log: seq<Grant>, i: nat, j: nat)
    requires LogOk(log) && i < j < |log| && log[i].Given? && log[j].Given?
    ensures log[i].n < log[j].n
  {
    NextHandleMonotone(log, j + 1);
    NextHandleMonotone(log, j);
    assert log[..j + 1][..j] == log[..j];
    NextHandleMonotone(log[..j], i + 1);
    assert log[..j][..i + 1] == log[..i + 1];
  }

  /** They are contiguous except across an overflow. */
  lemma {:induction false} HandlesContiguous(log: seq<Grant>, i: nat, j: nat)
    requires LogOk(log) && i <= j < |log|
    requires forall k :: i <= k <= j ==> log[k].Given?
    ensures log[j].n == log[i].n + (j - i)
    decreases j - i
  {
    if i < j {
      HandlesContiguous(log, i, j - 1);
      NextHandleMonotone(log, j + 1);
      assert log[..j + 1][..j] == log[..j];
    }
  }

  /** The threshold of `litepcie_poll` against a client that holds `user - sw` buffers: a reported
      POLLIN always means a new buffer exactly when at most two are held. */
  lemma PollinMeansNewBuffer(sw: nat, user: nat)
    requires sw <= user
    ensures (forall hw: nat :: hw >= user && PollIn(hw, sw) ==> hw > user) <==> user - sw <= 2
  {
    if user - sw > 2 {
      assert PollIn(user, sw);
    }
  }

  // ----- a count fetched between two stores of the interrupt handler -----

  /** The client's count after an acquire that does not wait and fetched the device's count `f`. */
  function UserAfter(sw: nat, user: nat, f: nat): nat {
    if f == user then user else if f - sw > DMA_BUFFER_COUNT / 2 then f else user + 1
  }

  /** The assert at the head of the next acquire, which compares that count with `f` again. */
  predicate NextAssert(sw: nat, user: nat, f: nat) {
    ToInt32(f - UserAfter(sw, user, f)) >= 0
  }

  /** It holds exactly if the count fetched was not behind the client's. */
  lemma NextAssertHolds(sw: nat, user: nat, f: nat)
    requires sw <= user && user - sw <= 2 && -INT32_END < user - f < INT32_END
    ensures NextAssert(sw, user, f) <==> user <= f
  {
    Unnarrowed(f - UserAfter(sw, user, f));
  }

  /** A client that fetches the count just after it was masked meets a failing assert in its next call exactly if it has
      come past the last multiple of 2^24. */
  lemma MaskedAssertHolds(sw: nat, user: nat, hw: nat)
    requires sw <= user <= hw < INT64_END && user - sw <= 2 && hw - user < INT32_END
    ensures NextAssert(sw, user, And(hw, 0xffff_ffff_ff00_0000)) <==> user <= hw - hw % COUNT_WRAP
  {
    HwCount.MaskClearsLow24(hw);
    NextAssertHolds(sw, user, hw - hw % COUNT_WRAP);
  }

  /** As it does at once: three buffers used, five there, and none to be seen. */
  lemma MaskedAssertFails(sw: nat, user: nat, hw: nat)
    requires sw == user == 3 && hw == 5
    ensures !NextAssert(sw, user, And(hw, 0xffff_ffff_ff00_0000))
  {
    MaskedAssertHolds(sw, user, hw);
  }

  class RxStream {
    const k: WriterChan
    var hwCount: nat
    var swCount: nat
    var userCount: nat
    var remainderHandle: int
    var remainderSamps: nat
    var remainderOffset: nat
    // History since the stream was activated.
    ghost var grants: seq<Grant>
    ghost var released: seq<nat>
    ghost var returned: nat
    ghost var dropped: nat

    /** The three counters of a client that releases in order. */
    ghost predicate Ordered()
      reads this, k
    {
      && k.Valid() && k.enable
      && k.swCount <= userCount <= hwCount <= k.hwCount
      && LogOk(grants) && NextHandle(grants) == userCount
    }

    /** And what the driver knows is at most half a ring ahead of the client. */
    ghost predicate Disciplined()
      reads this, k
    {
      Ordered() && hwCount - userCount <= DMA_BUFFER_COUNT / 2
    }

    constructor (k: WriterChan)
      requires k.Valid()
      ensures this.k == k && hwCount == swCount == userCount == 0 && remainderHandle == -1 && remainderOffset == 0
    {
      this.k := k;
      hwCount, swCount, userCount := 0, 0, 0;
      remainderHandle, remainderSamps, remainderOffset := -1, 0, 0;
      grants, released, returned, dropped := [], [], 0, 0;
    }

    /** `activateStream`. Nothing here resets the remainder of an earlier activation: a buffer held across it stays held,
        and `ReadStream` will give it back to the new one. */
    method Activate()
      requires k.Valid()
      modifies this, k
      ensures k.Valid() && k.enable && userCount == 0 && hwCount == k.hwCount && swCount == k.swCount
      ensures unchanged(`remainderHandle, `remainderSamps, `remainderOffset)
      ensures !old(k.enable) ==> Disciplined()
      ensures !old(k.enable) && old(remainderHandle) == -1 && old(remainderOffset) == 0 ==> Accounted()
    {
      hwCount, swCount := k.DmaWriter(true);
      userCount := 0;
      grants, released, returned, dropped := [], [], 0, 0;
      Begun();
    }

    ghost predicate Cleared()
      reads this
    {
      grants == [] && released == [] && returned == dropped == 0
    }

    /** A stream that has just begun. */
    lemma Begun()
      ensures k.Valid() && k.enable && k.hwCount == k.swCount == hwCount == userCount == 0 && grants == [] ==> Disciplined()
      ensures Disciplined() && k.swCount == userCount == 0 && Cleared() && remainderHandle == -1 && remainderOffset == 0 ==> Accounted()
    {}

    /** `deactivateStream`: the engine stops, and the next activation begins at zero everywhere. */
    method Deactivate()
      requires k.Valid()
      modifies this, k
      ensures k.Valid() && !k.enable && hwCount == k.hwCount && swCount == k.swCount
      ensures unchanged(`userCount, `remainderHandle, `remainderSamps, `remainderOffset)
    {
      hwCount, swCount := k.DmaWriter(false);
    }

    /** Other parties run, then the counters are fetched from the kernel. */
    method Refresh() returns (available: int)
      requires k.Valid() && k.enable
      modifies `hwCount, `swCount, k`hwCount, k`hwCountLast, k`device, k`run
      ensures k.Valid() && k.hwCount >= old(k.hwCount)
      ensures hwCount == k.hwCount && swCount == k.swCount
      ensures available == ToInt32(hwCount - userCount)
      ensures -INT32_END <= hwCount - userCount < INT32_END ==> available == hwCount - userCount
      ensures old(Ordered()) ==> Ordered()
    {
      k.Concurrently();
      hwCount, swCount := k.Counters();
      available := Difference(hwCount, userCount);
    }

    /** Waiting does not help: the time is up, and the kernel has not reported POLLIN. */
    ghost predicate TimeIsUp(timeoutUs: int, fails: bool)
      reads k`hwCount, k`swCount
    {
      timeoutUs == 0 || (!fails && k.hwCount - k.swCount <= 2)
    }

    /** The first part of `acquireReadBuffer`: look for buffers, and poll when there are none.
        `Handle` here stands for going on. `fails` says whether the poll would fail. */
    method AwaitBuffer(timeoutUs: int, fails: bool) returns (r: Acquired)
      requires k.Valid() && k.enable
      modifies `hwCount, `swCount, k`hwCount, k`hwCountLast, k`device, k`run
      ensures k.Valid() && k.hwCount >= old(k.hwCount)
      ensures r != Overflow && (r.Handle? ==> r == Handle(0, 0))
      ensures r == AssertFailed(207) <==> ToInt32(old(hwCount) - userCount) < 0
      ensures r.AssertFailed? ==> r.line == 207 || (r.line == 232 && ToInt32(hwCount - userCount) <= 0)
      ensures r.Handle? ==> swCount == k.swCount
      ensures r.Thrown? ==> fails && timeoutUs != 0
      ensures r.Timeout? ==> TimeIsUp(timeoutUs, fails)
      ensures old(Disciplined()) && k.hwCount - userCount < INT32_END ==>
        && Ordered() && hwCount >= old(k.hwCount)
        && (r.Handle? ==> hwCount > userCount)
        && (!r.Handle? ==> Disciplined())
        && (r.Timeout? || r.Thrown? ==> hwCount == userCount)
        && (r.AssertFailed? ==> r.line == 232 && userCount - k.swCount > 2)
    {
      r := Handle(0, 0);
      var available := Difference(hwCount, userCount);
      if !(available >= 0) {
        return AssertFailed(207);
      }
      if available == 0 || DETECT_EVERY_OVERFLOW {
        available := Refresh();
      }
      if available == 0 {
        r := PollForBuffer(timeoutUs, fails);
      }
    }

    /** The waiting, when the client has all buffers there are. */
    method PollForBuffer(timeoutUs: int, fails: bool) returns (r: Acquired)
      requires k.Valid() && k.enable
      modifies `hwCount, `swCount, k`hwCount, k`hwCountLast, k`device, k`run
      ensures k.Valid() && k.hwCount >= old(k.hwCount)
      ensures r != Overflow && (r.Handle? ==> r == Handle(0, 0) && swCount == k.swCount)
      ensures r.Thrown? ==> fails && timeoutUs != 0
      ensures r.Timeout? ==> TimeIsUp(timeoutUs, fails)
      ensures hwCount >= old(hwCount) || hwCount == k.hwCount
      ensures r.AssertFailed? ==> r.line == 232 && ToInt32(hwCount - userCount) <= 0
      ensures old(Ordered()) && old(hwCount) == userCount && k.hwCount - userCount < INT32_END ==>
        && Ordered()
        && (r.Handle? <==> hwCount > userCount)
        && (r.AssertFailed? ==> r.line == 232 && userCount - k.swCount > 2)
    {
      r := Handle(0, 0);
      if timeoutUs == 0 {
        return Timeout;
      }
      k.Concurrently();
      if fails {
        return Thrown;
      }
      if !k.Pollin() {
        return Timeout;
      }
      var available := Refresh();
      if !(available > 0) {
        return AssertFailed(232);
      }
    }

    /** `acquireReadBuffer`. */
    method AcquireRead(timeoutUs: int, fails: bool) returns (r: Acquired)
      requires k.Valid() && k.enable
      modifies `hwCount, `swCount, `userCount, `grants, k`hwCount, k`hwCountLast, k`device, k`run, k`swCount
      ensures k.Valid() && k.hwCount >= old(k.hwCount)
      ensures r.Handle? ==> r == Handle(old(userCount), old(userCount) % DMA_BUFFER_COUNT) && userCount == r.n + 1 && grants == old(grants) + [Given(r.n)]
      ensures r.Overflow? ==> k.swCount == swCount == userCount == hwCount && grants == old(grants) + [Jumped(hwCount)]
      ensures !r.Overflow? ==> k.swCount == old(k.swCount)
      ensures !r.Handle? && !r.Overflow? ==> userCount == old(userCount) && grants == old(grants)
      ensures r.Handle? ==> hwCount - k.swCount <= DMA_BUFFER_COUNT / 2
      ensures r == AssertFailed(207) <==> ToInt32(old(hwCount) - old(userCount)) < 0
      ensures r.AssertFailed? ==> r.line == 207 || (r.line == 232 && ToInt32(hwCount - userCount) <= 0)
      ensures r.Thrown? ==> fails && timeoutUs != 0
      ensures r.Timeout? ==> TimeIsUp(timeoutUs, fails)
      ensures old(Disciplined()) && k.hwCount - old(userCount) < INT32_END ==>
        && Disciplined() && hwCount >= old(k.hwCount)
        && (r.Overflow? ==> hwCount - old(k.swCount) > DMA_BUFFER_COUNT / 2)
        && (r.Timeout? || r.Thrown? ==> hwCount == userCount)
        && (r.Handle? && k.device.done < hwCount + DMA_BUFFER_COUNT / 2 ==> Ring.Holds(k.device, r.n))
        && (r.AssertFailed? ==> r.line == 232 && userCount - k.swCount > 2)
    {
      r := AwaitBuffer(timeoutUs, fails);
      if !r.Handle? {
        return;
      }
      if hwCount - swCount > DMA_BUFFER_COUNT / 2 {
        JumpAhead();
        r := Overflow;
      } else {
        r := GiveOut();
      }
    }

    /** The overflow: the client is moved to the newest buffer. */
    method JumpAhead()
      requires k.Valid() && k.enable
      modifies `swCount, `userCount, `grants, k`hwCount, k`hwCountLast, k`device, k`run, k`swCount
      ensures k.Valid() && k.hwCount >= old(k.hwCount)
      ensures k.swCount == swCount == userCount == hwCount && grants == old(grants) + [Jumped(hwCount)]
      ensures old(Ordered()) ==> Disciplined()
    {
      k.Concurrently();
      k.WriterUpdate(hwCount);
      userCount := hwCount;
      swCount := hwCount;
      grants := grants + [Jumped(hwCount)];
    }

    /** The next buffer goes to the client. */
    method GiveOut() returns (r: Acquired)
      requires k.Valid()
      modifies `userCount, `grants
      ensures r == Handle(old(userCount), old(userCount) % DMA_BUFFER_COUNT) && userCount == r.n + 1
      ensures grants == old(grants) + [Given(r.n)]
      ensures old(Ordered()) && hwCount > old(userCount) && hwCount - k.swCount <= DMA_BUFFER_COUNT / 2 ==>
        && Disciplined()
        && (k.device.done < hwCount + DMA_BUFFER_COUNT / 2 ==> Ring.Holds(k.device, r.n))
    {
      Ring.BufferSurvives(k.device, userCount);
      r := Handle(userCount, userCount % DMA_BUFFER_COUNT);
      grants := grants + [Given(userCount)];
      userCount := userCount + 1;
    }

    /** The rest of `acquireReadBuffer` from its first fetch on, when that reads the device's count as `f` and there is
        no time to wait. */
    method AcquireFetched(f: nat) returns (r: Acquired)
      requires k.Valid() && k.enable && -INT32_END <= f - userCount < INT32_END
      modifies `hwCount, `swCount, `userCount, `grants, k`hwCount, k`hwCountLast, k`device, k`run, k`swCount
      ensures k.Valid() && hwCount == f && userCount == UserAfter(old(k.swCount), old(userCount), f)
      ensures r.Timeout? || r.Overflow? || r == Handle(old(userCount), old(userCount) % DMA_BUFFER_COUNT)
      ensures r.Timeout? <==> f == old(userCount)
      ensures r.Overflow? <==> f != old(userCount) && f - old(k.swCount) > DMA_BUFFER_COUNT / 2
    {
      hwCount, swCount := f, k.swCount;
      var available := Difference(hwCount, userCount);
      if available == 0 {
        return Timeout;
      }
      if hwCount - swCount > DMA_BUFFER_COUNT / 2 {
        JumpAhead();
        r := Overflow;
      } else {
        r := GiveOut();
      }
    }

    /** `releaseReadBuffer`. */
    method ReleaseRead(handle: nat)
      requires k.Valid()
      modifies `released, k`swCount
      ensures k.Valid() && k.swCount == handle + 1 && released == old(released) + [handle]
      ensures old(Disciplined()) && handle == old(k.swCount) < userCount ==> Disciplined()
    {
      k.WriterUpdate(handle + 1);
      released := released + [handle];
    }

    predicate Holding()
      reads `remainderHandle
    {
      remainderHandle >= 0
    }

    /** Between two calls of `readStream` within one activation: at most one buffer is out, and every
        element of every buffer taken so far was returned, dropped, or is still to come. */
    ghost predicate Accounted()
      reads this, k
    {
      AccountedWith(0)
    }

    /** As `Accounted`, with `x` elements read but neither returned nor dropped yet. */
    ghost predicate AccountedWith(x: nat)
      reads this, k
    {
      && Disciplined()
      && Handles(grants) == released + (if Holding() then [remainderHandle] else [])
      && (if Holding() then
            && k.swCount == remainderHandle == userCount - 1
            && 0 < remainderSamps && remainderSamps + remainderOffset == MTU
          else
            remainderHandle == -1 && k.swCount == userCount && remainderOffset == 0)
      && returned + dropped + x == MTU * |released| + remainderOffset
    }

    /** Elements left in the buffer being read. */
    function Left(): nat
      reads this
    {
      if Holding() then remainderSamps else 0
    }

    /** Takes `n` elements of the held buffer and gives the buffer back when it is used up. */
    method Consume(n: nat, ghost x: nat)
      requires k.Valid() && Holding() && n <= remainderSamps
      modifies `remainderHandle, `remainderSamps, `remainderOffset, `released, k`swCount
      ensures k.Valid()
      ensures remainderSamps == old(remainderSamps) - n && (Holding() <==> remainderSamps > 0)
      ensures k.swCount == if remainderSamps > 0 then old(k.swCount) else old(remainderHandle) + 1
      ensures old(AccountedWith(x)) ==> AccountedWith(x + n)
    {
      remainderSamps := remainderSamps - n;
      remainderOffset := remainderOffset + n;
      if remainderSamps == 0 {
        GiveBack(x + n);
      }
    }

    /** The held buffer is used up. */
    method GiveBack(ghost x: nat)
      requires k.Valid() && Holding() && remainderSamps == 0
      modifies `remainderHandle, `remainderOffset, `released, k`swCount
      ensures k.Valid() && !Holding() && k.swCount == old(remainderHandle) + 1
      ensures old(UsedUp(x)) ==> AccountedWith(x)
    {
      OneMtu(|released|);
      ReleaseRead(remainderHandle);
      remainderHandle := -1;
      remainderOffset := 0;
    }

    /** As `AccountedWith`, when the last element of the held buffer has just been read. */
    ghost predicate UsedUp(x: nat)
      reads this, k
    {
      && Disciplined()
      && Handles(grants) == released + [remainderHandle]
      && k.swCount == remainderHandle == userCount - 1
      && returned + dropped + x == MTU * |released| + MTU
    }

    /** Takes over the buffer just acquired. */
    method Adopt(handle: nat, ghost x: nat)
      requires k.Valid() && !Holding()
      modifies `remainderHandle, `remainderSamps
      ensures remainderSamps == MTU && remainderHandle == ToInt32(handle)
      ensures old(Unadopted(handle, x)) && handle < INT32_END ==> Holding() && AccountedWith(x)
    {
      if handle < INT32_END { Unnarrowed(handle); }
      remainderHandle := ToInt32(handle);
      remainderSamps := MTU;
    }

    /** A handle has been acquired and is not recorded yet. */
    ghost predicate Unadopted(handle: nat, x: nat)
      reads this, k
    {
      && Disciplined() && k.swCount == handle == userCount - 1
      && Handles(grants) == released + [handle]
      && remainderHandle == -1 && remainderOffset == 0
      && returned + dropped + x == MTU * |released|
    }

    ghost method Account(toCaller: nat, lost: nat)
      modifies `returned, `dropped
      ensures returned == old(returned) + toCaller && dropped == old(dropped) + lost
      ensures old(AccountedWith(toCaller + lost)) ==> Accounted()
    {
      returned := returned + toCaller;
      dropped := dropped + lost;
    }

    /** What was given out in answer `a`. */
    ghost predicate Granted(was: seq<Grant>, user: nat, a: Acquired)
      reads `grants, `hwCount
    {
      grants == was + (if a.Handle? then [Given(user)] else if a.Overflow? then [Jumped(hwCount)] else [])
    }

    /** Why a client that held nothing and had come to `user`, when the count was `hw`, was answered `a`: there is a
        buffer, or there are more than half a ring of them, or there was none and the time is up or the poll failed. */
    ghost predicate Answered(a: Acquired, user: nat, hw: nat, timeoutUs: int, fails: bool)
      reads `hwCount, k`hwCount, k`swCount
    {
      && hwCount >= hw
      && (a.Handle? ==> 0 < hwCount - user <= DMA_BUFFER_COUNT / 2)
      && (a.Overflow? ==> hwCount - user > DMA_BUFFER_COUNT / 2)
      && (a.Timeout? ==> hwCount == user && TimeIsUp(timeoutUs, fails))
      && (a.Thrown? ==> hwCount == user && fails && timeoutUs != 0)
    }

    /** `acquireReadBuffer` by a client that holds nothing. */
    method AcquireNext(timeoutUs: int, fails: bool, ghost x: nat) returns (a: Acquired)
      requires k.Valid() && k.enable
      modifies `hwCount, `swCount, `userCount, `grants, k`hwCount, k`hwCountLast, k`device, k`run, k`swCount
      ensures k.Valid() && k.hwCount >= old(k.hwCount)
      ensures a.Handle? ==> a.n < k.hwCount || !old(AccountedWith(x))
      ensures Granted(old(grants), old(userCount), a)
      ensures old(AccountedWith(x) && !Holding()) && k.hwCount < INT32_END ==>
        && (if a.Handle? then Unadopted(a.n, x) else AccountedWith(x) && !a.AssertFailed?)
        && Answered(a, old(userCount), old(k.hwCount), timeoutUs, fails)
    {
      a := AcquireRead(timeoutUs, fails);
    }

    /** The first half of `readStream`: what is left of the held buffer is read. */
    method ReadHeld(returnedElems: nat) returns (m: nat, sampAvail: nat)
      requires k.Valid() && Holding()
      modifies `remainderHandle, `remainderSamps, `remainderOffset, `released, k`swCount
      ensures k.Valid() && m == Min(old(remainderSamps), returnedElems)
      ensures sampAvail == if m < returnedElems then m else 0
      ensures m < returnedElems ==> !Holding()
      ensures m == old(remainderSamps) ==> k.swCount == old(remainderHandle) + 1
      ensures old(AccountedWith(0)) ==> AccountedWith(m)
    {
      m := Min(remainderSamps, returnedElems);
      sampAvail := 0;
      if m < returnedElems {
        sampAvail := m;
      }
      Consume(m, 0);
    }

    /** The answer to the acquire behind a result, in which a timeout may be hidden by a short count. */
    ghost predicate Explained(error: Acquired, n: nat, wanted: nat, was: seq<Grant>, user: nat, hw: nat, timeoutUs: int, fails: bool)
      reads `grants, `hwCount, k`hwCount, k`swCount
    {
      var a := if error.Handle? && n < wanted then Timeout else error;
      Granted(was, user, a) && Answered(a, user, hw, timeoutUs, fails)
    }

    /** The result of a call that wanted `wanted` elements and found `left` in the buffer held: all of them, or those
        `left` if there were no more; none on an error, of which a timeout drops nothing. The other arguments are
        the state before. */
    ghost predicate Served(n: nat, error: Acquired, wanted: nat, left: nat, returned0: nat, dropped0: nat, was: seq<Grant>, user: nat, hw: nat,
                           timeoutUs: int, fails: bool)
      reads this, k
    {
      && Accounted() && !error.AssertFailed?
      && returned == returned0 + n && dropped == dropped0 + (if error.Handle? then 0 else left)
      && (if error.Handle? then n == wanted || 0 < n == left < wanted else n == 0)
      && (error.Timeout? ==> left == 0)
      && Explained(error, n, wanted, was, user, hw, timeoutUs, fails)
    }

    /** And the second: the rest comes from the next buffer. */
    method ReadNext(returnedElems: nat, sampAvail: nat, timeoutUs: int, fails: bool) returns (n: nat, error: Acquired)
      requires k.Valid() && k.enable && !Holding() && returnedElems <= MTU && (sampAvail < returnedElems || sampAvail == 0)
      modifies this, k`hwCount, k`hwCountLast, k`device, k`run, k`swCount
      ensures k.Valid()
      ensures old(AccountedWith(sampAvail)) && k.hwCount < INT32_END ==>
        Served(n, error, returnedElems, sampAvail, old(returned), old(dropped), old(grants), old(userCount), old(k.hwCount), timeoutUs, fails)
    {
      error := Handle(0, 0);
      var a := AcquireNext(timeoutUs, fails, sampAvail);
      if !a.Handle? {
        if a == Timeout && sampAvail > 0 {
          n := sampAvail;
          Account(sampAvail, 0);
          return;
        }
        Account(0, sampAvail);
        return 0, a;
      }
      ReadAcquired(a.n, returnedElems, sampAvail);
      n := returnedElems;
    }

    /** The buffer just acquired is taken over and read. */
    method ReadAcquired(handle: nat, returnedElems: nat, sampAvail: nat)
      requires k.Valid() && !Holding() && sampAvail <= returnedElems <= MTU
      modifies `remainderHandle, `remainderSamps, `remainderOffset, `released, `returned, `dropped, k`swCount
      ensures k.Valid() && returned == old(returned) + returnedElems && dropped == old(dropped)
      ensures old(Unadopted(handle, sampAvail)) && handle < INT32_END ==> Accounted()
    {
      Adopt(handle, sampAvail);
      var m := Min(returnedElems - sampAvail, remainderSamps);
      if remainderHandle >= 0 {
        Consume(m, sampAvail);
      }
      Account(returnedElems, 0);
    }

    /** `readStream`: how many elements were returned, or the error of the acquire. A buffer that it uses up is given
        back whenever it was acquired: one left from an earlier activation sets the kernel's count to the old handle plus
        one, wherever the device is now. */
    method ReadStream(numElems: nat, timeoutUs: int, fails: bool) returns (n: nat, error: Acquired)
      requires k.Valid() && k.enable
      modifies this, k`hwCount, k`hwCountLast, k`device, k`run, k`swCount
      ensures k.Valid()
      ensures old(Holding()) && old(remainderSamps) == Min(numElems, MTU) ==>
        n == old(remainderSamps) && k.swCount == old(remainderHandle) + 1 && k.hwCount == old(k.hwCount)
      ensures old(Accounted()) && k.hwCount < INT32_END ==>
        if old(Holding()) && old(Left()) >= Min(numElems, MTU)
        then Accounted() && error.Handle? && n == Min(numElems, MTU) && returned == old(returned) + n && dropped == old(dropped) && grants == old(grants)
        else Served(n, error, Min(numElems, MTU), old(Left()), old(returned), old(dropped), old(grants), old(userCount), old(k.hwCount), timeoutUs, fails)
    {
      var returnedElems := Min(numElems, MTU);
      var sampAvail := 0;
      if remainderHandle >= 0 {
        var m;
        m, sampAvail := ReadHeld(returnedElems);
        if m == returnedElems {
          Account(m, 0);
          return m, Handle(0, 0);
        }
      }
      n, error := ReadNext(returnedElems, sampAvail, timeoutUs, fails);
    }
  }
}
