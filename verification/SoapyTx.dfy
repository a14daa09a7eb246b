/** The transmit stream of the SoapySDR driver. */
module SoapyTx {
  import opened DmaConfig
  import opened ReaderChannel

  const DETECT_EVERY_UNDERFLOW := true

  /** Result of `acquireWriteBuffer`. A handle comes with UNDERFLOW instead of the buffer size when
      the device has already passed it. */
  datatype Acquired = Handle(n: nat, slot: nat, underflow: bool) | Timeout | Thrown | AssertFailed(line: nat)

  const Success := Handle(0, 0, false)

  /** The threshold of `litepcie_poll` against a client that holds `user - sw` buffers of a ring it has
      filled: a reported POLLOUT always means room exactly when at most half the ring is held. (With
      `user` below a whole ring the ring cannot have been filled.) */
  lemma PolloutMeansRoom(sw: nat, user: nat)
    requires sw <= user
    ensures (forall hw: nat :: user - hw <= DMA_BUFFER_COUNT && PollOut(hw, sw) ==> user - hw < DMA_BUFFER_COUNT)
      <==> user - sw <= DMA_BUFFER_COUNT / 2 || user < DMA_BUFFER_COUNT
  {
    if user - sw > DMA_BUFFER_COUNT / 2 && user >= DMA_BUFFER_COUNT {
      assert PollOut(user - DMA_BUFFER_COUNT, sw);
    }
  }

  /** What became of a handle that `writeStream` acquired. */
  datatype Fate = Submitted | Abandoned

  function Submissions(fates: seq<Fate>): nat {
    if fates == [] then 0
    else Submissions(fates[..|fates| - 1]) + (if fates[|fates| - 1].Submitted? then 1 else 0)
  }

  lemma OneMore(fates: seq<Fate>, fate: Fate)
    ensures Submissions(fates + [fate]) == Submissions(fates) + (if fate.Submitted? then 1 else 0)
  {
    assert (fates + [fate])[..|fates|] == fates;
  }

  class TxStream {
    const k: ReaderChan
    var hwCount: nat
    var swCount: nat
    var userCount: nat
    var remainderHandle: int
    var remainderSamps: nat
    var remainderOffset: nat
    // History since the stream was activated: the fate of each handle that is no longer held, how many of them
    // were submitted and abandoned, and the elements taken from callers that were told so, or were told of an
    // error instead.
    ghost var fates: seq<Fate>
    ghost var submitted: nat
    ghost var abandoned: nat
    ghost var told: nat
    ghost var untold: nat

    /** The counters of a client that submits only what it acquired: the client is never more than one
        ring ahead of what the driver knows. */
    ghost predicate Ordered()
      reads this, k
    {
      && k.Valid() && k.enable
      && k.swCount <= userCount && hwCount <= k.hwCount
      && userCount - hwCount <= DMA_BUFFER_COUNT
    }

    constructor (k: ReaderChan)
      requires k.Valid()
      ensures this.k == k && hwCount == swCount == userCount == 0 && remainderHandle == -1 && remainderOffset == 0
    {
      this.k := k;
      hwCount, swCount, userCount := 0, 0, 0;
      remainderHandle, remainderSamps, remainderOffset := -1, 0, 0;
      fates, submitted, abandoned, told, untold := [], 0, 0, 0, 0;
    }

    /** `activateStream`. Nothing here resets the remainder of an earlier activation. */
    method Activate()
      requires k.Valid()
      modifies this, k
      ensures k.Valid() && k.enable && userCount == 0
      ensures unchanged(`remainderHandle, `remainderSamps, `remainderOffset)
      ensures hwCount == k.hwCount && swCount == k.swCount
      ensures old(k.enable) ==> unchanged(k)
      ensures Ordered() <==> !old(k.enable) || old(k.swCount) == 0
      ensures !old(k.enable) && old(remainderHandle) == -1 && old(remainderOffset) == 0 ==> AccountedWith(0)
    {
      hwCount, swCount := k.DmaReader(true);
      userCount := 0;
      fates, submitted, abandoned, told, untold := [], 0, 0, 0, 0;
      Begun();
    }

    ghost predicate Cleared()
      reads this
    {
      fates == [] && submitted == abandoned == told == untold == 0
    }

    /** A stream that has just begun. */
    lemma Begun()
      ensures Ordered() && k.swCount == userCount == 0 && Cleared() && remainderHandle == -1 && remainderOffset == 0 ==> AccountedWith(0)
    {}

    /** `deactivateStream`, which enables the engine once more instead of stopping it: the next activation begins at zero
        while the kernel's counts go on. */
    method Deactivate()
      requires k.Valid()
      modifies this, k
      ensures k.Valid() && k.enable && hwCount == k.hwCount && swCount == k.swCount
      ensures unchanged(`userCount, `remainderHandle, `remainderSamps, `remainderOffset)
      ensures old(k.enable) ==> unchanged(k)
    {
      hwCount, swCount := k.DmaReader(true);
    }

    /** A stream that submitted anything is out of order after it was deactivated and activated again, and only then. */
    method Restart()
      requires k.Valid() && k.enable
      modifies this, k
      ensures k.Valid() && userCount == 0 && k.swCount == old(k.swCount)
      ensures Ordered() <==> old(k.swCount) == 0
    {
      Deactivate();
      Activate();
    }

    /** Other parties run, then the counters are fetched from the kernel. */
    method Refresh() returns (pending: int)
      requires k.Valid() && k.enable
      modifies `hwCount, `swCount, k`hwCount, k`hwCountLast, k`done, k`part, k`consumed, k`overtook
      ensures k.Valid() && k.hwCount >= old(k.hwCount)
      ensures hwCount == k.hwCount && swCount == k.swCount
      ensures pending == ToInt32(userCount - hwCount)
      ensures -INT32_END <= userCount - hwCount < INT32_END ==> pending == userCount - hwCount
      ensures old(Ordered()) ==> Ordered()
    {
      k.Concurrently();
      hwCount, swCount := k.Counters();
      pending := Difference(userCount, hwCount);
    }

    /** Waiting does not help: the time is up, and the kernel has not reported POLLOUT. */
    ghost predicate TimeIsUp(timeoutUs: int, fails: bool)
      reads k`hwCount, k`swCount
    {
      timeoutUs == 0 || (!fails && k.swCount - k.hwCount >= DMA_BUFFER_COUNT / 2)
    }

    /** Why a client that had come to `user`, when the count was `hw`, was answered `a`: there is room, which the device
        has passed in an underflow; or the ring is full and the time is up or the poll failed. */
    ghost predicate Answered(a: Acquired, user: nat, hw: nat, timeoutUs: int, fails: bool)
      reads `hwCount, k`hwCount, k`swCount
    {
      && (!a.AssertFailed? ==> hwCount >= hw)
      && (a.Handle? ==> user - hwCount < DMA_BUFFER_COUNT && (a.underflow <==> hwCount > user))
      && (a.Timeout? ==> user - hwCount == DMA_BUFFER_COUNT && TimeIsUp(timeoutUs, fails))
      && (a.Thrown? ==> user - hwCount == DMA_BUFFER_COUNT && fails && timeoutUs != 0)
    }

    /** The first part of `acquireWriteBuffer`: look for room, and poll when there is none.
        `Handle` here stands for going on, and carries the comparison made last. `fails` says whether the poll would fail. */
    method AwaitRoom(timeoutUs: int, fails: bool) returns (r: Acquired)
      requires k.Valid() && k.enable
      modifies `hwCount, `swCount, k`hwCount, k`hwCountLast, k`done, k`part, k`consumed, k`overtook
      ensures k.Valid() && k.hwCount >= old(k.hwCount)
      ensures r == AssertFailed(277) <==> ToInt32(userCount - old(hwCount)) > DMA_BUFFER_COUNT
      ensures r.AssertFailed? ==> r.line == 277 || (r.line == 302 && ToInt32(userCount - hwCount) >= DMA_BUFFER_COUNT)
      ensures old(Ordered()) && k.hwCount - userCount < INT32_END ==>
        && Ordered()
        && Answered(r, userCount, old(k.hwCount), timeoutUs, fails)
        && (r.AssertFailed? ==> r.line == 302 && userCount - k.swCount > DMA_BUFFER_COUNT / 2 && userCount > old(k.hwCount))
    {
      var pending := Difference(userCount, hwCount);
      if !(pending <= DMA_BUFFER_COUNT) {
        return AssertFailed(277);
      }
      if pending == DMA_BUFFER_COUNT || DETECT_EVERY_UNDERFLOW {
        pending := Refresh();
      }
      r := Handle(0, 0, pending < 0);
      if pending == DMA_BUFFER_COUNT {
        r := PollForRoom(timeoutUs, fails);
      }
    }

    /** The waiting, when the ring is full. */
    method PollForRoom(timeoutUs: int, fails: bool) returns (r: Acquired)
      requires k.Valid() && k.enable
      modifies `hwCount, `swCount, k`hwCount, k`hwCountLast, k`done, k`part, k`consumed, k`overtook
      ensures k.Valid() && k.hwCount >= old(k.hwCount)
      ensures r.AssertFailed? ==> r.line == 302 && ToInt32(userCount - hwCount) >= DMA_BUFFER_COUNT
      ensures old(Ordered()) && userCount - old(hwCount) == DMA_BUFFER_COUNT && k.hwCount - userCount < INT32_END ==>
        && Ordered()
        && (r.Handle? <==> userCount - hwCount < DMA_BUFFER_COUNT)
        && Answered(r, userCount, old(hwCount), timeoutUs, fails)
        && (hwCount == old(hwCount) || hwCount == k.hwCount)
        && (r.AssertFailed? ==> r.line == 302 && userCount - k.swCount > DMA_BUFFER_COUNT / 2 && userCount > old(k.hwCount))
    {
      if timeoutUs == 0 {
        return Timeout;
      }
      k.Concurrently();
      if fails {
        return Thrown;
      }
      if !k.Pollout() {
        return Timeout;
      }
      var pending := Refresh();
      if !(pending < DMA_BUFFER_COUNT) {
        return AssertFailed(302);
      }
      r := Handle(0, 0, pending < 0);
    }

    /** `acquireWriteBuffer`. */
    method AcquireWrite(timeoutUs: int, fails: bool) returns (r: Acquired)
      requires k.Valid() && k.enable
      modifies `hwCount, `swCount, `userCount, k`hwCount, k`hwCountLast, k`done, k`part, k`consumed, k`overtook
      ensures k.Valid() && k.hwCount >= old(k.hwCount)
      ensures r == AssertFailed(277) <==> ToInt32(old(userCount) - old(hwCount)) > DMA_BUFFER_COUNT
      ensures r.AssertFailed? ==> r.line == 277 || (r.line == 302 && ToInt32(userCount - hwCount) >= DMA_BUFFER_COUNT)
      ensures if r.Handle?
        then r.n == old(userCount) && r.slot == r.n % DMA_BUFFER_COUNT && userCount == r.n + 1
        else userCount == old(userCount)
      ensures old(Ordered()) && k.hwCount - old(userCount) < INT32_END ==>
        && Ordered()
        && Answered(r, old(userCount), old(k.hwCount), timeoutUs, fails)
        // the slot holds no submitted buffer that the device has yet to consume
        && (r.Handle? ==> forall n :: k.done <= n < k.swCount ==> n % DMA_BUFFER_COUNT != r.slot)
        && (r.AssertFailed? ==> r.line == 302 && userCount - k.swCount > DMA_BUFFER_COUNT / 2 && userCount > old(k.hwCount))
    {
      r := AwaitRoom(timeoutUs, fails);
      if r.Handle? {
        FreeSlot();
        r := Handle(userCount, userCount % DMA_BUFFER_COUNT, r.underflow);
        userCount := userCount + 1;
      }
    }

    lemma FreeSlot()
      ensures Ordered() && userCount - hwCount < DMA_BUFFER_COUNT ==>
        forall n :: k.done <= n < k.swCount ==> n % DMA_BUFFER_COUNT != userCount % DMA_BUFFER_COUNT
    {
      forall n | Ordered() && userCount - hwCount < DMA_BUFFER_COUNT && k.done <= n < k.swCount
        ensures n % DMA_BUFFER_COUNT != userCount % DMA_BUFFER_COUNT
      {
        SlotsDiffer(n, userCount);
      }
    }

    /** `releaseWriteBuffer`: submits the buffer, and with it every earlier one. */
    method ReleaseWrite(handle: nat)
      requires k.Valid()
      modifies k`swCount
      ensures k.Valid() && k.swCount == handle + 1
      ensures old(Ordered()) && handle < userCount ==> Ordered()
    {
      k.ReaderUpdate(handle + 1);
    }

    // ----- writeStream -----

    predicate Holding()
      reads `remainderHandle
    {
      remainderHandle >= 0
    }

    /** The kernel's count is behind the last handle submitted; handles abandoned since then are behind the device. */
    ghost predicate SubmittedUpTo()
      reads this, k
    {
      && k.swCount <= |fates|
      && (k.swCount > 0 ==> fates[k.swCount - 1].Submitted?)
      && (forall n :: k.swCount <= n < |fates| ==> fates[n].Abandoned?)
      && (k.swCount < |fates| ==> |fates| <= k.hwCount)
    }

    ghost predicate Counted()
      reads this
    {
      submitted == Submissions(fates) && submitted + abandoned == |fates|
    }

    /** Between two calls of `writeStream` within one activation, with `x` elements taken from the caller who was
        not told yet: at most one buffer is out, every handle before it has its fate, and every element taken
        lies in a submitted buffer or in the one that is out. */
    ghost predicate AccountedWith(x: nat)
      reads this, k
    {
      && Ordered() && SubmittedUpTo()
      && (if Holding() then
            && remainderHandle == |fates| == userCount - 1
            && 0 < remainderSamps && remainderSamps + remainderOffset == MTU
          else
            remainderHandle == -1 && remainderOffset == 0 && |fates| == userCount)
      && Counted() && told + untold + x == MTU * submitted + remainderOffset
    }

    /** A handle has been acquired and is not recorded yet. */
    ghost predicate Unadopted(handle: nat, x: nat)
      reads this, k
    {
      && Ordered() && SubmittedUpTo()
      && remainderHandle == -1 && remainderOffset == 0 && |fates| == handle == userCount - 1
      && Counted() && told + untold + x == MTU * submitted
    }

    /** Room left in the buffer being filled. */
    function Left(): nat
      reads this
    {
      if Holding() then remainderSamps else 0
    }

    /** Puts `n` elements into the held buffer and submits it when it is full. */
    method Put(n: nat, ghost x: nat)
      requires k.Valid() && Holding() && n <= remainderSamps
      modifies `remainderHandle, `remainderSamps, `remainderOffset, `fates, `submitted, k`swCount
      ensures k.Valid()
      ensures remainderSamps == old(remainderSamps) - n && (Holding() <==> remainderSamps > 0)
      ensures old(AccountedWith(x)) ==> AccountedWith(x + n)
    {
      remainderSamps := remainderSamps - n;
      remainderOffset := remainderOffset + n;
      if remainderSamps == 0 {
        Submit(x + n);
      }
    }

    /** The held buffer is full. */
    method Submit(ghost x: nat)
      requires k.Valid() && Holding() && remainderSamps == 0
      modifies `remainderHandle, `remainderOffset, `fates, `submitted, k`swCount
      ensures k.Valid() && !Holding()
      ensures old(Full(x)) ==> AccountedWith(x)
    {
      OneMore(fates, Submitted);
      OneMtu(submitted);
      ReleaseWrite(remainderHandle);
      fates, submitted := fates + [Submitted], submitted + 1;
      remainderHandle := -1;
      remainderOffset := 0;
    }

    /** As `AccountedWith`, when the held buffer has just become full. */
    ghost predicate Full(x: nat)
      reads this, k
    {
      && Ordered() && SubmittedUpTo()
      && remainderHandle == |fates| == userCount - 1
      && Counted() && told + untold + x == MTU * submitted + MTU
    }

    /** Takes over the buffer just acquired. */
    method Adopt(handle: nat, ghost x: nat)
      requires k.Valid() && !Holding()
      modifies `remainderHandle, `remainderSamps
      ensures remainderSamps == MTU && remainderHandle == ToInt32(handle)
      ensures old(Unadopted(handle, x)) && handle < INT32_END ==> Holding() && AccountedWith(x)
    {
      if handle < INT32_END { Unnarrowed(handle); }
      remainderHandle := ToInt32(handle);
      remainderSamps := MTU;
    }

    ghost method Account(yes: nat, no: nat)
      modifies `told, `untold
      ensures told == old(told) + yes && untold == old(untold) + no
      ensures old(AccountedWith(yes + no)) ==> AccountedWith(0)
    {
      told := told + yes;
      untold := untold + no;
    }

    /** `acquireWriteBuffer` by a caller that holds nothing: the asserts hold, and a buffer that comes with
        UNDERFLOW is abandoned. */
    method AcquireNext(timeoutUs: int, fails: bool, ghost x: nat) returns (a: Acquired)
      requires k.Valid() && k.enable && !Holding()
      modifies `hwCount, `swCount, `userCount, `fates, `abandoned, k`hwCount, k`hwCountLast, k`done, k`part, k`consumed, k`overtook
      ensures k.Valid() && k.hwCount >= old(k.hwCount)
      ensures abandoned == old(abandoned) + (if a.Handle? && a.underflow then 1 else 0)
      ensures old(AccountedWith(x)) && k.hwCount - old(userCount) < INT32_END ==>
        && !a.AssertFailed? && userCount == old(userCount) + (if a.Handle? then 1 else 0)
        && Answered(a, old(userCount), old(k.hwCount), timeoutUs, fails)
        && (if a.Handle? && !a.underflow then a.n == old(userCount) && Unadopted(a.n, x) else AccountedWith(x))
    {
      a := AcquireWrite(timeoutUs, fails);
      if a.Handle? && a.underflow {
        Abandon(a.n, x);
      }
    }

    /** The handle just acquired is never recorded; the device has passed it. */
    ghost method Abandon(handle: nat, x: nat)
      modifies `fates, `abandoned
      ensures abandoned == old(abandoned) + 1
      ensures old(Unadopted(handle, x)) && handle < k.hwCount ==> AccountedWith(x)
    {
      OneMore(fates, Abandoned);
      fates := fates + [Abandoned];
      abandoned := abandoned + 1;
    }

    /** The first half of `writeStream`: the buffer held takes what it can. */
    method FillHeld(returnedElems: nat) returns (m: nat, sampAvail: nat)
      requires k.Valid() && Holding()
      modifies `remainderHandle, `remainderSamps, `remainderOffset, `fates, `submitted, k`swCount
      ensures k.Valid() && m == Min(old(remainderSamps), returnedElems)
      ensures sampAvail == if m < returnedElems then m else 0
      ensures m < returnedElems ==> !Holding()
      ensures old(AccountedWith(0)) ==> AccountedWith(m)
    {
      m := Min(remainderSamps, returnedElems);
      sampAvail := 0;
      if m < returnedElems {
        sampAvail := m;
      }
      Put(m, 0);
    }

    /** The answer to the acquire behind a result, in which a timeout may be hidden by a short count. */
    ghost predicate Explained(error: Acquired, n: nat, wanted: nat, user: nat, hw: nat, timeoutUs: int, fails: bool)
      reads `hwCount, `userCount, k`hwCount, k`swCount
    {
      var a := if error == Success && n < wanted then Timeout else error;
      userCount == user + (if a.Handle? then 1 else 0) && Answered(a, user, hw, timeoutUs, fails)
    }

    /** And the second: the rest goes into the next buffer. */
    method FillNext(returnedElems: nat, sampAvail: nat, timeoutUs: int, fails: bool) returns (n: nat, error: Acquired)
      requires k.Valid() && k.enable && !Holding() && returnedElems <= MTU && (sampAvail < returnedElems || sampAvail == 0)
      modifies this, k`hwCount, k`hwCountLast, k`done, k`part, k`consumed, k`overtook, k`swCount
      ensures k.Valid() && k.hwCount >= old(k.hwCount)
      ensures old(AccountedWith(sampAvail)) && k.hwCount - old(userCount) < INT32_END && old(userCount) < INT32_END ==>
        && AccountedWith(0)
        && !error.AssertFailed?
        && told == old(told) + n
        && untold == old(untold) + (if error == Success then 0 else sampAvail)
        && (if error == Success then n == returnedElems || 0 < n == sampAvail else n == 0)
        && (error.Timeout? ==> sampAvail == 0)
        && Explained(error, n, returnedElems, old(userCount), old(k.hwCount), timeoutUs, fails)
      ensures abandoned == old(abandoned) + (if error.Handle? && error.underflow then 1 else 0)
    {
      error := Success;
      var a := AcquireNext(timeoutUs, fails, sampAvail);
      if !a.Handle? || a.underflow {
        if a == Timeout && sampAvail > 0 {
          n := sampAvail;
          Account(sampAvail, 0);
          return;
        }
        Account(0, sampAvail);
        return 0, a;
      }
      FillAcquired(a.n, returnedElems, sampAvail);
      n := returnedElems;
    }

    /** The buffer just acquired is taken over and filled. */
    method FillAcquired(handle: nat, returnedElems: nat, sampAvail: nat)
      requires k.Valid() && !Holding() && sampAvail <= returnedElems <= MTU
      modifies `remainderHandle, `remainderSamps, `remainderOffset, `fates, `submitted, `told, `untold, k`swCount
      ensures k.Valid() && told == old(told) + returnedElems && untold == old(untold)
      ensures old(Unadopted(handle, sampAvail)) && handle < INT32_END ==> AccountedWith(0)
    {
      Adopt(handle, sampAvail);
      var m := Min(returnedElems - sampAvail, remainderSamps);
      if remainderHandle >= 0 {
        Put(m, sampAvail);
      }
      Account(returnedElems, 0);
    }

    /** `writeStream`: how many elements were taken, or the error of the acquire. Elements that went into the held
        buffer before the error are in the stream, although the caller is not told; and each UNDERFLOW leaves a
        handle behind that is never filled, but is passed over by the next submission. */
    method WriteStream(numElems: nat, timeoutUs: int, fails: bool) returns (n: nat, error: Acquired)
      requires k.Valid() && k.enable
      modifies this, k`hwCount, k`hwCountLast, k`done, k`part, k`consumed, k`overtook, k`swCount
      ensures k.Valid()
      ensures old(AccountedWith(0)) && k.hwCount - old(userCount) < INT32_END && old(userCount) < INT32_END ==>
        && AccountedWith(0)
        && !error.AssertFailed?
        && told == old(told) + n
        && untold == old(untold) + (if error == Success then 0 else old(Left()))
        && (if error == Success then n == Min(numElems, MTU) || 0 < n == old(Left()) < Min(numElems, MTU) else n == 0)
        // of a timeout the caller is told only if nothing was taken
        && (error.Timeout? ==> old(Left()) == 0)
        && (if old(Holding()) && old(Left()) >= Min(numElems, MTU) then error == Success && userCount == old(userCount)
            else Explained(error, n, Min(numElems, MTU), old(userCount), old(k.hwCount), timeoutUs, fails))
      ensures abandoned == old(abandoned) + (if error.Handle? && error.underflow then 1 else 0)
    {
      var returnedElems := Min(numElems, MTU);
      var sampAvail := 0;
      if remainderHandle >= 0 {
        var m;
        m, sampAvail := FillHeld(returnedElems);
        if m == returnedElems {
          Account(m, 0);
          return m, Success;
        }
      }
      n, error := FillNext(returnedElems, sampAvail, timeoutUs, fails);
    }
  }
}
