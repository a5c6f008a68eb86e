/** The advisory lock on one serial port: how long `hold` tries, and when it gives up. */
module PortLock {
  import opened Basics

  /** Microseconds between two attempts on a held lock. */
  const RETRY := 20_000

  datatype Hold = Uncoordinated | Obtained | Busy

  /**
   * What a caller of an active lock meets: whether the k-th attempt finds the lock free, and the monotonic
   * clock's k-th reading. The first reading sets the deadline, one more follows each failed attempt.
   */
  datatype World = World(free: nat -> bool, clock: nat -> int)

  /** The clock never runs back, and between two failed attempts lies at least one sleep. */
  ghost predicate Sleeps(w: World) {
    w.clock(0) <= w.clock(1) && forall k :: k >= 1 ==> w.clock(k) + RETRY <= w.clock(k + 1)
  }

  predicate Expired(w: World, timeout: int, k: nat) {
    w.clock(k + 1) >= w.clock(0) + timeout
  }

  /** The first `k` attempts find the lock held, with time left after each. */
  ghost predicate StillTrying(w: World, timeout: int, k: nat) {
    forall j :: 0 <= j < k ==> !w.free(j) && !Expired(w, timeout, j)
  }

  /** Attempt `k` is made and finds the lock free. */
  ghost predicate FreeInTime(w: World, timeout: int, k: nat) {
    StillTrying(w, timeout, k) && w.free(k)
  }

  /** Read off the clock: every one of those attempts failed, and each left time before the deadline. */
  ghost predicate FailedInTime(w: World, timeout: int, n: nat) {
    forall j :: 1 <= j <= n ==> !w.free(j - 1) && w.clock(j) - w.clock(0) < timeout
  }

  lemma TryingIsFailingInTime(w: World, timeout: int, n: nat)
    requires StillTrying(w, timeout, n)
    ensures FailedInTime(w, timeout, n)
  {
    forall j | 1 <= j <= n ensures !w.free(j - 1) && w.clock(j) - w.clock(0) < timeout {
      assert !Expired(w, timeout, j - 1);
    }
  }

  lemma RefusedIsNeverFree(w: World, timeout: int, n: nat)
    requires StillTrying(w, timeout, n) && !w.free(n) && Expired(w, timeout, n)
    ensures forall k: nat :: !FreeInTime(w, timeout, k)
  {
    forall k: nat ensures !FreeInTime(w, timeout, k) {
      assert k < n ==> !w.free(k);
    }
  }

  lemma {:induction false} TimePasses(w: World, k: nat)
    requires Sleeps(w)
    ensures w.clock(0) + k * RETRY <= w.clock(k + 1)
  {
    if k > 0 {
      TimePasses(w, k - 1);
      assert w.clock(k) + RETRY <= w.clock(k + 1);
    }
  }

  class PortLock {
    const timeout: int
    var available: bool
    var handle: Option<nat>
    var locked: bool

    predicate Active()
      reads this
    {
      available && handle.Some?
    }

    ghost predicate Valid()
      reads this
    {
      locked ==> Active()
    }

    constructor (timeout: int, locking: bool, descriptor: Option<nat>)
      ensures Valid() && this.timeout == timeout && !locked
      ensures Active() <==> locking && descriptor.Some?
    {
      this.timeout := timeout;
      available := locking && descriptor.Some?;
      handle := if locking then descriptor else None;
      locked := false;
    }

    /**
     * One way into the block, for each of the three ways it can go. The lock is obtained exactly when some attempt
     * before the deadline has passed finds it free, at the first such attempt; otherwise the caller is refused after
     * the first failed attempt at or past the deadline.
     */
    method Hold(w: World) returns (hold: Hold, attempts: nat)
      requires Valid() && !locked
      requires Active() ==> Sleeps(w)
      modifies this`locked
      ensures Valid() && (locked <==> hold == Obtained)
      ensures hold == Uncoordinated <==> !Active()
      ensures Active() ==> attempts >= 1 && StillTrying(w, timeout, attempts - 1)
      ensures Active() ==> (hold == Obtained <==> exists k: nat :: FreeInTime(w, timeout, k))
      ensures hold == Obtained ==> w.free(attempts - 1)
      ensures hold == Busy ==> !w.free(attempts - 1) && Expired(w, timeout, attempts - 1)
      ensures Active() ==> FailedInTime(w, timeout, attempts - 1)
      ensures hold == Busy ==> w.clock(attempts) - w.clock(0) >= timeout
      ensures Active() && attempts >= 2 ==> (attempts - 2) * 20_000 < timeout
    {
      if !Active() {
        return Uncoordinated, 0;
      }
      var deadline := w.clock(0) + timeout;
      attempts := 1;
      while !w.free(attempts - 1)
        invariant Valid() && !locked && Active()
        invariant attempts >= 1 && StillTrying(w, timeout, attempts - 1)
        invariant attempts >= 2 ==> (attempts - 2) * RETRY < timeout
        decreases Max(0, timeout - (attempts - 2) * RETRY)
      {
        TimePasses(w, attempts - 1);
        TryingIsFailingInTime(w, timeout, attempts - 1);
        if w.clock(attempts) >= deadline {
          assert Expired(w, timeout, attempts - 1);
          RefusedIsNeverFree(w, timeout, attempts - 1);
          return Busy, attempts;
        }
        attempts := attempts + 1;
      }
      assert FreeInTime(w, timeout, attempts - 1);
      TryingIsFailingInTime(w, timeout, attempts - 1);
      locked := true;
      hold := Obtained;
    }

    /** The finally clause: every way out of the block passes here. */
    method Release()
      requires Valid()
      modifies this`locked
      ensures Valid() && !locked
    {
      locked := false;
    }

    /** Closing the descriptor takes the lock with it, and leaves a lock that coordinates nothing. */
    method Close()
      modifies this`handle, this`locked
      ensures Valid() && !locked && !Active()
    {
      handle := None;
      locked := false;
    }
  }
}
