/** The lock directory, its three scripts as atomic steps, and the lease objects that drive them. */
module LeaseLock {
  import opened Model

  const NANOS_PER_SECOND: nat := 1_000_000_000

  /** Go's Time.Unix for times after 1970: nanoseconds to whole seconds, rounded down. */
  function Seconds(nanos: nat): nat
  {
    nanos / NANOS_PER_SECOND
  }

  /** The lock directory. An unreadable or non-numeric expires_at file is None. */
  datatype LockDir = LockDir(owner: string, expiry: Option<nat>, created: nat)

  type Lock = Option<LockDir>

  datatype Reply = Granted | Refused | Missing

  /** lockAcquireScript: make the directory, or replace one whose expiry is not after now. */
  function AcquireScript(lock: Lock, owner: string, now: nat, expires: nat, clock: nat): (Lock, Reply)
    requires now <= expires
  {
    var mine := Some(LockDir(owner, Some(expires), clock));
    if lock.None? then (mine, Granted)
    else
      var current := if lock.value.expiry.Some? then lock.value.expiry.value else lock.value.created + (expires - now);
      if current > now then (lock, Refused) else (mine, Granted)
  }

  predicate Owns(lock: Lock, owner: string, now: nat)
  {
    lock.Some? && lock.value.owner == owner && lock.value.expiry.Some? && lock.value.expiry.value > now
  }

  /** The token owns the lock at exactly the moments before the expiry. */
  ghost predicate OwnsUntil(lock: Lock, owner: string, expires: nat)
  {
    forall at: nat :: Owns(lock, owner, at) <==> at < expires
  }

  /** Nobody but the given token owns the lock at other moments than before. */
  ghost predicate OthersKeep(before: Lock, after: Lock, owner: string)
  {
    forall other, at: nat :: other != owner ==> (Owns(after, other, at) <==> Owns(before, other, at))
  }

  /** lockRenewScript: only the unexpired owner may extend. */
  function RenewScript(lock: Lock, owner: string, now: nat, expires: nat): (Lock, Reply)
  {
    if Owns(lock, owner, now) then (Some(lock.value.(expiry := Some(expires))), Granted) else (lock, Refused)
  }

  /** lockReleaseScript: only the unexpired owner may remove. */
  function ReleaseScript(lock: Lock, owner: string, now: nat): (Lock, Reply)
  {
    if lock.None? then (lock, Missing)
    else if Owns(lock, owner, now) then (None, Granted)
    else (lock, Refused)
  }

  class LockDirectory {
    var dir: Lock
    var clock: nat

    constructor (dir: Lock, clock: nat)
      ensures this.dir == dir && this.clock == clock
    {
      this.dir, this.clock := dir, clock;
    }

    method Acquire(owner: string, now: nat, expires: nat) returns (reply: Reply)
      requires now <= expires
      modifies this`dir
      ensures reply == Granted || reply == Refused
      ensures reply == Granted ==> OwnsUntil(dir, owner, expires) && dir.Some? && dir.value.created == Seconds(clock)
      ensures reply == Refused ==> dir == old(dir) && dir.Some?
      ensures forall holder, at: nat :: at >= now && Owns(old(dir), holder, at) ==> reply == Refused
      ensures old(dir).None? ==> reply == Granted
      ensures old(dir).Some? && old(dir).value.expiry.Some? ==> (reply == Granted <==> old(dir).value.expiry.value <= now)
      ensures old(dir).Some? && old(dir).value.expiry.None? ==>
                (reply == Granted <==> old(dir).value.created + (expires - now) <= now)
      ensures (dir, reply) == AcquireScript(old(dir), owner, now, expires, Seconds(clock))
    {
      if dir.None? {
        dir := Some(LockDir(owner, Some(expires), Seconds(clock)));
        return Granted;
      }
      var currentExpiry;
      match dir.value.expiry {
        case Some(e) => currentExpiry := e;
        case None => currentExpiry := dir.value.created + (expires - now);
      }
      if currentExpiry > now {
        return Refused;
      }
      dir := Some(LockDir(owner, Some(expires), Seconds(clock)));
      return Granted;
    }

    method Renew(owner: string, now: nat, expires: nat) returns (reply: Reply)
      modifies this`dir
      ensures reply == Granted <==> Owns(old(dir), owner, now)
      ensures reply == Granted ==> OwnsUntil(dir, owner, expires) && dir.Some? && dir.value.created == old(dir).value.created
      ensures reply != Granted ==> reply == Refused && dir == old(dir)
      ensures OthersKeep(old(dir), dir, owner)
      ensures (dir, reply) == RenewScript(old(dir), owner, now, expires)
    {
      if dir.None? || dir.value.owner != owner || dir.value.expiry.None? || dir.value.expiry.value <= now {
        return Refused;
      }
      dir := Some(dir.value.(expiry := Some(expires)));
      return Granted;
    }

    method Release(owner: string, now: nat) returns (reply: Reply)
      modifies this`dir
      ensures reply == Granted <==> Owns(old(dir), owner, now)
      ensures reply == Missing <==> old(dir).None?
      ensures reply == Granted || reply == Missing <==> dir.None?
      ensures reply != Granted ==> dir == old(dir)
      ensures OthersKeep(old(dir), dir, owner)
      ensures (dir, reply) == ReleaseScript(old(dir), owner, now)
    {
      if dir.None? {
        return Missing;
      }
      if dir.value.owner != owner || dir.value.expiry.None? || dir.value.expiry.value <= now {
        return Refused;
      }
      dir := None;
      return Granted;
    }
  }

  datatype LeaseError = LeaseLost | RunFailed | LockTimeout | WaitCancelled

  /** A lease as its holder sees it. The mutex makes each method one call at a time. */
  class Lease {
    const token: string
    const ttl: nat
    var expiresAt: nat
    var released: bool

    constructor (token: string, ttl: nat, expiresAt: nat)
      ensures this.token == token && this.ttl == ttl && this.expiresAt == expiresAt && !released
    {
      this.token, this.ttl, this.expiresAt, released := token, ttl, expiresAt, false;
    }

    /** now was captured when the command was built; the script runs whenever it arrives. A reply that does
        not come back leaves the lease's own view unchanged. */
    method Renew(lock: LockDirectory, now: nat, replyLost: bool) returns (error: Option<LeaseError>)
      modifies this`expiresAt, lock`dir
      ensures released == old(released)
      ensures released ==> error == Some(LeaseLost) && lock.dir == old(lock.dir) && expiresAt == old(expiresAt)
      ensures !released ==> lock.dir == RenewScript(old(lock.dir), token, Seconds(now), Seconds(now + ttl)).0
      ensures error.None? <==> !released && !replyLost && Owns(old(lock.dir), token, Seconds(now))
      ensures expiresAt == if error.None? then now + ttl else old(expiresAt)
    {
      if released {
        return Some(LeaseLost);
      }
      var expires := now + ttl;
      var reply := lock.Renew(token, Seconds(now), Seconds(expires));
      if replyLost {
        return Some(RunFailed);
      }
      if reply == Granted {
        expiresAt := expires;
        return None;
      }
      return Some(LeaseLost);
    }

    method Release(lock: LockDirectory, now: nat, replyLost: bool) returns (error: Option<LeaseError>)
      modifies this`released, lock`dir
      ensures old(released) ==> error.None? && lock.dir == old(lock.dir) && released
      ensures !old(released) ==> lock.dir == ReleaseScript(old(lock.dir), token, Seconds(now)).0
      ensures !old(released) ==> (released <==> error.None?)
      ensures !old(released) ==>
                (error.None? <==> !replyLost && (old(lock.dir).None? || Owns(old(lock.dir), token, Seconds(now))))
    {
      if released {
        return None;
      }
      var reply := lock.Release(token, Seconds(now));
      if replyLost {
        return Some(RunFailed);
      }
      if reply != Refused {
        released := true;
        return None;
      }
      return Some(LeaseLost);
    }
  }

  /** A clock that only moves forward, and waits that last at least as long as asked; how much longer each
      takes is arbitrary. */
  class Clock {
    var now: nat
    var delays: seq<nat>

    constructor (now: nat, delays: seq<nat>)
      ensures this.now == now && this.delays == delays
    {
      this.now, this.delays := now, delays;
    }

    method Pass()
      modifies this
      ensures now >= old(now)
    {
      if delays != [] {
        now, delays := now + delays[0], delays[1..];
      }
    }

    method Wait(duration: nat)
      modifies this
      ensures now >= old(now) + duration
    {
      now := now + duration;
      Pass();
    }
  }

  /** timeout / poll, rounded up: how many waits of at most poll fit before the deadline. */
  function CeilDiv(timeout: nat, poll: nat): nat
    requires poll > 0
  {
    if timeout == 0 then 0 else 1 + CeilDiv(if timeout < poll then 0 else timeout - poll, poll)
  }

  lemma OneMoreTimes(n: nat, poll: nat)
    ensures (1 + n) * poll == n * poll + poll
  {
  }

  lemma {:induction false} CeilDivIsCeiling(timeout: nat, poll: nat)
    requires poll > 0
    ensures timeout <= CeilDiv(timeout, poll) * poll < timeout + poll
  {
    if timeout > 0 {
      var rest := if timeout < poll then 0 else timeout - poll;
      CeilDivIsCeiling(rest, poll);
      OneMoreTimes(CeilDiv(rest, poll), poll);
    }
  }

  lemma {:induction false} CeilDivMono(a: nat, b: nat, poll: nat)
    requires poll > 0 && a <= b
    ensures CeilDiv(a, poll) <= CeilDiv(b, poll)
    decreases b
  {
    if a > 0 {
      CeilDivMono(if a < poll then 0 else a - poll, if b < poll then 0 else b - poll, poll);
    }
  }

  lemma CeilStep(remaining: nat, wait: nat, poll: nat, left: nat)
    requires poll > 0 && remaining > 0 && wait == (if poll > remaining then remaining else poll)
    requires left <= remaining - wait
    ensures CeilDiv(left, poll) + 1 <= CeilDiv(remaining, poll)
  {
    CeilDivMono(left, remaining - wait, poll);
  }

  /** What the surroundings do to one attempt: the lock that its script finds in the directory, whether the command
      fails instead of answering, and whether the context is cancelled during the wait after it. */
  datatype Attempt = Attempt(found: Lock, fails: bool, cutShort: bool)

  /** The script of an attempt whose command was built at the given time grants the lock it finds. */
  ghost predicate Grants(found: Lock, built: nat, ttl: nat)
  {
    found.Some? ==>
      var expiry := if found.value.expiry.Some? then found.value.expiry.value
                    else found.value.created + (Seconds(built + ttl) - Seconds(built));
      expiry <= Seconds(built)
  }

  /** An attempt that was answered with a refusal, and after which the loop waited and went on. */
  ghost predicate GoesOn(attempt: Attempt, built: nat, next: nat, ttl: nat, poll: nat, deadline: nat)
  {
    && !attempt.fails && !Grants(attempt.found, built, ttl) && !attempt.cutShort
    && built < deadline && next >= built + (if poll > deadline - built then deadline - built else poll)
  }

  /** `tryAcquire`: None when the command fails, and else whether the lock was granted. */
  method TryAcquire(lock: LockDirectory, clock: Clock, token: string, built: nat, expiresAt: nat, attempt: Attempt)
    returns (r: Option<bool>)
    requires built <= expiresAt
    modifies lock, clock
    ensures clock.now >= old(clock.now)
    ensures r.None? <==> attempt.fails
    ensures r.Some? ==> (r.value <==> Grants(attempt.found, built, expiresAt - built))
    ensures r == Some(true) ==> OwnsUntil(lock.dir, token, Seconds(expiresAt))
    ensures r == Some(false) ==> lock.dir == attempt.found
  {
    clock.Pass();
    lock.dir, lock.clock := attempt.found, clock.now;
    SecondsMono(built, expiresAt);
    hide OwnsUntil;
    var reply := lock.Acquire(token, Seconds(built), Seconds(expiresAt));
    clock.Pass();
    if attempt.fails {
      return None;
    }
    return Some(reply == Granted);
  }

  /** The retry loop of Acquire. attempts says what each attempt meets, and built comes to hold when the command of each
      was built. The loop ends, within ceil(timeout / poll) + 1 attempts, at the first that does not go on. A grant is
      held until ttl after its command was built, as the lock directory has it, however late the reply came. */
  method AcquireLoop(lock: LockDirectory, clock: Clock, token: string, timeout: nat, poll: nat, ttl: nat,
                     attempts: nat -> Attempt)
    returns (r: Result<nat, LeaseError>, built: seq<nat>)
    requires poll > 0
    modifies lock, clock
    ensures 1 <= |built| <= CeilDiv(timeout, poll) + 1
    ensures old(clock.now) <= built[0] && built[|built| - 1] <= clock.now
    ensures forall k :: 0 <= k < |built| - 1 ==>
              GoesOn(attempts(k), built[k], built[k + 1], ttl, poll, old(clock.now) + timeout)
    ensures var last, at := attempts(|built| - 1), built[|built| - 1];
            && (r == Err(RunFailed) <==> last.fails)
            && (r.Ok? <==> !last.fails && Grants(last.found, at, ttl))
            && (r.Ok? ==> r.value == at + ttl && OwnsUntil(lock.dir, token, Seconds(r.value)))
            && (r == Err(LockTimeout) <==>
                  !last.fails && !Grants(last.found, at, ttl) && at >= old(clock.now) + timeout)
            && (r == Err(WaitCancelled) <==>
                  !last.fails && !Grants(last.found, at, ttl) && at < old(clock.now) + timeout && last.cutShort)
            && (!last.fails && !Grants(last.found, at, ttl) ==> lock.dir == last.found)
    ensures r.Err? ==> r.error in {RunFailed, LockTimeout, WaitCancelled}
  {
    hide Grants, OwnsUntil, CeilDiv, GoesOn;
    var deadline := clock.now + timeout;
    built := [];
    ghost var started := clock.now;
    clock.Pass();
    CeilDivMono(if clock.now < deadline then deadline - clock.now else 0, timeout, poll);
    while true
      invariant clock.now >= started && (built != [] ==> built[0] >= started)
      invariant forall k :: 0 <= k < |built| - 1 ==> GoesOn(attempts(k), built[k], built[k + 1], ttl, poll, deadline)
      invariant built != [] ==> GoesOn(attempts(|built| - 1), built[|built| - 1], clock.now, ttl, poll, deadline)
      invariant |built| + CeilDiv(if clock.now < deadline then deadline - clock.now else 0, poll) <= CeilDiv(timeout, poll)
      decreases CeilDiv(timeout, poll) + 1 - |built|
    {
      var now := clock.now;
      var expiresAt := now + ttl;
      var attempt := attempts(|built|);
      built := built + [now];
      var acquired := TryAcquire(lock, clock, token, now, expiresAt, attempt);
      if acquired.None? {
        return Err(RunFailed), built;
      }
      if acquired.value {
        return Ok(expiresAt), built;
      }
      if timeout == 0 || now >= deadline {
        return Err(LockTimeout), built;
      }
      var remaining := deadline - now;
      var wait := if poll > remaining then remaining else poll;
      if attempt.cutShort {
        clock.Pass();
        return Err(WaitCancelled), built;
      }
      clock.Wait(wait);
      WentOn(attempts, built, clock.now, ttl, poll, deadline);
      ghost var left := if clock.now < deadline then deadline - clock.now else 0;
      CeilStep(remaining, wait, poll, left);
    }
  }

  /** The attempt just answered goes on, and so did those before it. */
  lemma WentOn(attempts: nat -> Attempt, built: seq<nat>, next: nat, ttl: nat, poll: nat, deadline: nat)
    requires built != []
    requires forall k :: 0 <= k < |built| - 2 ==> GoesOn(attempts(k), built[k], built[k + 1], ttl, poll, deadline)
    requires |built| > 1 ==> GoesOn(attempts(|built| - 2), built[|built| - 2], built[|built| - 1], ttl, poll, deadline)
    requires var last, at := attempts(|built| - 1), built[|built| - 1];
             && !last.fails && !Grants(last.found, at, ttl) && !last.cutShort
             && at < deadline && next >= at + (if poll > deadline - at then deadline - at else poll)
    ensures forall k :: 0 <= k < |built| - 1 ==> GoesOn(attempts(k), built[k], built[k + 1], ttl, poll, deadline)
    ensures GoesOn(attempts(|built| - 1), built[|built| - 1], next, ttl, poll, deadline)
  {
    hide Grants;
  }

  lemma SecondsMono(a: nat, b: nat)
    requires a <= b
    ensures Seconds(a) <= Seconds(b)
  {
  }
}
