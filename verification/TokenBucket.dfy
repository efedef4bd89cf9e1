/** The rate limiter of internal/api/rest/middleware.go, over real time in
    seconds: a bucket that fills at a steady rate up to its capacity, and of
    which every allowed call takes one token. */
module TokenBucket {

  datatype Bucket = Bucket(last: real, tokens: real, capacity: real)

  /** What a span of time earns. */
  type Earning = real -> real

  function AtRate(rate: real): Earning
  {
    t => t * rate
  }

  ghost predicate Adds(earn: Earning, s: real, t: real)
  {
    earn(s + t) == earn(s) + earn(t)
  }

  /** It earns the same for the whole as for its parts, and never less than nothing. */
  ghost predicate Steady(earn: Earning)
  {
    && (forall s: real, t: real {:trigger Adds(earn, s, t)} :: Adds(earn, s, t))
    && (forall t: real {:trigger earn(t)} :: t >= 0.0 ==> earn(t) >= 0.0)
  }

  lemma AtRateSteady(rate: real)
    requires rate > 0.0
    ensures Steady(AtRate(rate))
  {
    var earn := AtRate(rate);
    forall s: real, t: real ensures Adds(earn, s, t) {
      assert (s + t) * rate == s * rate + t * rate;
    }
  }

  predicate Sound(b: Bucket)
  {
    0.0 <= b.tokens <= b.capacity
  }

  /** The tokens at a call, before it takes one. */
  function Refilled(earn: Earning, b: Bucket, now: real): real
  {
    var tokens := b.tokens + earn(now - b.last);
    if tokens > b.capacity then b.capacity else tokens
  }

  function Call(earn: Earning, b: Bucket, now: real): (Bucket, bool)
  {
    var tokens := Refilled(earn, b, now);
    if tokens < 1.0 then (Bucket(now, tokens, b.capacity), false)
    else (Bucket(now, tokens - 1.0, b.capacity), true)
  }

  class Limiter {
    var last: real
    var tokens: real
    const rate: real
    const capacity: real

    /** newLimiter: full, with a rate of at least one call a second. */
    constructor (rate: int, now: real)
      ensures this.rate == if rate <= 0 then 1.0 else rate as real
      ensures State() == Bucket(now, this.rate, this.rate)
    {
      var r := rate as real;
      if r <= 0.0 {
        r := 1.0;
      }
      this.last, this.tokens, this.rate, this.capacity := now, r, r, r;
    }

    ghost function State(): Bucket
      reads this
    {
      Bucket(last, tokens, capacity)
    }

    method Allow(now: real) returns (ok: bool)
      modifies this
      ensures (State(), ok) == Call(AtRate(rate), old(State()), now)
    {
      var elapsed := now - last;
      last := now;
      tokens := tokens + elapsed * rate;
      if tokens > capacity {
        tokens := capacity;
      }
      if tokens < 1.0 {
        return false;
      }
      tokens := tokens - 1.0;
      return true;
    }
  }

  // ---------- runs ----------

  /** A clock that never goes back. */
  ghost predicate Forward(b: Bucket, times: seq<real>)
  {
    && (times != [] ==> b.last <= times[0])
    && forall i, j {:trigger times[i], times[j]} :: 0 <= i < j < |times| ==> times[i] <= times[j]
  }

  /** The bucket after the first k calls. */
  function After(earn: Earning, b: Bucket, times: seq<real>, k: nat): Bucket
    requires k <= |times|
  {
    if k == 0 then b else Call(earn, After(earn, b, times, k - 1), times[k - 1]).0
  }

  predicate Allowed(earn: Earning, b: Bucket, times: seq<real>, k: nat)
    requires k < |times|
  {
    Call(earn, After(earn, b, times, k), times[k]).1
  }

  function Taken(earn: Earning, b: Bucket, times: seq<real>, k: nat): real
    requires k < |times|
  {
    if Allowed(earn, b, times, k) then 1.0 else 0.0
  }

  /** How many of the calls i, ..., j - 1 are allowed. */
  function Count(earn: Earning, b: Bucket, times: seq<real>, i: nat, j: nat): real
    requires i <= j <= |times|
  {
    if i == j then 0.0 else Count(earn, b, times, i, j - 1) + Taken(earn, b, times, j - 1)
  }

  lemma CallKeepsSound(earn: Earning, b: Bucket, now: real)
    requires Steady(earn) && Sound(b) && b.last <= now
    ensures Sound(Call(earn, b, now).0) && 0.0 <= Refilled(earn, b, now) <= b.capacity
  {
  }

  /** Tokens stay between 0 and the capacity in every run. */
  lemma {:induction false} RunKeepsSound(earn: Earning, b: Bucket, times: seq<real>, k: nat)
    requires Steady(earn) && Sound(b) && Forward(b, times) && k <= |times|
    ensures var a := After(earn, b, times, k);
            Sound(a) && a.capacity == b.capacity && a.last == if k == 0 then b.last else times[k - 1]
  {
    if k > 0 {
      RunKeepsSound(earn, b, times, k - 1);
      CallKeepsSound(earn, After(earn, b, times, k - 1), times[k - 1]);
    }
  }

  /** The tokens at call k. */
  function Level(earn: Earning, b: Bucket, times: seq<real>, k: nat): real
    requires k < |times|
  {
    Refilled(earn, After(earn, b, times, k), times[k])
  }

  /** The room left for call k in the window that starts with call i. */
  function Room(earn: Earning, b: Bucket, times: seq<real>, i: nat, k: nat): real
    requires i <= k < |times|
  {
    b.capacity + earn(times[k] - times[i]) - Count(earn, b, times, i, k)
  }

  lemma LevelBound(earn: Earning, b: Bucket, times: seq<real>, k: nat)
    requires Steady(earn) && Sound(b) && Forward(b, times) && k < |times|
    ensures 0.0 <= Level(earn, b, times, k) <= b.capacity
  {
    RunKeepsSound(earn, b, times, k);
    CallKeepsSound(earn, After(earn, b, times, k), times[k]);
  }

  /** Between two calls the bucket fills by what the time earns, up to its capacity. */
  lemma LevelNext(earn: Earning, b: Bucket, times: seq<real>, k: nat)
    requires Steady(earn) && Sound(b) && Forward(b, times) && 0 < k < |times|
    ensures var level := Level(earn, b, times, k - 1) + earn(times[k] - times[k - 1]) - Taken(earn, b, times, k - 1);
            Level(earn, b, times, k) == if level > b.capacity then b.capacity else level
  {
    RunKeepsSound(earn, b, times, k - 1);
    RunKeepsSound(earn, b, times, k);
  }

  lemma RoomNext(earn: Earning, b: Bucket, times: seq<real>, i: nat, k: nat)
    requires Steady(earn) && i < k < |times|
    ensures Room(earn, b, times, i, k)
         == Room(earn, b, times, i, k - 1) + earn(times[k] - times[k - 1]) - Taken(earn, b, times, k - 1)
  {
    assert (times[k - 1] - times[i]) + (times[k] - times[k - 1]) == times[k] - times[i];
    assert Adds(earn, times[k - 1] - times[i], times[k] - times[k - 1]);
  }

  lemma RoomAtOnce(earn: Earning, b: Bucket, times: seq<real>, k: nat)
    requires Steady(earn) && k < |times|
    ensures Room(earn, b, times, k, k) == b.capacity
  {
    assert Adds(earn, 0.0, 0.0);
  }

  /** The tokens at call k never exceed the room of a window that ends with it. */
  lemma {:induction false} LevelBelowRoom(earn: Earning, b: Bucket, times: seq<real>, i: nat, k: nat)
    requires Steady(earn) && Sound(b) && Forward(b, times) && i <= k < |times|
    ensures Level(earn, b, times, k) <= Room(earn, b, times, i, k)
    decreases k
  {
    if i == k {
      LevelBound(earn, b, times, k);
      RoomAtOnce(earn, b, times, k);
    } else {
      LevelBelowRoom(earn, b, times, i, k - 1);
      LevelNext(earn, b, times, k);
      RoomNext(earn, b, times, i, k);
    }
  }

  /** Starting full, they are all the room of one such window. */
  lemma {:induction false} TightWindow(earn: Earning, b: Bucket, times: seq<real>, k: nat) returns (i: nat)
    requires Steady(earn) && Sound(b) && b.tokens == b.capacity && Forward(b, times) && k < |times|
    ensures i <= k && Level(earn, b, times, k) == Room(earn, b, times, i, k)
  {
    LevelBound(earn, b, times, k);
    assert earn(times[0] - b.last) >= 0.0;
    if Level(earn, b, times, k) == b.capacity {
      RoomAtOnce(earn, b, times, k);
      i := k;
    } else {
      i := TightWindow(earn, b, times, k - 1);
      LevelNext(earn, b, times, k);
      RoomNext(earn, b, times, i, k);
    }
  }

  /** The calls allowed since call i leave room for one more at call k. */
  predicate OneMoreFits(earn: Earning, b: Bucket, times: seq<real>, i: nat, k: nat)
    requires i <= k < |times|
  {
    Count(earn, b, times, i, k) + 1.0 <= b.capacity + earn(times[k] - times[i])
  }

  lemma AllowedIffFits(earn: Earning, b: Bucket, times: seq<real>, k: nat)
    requires Steady(earn) && Sound(b) && b.tokens == b.capacity && Forward(b, times) && k < |times|
    ensures Allowed(earn, b, times, k) <==>
              forall i {:trigger OneMoreFits(earn, b, times, i, k)} :: 0 <= i <= k ==> OneMoreFits(earn, b, times, i, k)
  {
    var tight := TightWindow(earn, b, times, k);
    assert OneMoreFits(earn, b, times, tight, k) <==> Level(earn, b, times, k) >= 1.0;
    forall i | 0 <= i <= k ensures Level(earn, b, times, k) >= 1.0 ==> OneMoreFits(earn, b, times, i, k) {
      LevelBelowRoom(earn, b, times, i, k);
    }
  }

  lemma CountIsBounded(earn: Earning, b: Bucket, times: seq<real>, i: nat, j: nat)
    requires Steady(earn) && Sound(b) && Forward(b, times) && i < j <= |times|
    ensures Count(earn, b, times, i, j) <= b.capacity + earn(times[j - 1] - times[i])
  {
    LevelBelowRoom(earn, b, times, i, j - 1);
    LevelBound(earn, b, times, j - 1);
    assert Count(earn, b, times, i, j) == Count(earn, b, times, i, j - 1) + Taken(earn, b, times, j - 1);
    assert Allowed(earn, b, times, j - 1) ==> Level(earn, b, times, j - 1) >= 1.0;
  }

  // ---------- the promise ----------

  /** In every window of every run the allowed calls number at most capacity
      plus rate times its length, whatever the bucket held at the start. */
  lemma WindowBound(rate: real, b: Bucket, times: seq<real>, i: nat, j: nat)
    requires rate > 0.0 && Sound(b) && Forward(b, times) && i < j <= |times|
    ensures Count(AtRate(rate), b, times, i, j) <= b.capacity + AtRate(rate)(times[j - 1] - times[i])
  {
    AtRateSteady(rate);
    CountIsBounded(AtRate(rate), b, times, i, j);
  }

  /** And no call is refused without need: a limiter that starts full allows a
      call if and only if, in every window that ends with it, the calls allowed
      before leave room for one more within that bound. */
  lemma AllowedExact(rate: real, b: Bucket, times: seq<real>, k: nat)
    requires rate > 0.0 && Sound(b) && b.tokens == b.capacity && Forward(b, times) && k < |times|
    ensures Allowed(AtRate(rate), b, times, k) <==>
              forall i {:trigger OneMoreFits(AtRate(rate), b, times, i, k)} :: 0 <= i <= k ==>
                OneMoreFits(AtRate(rate), b, times, i, k)
  {
    AtRateSteady(rate);
    AllowedIffFits(AtRate(rate), b, times, k);
  }
}
