/**
 * The time-sliced loop of `_crypt` (src/bcrypt/impl.js), independent of
 * what a round does.
 *
 * `next()` either runs rounds (`i = i + 1; _key(b); _key(salt)`) until
 * the wall-clock budget of the slice is spent, or, once `i` has reached the
 * round count, finishes the computation. The budget (`Date.now() - start >
 * MAX_EXECUTION_TIME`) is not a value the model can compute; it is replaced
 * by an abstract schedule `quota`: call number `n` of `next()` performs at
 * most `quota(n)` rounds, and at least one, as the source's loop always
 * does one round before it looks at the clock.
 *
 * Everything here is generic in the state `S` and in the round and the
 * final step, which the `Crypt` module supplies.
 */
module Slicing {

  /** `n` rounds in a row. */
  function Iterate<S>(f: S -> S, st: S, n: nat): S
    decreases n
  {
    if n == 0 then st else Iterate(f, f(st), n - 1)
  }

  /** Running `a` rounds and then `b` more is running `a + b` rounds: the
      rounds can be cut anywhere. */
  lemma {:induction false} IterateAdd<S>(f: S -> S, st: S, a: nat, b: nat)
    ensures Iterate(f, Iterate(f, st, a), b) == Iterate(f, st, a + b)
    decreases a
  {
    if a > 0 {
      IterateAdd(f, f(st), a - 1, b);
    }
  }

  /** The last of `n + 1` rounds is one more round after `n` rounds. */
  lemma IterateLast<S>(f: S -> S, st: S, n: nat)
    ensures Iterate(f, st, n + 1) == f(Iterate(f, st, n))
  {
    IterateAdd(f, st, n, 1);
  }

  /** A property every round preserves holds after any number of rounds. */
  lemma {:induction false} IterateKeeps<S>(f: S -> S, inv: S -> bool, st: S, n: nat)
    requires forall x | inv(x) :: inv(f(x))
    requires inv(st)
    ensures inv(Iterate(f, st, n))
    decreases n
  {
    if n > 0 {
      IterateKeeps(f, inv, f(st), n - 1);
    }
  }

  /** Rounds that agree on every state give the same iterates. */
  lemma {:induction false} IterateAgree<S>(f: S -> S, g: S -> S, st: S, n: nat)
    requires forall x :: f(x) == g(x)
    ensures Iterate(f, st, n) == Iterate(g, st, n)
    decreases n
  {
    if n > 0 {
      IterateAgree(f, g, f(st), n - 1);
    }
  }

  /** What `next()` closes over: the round it repeats, the final step that
      turns the state into the result, and the round count. */
  datatype Setup<!S> = Setup(round: S -> S, finish: S -> seq<int>, rounds: nat)

  /** The variables `next()` updates: the state and the round counter `i`. */
  datatype Job<S> = Job(st: S, i: nat)

  /** The result of the synchronous driver: the result of the final step,
      and the value of `i` at every call of `next()`, each of which reports
      `i / rounds` to the progress callback. */
  datatype Outcome = Outcome(digest: seq<int>, reported: seq<nat>)

  /** A schedule gives every call of `next()` at least one round. */
  ghost predicate Positive(quota: nat -> nat)
  {
    forall n: nat :: quota(n) >= 1
  }

  function Min(a: nat, b: nat): (r: nat)
    ensures r <= a && r <= b && (r == a || r == b)
  {
    if a <= b then a else b
  }

  /** One call of `next()`, number `call`, with rounds left: run
      `quota(call)` of them, fewer if fewer are left. */
  function Slice<S>(g: Setup<S>, job: Job<S>, quota: nat -> nat, call: nat): (r: Job<S>)
    requires job.i < g.rounds && quota(call) >= 1
    ensures job.i < r.i <= g.rounds
    ensures r.i - job.i <= quota(call)
    ensures r.i < g.rounds ==> r.i - job.i == quota(call)
    ensures r.st == Iterate(g.round, job.st, r.i - job.i)
  {
    var n := Min(quota(call), g.rounds - job.i);
    Job(Iterate(g.round, job.st, n), job.i + n)
  }

  /** The synchronous driver `while (true) if (typeof (res = next()) !==
      'undefined') return res`, from call number `call` on: slices while
      rounds are left, then the final step. */
  function Drive<S>(g: Setup<S>, job: Job<S>, quota: nat -> nat, call: nat): (r: Outcome)
    requires job.i <= g.rounds && Positive(quota)
    ensures |r.reported| >= 1
    decreases g.rounds - job.i
  {
    if job.i >= g.rounds then Outcome(g.finish(job.st), [job.i])
    else
      var rest := Drive(g, Slice(g, job, quota, call), quota, call + 1);
      Outcome(rest.digest, [job.i] + rest.reported)
  }

  /** However the rounds are sliced, the result is the final step applied
      to the state after all the remaining rounds. */
  lemma {:induction false} DriveDigest<S>(g: Setup<S>, job: Job<S>, quota: nat -> nat, call: nat)
    requires job.i <= g.rounds && Positive(quota)
    ensures Drive(g, job, quota, call).digest == g.finish(Iterate(g.round, job.st, g.rounds - job.i))
    decreases g.rounds - job.i
  {
    if job.i < g.rounds {
      var next := Slice(g, job, quota, call);
      DriveDigest(g, next, quota, call + 1);
      IterateAdd(g.round, job.st, next.i - job.i, g.rounds - next.i);
    }
  }

  /** In particular, from the first call: the result is the final step
      applied to the state after all the rounds. */
  lemma DriveFromStart<S>(g: Setup<S>, st: S, quota: nat -> nat)
    requires Positive(quota)
    ensures Drive(g, Job(st, 0), quota, 0).digest == g.finish(Iterate(g.round, st, g.rounds))
  {
    DriveDigest(g, Job(st, 0), quota, 0);
  }

  /** Slicing never changes the result: any two schedules agree. */
  lemma SlicingInvariant<S>(g: Setup<S>, job: Job<S>, q1: nat -> nat, q2: nat -> nat)
    requires job.i <= g.rounds && Positive(q1) && Positive(q2)
    ensures Drive(g, job, q1, 0).digest == Drive(g, job, q2, 0).digest
  {
    DriveDigest(g, job, q1, 0);
    DriveDigest(g, job, q2, 0);
  }

  /** A sequence of values that never goes down and stays in `[lo, hi]`. */
  ghost predicate Ordered(p: seq<nat>, lo: nat, hi: nat)
  {
    forall a, b | 0 <= a <= b < |p| :: lo <= p[a] <= p[b] <= hi
  }

  /** A value at or below the head of an ordered sequence can be put in
      front of it. */
  lemma OrderedCons(x: nat, rest: seq<nat>, y: nat, hi: nat)
    requires |rest| >= 1 && Ordered(rest, y, hi) && x <= y
    ensures Ordered([x] + rest, x, hi)
  {
    var p := [x] + rest;
    assert y <= rest[0] <= hi;
    forall a, b | 0 <= a <= b < |p|
      ensures x <= p[a] <= p[b] <= hi
    {
      if a > 0 {
        assert p[a] == rest[a - 1] && p[b] == rest[b - 1];
      } else if b > 0 {
        assert p[b] == rest[b - 1];
      }
    }
  }

  /** The reported values of `i` start at the current one, never go down,
      stay within the round count, and end at the round count. */
  lemma {:induction false} DriveProgress<S>(g: Setup<S>, job: Job<S>, quota: nat -> nat, call: nat)
    requires job.i <= g.rounds && Positive(quota)
    ensures var p := Drive(g, job, quota, call).reported;
      p[0] == job.i && p[|p| - 1] == g.rounds && Ordered(p, job.i, g.rounds)
    decreases g.rounds - job.i
  {
    if job.i < g.rounds {
      var next := Slice(g, job, quota, call);
      DriveProgress(g, next, quota, call + 1);
      var rest := Drive(g, next, quota, call + 1).reported;
      assert Drive(g, job, quota, call).reported == [job.i] + rest;
      OrderedCons(job.i, rest, next.i, g.rounds);
    }
  }

  /** The number of calls `next()` needs: at most one per round, plus the
      call that finishes. */
  lemma {:induction false} DriveCalls<S>(g: Setup<S>, job: Job<S>, quota: nat -> nat, call: nat)
    requires job.i <= g.rounds && Positive(quota)
    ensures |Drive(g, job, quota, call).reported| <= g.rounds - job.i + 1
    decreases g.rounds - job.i
  {
    if job.i < g.rounds {
      DriveCalls(g, Slice(g, job, quota, call), quota, call + 1);
    }
  }
}
