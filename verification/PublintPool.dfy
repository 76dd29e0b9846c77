/**
 The publint worker pool (docker/support/scripts/publint-all.ts).

 Workers share one counter.  A worker claims an index and waits; whichever waiting worker is
 resumed next is not known, so `RunAll` resumes any of them.  `lint` stands for the outcome of
 linting one package, failures included.
 */
module PublintPool {
  import opened Wrappers
  import opened Decimal
  import opened Numbers

  datatype Worker = Awaiting(index: nat) | Returned

  datatype PoolError = MissingResult(index: nat) | NotAPositiveInteger(raw: Bytes)

  class Pool<T(!new), R(!new)> {
    const targets: seq<T>
    const lint: T -> R
    const concurrency: nat
    var next: nat
    var results: map<nat, R>
    var workers: seq<Worker>
    /** Which worker claimed an index. */
    ghost var owner: map<nat, nat>

    ghost predicate Claimed(i: nat)
      reads this
    {
      i < |targets| && i < next
    }

    ghost predicate OwnersAreWorkers()
      reads this
    {
      && (forall i :: i in owner <==> Claimed(i))
      && (forall i :: i in owner ==> owner[i] < |workers|)
    }

    /** A claimed index is finished, or its owner is still awaiting it. */
    ghost predicate FinishedOrAwaited()
      reads this
    {
      && (forall i :: i in results ==> i in owner && i < |targets| && results[i] == lint(targets[i]))
      && (forall i :: i in owner && i !in results ==> owner[i] < |workers| && workers[owner[i]] == Awaiting(i))
      && (forall w :: 0 <= w < |workers| && workers[w].Awaiting? ==>
            workers[w].index in owner && workers[w].index !in results && owner[workers[w].index] == w)
    }

    ghost predicate Valid()
      reads this
    {
      && OwnersAreWorkers()
      && FinishedOrAwaited()
      && (forall w :: 0 <= w < |workers| && workers[w].Returned? ==> |targets| < next)
    }

    ghost function InFlight(): (s: set<nat>)
      reads this
      ensures forall i :: i in s <==> i in owner && i !in results
    {
      set i | i in owner && i !in results
    }

    constructor (targets: seq<T>, concurrency: nat, lint: T -> R)
      ensures Valid() && next == 0 && workers == [] && results == map[]
      ensures this.targets == targets && this.concurrency == concurrency && this.lint == lint
    {
      this.targets, this.concurrency, this.lint := targets, concurrency, lint;
      next, results, workers, owner := 0, map[], [], map[];
    }

    /** The head of a worker's loop: take the next index, or return when there is none. */
    method Claim(w: nat) returns (worker: Worker)
      requires OwnersAreWorkers() && w <= |workers|
      modifies this`next, this`owner
      ensures next == old(next) + 1
      ensures worker == if old(next) < |targets| then Awaiting(old(next)) else Returned
      ensures owner == if worker.Awaiting? then old(owner)[worker.index := w] else old(owner)
      ensures worker.Awaiting? ==> worker.index !in old(owner)
      ensures forall i :: i in owner <==> Claimed(i)
    {
      var index := next;
      next := next + 1;
      if index < |targets| {
        owner := owner[index := w];
        return Awaiting(index);
      }
      return Returned;
    }

    /** One more worker runs up to its first wait. */
    method Launch()
      requires Valid() && |workers| < concurrency
      modifies this
      ensures Valid() && |workers| == |old(workers)| + 1 && next == old(next) + 1 && results == old(results)
      ensures old(owner).Keys <= owner.Keys && forall i :: i in old(owner) ==> owner[i] == old(owner)[i]
    {
      var worker := Claim(|workers|);
      workers := workers + [worker];
    }

    /** A waiting worker is resumed: it stores its result and claims again. */
    method Resume(w: nat)
      requires Valid() && w < |workers| && workers[w].Awaiting?
      modifies this
      ensures Valid() && |workers| == |old(workers)|
      ensures results == old(results)[old(workers)[w].index := lint(targets[old(workers)[w].index])]
      ensures old(workers)[w].index !in old(results)
      ensures next == old(next) + 1
      ensures old(owner).Keys <= owner.Keys && forall i :: i in old(owner) ==> owner[i] == old(owner)[i]
    {
      var index := workers[w].index;
      results := results[index := lint(targets[index])];
      var worker := Claim(w);
      workers := workers[w := worker];
    }

    /** Every worker is started before any of them is resumed. */
    method Start()
      requires Valid() && workers == [] && next == 0 && results == map[]
      modifies this
      ensures Valid() && |workers| == concurrency == next && results == map[]
    {
      for k := 0 to concurrency
        invariant Valid() && |workers| == k == next && results == map[]
      {
        Launch();
      }
    }

    /** The waiting workers are resumed, in any order, until none waits. */
    method Drain()
      requires Valid() && |workers| == concurrency && results == map[]
      modifies this
      ensures Valid() && |workers| == concurrency
      ensures concurrency == 0 ==> results == map[]
      ensures concurrency > 0 ==> forall i :: 0 <= i < |targets| ==> i in results
    {
      while exists w :: 0 <= w < |workers| && workers[w].Awaiting?
        invariant Valid() && |workers| == concurrency
        invariant concurrency == 0 ==> results == map[]
        invariant |results| <= |targets|
        decreases |targets| - |results|
      {
        var w: nat :| w < |workers| && workers[w].Awaiting?;
        InFlightBound();
        Resume(w);
        ResultsFit();
      }
      if concurrency > 0 {
        assert workers[0].Returned?;
      }
    }

    lemma ResultsFit()
      requires Valid()
      ensures |results| <= |targets|
    {
      BelowFits(results.Keys, |targets|);
      assert |results.Keys| == |results|;
    }

    /** The results in package order, or the first package without one. */
    method Collect() returns (r: Result<seq<R>, PoolError>)
      requires Valid()
      ensures r.Success? <==> forall i :: 0 <= i < |targets| ==> i in results
      ensures r.Success? ==> |r.value| == |targets| && forall i :: 0 <= i < |targets| ==> r.value[i] == lint(targets[i])
      ensures r.Failure? ==> r.error.MissingResult? && r.error.index < |targets| && r.error.index !in results
                             && forall j :: 0 <= j < r.error.index ==> j in results
    {
      var collected: seq<R> := [];
      for i := 0 to |targets|
        invariant |collected| == i && forall j :: 0 <= j < i ==> j in results && collected[j] == results[j]
      {
        if i !in results {
          return Failure(MissingResult(i));
        }
        collected := collected + [results[i]];
      }
      return Success(collected);
    }

    /** Never more in flight than workers. */
    lemma InFlightBound()
      requires Valid() && |workers| <= concurrency
      ensures |InFlight()| <= concurrency
    {
      InjectionFits(InFlight(), owner, |workers|);
    }
  }

  lemma {:induction false} InjectionFits(s: set<nat>, owner: map<nat, nat>, n: nat)
    requires forall i :: i in s ==> i in owner && owner[i] < n
    requires forall i, j :: i in s && j in s && owner[i] == owner[j] ==> i == j
    ensures |s| <= n
    decreases n
  {
    if s != {} {
      assert n > 0 by {
        var i :| i in s;
      }
      if i :| i in s && owner[i] == n - 1 {
        InjectionFits(s - {i}, owner, n - 1);
      } else {
        InjectionFits(s, owner, n - 1);
      }
    }
  }

  lemma {:induction false} BelowFits(s: set<nat>, n: nat)
    requires forall i :: i in s ==> i < n
    ensures |s| <= n
    decreases n
  {
    if n > 0 {
      BelowFits(s - {n - 1}, n - 1);
    } else {
      assert s == {};
    }
  }

  /** Every package's result, in package order, or the first package without one. */
  method RunAll<T(!new), R(!new)>(
      targets: seq<T>, concurrency: nat, lint: T -> R) returns (r: Result<seq<R>, PoolError>, ghost workers: nat)
    ensures workers == concurrency
    ensures r.Failure? <==> concurrency == 0 && targets != []
    ensures r.Failure? ==> r.error == MissingResult(0)
    ensures r.Success? ==> |r.value| == |targets| && forall i :: 0 <= i < |targets| ==> r.value[i] == lint(targets[i])
  {
    var pool := new Pool(targets, concurrency, lint);
    pool.Start();
    pool.Drain();
    assert concurrency == 0 && targets != [] ==> 0 !in pool.results;
    r := pool.Collect();
    workers := |pool.workers|;
  }

  // ---------------------------------------------------------------- how many workers

  predicate Blank(b: Byte) {
    b == 32 || 9 <= b <= 13
  }

  function SkipBlanks(s: Bytes): Bytes {
    if s != [] && Blank(s[0]) then SkipBlanks(s[1..]) else s
  }

  /** The number at the front of the text, after blanks and a sign; None stands for NaN. */
  function ParseInt(raw: Bytes): Option<int> {
    var s := SkipBlanks(raw);
    var signed := s != [] && (s[0] == 43 || s[0] == 45);
    var negative := s != [] && s[0] == 45;
    var body := if signed then s[1..] else s;
    var run := DigitRun(body);
    if run == 0 then None
    else
      var magnitude: int := Value(body[..run]);
      Some(if negative then -magnitude else magnitude)
  }

  function PublintConcurrency(raw: Option<Bytes>, total: nat, availableParallelism: nat): Result<nat, PoolError> {
    if total == 0 then Success(0)
    else if raw.Some? && raw.value != [] then
      match ParseInt(raw.value)
      case None => Failure(NotAPositiveInteger(raw.value))
      case Some(parsed) =>
        if parsed > MAX_SAFE_INTEGER || parsed < 1 || Digits(parsed) != raw.value
        then Failure(NotAPositiveInteger(raw.value))
        else Success(Min(total, parsed))
    else Success(Min(total, availableParallelism))
  }

  lemma NumeralReadsBack(k: nat)
    ensures ParseInt(Digits(k)) == Some(k)
  {
    DigitsAreDigits(k);
    var digits := Digits(k);
    assert digits[0] in digits;
    assert SkipBlanks(digits) == digits;
    DigitRunTakesAll(digits);
    assert digits[..|digits|] == digits;
    ValueOfDigits(k);
  }

  ghost predicate Accepts(raw: Bytes, k: nat) {
    1 <= k <= 9007199254740991 && raw == Digits(k)
  }

  /** A setting is accepted exactly when it is the shortest decimal numeral of a positive safe integer. */
  lemma SettingIsAcceptedIff(raw: Bytes, total: nat, availableParallelism: nat, n: nat)
    requires total > 0 && raw != []
    ensures PublintConcurrency(Some(raw), total, availableParallelism) == Success(n)
            <==> exists k: nat :: Accepts(raw, k) && n == Min(total, k)
  {
    if k: nat :| Accepts(raw, k) && n == Min(total, k) {
      NumeralReadsBack(k);
    }
    if PublintConcurrency(Some(raw), total, availableParallelism) == Success(n) {
      var k: nat := ParseInt(raw).value;
      assert Accepts(raw, k);
    }
  }

  /** How many workers lint: never more than packages, and without a setting as many as can run at once. */
  lemma WorkersAre(raw: Bytes, total: nat, availableParallelism: nat, k: nat)
    ensures PublintConcurrency(Some(raw), 0, availableParallelism) == Success(0)
    ensures PublintConcurrency(None, total, availableParallelism)
         == PublintConcurrency(Some([]), total, availableParallelism)
         == Success(if total <= availableParallelism then total else availableParallelism)
    ensures total > 0 && raw == Digits(k) && 1 <= k <= 9007199254740991 ==>
              PublintConcurrency(Some(raw), total, availableParallelism) == Success(if total <= k then total else k)
  {
    DigitsAreDigits(k);
    NumeralReadsBack(k);
  }

  /** Whatever the setting, either it is refused or every package gets its result. */
  method LintPackages<T(!new), R(!new)>(targets: seq<T>, raw: Option<Bytes>, availableParallelism: nat, lint: T -> R)
    returns (r: Result<seq<R>, PoolError>, ghost workers: nat)
    requires availableParallelism >= 1
    ensures r.Success? ==> PublintConcurrency(raw, |targets|, availableParallelism) == Success(workers)
    ensures r.Failure? <==> targets != [] && raw.Some? && raw.value != [] && forall k :: !Accepts(raw.value, k)
    ensures r.Failure? ==> r.error == NotAPositiveInteger(raw.value)
    ensures r.Success? ==> |r.value| == |targets| && forall i :: 0 <= i < |targets| ==> r.value[i] == lint(targets[i])
  {
    var concurrency := PublintConcurrency(raw, |targets|, availableParallelism);
    if raw.Some? && raw.value != [] && targets != [] {
      forall k: nat | Accepts(raw.value, k) ensures concurrency == Success(Min(|targets|, k)) {
        SettingIsAcceptedIff(raw.value, |targets|, availableParallelism, Min(|targets|, k));
      }
      if concurrency.Success? {
        SettingIsAcceptedIff(raw.value, |targets|, availableParallelism, concurrency.value);
      }
    }
    if concurrency.Failure? {
      return Failure(concurrency.error), 0;
    }
    r, workers := RunAll(targets, concurrency.value, lint);
  }
}
