/**
 Which nonces a worker scans: it starts at its own number and steps by the number of
 workers, hashing in groups of sixteen. A group that meets a nonce beyond the mask is
 dropped as a whole, whatever part of it was prepared.
 */
module Mining {
  import opened Arithmetic
  import opened Bytes
  import opened Json
  import opened Nonce
  import opened Target

  const PIPELINE_SIZE: nat := 16
  const BATCH_SIZE: nat := 1024

  // ---------- the counter ----------

  /** The counter after `k` steps of `wrapping_add`. */
  function Counter(worker: nat, threads: nat, k: nat): (n: nat)
    requires worker < WORD
    ensures n < WORD
  {
    if k == 0 then worker else (Counter(worker, threads, k - 1) + threads) % WORD
  }

  /** It is the worker's arithmetic progression, wrapped. */
  lemma {:induction false} CounterIs(worker: nat, threads: nat, k: nat)
    requires worker < WORD
    ensures Counter(worker, threads, k) == (worker + k * threads) % WORD
  {
    if k > 0 {
      CounterIs(worker, threads, k - 1);
      var x := worker + (k - 1) * threads;
      assert k * threads == (k - 1) * threads + threads;
      WrapAdd(x, threads);
    }
  }

  lemma WrapAdd(x: nat, t: nat)
    ensures (x % WORD + t) % WORD == (x + t) % WORD
  {
    var q, r := x / WORD, x % WORD;
    assert x + t == q * WORD + (r + t);
    assert (x + t) / WORD == q + (r + t) / WORD;
  }

  // ---------- groups and batches ----------

  /** How many of the next `left` counters lie within the mask before the first that does not. */
  function Filled(worker: nat, threads: nat, mask: nat, k: nat, left: nat): (n: nat)
    requires worker < WORD
    ensures n <= left
    decreases left
  {
    if left == 0 || Counter(worker, threads, k) > mask then 0
    else 1 + Filled(worker, threads, mask, k + 1, left - 1)
  }

  lemma FilledStep(worker: nat, threads: nat, mask: nat, k: nat, left: nat)
    requires worker < WORD
    ensures left == 0 ==> Filled(worker, threads, mask, k, left) == 0
    ensures left > 0 ==> Filled(worker, threads, mask, k, left)
                         == if Counter(worker, threads, k) > mask then 0
                            else 1 + Filled(worker, threads, mask, k + 1, left - 1)
  {
    hide Counter;
  }

  /** What a batch that may hash `groups` groups does from step `k` on: the groups it hashes and the step it ends at. */
  function Batch(worker: nat, threads: nat, mask: nat, k: nat, groups: nat): (r: (nat, nat))
    requires worker < WORD
    ensures k <= r.1 && r.0 <= groups
    decreases groups
  {
    if groups == 0 then (0, k)
    else
      var n := Filled(worker, threads, mask, k, PIPELINE_SIZE);
      if n < PIPELINE_SIZE then (0, k + n)
      else
        var rest := Batch(worker, threads, mask, k + PIPELINE_SIZE, groups - 1);
        (1 + rest.0, rest.1)
  }

  lemma BatchStep(worker: nat, threads: nat, mask: nat, k: nat, groups: nat)
    requires worker < WORD
    ensures groups == 0 ==> Batch(worker, threads, mask, k, groups) == (0, k)
    ensures groups > 0 ==>
              var n := Filled(worker, threads, mask, k, PIPELINE_SIZE);
              Batch(worker, threads, mask, k, groups).1
              == if n < PIPELINE_SIZE then k + n else Batch(worker, threads, mask, k + PIPELINE_SIZE, groups - 1).1
  {
    hide Filled;
  }

  /** A run of batches on one job: all groups hashed, and the step reached. */
  function Run(worker: nat, threads: nat, mask: nat, batches: nat): (nat, nat)
    requires worker < WORD
  {
    if batches == 0 then (0, 0)
    else
      var (groups, k) := Run(worker, threads, mask, batches - 1);
      var more := Batch(worker, threads, mask, k, BATCH_SIZE / PIPELINE_SIZE);
      (groups + more.0, more.1)
  }

  // ---------- jobs with a mask ----------

  /** How many nonces up to the mask belong to the worker. */
  function Share(worker: nat, threads: nat, mask: nat): nat
    requires threads > 0
  {
    if worker > mask then 0 else (mask - worker) / threads + 1
  }

  predicate Roomy(worker: nat, threads: nat, mask: nat) {
    worker < threads && mask + threads < WORD
  }

  /** Up to the worker's share the counter does not wrap and lies within the mask, and then it lies beyond. */
  lemma CounterWithinShare(worker: nat, threads: nat, mask: nat, k: nat)
    requires Roomy(worker, threads, mask) && k <= Share(worker, threads, mask)
    ensures Counter(worker, threads, k) == worker + k * threads
    ensures Counter(worker, threads, k) <= mask <==> k < Share(worker, threads, mask)
  {
    hide Counter;
    CounterIs(worker, threads, k);
    TermWithinShare(worker, threads, mask, k);
    Small(worker + k * threads, WORD);
  }

  lemma TermWithinShare(worker: nat, threads: nat, mask: nat, k: nat)
    requires Roomy(worker, threads, mask) && k <= Share(worker, threads, mask)
    ensures worker + k * threads <= mask <==> k < Share(worker, threads, mask)
    ensures worker + k * threads < WORD
  {
    if worker <= mask {
      QuotientAtLeast(mask - worker, threads, k);
      if k > 0 {
        QuotientAtLeast(mask - worker, threads, k - 1);
        assert k * threads == (k - 1) * threads + threads;
      }
    } else {
      assert k * threads == 0;
    }
  }

  lemma Small(n: nat, m: nat)
    requires n < m
    ensures n % m == n
  {
    QuotientIs(n, m, 0, n);
  }

  lemma {:induction false} FilledWithinShare(worker: nat, threads: nat, mask: nat, k: nat, left: nat)
    requires Roomy(worker, threads, mask) && k <= Share(worker, threads, mask)
    ensures var room := Share(worker, threads, mask) - k;
            Filled(worker, threads, mask, k, left) == if left <= room then left else room
    decreases left
  {
    hide Counter;
    CounterWithinShare(worker, threads, mask, k);
    if left > 0 && k < Share(worker, threads, mask) {
      FilledWithinShare(worker, threads, mask, k + 1, left - 1);
    }
  }

  /** A batch hashes the groups that fit the rest of the share, and prepares the remainder for nothing. */
  lemma {:induction false} BatchWithinShare(worker: nat, threads: nat, mask: nat, k: nat, groups: nat)
    requires Roomy(worker, threads, mask) && k <= Share(worker, threads, mask)
    ensures var room := Share(worker, threads, mask) - k;
            Batch(worker, threads, mask, k, groups)
            == if groups * PIPELINE_SIZE <= room then (groups, k + groups * PIPELINE_SIZE)
               else (room / PIPELINE_SIZE, k + room)
    decreases groups
  {
    hide Counter, Filled;
    if groups > 0 {
      FilledWithinShare(worker, threads, mask, k, PIPELINE_SIZE);
      if k + PIPELINE_SIZE <= Share(worker, threads, mask) {
        BatchWithinShare(worker, threads, mask, k + PIPELINE_SIZE, groups - 1);
      }
    }
  }

  /** After any number of batches the worker has hashed the groups that fit, and is at most at the end of its share. */
  lemma {:induction false} RunWithinShare(worker: nat, threads: nat, mask: nat, batches: nat)
    requires Roomy(worker, threads, mask)
    ensures var share := Share(worker, threads, mask);
            Run(worker, threads, mask, batches)
            == if batches * BATCH_SIZE <= share then (batches * (BATCH_SIZE / PIPELINE_SIZE), batches * BATCH_SIZE)
               else (share / PIPELINE_SIZE, share)
  {
    hide Batch, Share;
    if batches > 0 {
      RunWithinShare(worker, threads, mask, batches - 1);
      var share := Share(worker, threads, mask);
      var (groups, k) := Run(worker, threads, mask, batches - 1);
      BatchWithinShare(worker, threads, mask, k, BATCH_SIZE / PIPELINE_SIZE);
    }
  }

  /**
   Main result: on one job a worker ends up hashing exactly its share rounded down to whole groups, and
   no more ever after.
   */
  lemma HashesWholeGroups(worker: nat, threads: nat, mask: nat, batches: nat)
    requires Roomy(worker, threads, mask)
    ensures Run(worker, threads, mask, batches).0 <= Share(worker, threads, mask) / 16
    ensures batches * 1024 > Share(worker, threads, mask) ==>
              Run(worker, threads, mask, batches).0 == Share(worker, threads, mask) / 16
  {
    RunWithinShare(worker, threads, mask, batches);
  }

  /** The first `n` nonces of the worker's progression. */
  function Terms(worker: nat, threads: nat, n: nat): set<nat> {
    if n == 0 then {} else Terms(worker, threads, n - 1) + {worker + (n - 1) * threads}
  }

  lemma {:induction false} TermsAre(worker: nat, threads: nat, n: nat, x: nat)
    ensures x in Terms(worker, threads, n) <==> exists i: nat :: i < n && x == worker + i * threads
  {
    if n > 0 {
      TermsAre(worker, threads, n - 1, x);
    }
  }

  lemma {:induction false} TermsCount(worker: nat, threads: nat, n: nat)
    requires threads > 0
    ensures |Terms(worker, threads, n)| == n
  {
    if n > 0 {
      TermsCount(worker, threads, n - 1);
      TermIsNew(worker, threads, n - 1);
    }
  }

  lemma TermIsNew(worker: nat, threads: nat, n: nat)
    requires threads > 0
    ensures worker + n * threads !in Terms(worker, threads, n)
  {
    hide Terms;
    TermsAre(worker, threads, n, worker + n * threads);
    forall i: nat | i < n ensures n * threads != i * threads {
      assert n * threads - i * threads == (n - i) * threads;
      Scale(n - i, threads);
    }
  }

  lemma Scale(k: nat, t: nat)
    requires k > 0
    ensures k * t >= t
  {
    assert k * t == (k - 1) * t + t;
  }

  /** The share is the number of nonces within the mask that leave the worker's remainder. */
  lemma ShareCounts(worker: nat, threads: nat, mask: nat)
    requires worker < threads
    ensures Share(worker, threads, mask) == |set n: nat | n <= mask && n % threads == worker|
  {
    var mine := set n: nat | n <= mask && n % threads == worker;
    var n := Share(worker, threads, mask);
    forall x: nat ensures x in mine <==> x in Terms(worker, threads, n) {
      TermsAre(worker, threads, n, x);
      InShare(worker, threads, mask, x);
    }
    assert mine == Terms(worker, threads, n);
    TermsCount(worker, threads, n);
  }

  lemma InShare(worker: nat, threads: nat, mask: nat, x: nat)
    requires worker < threads
    ensures x <= mask && x % threads == worker
            <==> exists i: nat :: i < Share(worker, threads, mask) && x == worker + i * threads
  {
    if x <= mask && x % threads == worker {
      var i := x / threads;
      assert x == i * threads + worker;
      QuotientAtLeast(mask - worker, threads, i);
      assert i < Share(worker, threads, mask) && x == worker + i * threads;
    }
    if i: nat :| i < Share(worker, threads, mask) && x == worker + i * threads {
      QuotientAtLeast(mask - worker, threads, i);
      QuotientIs(x, threads, i, worker);
    }
  }

  /** Within the mask no nonce belongs to two workers, or to two steps of one worker. */
  lemma NoNonceTwice(threads: nat, v: nat, w: nat, i: nat, j: nat)
    requires v < threads && w < threads
    requires v + i * threads == w + j * threads
    ensures v == w && i == j
  {
    QuotientIs(v + i * threads, threads, i, v);
    QuotientIs(w + j * threads, threads, j, w);
  }

  // ---------- jobs without a mask ----------

  lemma {:induction false} FilledPlain(worker: nat, threads: nat, k: nat, left: nat)
    requires worker < WORD
    ensures Filled(worker, threads, U32_MAX, k, left) == left
    decreases left
  {
    hide Counter;
    if left > 0 {
      FilledPlain(worker, threads, k + 1, left - 1);
    }
  }

  lemma {:induction false} BatchPlain(worker: nat, threads: nat, k: nat, groups: nat)
    requires worker < WORD
    ensures Batch(worker, threads, U32_MAX, k, groups) == (groups, k + groups * PIPELINE_SIZE)
    decreases groups
  {
    hide Counter, Filled;
    if groups > 0 {
      FilledPlain(worker, threads, k, PIPELINE_SIZE);
      BatchPlain(worker, threads, k + PIPELINE_SIZE, groups - 1);
    }
  }

  /** Without a mask every batch is hashed in full: the worker never runs out, it wraps around. */
  lemma {:induction false} RunPlain(worker: nat, threads: nat, batches: nat)
    requires worker < WORD
    ensures Run(worker, threads, U32_MAX, batches) == (batches * (BATCH_SIZE / PIPELINE_SIZE), batches * BATCH_SIZE)
  {
    hide Batch;
    if batches > 0 {
      RunPlain(worker, threads, batches - 1);
      BatchPlain(worker, threads, (batches - 1) * BATCH_SIZE, BATCH_SIZE / PIPELINE_SIZE);
    }
  }

  /** Two workers never meet at any two steps. */
  ghost predicate NeverMeet(threads: nat)
    requires threads <= WORD
  {
    forall v, w, i: nat, j: nat ::
      0 <= v < threads && 0 <= w < threads && v != w ==> Counter(v, threads, i) != Counter(w, threads, j)
  }

  /** A counter that has not wrapped is its worker's term. */
  lemma CounterBelow(worker: nat, threads: nat, k: nat)
    requires worker < WORD && worker + k * threads < WORD
    ensures Counter(worker, threads, k) == worker + k * threads
  {
    hide Counter;
    CounterIs(worker, threads, k);
    Small(worker + k * threads, WORD);
  }

  /** Until a counter wraps, the residue classes keep the workers apart. */
  lemma ApartUntilWrap(threads: nat, v: nat, w: nat, i: nat, j: nat)
    requires v < threads <= WORD && w < threads && v != w
    requires v + i * threads < WORD && w + j * threads < WORD
    ensures Counter(v, threads, i) != Counter(w, threads, j)
  {
    hide Counter;
    CounterBelow(v, threads, i);
    CounterBelow(w, threads, j);
    if v + i * threads == w + j * threads {
      NoNonceTwice(threads, v, w, i, j);
    }
  }

  /** Main result for plain jobs: the workers stay apart for ever exactly when the number of workers divides 2^32. */
  lemma ApartForEver(threads: nat)
    requires 0 < threads <= WORD
    ensures NeverMeet(threads) <==> WORD % threads == 0
  {
    hide Counter;
    if WORD % threads == 0 {
      forall v, w, i: nat, j: nat | 0 <= v < threads && 0 <= w < threads && v != w
        ensures Counter(v, threads, i) != Counter(w, threads, j)
      {
        ResidueKept(threads, v, i);
        ResidueKept(threads, w, j);
      }
    } else {
      WrappedMeets(threads);
    }
  }

  lemma ResidueKept(threads: nat, v: nat, i: nat)
    requires v < threads <= WORD && WORD % threads == 0
    ensures Counter(v, threads, i) % threads == v
  {
    hide Counter;
    CounterIs(v, threads, i);
    var x := v + i * threads;
    var q, a := WORD / threads, x / WORD;
    assert WORD == q * threads;
    assert x == a * WORD + x % WORD;
    assert x % WORD == v + (i - a * q) * threads by {
      assert a * WORD == (a * q) * threads;
      assert (i - a * q) * threads == i * threads - (a * q) * threads;
    }
    QuotientIs(x % WORD, threads, i - a * q, v);
  }

  /** The first worker's first wrapped counter is another worker's starting nonce. */
  lemma WrappedMeets(threads: nat)
    requires 0 < threads <= WORD && WORD % threads != 0
    ensures var r := threads - WORD % threads;
            0 < r < threads && Counter(0, threads, WORD / threads + 1) == r == Counter(r, threads, 0)
    ensures !NeverMeet(threads)
  {
    var q, r := WORD / threads, threads - WORD % threads;
    CounterStart(r, threads);
    hide Counter;
    CounterIs(0, threads, q + 1);
    FirstWrap(threads);
    assert Counter(0, threads, q + 1) == Counter(r, threads, 0);
  }

  lemma CounterStart(worker: nat, threads: nat)
    requires worker < WORD
    ensures Counter(worker, threads, 0) == worker
  {
  }

  lemma FirstWrap(threads: nat)
    requires 0 < threads <= WORD && WORD % threads != 0
    ensures ((WORD / threads + 1) * threads) % WORD == threads - WORD % threads
  {
    var q, rest := WORD / threads, WORD % threads;
    assert WORD == q * threads + rest;
    assert (q + 1) * threads == q * threads + threads;
    Small(threads - rest, WORD);
    WrapAdd(WORD, threads - rest);
  }
}
