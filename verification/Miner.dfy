/**
 A worker as it runs: sixteen blocks prepared in place, hashed together and checked. The
 hash is any function of the block's bytes.
 */
module Miner {
  import opened Bytes
  import opened Json
  import opened Nonce
  import opened Target
  import opened Mining

  type word = x: nat | x < WORD

  /** A job is for a NiceHash pool if its template's nonce field is not empty. */
  datatype Job = Job(blob: bytes, difficulty: nat) {
    predicate Nicehash() {
      DetectsNicehashNonce(blob)
    }

    function Mask(): word {
      NonceMask(Nicehash())
    }
  }

  /** What is sent to the pool; nonce, result and block are hexadecimal there and bytes here. */
  datatype MinedShare = MinedShare(nonce: bytes, result: bytes, blob: bytes)

  /** The block of step `k`: the template with that step's nonce. */
  function StepBlob(job: Job, worker: nat, threads: nat, k: nat): bytes
    requires worker < WORD
  {
    Written(job.blob, Counter(worker, threads, k), job.Mask())
  }

  function StepBlobs(job: Job, worker: nat, threads: nat, k: nat, count: nat): (blobs: seq<bytes>)
    requires worker < WORD
    ensures |blobs| == count && forall i :: 0 <= i < count ==> blobs[i] == StepBlob(job, worker, threads, k + i)
  {
    if count == 0 then []
    else StepBlobs(job, worker, threads, k, count - 1) + [StepBlob(job, worker, threads, k + count - 1)]
  }

  /** The blocks that a batch hashes. */
  function BatchBlobs(job: Job, worker: nat, threads: nat, k: nat, groups: nat): seq<bytes>
    requires worker < WORD
    decreases groups
  {
    if groups == 0 || Filled(worker, threads, job.Mask(), k, PIPELINE_SIZE) < PIPELINE_SIZE then []
    else
      StepBlobs(job, worker, threads, k, PIPELINE_SIZE)
      + BatchBlobs(job, worker, threads, k + PIPELINE_SIZE, groups - 1)
  }

  lemma BatchBlobsStep(job: Job, worker: nat, threads: nat, k: nat, groups: nat)
    requires worker < WORD
    ensures BatchBlobs(job, worker, threads, k, groups)
            == if groups == 0 || Filled(worker, threads, job.Mask(), k, PIPELINE_SIZE) < PIPELINE_SIZE then []
               else
                 StepBlobs(job, worker, threads, k, PIPELINE_SIZE)
                 + BatchBlobs(job, worker, threads, k + PIPELINE_SIZE, groups - 1)
  {
    hide Filled, StepBlobs;
  }

  /** All blocks a worker hashes in a run of batches on one job. */
  function RunBlobs(job: Job, worker: nat, threads: nat, batches: nat): seq<bytes>
    requires worker < WORD
  {
    if batches == 0 then []
    else
      RunBlobs(job, worker, threads, batches - 1)
      + BatchBlobs(job, worker, threads, Run(worker, threads, job.Mask(), batches - 1).1, BATCH_SIZE / PIPELINE_SIZE)
  }

  /** The bytes in a block's nonce field, zeros where the block is too short to have one. */
  function FieldBytes(blob: bytes): bytes {
    if Field(blob).Some? then Field(blob).value else Le(0)
  }

  /** The shares that hashed blocks deserve, in order: each block that passes the check, with the nonce it carries. */
  function SharesOf(blobs: seq<bytes>, hash: bytes -> bytes, difficulty: nat): seq<MinedShare> {
    if blobs == [] then []
    else
      var n := |blobs| - 1;
      var b := blobs[n];
      SharesOf(blobs[..n], hash, difficulty)
      + if CheckHash(hash(b), difficulty) then [MinedShare(FieldBytes(b), hash(b), b)] else []
  }

  lemma {:induction false} SharesAppend(a: seq<bytes>, b: seq<bytes>, hash: bytes -> bytes, difficulty: nat)
    ensures SharesOf(a + b, hash, difficulty) == SharesOf(a, hash, difficulty) + SharesOf(b, hash, difficulty)
    decreases |b|
  {
    hide CheckHash, FieldBytes;
    if b == [] {
      assert a + b == a;
    } else {
      var n := |b| - 1;
      assert (a + b)[..|a| + n] == a + b[..n];
      SharesAppend(a, b[..n], hash, difficulty);
    }
  }

  /** The word recorded beside a block is the one in its field; for a block without a field it is still zero. */
  predicate Recorded(n: word, blob: bytes) {
    if Field(blob).Some? then Le(n) == Field(blob).value else n == 0
  }

  /** What is sent for blocks and the words recorded beside them. */
  function Sent(nonces: seq<word>, blobs: seq<bytes>, hash: bytes -> bytes, difficulty: nat): seq<MinedShare>
    requires |nonces| == |blobs|
  {
    if blobs == [] then []
    else
      var n := |blobs| - 1;
      Sent(nonces[..n], blobs[..n], hash, difficulty)
      + if CheckHash(hash(blobs[n]), difficulty) then [MinedShare(Le(nonces[n]), hash(blobs[n]), blobs[n])] else []
  }

  lemma SentNothing(hash: bytes -> bytes, difficulty: nat)
    ensures Sent([], [], hash, difficulty) == []
  {
  }

  lemma SentOneMore(nonces: seq<word>, blobs: seq<bytes>, i: nat, hash: bytes -> bytes, difficulty: nat)
    requires i < |nonces| && i < |blobs|
    ensures Sent(nonces[..i + 1], blobs[..i + 1], hash, difficulty)
            == Sent(nonces[..i], blobs[..i], hash, difficulty)
               + if CheckHash(hash(blobs[i]), difficulty) then [MinedShare(Le(nonces[i]), hash(blobs[i]), blobs[i])]
                 else []
  {
    hide CheckHash, Le;
    assert blobs[..i + 1][..i] == blobs[..i] && nonces[..i + 1][..i] == nonces[..i];
  }

  /** The two records agree: a nonce that is sent is the one its block carries. */
  lemma {:induction false} SharesAreHonest(nonces: seq<word>, blobs: seq<bytes>, hash: bytes -> bytes, difficulty: nat)
    requires |nonces| == |blobs| && forall i :: 0 <= i < |nonces| ==> Recorded(nonces[i], blobs[i])
    ensures Sent(nonces, blobs, hash, difficulty) == SharesOf(blobs, hash, difficulty)
    decreases |blobs|
  {
    hide CheckHash, Le;
    if blobs != [] {
      var n := |blobs| - 1;
      assert Recorded(nonces[n], blobs[n]);
      SharesAreHonest(nonces[..n], blobs[..n], hash, difficulty);
    }
  }

  /** `write_nonce` on the bytes of one block. */
  method WriteBlock(blob: bytes, nonce: nat, mask: nat) returns (written: bytes, fullNonce: Option<word>)
    requires nonce < WORD && mask < WORD
    ensures written == Written(blob, nonce, mask)
    ensures fullNonce.None? <==> Field(written).None?
    ensures fullNonce.Some? ==> Recorded(fullNonce.value, written)
  {
    hide Written, Le;
    var cells := new byte[|blob|](i requires 0 <= i < |blob| => blob[i]);
    assert cells[..] == blob;
    var merged := WriteNonce(cells, nonce, mask);
    written := cells[..];
    fullNonce := if merged.Some? then Some(merged.value) else None;
    WrittenKeepsField(blob, nonce, mask);
    if Field(written).Some? {
      LeOfBytes(Field(written).value);
    }
  }

  lemma WrittenKeepsField(blob: bytes, nonce: nat, mask: nat)
    requires nonce < WORD && mask < WORD
    ensures Field(Written(blob, nonce, mask)).Some? <==> Field(blob).Some?
    ensures Field(blob).None? ==> Written(blob, nonce, mask) == blob
  {
    hide Le, Merged;
  }

  /** A block that has been the template and perhaps had nonces written into it. */
  ghost predicate Derived(blob: bytes, job: Job) {
    |blob| == |job.blob|
    && forall n: nat :: n < WORD ==> Written(blob, n, job.Mask()) == Written(job.blob, n, job.Mask())
  }

  lemma TemplateIsDerived(job: Job)
    ensures Derived(job.blob, job)
  {
  }

  lemma WrittenIsDerived(blob: bytes, job: Job, n: nat)
    requires Derived(blob, job) && n < WORD
    ensures Written(blob, n, job.Mask()) == Written(job.blob, n, job.Mask())
    ensures Derived(Written(blob, n, job.Mask()), job)
  {
    hide Written;
    forall m: nat | m < WORD
      ensures Written(Written(job.blob, n, job.Mask()), m, job.Mask()) == Written(job.blob, m, job.Mask())
    {
      WrittenTwice(job.blob, n, m, job.Nicehash());
    }
  }

  class Worker {
    const id: nat
    const threads: nat
    var nonce: nat
    var blobs: seq<bytes>
    var hashes: nat
    var shares: seq<MinedShare>
    ghost var steps: nat
    ghost var hashed: seq<bytes>

    /** The worker is at some step of its counter on this job, and its blocks come from the job's template. */
    ghost predicate On(job: Job)
      reads this
    {
      && id < WORD && threads < WORD
      && nonce == Counter(id, threads, steps)
      && |blobs| == PIPELINE_SIZE
      && (forall i :: 0 <= i < PIPELINE_SIZE ==> Derived(blobs[i], job))
      && hashes == |hashed|
    }

    constructor (id: nat, threads: nat)
      requires id < WORD && threads < WORD
      ensures this.id == id && this.threads == threads && hashed == [] && shares == []
    {
      this.id, this.threads, this.nonce := id, threads, id;
      blobs := seq(PIPELINE_SIZE, _ => []);
      hashes := 0;
      shares := [];
      steps := 0;
      hashed := [];
    }

    /** A new job: the counter starts over and every block is a copy of the template. */
    method TakeJob(job: Job)
      requires id < WORD && threads < WORD
      modifies this
      ensures On(job) && steps == 0 && hashed == [] && shares == [] && hashes == 0
    {
      TemplateIsDerived(job);
      hide Derived;
      nonce := id;
      blobs := [];
      var b := 0;
      while b < PIPELINE_SIZE
        invariant 0 <= b <= PIPELINE_SIZE && |blobs| == b
        invariant forall i :: 0 <= i < b ==> Derived(blobs[i], job)
        invariant nonce == id
      {
        blobs := blobs + [job.blob];
        b := b + 1;
      }
      hashes, shares, steps, hashed := 0, [], 0, [];
    }

    /**
     Prepares up to `count` blocks and records the words written into them; stops at the
     first nonce beyond the mask.
     */
    method Prepare(job: Job, count: nat) returns (ok: bool, nonces: seq<word>)
      requires On(job) && count <= PIPELINE_SIZE
      modifies this`nonce, this`blobs, this`steps
      ensures On(job) && steps == old(steps) + Filled(id, threads, job.Mask(), old(steps), count)
      ensures ok <==> Filled(id, threads, job.Mask(), old(steps), count) == count
      ensures ok ==> blobs[..count] == StepBlobs(job, id, threads, old(steps), count)
      ensures |nonces| == PIPELINE_SIZE && (ok ==> forall i :: 0 <= i < count ==> Recorded(nonces[i], blobs[i]))
    {
      hide Derived, Written, Counter, Filled, StepBlobs, Recorded;
      ghost var mask := job.Mask();
      FilledStep(id, threads, mask, steps, count);
      nonces := seq(PIPELINE_SIZE, _ => 0);
      var i := 0;
      while i < count
        invariant 0 <= i <= count && On(job) && steps == old(steps) + i && |nonces| == PIPELINE_SIZE
        invariant Filled(id, threads, job.Mask(), old(steps), count)
                  == i + Filled(id, threads, job.Mask(), steps, count - i)
        invariant forall j :: 0 <= j < i ==> blobs[j] == StepBlob(job, id, threads, old(steps) + j)
        invariant forall j :: 0 <= j < i ==> Recorded(nonces[j], blobs[j])
        invariant forall j :: i <= j < PIPELINE_SIZE ==> nonces[j] == 0
      {
        FilledStep(id, threads, mask, steps, count - i);
        if nonce > job.Mask() {
          return false, nonces;
        }
        WrittenIsDerived(blobs[i], job, nonce);
        WrittenKeepsField(blobs[i], nonce, job.Mask());
        if NONCE_OFFSET + 4 <= |blobs[i]| {
          var written, fullNonce := WriteBlock(blobs[i], nonce, job.Mask());
          blobs := blobs[i := written];
          if fullNonce.Some? {
            nonces := nonces[i := fullNonce.value];
          }
        } else {
          NothingRecorded(blobs[i]);
        }
        CounterStep(id, threads, steps);
        nonce := (nonce + threads) % WORD;
        steps := steps + 1;
        i := i + 1;
      }
      FilledStep(id, threads, mask, steps, 0);
      ok := true;
      assert blobs[..count] == StepBlobs(job, id, threads, old(steps), count);
    }

    /** Hashes the first `count` blocks and sends those that pass, with the words recorded beside them. */
    method HashAndSend(job: Job, count: nat, nonces: seq<word>, hash: bytes -> bytes)
      requires On(job) && count <= PIPELINE_SIZE <= |nonces|
      modifies this`hashes, this`hashed, this`shares
      ensures On(job) && hashed == old(hashed) + blobs[..count]
      ensures shares == old(shares) + Sent(nonces[..count], blobs[..count], hash, job.difficulty)
    {
      hide CheckHash, Derived, Le, Sent;
      SentNothing(hash, job.difficulty);
      assert nonces[..0] == [] && blobs[..0] == [];
      hashes := hashes + count;
      hashed := hashed + blobs[..count];
      var i := 0;
      while i < count
        invariant 0 <= i <= count && On(job) && hashed == old(hashed) + blobs[..count]
        invariant shares == old(shares) + Sent(nonces[..i], blobs[..i], hash, job.difficulty)
      {
        SentOneMore(nonces, blobs, i, hash, job.difficulty);
        var result := hash(blobs[i]);
        if CheckHash(result, job.difficulty) {
          shares := shares + [MinedShare(Le(nonces[i]), result, blobs[i])];
        }
        i := i + 1;
      }
    }

    /** One batch: groups of sixteen until the batch is done or the nonces run out. */
    method MineOneBatch(job: Job, hash: bytes -> bytes)
      requires On(job)
      modifies this
      ensures On(job)
      ensures steps == Batch(id, threads, job.Mask(), old(steps), BATCH_SIZE / PIPELINE_SIZE).1
      ensures hashed == old(hashed) + BatchBlobs(job, id, threads, old(steps), BATCH_SIZE / PIPELINE_SIZE)
      ensures shares == old(shares)
              + SharesOf(BatchBlobs(job, id, threads, old(steps), BATCH_SIZE / PIPELINE_SIZE), hash, job.difficulty)
    {
      hide Derived, Counter, SharesOf, Sent, Recorded, Filled, Batch, BatchBlobs, StepBlobs, CheckHash;
      ghost var mask := job.Mask();
      var remaining := BATCH_SIZE;
      ghost var done: seq<bytes> := [];
      ghost var groups := BATCH_SIZE / PIPELINE_SIZE;
      assert SharesOf([], hash, job.difficulty) == [] by {
        NoShares(hash, job.difficulty);
      }
      while remaining > 0
        invariant 0 <= groups && remaining == groups * PIPELINE_SIZE && On(job)
        invariant Batch(id, threads, job.Mask(), old(steps), BATCH_SIZE / PIPELINE_SIZE).1
                  == Batch(id, threads, job.Mask(), steps, groups).1
        invariant done + BatchBlobs(job, id, threads, steps, groups)
                  == BatchBlobs(job, id, threads, old(steps), BATCH_SIZE / PIPELINE_SIZE)
        invariant hashed == old(hashed) + done
        invariant shares == old(shares) + SharesOf(done, hash, job.difficulty)
      {
        var count := if remaining < PIPELINE_SIZE then remaining else PIPELINE_SIZE;
        assert count == PIPELINE_SIZE;
        ghost var k := steps;
        GroupDone(job, id, threads, k, groups, done, old(shares), hash);
        var ok, nonces := Prepare(job, count);
        if !ok {
          return;
        }
        HashAndSend(job, count, nonces, hash);
        ghost var group := StepBlobs(job, id, threads, k, PIPELINE_SIZE);
        SharesAreHonest(nonces[..count], blobs[..count], hash, job.difficulty);
        done := done + group;
        groups := groups - 1;
        remaining := remaining - count;
      }
      BatchStep(id, threads, mask, steps, 0);
      BatchBlobsStep(job, id, threads, steps, 0);
      assert done + [] == done;
    }
  }

  /** One group of a batch, given the blocks `done` before it: either it is whole, or the batch ends with it. */
  lemma GroupDone(job: Job, worker: nat, threads: nat, k: nat, groups: nat, done: seq<bytes>, before: seq<MinedShare>,
                  hash: bytes -> bytes)
    requires worker < WORD && groups > 0
    ensures var mask := job.Mask();
            var filled := Filled(worker, threads, mask, k, PIPELINE_SIZE);
            var group := StepBlobs(job, worker, threads, k, PIPELINE_SIZE);
            if filled < PIPELINE_SIZE then
              && Batch(worker, threads, mask, k, groups).1 == k + filled
              && done + BatchBlobs(job, worker, threads, k, groups) == done
            else
              && Batch(worker, threads, mask, k, groups).1
                 == Batch(worker, threads, mask, k + PIPELINE_SIZE, groups - 1).1
              && done + BatchBlobs(job, worker, threads, k, groups)
                 == done + group + BatchBlobs(job, worker, threads, k + PIPELINE_SIZE, groups - 1)
              && before + SharesOf(done, hash, job.difficulty) + SharesOf(group, hash, job.difficulty)
                 == before + SharesOf(done + group, hash, job.difficulty)
  {
    hide Filled, Batch, BatchBlobs, StepBlobs, SharesOf;
    var group := StepBlobs(job, worker, threads, k, PIPELINE_SIZE);
    BatchStep(worker, threads, job.Mask(), k, groups);
    BatchBlobsStep(job, worker, threads, k, groups);
    SharesAppend(done, group, hash, job.difficulty);
    Regroup(before, SharesOf(done, hash, job.difficulty), SharesOf(group, hash, job.difficulty));
    if Filled(worker, threads, job.Mask(), k, PIPELINE_SIZE) == PIPELINE_SIZE {
      Regroup(done, group, BatchBlobs(job, worker, threads, k + PIPELINE_SIZE, groups - 1));
    } else {
      assert done + [] == done;
    }
  }

  lemma NothingRecorded(blob: bytes)
    requires NONCE_OFFSET + 4 > |blob|
    ensures Recorded(0, blob)
  {
  }

  /** The worker's loop while the job stays the same. */
  method WorkOn(worker: Worker, job: Job, hash: bytes -> bytes, batches: nat)
    requires worker.id < WORD && worker.threads < WORD
    modifies worker
    ensures worker.On(job)
    ensures worker.hashed == RunBlobs(job, worker.id, worker.threads, batches)
    ensures worker.shares == SharesOf(worker.hashed, hash, job.difficulty)
    ensures worker.hashes == |worker.hashed|
    ensures Roomy(worker.id, worker.threads, job.Mask()) ==>
              var most := PIPELINE_SIZE * (Mining.Share(worker.id, worker.threads, job.Mask()) / PIPELINE_SIZE);
              && worker.hashes <= most
              && (batches * BATCH_SIZE > Mining.Share(worker.id, worker.threads, job.Mask()) ==> worker.hashes == most)
  {
    hide Derived, Counter, SharesOf, Batch, BatchBlobs, CheckHash, RunBlobs, Run;
    RunStarts(job, worker.id, worker.threads);
    worker.TakeJob(job);
    NoShares(hash, job.difficulty);
    var b := 0;
    while b < batches
      invariant 0 <= b <= batches && worker.On(job)
      invariant worker.steps == Run(worker.id, worker.threads, job.Mask(), b).1
      invariant worker.hashed == RunBlobs(job, worker.id, worker.threads, b)
      invariant worker.shares == SharesOf(worker.hashed, hash, job.difficulty)
    {
      ghost var before, k := worker.hashed, worker.steps;
      worker.MineOneBatch(job, hash);
      SharesAppend(before, BatchBlobs(job, worker.id, worker.threads, k, BATCH_SIZE / PIPELINE_SIZE), hash,
        job.difficulty);
      RunGoesOn(job, worker.id, worker.threads, b);
      b := b + 1;
    }
    if Roomy(worker.id, worker.threads, job.Mask()) {
      HashedCount(job, worker.id, worker.threads, batches);
    }
  }

  lemma RunStarts(job: Job, worker: nat, threads: nat)
    requires worker < WORD
    ensures RunBlobs(job, worker, threads, 0) == [] && Run(worker, threads, job.Mask(), 0) == (0, 0)
  {
  }

  lemma RunGoesOn(job: Job, worker: nat, threads: nat, b: nat)
    requires worker < WORD
    ensures var k := Run(worker, threads, job.Mask(), b).1;
            && RunBlobs(job, worker, threads, b + 1)
               == RunBlobs(job, worker, threads, b) + BatchBlobs(job, worker, threads, k, BATCH_SIZE / PIPELINE_SIZE)
            && Run(worker, threads, job.Mask(), b + 1).0
               == Run(worker, threads, job.Mask(), b).0
                  + Batch(worker, threads, job.Mask(), k, BATCH_SIZE / PIPELINE_SIZE).0
            && Run(worker, threads, job.Mask(), b + 1).1
               == Batch(worker, threads, job.Mask(), k, BATCH_SIZE / PIPELINE_SIZE).1
  {
    hide Batch, BatchBlobs;
  }

  /** How many blocks a run hashes: the worker's share rounded down to whole groups, once it has had batches enough. */
  lemma HashedCount(job: Job, worker: nat, threads: nat, batches: nat)
    requires Roomy(worker, threads, job.Mask())
    ensures var share := Mining.Share(worker, threads, job.Mask());
            && |RunBlobs(job, worker, threads, batches)| <= 16 * (share / 16)
            && (batches * 1024 > share ==>
               |RunBlobs(job, worker, threads, batches)| == 16 * (share / 16))
  {
    hide RunBlobs, Run, Mining.Share, StepBlobs;
    RunBlobsAre(job, worker, threads, batches);
    HashesWholeGroups(worker, threads, job.Mask(), batches);
  }

  lemma CounterStep(worker: nat, threads: nat, k: nat)
    requires worker < WORD
    ensures Counter(worker, threads, k + 1) == (Counter(worker, threads, k) + threads) % WORD
  {
  }

  lemma NoShares(hash: bytes -> bytes, difficulty: nat)
    ensures SharesOf([], hash, difficulty) == []
  {
  }

  // ---------- whole runs on one job ----------

  lemma {:induction false} StepBlobsConcat(job: Job, worker: nat, threads: nat, k: nat, a: nat, b: nat)
    requires worker < WORD
    ensures StepBlobs(job, worker, threads, k, a + b)
            == StepBlobs(job, worker, threads, k, a) + StepBlobs(job, worker, threads, k + a, b)
  {
    hide StepBlob, StepBlobs;
  }

  lemma {:induction false} BatchBlobsAre(job: Job, worker: nat, threads: nat, k: nat, groups: nat)
    requires Roomy(worker, threads, job.Mask()) && k <= Mining.Share(worker, threads, job.Mask())
    ensures BatchBlobs(job, worker, threads, k, groups)
            == StepBlobs(job, worker, threads, k, PIPELINE_SIZE * Batch(worker, threads, job.Mask(), k, groups).0)
    decreases groups
  {
    hide StepBlob, Filled, StepBlobs;
    var mask := job.Mask();
    NoBlobs(job, worker, threads, k);
    if groups > 0 {
      FilledWithinShare(worker, threads, mask, k, PIPELINE_SIZE);
      if k + PIPELINE_SIZE <= Mining.Share(worker, threads, mask) {
        BatchBlobsAre(job, worker, threads, k + PIPELINE_SIZE, groups - 1);
        var more := Batch(worker, threads, mask, k + PIPELINE_SIZE, groups - 1).0;
        StepBlobsConcat(job, worker, threads, k, PIPELINE_SIZE, PIPELINE_SIZE * more);
        assert PIPELINE_SIZE + PIPELINE_SIZE * more == PIPELINE_SIZE * (1 + more);
      }
    }
  }

  lemma NoBlobs(job: Job, worker: nat, threads: nat, k: nat)
    requires worker < WORD
    ensures StepBlobs(job, worker, threads, k, 0) == []
  {
  }

  /** The blocks of a whole run are those of the first steps, as many as there are whole groups. */
  lemma {:induction false} RunBlobsAre(job: Job, worker: nat, threads: nat, batches: nat)
    requires Roomy(worker, threads, job.Mask())
    ensures RunBlobs(job, worker, threads, batches)
            == StepBlobs(job, worker, threads, 0, PIPELINE_SIZE * Run(worker, threads, job.Mask(), batches).0)
  {
    hide StepBlobs, Batch, BatchBlobs, Run, RunBlobs, Mining.Share;
    if batches == 0 {
      RunStarts(job, worker, threads);
      NoBlobs(job, worker, threads, 0);
    } else {
      RunBlobsAre(job, worker, threads, batches - 1);
      RunGoesOn(job, worker, threads, batches - 1);
      var (groups, k) := Run(worker, threads, job.Mask(), batches - 1);
      WholeGroupsSoFar(worker, threads, job.Mask(), batches - 1);
      BatchBlobsAre(job, worker, threads, k, BATCH_SIZE / PIPELINE_SIZE);
      var more := Batch(worker, threads, job.Mask(), k, BATCH_SIZE / PIPELINE_SIZE).0;
      StepBlobsConcat(job, worker, threads, 0, PIPELINE_SIZE * groups, PIPELINE_SIZE * more);
      NoBlobs(job, worker, threads, k);
      NoBlobs(job, worker, threads, PIPELINE_SIZE * groups);
      assert PIPELINE_SIZE * groups + PIPELINE_SIZE * more == PIPELINE_SIZE * (groups + more);
    }
  }

  /** Either all steps so far are whole groups, or the share is used up and the next batch has none. */
  lemma WholeGroupsSoFar(worker: nat, threads: nat, mask: nat, batches: nat)
    requires Roomy(worker, threads, mask)
    ensures var (groups, k) := Run(worker, threads, mask, batches);
            && k <= Mining.Share(worker, threads, mask)
            && (k == PIPELINE_SIZE * groups || Batch(worker, threads, mask, k, BATCH_SIZE / PIPELINE_SIZE).0 == 0)
  {
    hide Batch, Run, Mining.Share;
    RunWithinShare(worker, threads, mask, batches);
    BatchWithinShare(worker, threads, mask, Run(worker, threads, mask, batches).1, BATCH_SIZE / PIPELINE_SIZE);
  }

  /** Main result for NiceHash jobs: over whole runs of all workers, each of any length, no block is hashed twice. */
  lemma NoBlockTwice(job: Job, threads: nat, v: nat, w: nat, vBatches: nat, wBatches: nat, i: nat, j: nat)
    requires 43 <= |job.blob| && job.blob[39..43] != [0, 0, 0, 0]
    requires Roomy(v, threads, NICEHASH_NONCE_MASK) && Roomy(w, threads, NICEHASH_NONCE_MASK)
    requires i < |RunBlobs(job, v, threads, vBatches)| && j < |RunBlobs(job, w, threads, wBatches)|
    requires RunBlobs(job, v, threads, vBatches)[i] == RunBlobs(job, w, threads, wBatches)[j]
    ensures v == w && i == j
  {
    hide RunBlobs, Run, Written, Counter;
    NicehashTemplates(job);
    RunBlobsAre(job, v, threads, vBatches);
    RunBlobsAre(job, w, threads, wBatches);
    StepInShare(v, threads, vBatches, i);
    StepInShare(w, threads, wBatches, j);
    WrittenIsInjective(job.blob, Counter(v, threads, i), Counter(w, threads, j), true);
    NoNonceTwice(threads, v, w, i, j);
  }

  lemma StepInShare(worker: nat, threads: nat, batches: nat, i: nat)
    requires Roomy(worker, threads, NICEHASH_NONCE_MASK)
    requires i < PIPELINE_SIZE * Run(worker, threads, NICEHASH_NONCE_MASK, batches).0
    ensures Counter(worker, threads, i) == worker + i * threads <= NICEHASH_NONCE_MASK
  {
    hide Run, Counter, Mining.Share;
    HashesWholeGroups(worker, threads, NICEHASH_NONCE_MASK, batches);
    CounterWithinShare(worker, threads, NICEHASH_NONCE_MASK, i);
  }

  /** NiceHash templates are those with a nonce field that is not all zero. */
  lemma NicehashTemplates(job: Job)
    ensures job.Nicehash() <==> 43 <= |job.blob| && job.blob[39..43] != [0, 0, 0, 0]
    ensures job.Mask() == if job.Nicehash() then 0xFF_FFFF else 0xFFFF_FFFF
  {
    if 43 <= |job.blob| {
      hide FromLe;
      FromLeWord(job.blob[39..43]);
      LeOfBytes(job.blob[39..43]);
    }
  }

  /**
   The block made of a template for a nonce: on a template whose field is empty all four bytes of the
   field are the nonce's, lowest first, on any other the three low ones, and all else is the template's.
   */
  predicate Carries(template: bytes, block: bytes, nonce: nat)
    requires nonce < WORD
  {
    && |block| == |template|
    && (forall p :: 0 <= p < |block| && (p < 39 || 43 <= p || |block| < 43) ==> block[p] == template[p])
    && (43 <= |block| ==>
          && block[39] == nonce % 256 && block[40] == nonce / 256 % 256 && block[41] == nonce / 65536 % 256
          && block[42] == if template[39..43] == [0, 0, 0, 0] then nonce / 16777216 else template[42])
  }

  lemma StepCarries(job: Job, worker: nat, threads: nat, k: nat)
    requires worker < WORD
    ensures Carries(job.blob, StepBlob(job, worker, threads, k), (worker + k * threads) % WORD)
  {
    var n := Counter(worker, threads, k);
    CounterIs(worker, threads, k);
    NicehashTemplates(job);
    hide Counter, Job.Nicehash;
    var block := Written(job.blob, n, job.Mask());
    LeLiteral(n);
    hide Le, Written;
    if 43 <= |job.blob| {
      forall p | 0 <= p < |block|
        ensures block[p]
                == if 39 <= p < (if job.Nicehash() then 42 else 43) then Le(n)[p - 39] else job.blob[p]
      {
        WrittenBytes(job.blob, n, job.Nicehash(), p);
      }
      assert block[39] == Le(n)[0] && block[40] == Le(n)[1] && block[41] == Le(n)[2];
      assert block[42] == if job.Nicehash() then job.blob[42] else Le(n)[3];
    }
  }

  lemma LeLiteral(n: nat)
    requires n < WORD
    ensures Le(n) == [n % 256, n / 256 % 256, n / 65536 % 256, n / 16777216]
  {
    assert n / 256 / 256 == n / 65536 && n / 256 / 256 / 256 == n / 16777216;
  }

  /** Block `i` of a batch is that of the step `i` after the batch's first. */
  lemma {:induction false} BatchBlobAt(job: Job, worker: nat, threads: nat, k: nat, groups: nat, i: nat)
    requires worker < WORD && i < |BatchBlobs(job, worker, threads, k, groups)|
    ensures BatchBlobs(job, worker, threads, k, groups)[i] == StepBlob(job, worker, threads, k + i)
    decreases groups
  {
    hide StepBlob, Filled, BatchBlobs, StepBlobs;
    BatchBlobsStep(job, worker, threads, k, groups);
    if i >= PIPELINE_SIZE {
      BatchBlobAt(job, worker, threads, k + PIPELINE_SIZE, groups - 1, i - PIPELINE_SIZE);
    }
  }

  /** Main result on the bytes: every block hashed in a run carries the nonce of its step, and steps go up. */
  lemma {:induction false} HashedBlocksCarryNonces(job: Job, worker: nat, threads: nat, batches: nat, i: nat)
    returns (k: nat)
    requires worker < WORD && i < |RunBlobs(job, worker, threads, batches)|
    ensures i <= k < Run(worker, threads, job.Mask(), batches).1
    ensures Carries(job.blob, RunBlobs(job, worker, threads, batches)[i], (worker + k * threads) % WORD)
    decreases batches
  {
    hide StepBlob, Carries, BatchBlobs, Batch;
    var before := RunBlobs(job, worker, threads, batches - 1);
    RunGoesOn(job, worker, threads, batches - 1);
    RunSteps(job, worker, threads, batches - 1);
    var start := Run(worker, threads, job.Mask(), batches - 1).1;
    BatchSteps(job, worker, threads, start, BATCH_SIZE / PIPELINE_SIZE);
    hide RunBlobs, Run;
    if i < |before| {
      k := HashedBlocksCarryNonces(job, worker, threads, batches - 1, i);
    } else {
      k := start + (i - |before|);
      BatchBlobAt(job, worker, threads, start, BATCH_SIZE / PIPELINE_SIZE, i - |before|);
      StepCarries(job, worker, threads, k);
    }
  }

  lemma {:induction false} BatchSteps(job: Job, worker: nat, threads: nat, k: nat, groups: nat)
    requires worker < WORD
    ensures k + |BatchBlobs(job, worker, threads, k, groups)| <= Batch(worker, threads, job.Mask(), k, groups).1
    decreases groups
  {
    hide Filled, BatchBlobs, StepBlobs, Batch;
    BatchBlobsStep(job, worker, threads, k, groups);
    BatchStep(worker, threads, job.Mask(), k, groups);
    if groups > 0 {
      BatchSteps(job, worker, threads, k + PIPELINE_SIZE, groups - 1);
    }
  }

  lemma {:induction false} RunSteps(job: Job, worker: nat, threads: nat, batches: nat)
    requires worker < WORD
    ensures |RunBlobs(job, worker, threads, batches)| <= Run(worker, threads, job.Mask(), batches).1
    decreases batches
  {
    hide RunBlobs, Run, BatchBlobs, Batch;
    if batches == 0 {
      RunStarts(job, worker, threads);
    } else {
      RunSteps(job, worker, threads, batches - 1);
      RunGoesOn(job, worker, threads, batches - 1);
      var start := Run(worker, threads, job.Mask(), batches - 1).1;
      BatchSteps(job, worker, threads, start, BATCH_SIZE / PIPELINE_SIZE);
    }
  }
}
