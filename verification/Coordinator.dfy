/**
 The search coordinator (demo/krackpot/src/coordinator.js): how large a dispatch
 is, which offset table is in the parameter buffer, and what a whole run reports,
 through recalibrations, device losses and recoveries.

 The device, the clock and the random source are inputs: any draw, any time, any
 loss.
 */
module Coordinator {
  import opened Options
  import opened Numbers
  import opened Curve
  import opened Scalars
  import opened Search
  import opened Dispatch
  import opened Draws
  import opened Pacing
  import opened Sizing

  // ---- State ----

  // paramsBuf: what the kernel reads.  Once its device is lost, nothing written
  // reaches it and no dispatch completes on it.
  class ParamsBuffer {
    var base: Affine
    var keysPerThread: nat
    var table: seq<Affine>
    var lost: bool
    ghost var uploadedAt: nat

    constructor (lost: bool)
      ensures table == seq(OFFSET_TABLE_BITS, _ => Point(0, 0)) && this.lost == lost
    {
      base, keysPerThread := Point(0, 0), 0;
      table := seq(OFFSET_TABLE_BITS, _ => Point(0, 0));
      this.lost, uploadedAt := lost, 0;
    }

    method WriteTable(table: seq<Affine>, ghost losses: nat)
      modifies `table, `uploadedAt
      ensures this.table == (if lost then old(this.table) else table)
      ensures uploadedAt == if lost then old(uploadedAt) else losses
    {
      if !lost {
        this.table, uploadedAt := table, losses;
      }
    }

    method WriteHeader(base: Affine, keysPerThread: nat)
      modifies `base, `keysPerThread
      ensures !lost ==> this.base == base && this.keysPerThread == keysPerThread
      ensures lost ==> unchanged(this)
    {
      if !lost {
        this.base, this.keysPerThread := base, keysPerThread;
      }
    }
  }

  datatype Ending = Running | Stopped | Reported(key: int) | Threw | GaveUp | AlreadyRunning

  // A completed dispatch: the table and header the kernel read, the stride the CPU
  // rebuilt the hits with, the number of hits the kernel counted, and the device
  // losses before the table was uploaded and before the dispatch.
  datatype Sweep = Sweep(
    chunk: int, desired: nat, threads: nat, table: seq<Affine>, header: nat, stride: nat, count: nat,
    uploadedAt: nat, losses: nat)

  ghost predicate Swept(d: Sweep, key: int) {
    InDispatch(d.chunk, d.stride, d.threads, key)
  }

  function Covered(s: seq<Sweep>): nat {
    if s == [] then 0 else Covered(s[..|s| - 1]) + s[|s| - 1].threads * s[|s| - 1].stride
  }

  ghost predicate Nth(ok: Sweep -> bool, s: seq<Sweep>, i: int) {
    0 <= i < |s| ==> ok(s[i])
  }

  // Every dispatch of the list satisfies ok.
  ghost predicate All(ok: Sweep -> bool, s: seq<Sweep>) {
    forall i {:trigger Nth(ok, s, i)} :: Nth(ok, s, i)
  }

  // How many of the first k entries satisfy ok.
  ghost function CountOf(ok: FoundKey -> bool, log: seq<FoundKey>, k: nat): nat
    requires k <= |log|
  {
    if k == 0 then 0 else CountOf(ok, log, k - 1) + if ok(log[k - 1]) then 1 else 0
  }

  lemma AllOne(ok: Sweep -> bool, d: Sweep)
    requires ok(d)
    ensures All(ok, [d])
  {
    forall i ensures Nth(ok, [d], i) {}
  }

  lemma AllMore(ok: Sweep -> bool, s: seq<Sweep>, done: seq<Sweep>)
    requires All(ok, s) && All(ok, done)
    ensures All(ok, s + done)
  {
    forall i ensures Nth(ok, s + done, i) {
      assert Nth(ok, s, i) && Nth(ok, done, i - |s|);
    }
  }

  // The dispatches counted: not the one whose report ended the run.
  function Settled(ending: Ending, history: seq<Sweep>): seq<Sweep> {
    if (ending.Reported? || ending.Threw?) && history != [] then history[..|history| - 1] else history
  }

  // A key of the range with the target's hash.
  ghost predicate Wanted(mul: int -> Affine, hash: ((nat, nat)) -> nat, lo: int, hi: int, target: nat, key: int) {
    lo <= key <= hi && Pkh(mul, hash, key) == Some(target)
  }

  ghost predicate ScansAsTarget(n: nat, mul: int -> Affine, hash: ((nat, nat)) -> nat, chunk: int, stride: nat,
      target: nat, f: FoundKey)
    requires n > 0
  {
    stride > 0 && chunk <= Rebuild(chunk, stride, f)
    && Scanned(n, mul, hash, chunk, stride, Rebuild(chunk, stride, f)) == Some(target)
  }

  lemma HitsScan(n: nat, mul: int -> Affine, hash: ((nat, nat)) -> nat, target: nat, chunk: int, stride: nat,
      threads: nat, log: seq<FoundKey>)
    requires n > 0 && stride > 0 && threads <= 0x40_0000 && (forall k :: mul(k).Point? <==> k % n != 0)
    requires LogOf(n, mul, hash, target, chunk, stride, threads, {}, log)
    ensures forall i :: 0 <= i < |log| ==> ScansAsTarget(n, mul, hash, chunk, stride, target, log[i])
  {
    forall i | 0 <= i < |log| ensures ScansAsTarget(n, mul, hash, chunk, stride, target, log[i]) {
      assert log[i] in log;
      HitIsKey(n, mul, hash, target, chunk, stride, threads, log[i]);
    }
  }

  // A wanted key that is not blocked is rebuilt from some entry of the log.
  lemma WantedIsLogged(n: nat, mul: int -> Affine, hash: ((nat, nat)) -> nat, target: nat, chunk: int, stride: nat,
      threads: nat, log: seq<FoundKey>, lo: int, hi: int, key: int)
    requires n > 0 && stride > 0 && threads <= 0x40_0000 && (forall k :: mul(k).Point? <==> k % n != 0)
    requires LogOf(n, mul, hash, target, chunk, stride, threads, {}, log)
    requires InDispatch(chunk, stride, threads, key) && !Blocked(n, chunk, stride, key)
        && Wanted(mul, hash, lo, hi, target, key)
    ensures exists i :: 0 <= i < |log| && Rebuild(chunk, stride, log[i]) == key
  {
    var f := Slot(chunk, stride, key);
    KeyToSlot(chunk, stride, threads, key);
    HitIsKey(n, mul, hash, target, chunk, stride, threads, f);
    assert f in log;
    var i :| 0 <= i < |log| && log[i] == f;
    assert Rebuild(chunk, stride, log[i]) == key;
  }

  class SearchCoordinator {
    const p: nat
    const n: nat
    const g: Affine
    ghost const mul: int -> Affine
    const hash: ((nat, nat)) -> nat

    var running: bool
    var totalChecked: nat
    var keysPerDispatch: nat
    var consecutiveLosses: nat
    var saved: int
    var tableCache: map<nat, seq<Affine>>
    var uploadedStride: Option<nat>
    var paramsBuf: ParamsBuffer
    var rejected: nat
    var found: seq<int>
    ghost var history: seq<Sweep>
    ghost var lost: seq<nat>
    ghost var losses: nat

    ghost predicate InGroup() {
      Setting(p, n, g, mul) && n > TABLE_SPAN
    }

    // The table in a live buffer is the one uploadedStride names, uploaded since the
    // last loss, ...
    ghost predicate TableCoherent()
      reads this, paramsBuf
    {
      && (uploadedStride.Some? && !paramsBuf.lost ==>
            TableFor(mul, uploadedStride.value, paramsBuf.table) && paramsBuf.uploadedAt == losses)
      && forall s {:trigger tableCache[s]} :: s in tableCache ==> TableFor(mul, s, tableCache[s])
    }

    // ... and the size is the saved one, in bounds.
    ghost predicate SizeCoherent()
      reads this
    {
      1 <= keysPerDispatch <= MAX_KEYS_PER_DISPATCH && keysPerDispatch == Restored(saved)
    }

    ghost predicate Valid()
      reads this, paramsBuf
    {
      InGroup() && TableCoherent() && SizeCoherent()
    }

    // Uploaded table, header and rebuilding stride agree, and no device was lost since
    // the upload; the size asked for is covered, and no thread index leaves the table.
    ghost predicate Coherent(d: Sweep) {
      && d.uploadedAt == d.losses
      && TableFor(mul, d.stride, d.table) && d.header == d.stride && 1 <= d.stride <= MAX_BATCH
      && 1 <= d.desired <= MAX_KEYS_PER_DISPATCH && d.desired <= d.threads * d.stride && d.threads < 0x40_0000
    }

    // The dispatch starts where it was drawn, and sweeps a range no larger than the
    // size asked for whole, but for key 0.
    ghost predicate Placed(d: Sweep, lo: int, hi: int) {
      && Drawn(d.chunk, d.desired, lo, hi)
      && (hi - lo + 1 <= d.desired ==>
            forall key {:trigger Swept(d, key)} :: lo <= key <= hi && key != 0 ==> Swept(d, key))
    }

    // No wanted key was passed over, unless the hits overflowed the 16 slots or the
    // key's thread met the point at infinity.
    ghost predicate Exhausted(d: Sweep, lo: int, hi: int, target: nat)
      requires n > 0
    {
      d.stride > 0 && d.count <= MAX_HITS ==>
        forall key {:trigger InDispatch(d.chunk, d.stride, d.threads, key)} ::
          InDispatch(d.chunk, d.stride, d.threads, key) && !Blocked(n, d.chunk, d.stride, key)
          ==> !Wanted(mul, hash, lo, hi, target, key)
    }

    ghost function Placing(lo: int, hi: int): Sweep -> bool {
      d => Coherent(d) && Placed(d, lo, hi)
    }

    ghost function Exhausting(lo: int, hi: int, target: nat): Sweep -> bool
      requires n > 0
    {
      d => Exhausted(d, lo, hi, target)
    }

    // A range swept whole in one dispatch that reports nothing holds no wanted key,
    // but for key 0 and the keys that share a thread with a multiple of the order.
    lemma SweepDecides(d: Sweep, lo: int, hi: int, target: nat, key: int)
      requires n > 0 && Coherent(d) && Placed(d, lo, hi) && Exhausted(d, lo, hi, target)
      requires hi - lo + 1 <= d.desired && d.count <= MAX_HITS && key != 0
      requires d.chunk <= key ==> !Blocked(n, d.chunk, d.stride, key)
      ensures !Wanted(mul, hash, lo, hi, target, key)
    {
      if lo <= key <= hi {
        assert Swept(d, key);
      }
    }

    // An unset or unreadable saved size counts as 0.  There is no device before setup.
    constructor (p: nat, n: nat, g: Affine, ghost mul: int -> Affine, hash: ((nat, nat)) -> nat, saved: int)
      requires Setting(p, n, g, mul) && n > TABLE_SPAN
      ensures Valid() && !running && this.mul == mul && this.hash == hash && this.n == n && found == [] && rejected == 0
      ensures keysPerDispatch == Restored(saved) && this.saved == saved
      ensures fresh(paramsBuf) && paramsBuf.lost && uploadedStride == None
    {
      this.p, this.n, this.g, this.mul, this.hash, this.saved := p, n, g, mul, hash, saved;
      running, totalChecked, consecutiveLosses, rejected, found := false, 0, 0, 0, [];
      keysPerDispatch := Restored(saved);
      tableCache, uploadedStride := map[], None;
      history, lost, losses := [], [], 0;
      var buffer := new ParamsBuffer(true);
      paramsBuf := buffer;
    }

    // A new buffer on a live device: nothing is uploaded to it.
    method Setup()
      requires Valid()
      modifies `paramsBuf, `uploadedStride
      ensures Valid() && fresh(paramsBuf) && uploadedStride == None
      ensures !paramsBuf.lost && paramsBuf.table == seq(OFFSET_TABLE_BITS, _ => Point(0, 0))
    {
      paramsBuf := new ParamsBuffer(false);
      uploadedStride := None;
    }

    method OffsetTable(stride: nat) returns (table: seq<Affine>)
      requires InGroup() && TableCoherent() && 1 <= stride <= MAX_BATCH
      modifies `tableCache
      ensures TableCoherent() && TableFor(mul, stride, table)
      ensures stride in old(tableCache) ==> table == old(tableCache)[stride]
      ensures tableCache == old(tableCache)[stride := table]
    {
      if stride in tableCache {
        return tableCache[stride];
      }
      table := BuildOffsetTable(p, n, g, mul, stride);
      tableCache := tableCache[stride := table];
    }

    method EnsureOffsetTable(stride: nat) returns (s: nat)
      requires InGroup() && TableCoherent() && 1 <= stride <= MAX_BATCH
      modifies `tableCache, `uploadedStride, paramsBuf`table, paramsBuf`uploadedAt
      ensures TableCoherent() && s == stride && uploadedStride == Some(stride)
      ensures !paramsBuf.lost ==> TableFor(mul, stride, paramsBuf.table) && paramsBuf.uploadedAt == losses
      ensures old(uploadedStride) == Some(stride) ==> unchanged(paramsBuf) && tableCache == old(tableCache)
    {
      if uploadedStride != Some(stride) {
        var table := OffsetTable(stride);
        paramsBuf.WriteTable(table, losses);
        uploadedStride := Some(stride);
      }
      s := uploadedStride.value;
    }

    // The hits the CPU reads back: the first 16 of the kernel's log.
    method RunDispatch(base: Affine, ghost chunk: int, target: nat, workgroups: nat, keysPerThread: nat,
        outcome: Outcome)
      returns (hits: Option<seq<FoundKey>>, stride: nat, ghost log: seq<FoundKey>)
      requires InGroup() && TableCoherent() && 1 <= keysPerThread <= MAX_BATCH && base.Point? && base == mul(chunk)
      modifies `tableCache, `uploadedStride, paramsBuf
      ensures TableCoherent() && (hits.Some? <==> outcome.Completed? && !old(paramsBuf.lost))
      ensures paramsBuf.lost == hits.None?
      ensures hits.Some? ==>
        && TableFor(mul, stride, paramsBuf.table) && paramsBuf.keysPerThread == stride == keysPerThread
        && paramsBuf.uploadedAt == losses
        && LogOf(n, mul, hash, target, chunk, stride, workgroups * WORKGROUP_SIZE, {}, log)
        && hits.value == log[..Min(|log|, MAX_HITS)]
    {
      hits, stride, log := None, 0, [];
      if outcome.LostBeforeUpload? {
        paramsBuf.lost := true;
        return;
      }
      stride := EnsureOffsetTable(keysPerThread);
      paramsBuf.WriteHeader(base, keysPerThread);
      if outcome.LostAfterUpload? || paramsBuf.lost {
        paramsBuf.lost := true;
        return;
      }
      var out := new SearchOutput();
      RunThreads(p, n, g, mul, paramsBuf.table, paramsBuf.keysPerThread, paramsBuf.base, chunk,
        workgroups * WORKGROUP_SIZE, hash, target, out);
      hits, log := Some(out.results[..Min(out.foundCount, MAX_HITS)]), out.log;
    }

    // privToPkh: it throws on the point at infinity
    method PrivToPkh(priv: int) returns (pkh: Option<nat>)
      requires InGroup()
      ensures pkh == Pkh(mul, hash, priv)
    {
      var q := PublicPoint(priv);
      pkh := if q.Point? then Some(hash((q.x, q.y))) else None;
    }

    ghost function Scans(chunk: int, stride: nat, target: nat): FoundKey -> bool
      requires n > 0
    {
      (f: FoundKey) => ScansAsTarget(n, mul, hash, chunk, stride, target, f)
    }

    ghost function Within(chunk: int, stride: nat, lo: int, hi: int): FoundKey -> bool {
      (f: FoundKey) => lo <= Rebuild(chunk, stride, f) <= hi
    }

    // What becomes of a hit: it is dropped, outside the range or of another hash, or
    // reported, or an exception for want of a point.
    ghost function Judge(chunk: int, stride: nat, lo: int, hi: int, target: nat): (Ending, FoundKey) -> bool {
      (ending: Ending, f: FoundKey) =>
        var key := Rebuild(chunk, stride, f);
        var inRange, pkh := lo <= key <= hi, Pkh(mul, hash, key);
        match ending
        case Running => inRange ==> pkh.Some? && pkh.value != target
        case Reported(k) => inRange && k == key && pkh == Some(target)
        case Threw => inRange && pkh == None
        case _ => false
    }

    method CheckHit(chunk: int, stride: nat, f: FoundKey, lo: int, hi: int, target: nat,
        ghost scans: FoundKey -> bool, ghost within: FoundKey -> bool, ghost judge: (Ending, FoundKey) -> bool)
      returns (ending: Ending)
      requires within == Within(chunk, stride, lo, hi) && judge == Judge(chunk, stride, lo, hi, target)
      requires n > 0 && scans == Scans(chunk, stride, target)
      requires InGroup() && running && scans(f)
      modifies `running, `rejected, `found
      ensures judge(ending, f) && running == !ending.Reported?
      ensures ending.Running? || ending.Reported? || ending.Threw?
      ensures found == if ending.Reported? then old(found) + [ending.key] else old(found)
      ensures rejected == old(rejected) + if ending.Running? && within(f) then 1 else 0
      ensures ending.Threw? || rejected > old(rejected) ==> hash((0, 0)) == target
    {
      var priv := chunk + (f.threadId * stride + f.keyOffset);
      if priv < lo || priv > hi {
        return Running;
      }
      var pkh := PrivToPkh(priv);
      if pkh.None? {
        return Threw;
      }
      if pkh.value != target {
        rejected := rejected + 1;
        return Running;
      }
      found, running := found + [priv], false;
      ending := Reported(priv);
    }

    // The hits in turn: filtered by range, re-derived, reported.  The first `checked`
    // are dropped, those in range counted as rejected, and the next, if any, ends
    // the run.
    method Report(chunk: int, stride: nat, hits: seq<FoundKey>, lo: int, hi: int, target: nat,
        ghost scans: FoundKey -> bool, ghost within: FoundKey -> bool, ghost judge: (Ending, FoundKey) -> bool)
      returns (ending: Ending, ghost checked: nat)
      requires within == Within(chunk, stride, lo, hi) && judge == Judge(chunk, stride, lo, hi, target)
      requires n > 0 && scans == Scans(chunk, stride, target)
      requires InGroup() && running && forall i :: 0 <= i < |hits| ==> scans(hits[i])
      modifies `running, `rejected, `found
      ensures (ending.Running? || ending.Reported? || ending.Threw?) && running == !ending.Reported?
      ensures checked <= |hits| && forall i :: 0 <= i < checked ==> judge(Running, hits[i])
      ensures if ending.Running? then checked == |hits| else checked < |hits| && judge(ending, hits[checked])
      ensures rejected == old(rejected) + CountOf(within, hits, checked)
      ensures found == if ending.Reported? then old(found) + [ending.key] else old(found)
      ensures ending.Threw? || rejected > old(rejected) ==> hash((0, 0)) == target
    {
      ending, checked := Running, 0;
      var i := 0;
      while i < |hits| && ending.Running?
        invariant 0 <= checked <= i <= |hits| && running == !ending.Reported?
        invariant ending.Running? || ending.Reported? || ending.Threw?
        invariant forall j :: 0 <= j < checked ==> judge(Running, hits[j])
        invariant if ending.Running? then checked == i else checked < |hits| && judge(ending, hits[checked])
        invariant found == if ending.Reported? then old(found) + [ending.key] else old(found)
        invariant rejected == old(rejected) + CountOf(within, hits, checked)
        invariant ending.Threw? || rejected > old(rejected) ==> hash((0, 0)) == target
      {
        ending := CheckHit(chunk, stride, hits[i], lo, hi, target, scans, within, judge);
        i := i + 1;
        if ending.Running? {
          checked := i;
        }
      }
    }

    lemma ReportedWanted(chunk: int, stride: nat, lo: int, hi: int, target: nat, ending: Ending, f: FoundKey)
      requires ending.Reported? && Judge(chunk, stride, lo, hi, target)(ending, f)
      ensures Wanted(mul, hash, lo, hi, target, ending.key)
    {}

    lemma DroppedUnwanted(chunk: int, stride: nat, lo: int, hi: int, target: nat, hits: seq<FoundKey>)
      requires forall i :: 0 <= i < |hits| ==> Judge(chunk, stride, lo, hi, target)(Running, hits[i])
      ensures forall i ::
        0 <= i < |hits| ==> !Wanted(mul, hash, lo, hi, target, Rebuild(chunk, stride, hits[i]))
    {
      forall i | 0 <= i < |hits| ensures !Wanted(mul, hash, lo, hi, target, Rebuild(chunk, stride, hits[i])) {
        assert Judge(chunk, stride, lo, hi, target)(Running, hits[i]);
      }
    }

    method Recalibrate(elapsed: real)
      requires SizeCoherent()
      modifies `keysPerDispatch, `saved
      ensures SizeCoherent() && keysPerDispatch == Recalibrated(old(keysPerDispatch), elapsed)
      ensures saved == if keysPerDispatch == old(keysPerDispatch) then old(saved) else keysPerDispatch
    {
      var next := keysPerDispatch;
      if elapsed > 500.0 {
        next := Max(WORKGROUP_SIZE, next / 2);
      } else if elapsed < 50.0 {
        next := Min(MAX_KEYS_PER_DISPATCH, next * 2);
      } else if elapsed < 175.0 {
        next := Min(MAX_KEYS_PER_DISPATCH, next * 5 / 4);
      }
      if next != keysPerDispatch {
        keysPerDispatch, saved := next, next;
      }
    }

    // A failed dispatch: shrink, save, and recover or give up.
    method Lose(recovers: bool) returns (ending: Ending)
      requires Valid() && running && paramsBuf.lost
      modifies `running, `keysPerDispatch, `saved, `consecutiveLosses, `lost, `losses, `paramsBuf, `uploadedStride
      ensures Valid()
      ensures ending.Running? ==> fresh(paramsBuf) && !paramsBuf.lost && uploadedStride == None
      ensures ending.GaveUp? ==> unchanged(`paramsBuf, `uploadedStride)
      ensures consecutiveLosses == old(consecutiveLosses) + 1 && keysPerDispatch == Shrink(old(keysPerDispatch))
      ensures saved == keysPerDispatch && lost == old(lost) + [old(keysPerDispatch)] && losses == old(losses) + 1
      ensures ending == if recovers && consecutiveLosses <= MAX_RECOVERY_ATTEMPTS then Running else GaveUp
      ensures running == ending.Running?
    {
      consecutiveLosses := consecutiveLosses + 1;
      lost, losses := lost + [keysPerDispatch], losses + 1;
      keysPerDispatch := Max(MIN_DISPATCH_KEYS, keysPerDispatch / 8);
      saved := keysPerDispatch;
      if consecutiveLosses > MAX_RECOVERY_ATTEMPTS || !recovers {
        running := false;
        return GaveUp;
      }
      Setup();
      ending := Running;
    }

    // The first key of the next dispatch, for a sample of the random source.
    method Draw(lo: int, hi: int, sample: nat) returns (chunk: int)
      requires keysPerDispatch > 0
      ensures chunk != 0 && chunk == FirstKey(sample, keysPerDispatch, lo, hi)
      ensures Drawn(chunk, keysPerDispatch, lo, hi)
    {
      if hi - lo + 1 <= keysPerDispatch {
        chunk := lo;
      } else {
        var lowest := lo - keysPerDispatch + 1;
        chunk := lowest + sample % (hi - lowest + 1);
      }
      if chunk == 0 {
        chunk := 1;
      }
      FirstKeyDrawn(sample, keysPerDispatch, lo, hi);
    }

    // scalarMul on the generator
    method PublicPoint(priv: int) returns (q: Affine)
      requires InGroup()
      ensures q == mul(priv)
    {
      var point := ScalarMul(Adder(p), n, priv, g);
      ScalarMulCorrect(p, n, g, mul, priv);
      q := point.value;
    }

    lemma PointsAreFinite()
      requires InGroup()
      ensures forall k :: mul(k).Point? <==> k % n != 0
    {
      forall k ensures mul(k).Point? <==> k % n != 0 {
        PointUnlessInfinity(p, n, g, mul, k);
      }
    }

    lemma PlacedBySize(d: Sweep, lo: int, hi: int)
      requires d.desired <= d.threads * d.stride
      requires Drawn(d.chunk, d.desired, lo, hi)
      ensures Placed(d, lo, hi)
    {}

    lemma AllScan(chunk: int, stride: nat, threads: nat, log: seq<FoundKey>, target: nat)
      requires InGroup() && stride > 0 && threads <= 0x40_0000
      requires LogOf(n, mul, hash, target, chunk, stride, threads, {}, log)
      ensures forall i :: 0 <= i < |log| ==> ScansAsTarget(n, mul, hash, chunk, stride, target, log[i])
    {
      PointsAreFinite();
      HitsScan(n, mul, hash, target, chunk, stride, threads, log);
    }

    lemma NothingMissed(d: Sweep, log: seq<FoundKey>, lo: int, hi: int, target: nat)
      requires InGroup() && d.stride > 0 && d.threads <= 0x40_0000 && d.count == |log|
      requires LogOf(n, mul, hash, target, d.chunk, d.stride, d.threads, {}, log)
      requires forall i ::
        0 <= i < Min(|log|, MAX_HITS) ==> !Wanted(mul, hash, lo, hi, target, Rebuild(d.chunk, d.stride, log[i]))
      ensures Exhausted(d, lo, hi, target)
    {
      PointsAreFinite();
      if d.count <= MAX_HITS {
        forall key {:trigger InDispatch(d.chunk, d.stride, d.threads, key)}
          | InDispatch(d.chunk, d.stride, d.threads, key) && !Blocked(n, d.chunk, d.stride, key)
          ensures !Wanted(mul, hash, lo, hi, target, key)
        {
          if Wanted(mul, hash, lo, hi, target, key) {
            WantedIsLogged(n, mul, hash, target, d.chunk, d.stride, d.threads, log, lo, hi, key);
          }
        }
      }
    }

    ghost predicate Logged(d: Sweep, target: nat, log: seq<FoundKey>) {
      InGroup() && d.count == |log| && LogOf(n, mul, hash, target, d.chunk, d.stride, d.threads, {}, log)
    }

    // Split the size asked for, dispatch, and read the hits back.
    method RunSized(chunk: int, base: Affine, lo: int, hi: int, target: nat, outcome: Outcome,
        ghost placed: Sweep -> bool)
      returns (hits: Option<seq<FoundKey>>, stride: nat, total: nat, ghost d: Sweep, ghost log: seq<FoundKey>)
      requires placed == Placing(lo, hi)
      requires InGroup() && TableCoherent() && base.Point? && base == mul(chunk)
          && 1 <= keysPerDispatch <= MAX_KEYS_PER_DISPATCH
      requires Drawn(chunk, keysPerDispatch, lo, hi)
      modifies `tableCache, `uploadedStride, paramsBuf
      ensures TableCoherent() && (hits.Some? <==> outcome.Completed? && !old(paramsBuf.lost))
      ensures paramsBuf.lost == hits.None?
      ensures hits.Some? ==>
        && Coherent(d) && d.losses == losses && placed(d)
        && d.chunk == chunk && d.desired == keysPerDispatch && d.stride == stride
            && total == d.threads * d.stride
        && Logged(d, target, log) && hits.value == log[..Min(|log|, MAX_HITS)]
    {
      var desired := keysPerDispatch;
      var (workgroups, keysPerThread) := Partition(desired);
      PartitionCovers(desired);
      total := workgroups * WORKGROUP_SIZE * keysPerThread;
      hits, stride, log := RunDispatch(base, chunk, target, workgroups, keysPerThread, outcome);
      d := Sweep(chunk, desired, workgroups * WORKGROUP_SIZE, paramsBuf.table, paramsBuf.keysPerThread, stride, |log|,
        paramsBuf.uploadedAt, losses);
      if hits.Some? {
        PlacedBySize(d, lo, hi);
      }
    }

    // After a completed dispatch: report, count, recalibrate.
    method Settle(chunk: int, hits: seq<FoundKey>, stride: nat, total: nat, elapsed: real, lo: int, hi: int,
        target: nat, ghost d: Sweep, ghost log: seq<FoundKey>, ghost exhausted: Sweep -> bool)
      returns (ending: Ending)
      requires n > 0 && exhausted == Exhausting(lo, hi, target)
      requires InGroup() && SizeCoherent() && running
      requires Coherent(d) && d.chunk == chunk && d.stride == stride && Logged(d, target, log)
          && hits == log[..Min(|log|, MAX_HITS)]
      modifies `running, `rejected, `found, `totalChecked, `keysPerDispatch, `saved, `consecutiveLosses, `lost, `history
      ensures consecutiveLosses == 0 && lost == [] && history == old(history) + [d]
      ensures SizeCoherent() && (ending.Running? || ending.Reported? || ending.Threw?) && running == !ending.Reported?
      ensures ending.Reported? ==> found == old(found) + [ending.key] && Wanted(mul, hash, lo, hi, target, ending.key)
      ensures !ending.Reported? ==> found == old(found)
      ensures ending.Running? ==> exhausted(d)
      ensures keysPerDispatch == if ending.Running? then Recalibrated(old(keysPerDispatch), elapsed)
          else old(keysPerDispatch)
      ensures totalChecked == old(totalChecked) + if ending.Running? then total else 0
      ensures ending.Threw? || rejected > old(rejected) ==> hash((0, 0)) == target
      ensures rejected >= old(rejected)
    {
      consecutiveLosses, lost, history := 0, [], history + [d];
      AllScan(chunk, stride, d.threads, log, target);
      ghost var checked;
      ending, checked := Report(chunk, stride, hits, lo, hi, target, Scans(chunk, stride, target),
        Within(chunk, stride, lo, hi), Judge(chunk, stride, lo, hi, target));
      if !ending.Running? {
        if ending.Reported? {
          ReportedWanted(chunk, stride, lo, hi, target, ending, hits[checked]);
        }
        return;
      }
      DroppedUnwanted(chunk, stride, lo, hi, target, hits);
      NothingMissed(d, log, lo, hi, target);
      totalChecked := totalChecked + total;
      Recalibrate(elapsed);
    }

    lemma CoveredOne(d: Sweep)
      ensures Covered([d]) == d.threads * d.stride
    {
      assert [d][..0] == [];
    }

    lemma CoveredMore(s: seq<Sweep>, done: seq<Sweep>)
      requires |done| <= 1
      ensures Covered(s + done) == Covered(s) + Covered(done)
      ensures |done| == 1 ==> (s + done)[..|s + done| - 1] == s
      ensures done == [] ==> s + done == s
    {
      if |done| == 1 {
        assert (s + done)[..|s + done| - 1] == s && done[..0] == [];
      } else {
        assert s + done == s;
      }
    }

    // A dispatch and what follows when it completes.
    method Attempt(chunk: int, base: Affine, outcome: Outcome, lo: int, hi: int, target: nat,
        ghost placed: Sweep -> bool, ghost exhausted: Sweep -> bool)
      returns (completed: bool, ending: Ending, ghost done: seq<Sweep>)
      requires n > 0 && placed == Placing(lo, hi) && exhausted == Exhausting(lo, hi, target)
      requires Valid() && running && base.Point? && base == mul(chunk)
      requires Drawn(chunk, keysPerDispatch, lo, hi)
      modifies this, paramsBuf
      ensures Valid() && paramsBuf == old(paramsBuf) && losses == old(losses)
      ensures completed == (outcome.Completed? && !old(paramsBuf.lost)) == !paramsBuf.lost
      ensures if completed
        then |done| == 1 && history == old(history) + done && consecutiveLosses == 0 && lost == []
          && done[0].chunk == chunk && done[0].desired == old(keysPerDispatch) && done[0].losses == losses
          && keysPerDispatch == if ending.Running? then Recalibrated(old(keysPerDispatch), outcome.elapsed)
              else old(keysPerDispatch)
        else done == [] && ending.Running? && unchanged(`history, `consecutiveLosses, `lost, `keysPerDispatch)
      ensures All(placed, done) && (ending.Running? ==> All(exhausted, done))
      ensures (ending.Running? || ending.Reported? || ending.Threw?) && running == !ending.Reported?
      ensures ending.Reported? ==> found == old(found) + [ending.key] && Wanted(mul, hash, lo, hi, target, ending.key)
      ensures !ending.Reported? ==> found == old(found)
      ensures totalChecked == old(totalChecked) + if ending.Running? then Covered(done) else 0
      ensures ending.Threw? || rejected > old(rejected) ==> hash((0, 0)) == target
      ensures rejected >= old(rejected)
    {
      ending, done, completed := Running, [], false;
      var hits, stride, total, d, log := RunSized(chunk, base, lo, hi, target, outcome, placed);
      if hits.Some? {
        completed := true;
        done := [d];
        CoveredOne(d);
        AllOne(placed, d);
        ending := Settle(chunk, hits.value, stride, total, outcome.elapsed, lo, hi, target, d, log, exhausted);
        if ending.Running? {
          AllOne(exhausted, d);
        }
      }
    }

    // One turn of the loop, for the first key drawn: skipped at infinity, else a
    // dispatch that completes or is lost.  `done` is the dispatch it completed.
    method TakeTurn(turn: Turn, lo: int, hi: int, target: nat, ghost placed: Sweep -> bool,
        ghost exhausted: Sweep -> bool)
      returns (ending: Ending, ghost done: seq<Sweep>, ghost drawn: int)
      requires n > 0 && placed == Placing(lo, hi) && exhausted == Exhausting(lo, hi, target)
      requires Valid() && running && consecutiveLosses <= MAX_RECOVERY_ATTEMPTS
      modifies this, paramsBuf
      ensures Valid() && (paramsBuf == old(paramsBuf) || fresh(paramsBuf)) && history == old(history) + done
      ensures FirstKeyAt(turn.sample, old(keysPerDispatch), lo, hi, drawn)
      ensures if drawn % n == 0 then
          done == [] && ending.Running? && unchanged(this, old(paramsBuf))
        else if turn.outcome.Completed? && !old(paramsBuf.lost) then
          && |done| == 1 && done[0].chunk == drawn && done[0].desired == old(keysPerDispatch)
          && done[0].losses == losses == old(losses)
          && (ending.Running? || ending.Reported? || ending.Threw?) && consecutiveLosses == 0 && lost == []
          && keysPerDispatch == if ending.Running? then Recalibrated(old(keysPerDispatch), turn.outcome.elapsed)
              else old(keysPerDispatch)
        else
          && done == [] && consecutiveLosses == old(consecutiveLosses) + 1 && lost == old(lost) + [old(keysPerDispatch)]
          && losses == old(losses) + 1 && keysPerDispatch == Shrink(old(keysPerDispatch))
          && (ending.Running? ==> fresh(paramsBuf) && uploadedStride == None)
          && ending == if turn.recovers && consecutiveLosses <= MAX_RECOVERY_ATTEMPTS then Running else GaveUp
      ensures All(placed, done) && (ending.Running? ==> All(exhausted, done))
      ensures running == (ending.Running? || ending.Threw?)
      ensures ending.Running? ==> paramsBuf.lost == (old(paramsBuf.lost) && drawn % n == 0)
      ensures if ending.Reported?
        then found == old(found) + [ending.key] && Wanted(mul, hash, lo, hi, target, ending.key)
        else found == old(found)
      ensures totalChecked == old(totalChecked) + if ending.Running? then Covered(done) else 0
      ensures ending.Threw? || rejected > old(rejected) ==> hash((0, 0)) == target
      ensures rejected >= old(rejected)
    {
      ending, done := Running, [];
      var chunk := Draw(lo, hi, turn.sample);
      drawn := chunk;
      var base := PublicPoint(chunk);
      PointUnlessInfinity(p, n, g, mul, chunk);
      if base.Infinity? {
        return;
      }
      var completed;
      completed, ending, done := Attempt(chunk, base, turn.outcome, lo, hi, target, placed, exhausted);
      if !completed {
        ending := Lose(turn.recovers);
      }
    }

    // The dispatches so far are placed, and the total counts the settled ones, which
    // missed nothing.
    ghost predicate Tallied(ending: Ending, placed: Sweep -> bool, exhausted: Sweep -> bool, settled: seq<Sweep>)
      reads this
    {
      && All(placed, history) && All(exhausted, settled)
      && settled == Settled(ending, history) && totalChecked == Covered(settled)
    }

    // The sizes, the losses and the end of the run are those of its plays.
    ghost predicate Paced(ending: Ending, pace: Pace)
      reads this
    {
      && keysPerDispatch == pace.size && consecutiveLosses == |lost| && lost == pace.lost
      && |history| == pace.completed
      && (ending.GaveUp? <==> pace.gaveUp)
    }

    ghost predicate Ends(ending: Ending) {
      ending.Reported? || ending.Threw?
    }

    method Stop()
      modifies `running
      ensures !running
    {
      running := false;
    }

    // A turn as the loop sees it: the request to stop is heeded before the next.
    method LoopTurn(turn: Turn, lo: int, hi: int, target: nat, ghost placed: Sweep -> bool,
        ghost exhausted: Sweep -> bool, ghost settled: seq<Sweep>, ghost pace: Pace)
      returns (ending: Ending, ghost settled': seq<Sweep>, ghost play: Play)
      requires n > 0 && placed == Placing(lo, hi) && exhausted == Exhausting(lo, hi, target)
      requires Valid() && running && consecutiveLosses <= MAX_RECOVERY_ATTEMPTS
      requires Tallied(Running, placed, exhausted, settled) && Paced(Running, pace)
      modifies this, paramsBuf
      ensures Valid() && (paramsBuf == old(paramsBuf) || fresh(paramsBuf)) && !ending.AlreadyRunning?
      ensures Tallied(ending, placed, exhausted, settled')
      ensures Paced(ending, NextPace(n, pace, play))
      ensures play.turn == Actual(old(paramsBuf.lost), turn)
      ensures (play.ends <==> Ends(ending)) && FirstKeyAt(turn.sample, pace.size, lo, hi, play.drawn)
      ensures ending.Running? ==> consecutiveLosses <= MAX_RECOVERY_ATTEMPTS
      ensures ending.Running? ==> paramsBuf.lost == (old(paramsBuf.lost) && play.drawn % n == 0)
      ensures running == (ending.Running? || ending.Threw?)
      ensures ending.GaveUp? ==> !turn.recovers || consecutiveLosses == MAX_RECOVERY_ATTEMPTS + 1
      ensures if turn.stops then !ending.Running? else !ending.Stopped?
      ensures if ending.Reported?
        then found == old(found) + [ending.key] && Wanted(mul, hash, lo, hi, target, ending.key)
        else found == old(found)
      ensures ending.Threw? || rejected > old(rejected) ==> hash((0, 0)) == target
      ensures rejected >= old(rejected)
    {
      ghost var before := history;
      ghost var done, drawn;
      ending, done, drawn := TakeTurn(turn, lo, hi, target, placed, exhausted);
      play := Play(Actual(old(paramsBuf.lost), turn), drawn, Ends(ending));
      CoveredMore(before, done);
      AllMore(placed, before, done);
      settled' := settled;
      if ending.Running? {
        AllMore(exhausted, before, done);
        settled' := history;
        if turn.stops {
          Stop();
          ending := Stopped;
        }
      }
    }

    // The plays so far are a run, and the state is at their pace.
    ghost predicate Playing(ending: Ending, start: nat, wasLost: bool, turns: seq<Turn>, lo: int, hi: int,
        plays: seq<Play>)
      requires n > 0
      reads this
    {
      && |plays| <= |turns| && Played(n, start, wasLost, turns, lo, hi, plays) && Paced(ending, PaceOf(n, start, plays))
      && (plays != [] && plays[|plays| - 1].ends <==> Ends(ending))
    }

    // After k turns: no turn but the last asked to stop, and a run whose last turn did
    // has ended; one that stopped was asked to.
    ghost predicate Heeded(ending: Ending, turns: seq<Turn>, k: int) {
      && 0 <= k <= |turns| && (forall j :: 0 <= j < k - 1 ==> !turns[j].stops)
      && (ending.Stopped? ==> k > 0)
      && (k > 0 ==> if turns[k - 1].stops then !ending.Running? else !ending.Stopped?)
    }

    method PlayTurn(turns: seq<Turn>, lo: int, hi: int, target: nat, ghost placed: Sweep -> bool,
        ghost exhausted: Sweep -> bool, ghost settled: seq<Sweep>, ghost start: nat, ghost wasLost: bool,
        ghost plays: seq<Play>, i: nat)
      returns (ending: Ending, ghost settled': seq<Sweep>, ghost plays': seq<Play>)
      requires n > 0 && placed == Placing(lo, hi) && exhausted == Exhausting(lo, hi, target)
      requires Valid() && running && consecutiveLosses <= MAX_RECOVERY_ATTEMPTS
      requires Tallied(Running, placed, exhausted, settled) && Playing(Running, start, wasLost, turns, lo, hi, plays)
      requires i == |plays| < |turns| && paramsBuf.lost == StillLost(n, wasLost, plays)
      modifies this, paramsBuf
      ensures Valid() && (paramsBuf == old(paramsBuf) || fresh(paramsBuf)) && !ending.AlreadyRunning?
      ensures Tallied(ending, placed, exhausted, settled') && Playing(ending, start, wasLost, turns, lo, hi, plays')
      ensures |plays'| == i + 1
      ensures ending.Running? ==> consecutiveLosses <= MAX_RECOVERY_ATTEMPTS
      ensures ending.Running? ==> paramsBuf.lost == StillLost(n, wasLost, plays')
      ensures running == (ending.Running? || ending.Threw?)
      ensures ending.GaveUp? ==> consecutiveLosses == MAX_RECOVERY_ATTEMPTS + 1 || !turns[i].recovers
      ensures if turns[i].stops then !ending.Running? else !ending.Stopped?
      ensures if ending.Reported?
        then found == old(found) + [ending.key] && Wanted(mul, hash, lo, hi, target, ending.key)
        else found == old(found)
      ensures ending.Threw? || rejected > old(rejected) ==> hash((0, 0)) == target
      ensures rejected >= old(rejected)
    {
      ghost var play;
      ending, settled', play := LoopTurn(turns[i], lo, hi, target, placed, exhausted, settled, PaceOf(n, start, plays));
      plays' := plays + [play];
      PaceMore(n, start, plays, play);
      PlayedMore(n, start, wasLost, turns, lo, hi, plays, play);
    }

    method Loop(lo: int, hi: int, target: nat, turns: seq<Turn>, ghost placed: Sweep -> bool,
        ghost exhausted: Sweep -> bool)
      returns (ending: Ending, ghost settled: seq<Sweep>, ghost plays: seq<Play>)
      requires Valid() && running && consecutiveLosses == 0 && totalChecked == 0 && history == [] && lost == []
      requires placed == Placing(lo, hi) && exhausted == Exhausting(lo, hi, target)
      modifies this, paramsBuf
      ensures Valid() && (paramsBuf == old(paramsBuf) || fresh(paramsBuf)) && !ending.AlreadyRunning?
      ensures Tallied(ending, placed, exhausted, settled)
      ensures Playing(ending, old(keysPerDispatch), old(paramsBuf.lost), turns, lo, hi, plays)
      ensures if ending.Running? then |plays| == |turns| else plays != []
      ensures running == (ending.Running? || ending.Threw?)
      ensures ending.GaveUp? ==> consecutiveLosses == MAX_RECOVERY_ATTEMPTS + 1 || !turns[|plays| - 1].recovers
      ensures Heeded(ending, turns, |plays|)
      ensures if ending.Reported?
        then found == old(found) + [ending.key] && Wanted(mul, hash, lo, hi, target, ending.key)
        else found == old(found)
      ensures ending.Threw? || rejected > old(rejected) ==> hash((0, 0)) == target
    {
      ending, settled, plays := Running, history, [];
      ghost var start, wasLost := keysPerDispatch, paramsBuf.lost;
      var i := 0;
      while i < |turns| && ending.Running?
        invariant Valid() && (paramsBuf == old(paramsBuf) || fresh(paramsBuf)) && !ending.AlreadyRunning?
        invariant Tallied(ending, placed, exhausted, settled) && Playing(ending, start, wasLost, turns, lo, hi, plays)
        invariant 0 <= i == |plays| <= |turns| && (!ending.Running? ==> i > 0)
        invariant ending.Running? ==> consecutiveLosses <= MAX_RECOVERY_ATTEMPTS
        invariant ending.Running? ==> paramsBuf.lost == StillLost(n, wasLost, plays)
        invariant running == (ending.Running? || ending.Threw?)
        invariant ending.GaveUp? ==> consecutiveLosses == MAX_RECOVERY_ATTEMPTS + 1 || !turns[i - 1].recovers
        invariant Heeded(ending, turns, i)
        invariant if ending.Reported?
          then found == old(found) + [ending.key] && Wanted(mul, hash, lo, hi, target, ending.key)
          else found == old(found)
        invariant rejected >= old(rejected)
        invariant ending.Threw? || rejected > old(rejected) ==> hash((0, 0)) == target
      {
        ending, settled, plays := PlayTurn(turns, lo, hi, target, placed, exhausted, settled, start, wasLost, plays, i);
        i := i + 1;
      }
    }

    // No device is lost, and no draw is infinite.
    ghost predicate Steady(wasLost: bool, turns: seq<Turn>, lo: int, hi: int) {
      n > 0 && !wasLost && NoInfinity(n, lo, hi) && forall t :: t in turns ==> t.outcome.Completed?
    }

    method Run(lo: int, hi: int, target: nat, turns: seq<Turn>) returns (ending: Ending, ghost plays: seq<Play>)
      requires Valid() && running && consecutiveLosses == 0 && totalChecked == 0 && history == [] && lost == []
      modifies this, paramsBuf
      ensures Valid() && (paramsBuf == old(paramsBuf) || fresh(paramsBuf)) && !ending.AlreadyRunning?
      ensures All(Placing(lo, hi), history) && All(Exhausting(lo, hi, target), Settled(ending, history))
      ensures totalChecked == Covered(Settled(ending, history))
      ensures Playing(ending, old(keysPerDispatch), old(paramsBuf.lost), turns, lo, hi, plays)
      ensures Heeded(ending, turns, |plays|) && (ending.Running? ==> |plays| == |turns|)
      ensures running == (ending.Running? || ending.Threw?)
      ensures if ending.Reported?
        then found == old(found) + [ending.key] && Wanted(mul, hash, lo, hi, target, ending.key)
        else found == old(found)
      ensures ending.Threw? || rejected > old(rejected) ==> hash((0, 0)) == target
      ensures ending.GaveUp? ==> consecutiveLosses == MAX_RECOVERY_ATTEMPTS + 1 || exists t :: t in turns && !t.recovers
      ensures ending.Running? && Steady(old(paramsBuf.lost), turns, lo, hi) ==> |history| == |turns|
      ensures hi - lo + 1 <= old(keysPerDispatch) && lo != 0 && lo % n == 0 ==> history == []
    {
      ghost var start, wasLost, settled := keysPerDispatch, paramsBuf.lost, [];
      ending, settled, plays := Loop(lo, hi, target, turns, Placing(lo, hi), Exhausting(lo, hi, target));
      assert plays != [] ==> turns[|plays| - 1] in turns;
      if Steady(wasLost, turns, lo, hi) {
        SteadyRun(n, start, wasLost, turns, lo, hi, plays);
      }
      if hi - lo + 1 <= start && lo != 0 && lo % n == 0 {
        StuckSweep(n, start, wasLost, turns, lo, hi, plays);
      }
    }

    // A run that begins.  A target that does not decode throws, and leaves the
    // coordinator running.
    method Begin(lo: int, hi: int, target: Option<nat>, turns: seq<Turn>)
      returns (ending: Ending, ghost plays: seq<Play>)
      requires Valid() && !running
      modifies this, paramsBuf
      ensures Valid() && (paramsBuf == old(paramsBuf) || fresh(paramsBuf)) && !ending.AlreadyRunning?
      ensures target == None ==>
        ending.Threw? && history == [] && totalChecked == 0 && plays == [] && keysPerDispatch == old(keysPerDispatch)
        && consecutiveLosses == 0 && rejected == old(rejected)
      ensures running == (ending.Running? || ending.Threw?) && All(Placing(lo, hi), history)
      ensures target.Some? ==>
        && All(Exhausting(lo, hi, target.value), Settled(ending, history))
        && totalChecked == Covered(Settled(ending, history))
        && Playing(ending, old(keysPerDispatch), old(paramsBuf.lost), turns, lo, hi, plays)
        && (ending.Threw? || rejected > old(rejected) ==> hash((0, 0)) == target.value)
        && (if ending.Running? then |plays| == |turns| else plays != [])
      ensures ending.Reported? ==>
        target.Some? && found == old(found) + [ending.key] && Wanted(mul, hash, lo, hi, target.value, ending.key)
      ensures !ending.Reported? ==> found == old(found)
      ensures ending.GaveUp? ==> consecutiveLosses == MAX_RECOVERY_ATTEMPTS + 1 || exists t :: t in turns && !t.recovers
      ensures Heeded(ending, turns, |plays|)
      ensures ending.Running? && Steady(old(paramsBuf.lost), turns, lo, hi) ==> |history| == |turns|
      ensures hi - lo + 1 <= old(keysPerDispatch) && lo != 0 && lo % n == 0 ==> history == []
    {
      plays := [];
      running, totalChecked, consecutiveLosses := true, 0, 0;
      history, lost := [], [];
      if target.None? {
        return Threw, plays;
      }
      ending, plays := Run(lo, hi, target.value, turns);
    }

    lemma NeverStopped(ending: Ending, turns: seq<Turn>)
      requires Heeded(ending, turns, |turns|) && ending.Running?
      ensures forall t :: t in turns ==> !t.stops
    {
      forall t | t in turns ensures !t.stops {
        var k :| 0 <= k < |turns| && turns[k] == t;
      }
    }

    // start: the loop, over any turns the outside world plays.
    method Start(lo: int, hi: int, target: Option<nat>, turns: seq<Turn>)
      returns (ending: Ending, ghost plays: seq<Play>)
      requires Valid()
      modifies this, paramsBuf
      ensures Valid() && (paramsBuf == old(paramsBuf) || fresh(paramsBuf))
      ensures ending.AlreadyRunning? <==> old(running)
      ensures old(running) ==> unchanged(this, old(paramsBuf)) && plays == []
      ensures !old(running) && target == None ==>
        ending.Threw? && history == [] && totalChecked == 0 && plays == [] && keysPerDispatch == old(keysPerDispatch)
        && consecutiveLosses == 0
      ensures running == (ending.AlreadyRunning? || ending.Running? || ending.Threw?)
      ensures !old(running) ==> All(Placing(lo, hi), history)
      ensures !old(running) && target.Some? ==>
        && All(Exhausting(lo, hi, target.value), Settled(ending, history))
        && totalChecked == Covered(Settled(ending, history))
        && Playing(ending, old(keysPerDispatch), old(paramsBuf.lost), turns, lo, hi, plays)
        && (if ending.Running? then |plays| == |turns| else plays != [])
      ensures ending.Reported? ==>
        target.Some? && found == old(found) + [ending.key] && Wanted(mul, hash, lo, hi, target.value, ending.key)
      ensures !ending.Reported? ==> found == old(found)
      ensures target.Some? && (ending.Threw? || rejected > old(rejected)) ==> hash((0, 0)) == target.value
      ensures ending.GaveUp? ==> consecutiveLosses == MAX_RECOVERY_ATTEMPTS + 1 || exists t :: t in turns && !t.recovers
      ensures |plays| <= |turns| && forall k :: 0 <= k < |plays| - 1 ==> !turns[k].stops
      ensures ending.Running? ==> forall t :: t in turns ==> !t.stops
      ensures ending.Stopped? ==> plays != [] && turns[|plays| - 1].stops
      ensures plays != [] && turns[|plays| - 1].stops ==> !running || ending.Threw?
      ensures ending.Running? && Steady(old(paramsBuf.lost), turns, lo, hi) ==> |history| == |turns|
      ensures !old(running) && hi - lo + 1 <= old(keysPerDispatch) && lo != 0 && lo % n == 0 ==> history == []
    {
      if running {
        plays := [];
        return AlreadyRunning, plays;
      }
      ending, plays := Begin(lo, hi, target, turns);
      if ending.Running? {
        NeverStopped(ending, turns);
      }
    }
  }
}
