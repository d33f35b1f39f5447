/** The bounded cache that remembers a client session's operating system.  Digests are strings,
    instants whole ticks handed in by the caller. */
module SessionCache {
  import opened Wrappers

  datatype ClientOs = Windows | MacOs | Linux

  datatype Entry = Entry(os: ClientOs, lastSeen: nat)

  type Entries = map<string, Entry>

  function StaleBefore(now: nat, ttl: nat): nat { if now < ttl then 0 else now - ttl }

  /** The digests of the entries that are too old. */
  function Stale(entries: Entries, now: nat, ttl: nat): set<string> {
    set d | d in entries && entries[d].lastSeen < StaleBefore(now, ttl)
  }

  function Pruned(entries: Entries, now: nat, ttl: nat): Entries {
    entries - Stale(entries, now, ttl)
  }

  /** Pruning keeps the entries seen within the time to live, as they are, and no others. */
  lemma PrunedIs(entries: Entries, now: nat, ttl: nat, digest: string)
    ensures digest in Pruned(entries, now, ttl) <==> digest in entries && now <= entries[digest].lastSeen + ttl
    ensures digest in Pruned(entries, now, ttl) ==> Pruned(entries, now, ttl)[digest] == entries[digest]
  {
  }

  predicate Oldest(entries: Entries, digest: string) {
    digest in entries && forall d :: d in entries ==> entries[digest].lastSeen <= entries[d].lastSeen
  }

  /** What storing may lead to: when a new digest meets a full cache, one of the entries seen longest
      ago has gone. */
  ghost predicate Stores(before: Entries, after: Entries, ttl: nat, capacity: nat, digest: string, os: ClientOs, now: nat) {
    var kept := Pruned(before, now, ttl);
    if |kept| >= capacity && digest !in kept then
      exists oldest :: Oldest(kept, oldest) && after == (kept - {oldest})[digest := Entry(os, now)]
    else after == kept[digest := Entry(os, now)]
  }

  function Resolved(before: Entries, ttl: nat, digest: string, now: nat): (Entries, Option<ClientOs>) {
    var kept := Pruned(before, now, ttl);
    if digest in kept then (kept[digest := Entry(kept[digest].os, now)], Some(kept[digest].os)) else (kept, None)
  }

  class ClientOsSessionCache {
    var entries: Entries
    const ttl: nat
    const capacity: nat

    constructor (ttl: nat, capacity: nat)
      ensures this.ttl == ttl && this.capacity == (if capacity < 1 then 1 else capacity) && entries == map[]
    {
      this.ttl, this.capacity := ttl, if capacity < 1 then 1 else capacity;
      entries := map[];
    }

    method Prune(now: nat)
      modifies this
      ensures entries == Pruned(old(entries), now, ttl)
      ensures forall d :: d in entries <==> d in old(entries) && now <= old(entries)[d].lastSeen + ttl
      ensures forall d :: d in entries ==> entries[d] == old(entries)[d]
    {
      entries := entries - set d | d in entries && entries[d].lastSeen < StaleBefore(now, ttl);
    }

    method Remember(digest: string, os: ClientOs, now: nat)
      requires capacity >= 1
      modifies this
      ensures Stores(old(entries), entries, ttl, capacity, digest, os, now)
    {
      Prune(now);
      ghost var kept := entries;
      if |entries| >= capacity && digest !in entries {
        OldestExists(entries);
        var oldest :| oldest in entries && Oldest(entries, oldest);
        entries := entries - {oldest};
        assert Oldest(kept, oldest);
      }
      entries := entries[digest := Entry(os, now)];
    }

    method Resolve(digest: string, now: nat) returns (os: Option<ClientOs>)
      modifies this
      ensures (entries, os) == Resolved(old(entries), ttl, digest, now)
      ensures os == if digest in old(entries) && now <= old(entries)[digest].lastSeen + ttl
                    then Some(old(entries)[digest].os) else None
    {
      Prune(now);
      if digest !in entries {
        return None;
      }
      entries := entries[digest := entries[digest].(lastSeen := now)];
      os := Some(entries[digest].os);
    }
  }

  /** A cache that holds anything has an entry seen longest ago. */
  lemma {:induction false} OldestExists(entries: Entries)
    requires |entries| > 0
    ensures exists d :: d in entries && Oldest(entries, d)
    decreases |entries|
  {
    var d :| d in entries;
    var rest := entries - {d};
    assert forall e :: e in entries && e != d ==> e in rest && rest[e] == entries[e];
    if |rest| > 0 {
      OldestExists(rest);
      var r :| r in rest && Oldest(rest, r);
      assert Oldest(entries, if entries[d].lastSeen <= entries[r].lastSeen then d else r);
    } else {
      assert rest == map[];
      assert Oldest(entries, d);
    }
  }

  // ----- runs beside an unbounded cache -----

  datatype Op = Remember(digest: string, os: ClientOs, now: nat) | Resolve(digest: string, now: nat)

  /** The cache, the same cache without a bound, when the cache last stored or served a digest, and
      the operating system last remembered for it. */
  datatype World = World(cache: Entries, ideal: Entries, touched: map<string, nat>, last: map<string, ClientOs>, clock: nat)

  const START := World(map[], map[], map[], map[], 0)

  ghost predicate Step(w: World, op: Op, w': World, ttl: nat, capacity: nat) {
    && w.clock <= op.now == w'.clock
    && match op
       case Remember(digest, os, now) =>
         && Stores(w.cache, w'.cache, ttl, capacity, digest, os, now)
         && w'.ideal == Pruned(w.ideal, now, ttl)[digest := Entry(os, now)]
         && w'.touched == w.touched[digest := now]
         && w'.last == w.last[digest := os]
       case Resolve(digest, now) =>
         && w'.cache == Resolved(w.cache, ttl, digest, now).0
         && w'.ideal == Resolved(w.ideal, ttl, digest, now).0
         && w'.touched == (if Resolved(w.cache, ttl, digest, now).1.Some? then w.touched[digest := now] else w.touched)
         && w'.last == w.last
  }

  ghost predicate Run(ws: seq<World>, ops: seq<Op>, ttl: nat, capacity: nat) {
    && |ws| == |ops| + 1 && ws[0] == START
    && forall i :: 0 <= i < |ops| ==> StepAt(ws, ops, i, ttl, capacity)
  }

  ghost predicate StepAt(ws: seq<World>, ops: seq<Op>, i: nat, ttl: nat, capacity: nat)
    requires i < |ops| && i + 1 < |ws|
  {
    Step(ws[i], ops[i], ws[i + 1], ttl, capacity)
  }

  /** Digests other than `digest` that were stored or served no earlier than it was last. */
  ghost function Since(touched: map<string, nat>, digest: string): set<string>
    requires digest in touched
  {
    set d | d in touched && d != digest && touched[d] >= touched[digest]
  }

  ghost predicate Crowded(touched: map<string, nat>, digest: string, capacity: nat) {
    digest in touched && |Since(touched, digest)| >= capacity
  }

  ghost predicate CacheAgrees(w: World, d: string)
    requires d in w.cache
  {
    && d in w.ideal && w.cache[d] == w.ideal[d]
    && d in w.touched && w.touched[d] == w.cache[d].lastSeen
  }

  ghost predicate IdealExplained(w: World, d: string, capacity: nat)
    requires d in w.ideal
  {
    && d in w.last && w.ideal[d].os == w.last[d]
    && (d in w.cache || Crowded(w.touched, d, capacity))
  }

  ghost predicate Inv(w: World, capacity: nat) {
    && |w.cache| <= capacity
    && (forall d :: d in w.touched ==> w.touched[d] <= w.clock)
    && (forall d :: d in w.cache ==> CacheAgrees(w, d))
    && (forall d :: d in w.ideal ==> IdealExplained(w, d, capacity))
  }

  lemma {:induction false} SubsetSize<T>(a: set<T>, b: set<T>)
    requires a <= b
    ensures |a| <= |b|
  {
    if a != {} {
      var x :| x in a;
      SubsetSize(a - {x}, b - {x});
    }
  }

  lemma PrunedSize(entries: Entries, now: nat, ttl: nat)
    ensures |Pruned(entries, now, ttl)| <= |entries|
  {
    SubsetSize(Pruned(entries, now, ttl).Keys, entries.Keys);
  }

  /** Touching other digests later never thins the crowd. */
  lemma CrowdStays(touched: map<string, nat>, digest: string, other: string, now: nat, capacity: nat)
    requires Crowded(touched, digest, capacity) && other != digest
    requires forall d :: d in touched ==> touched[d] <= now
    ensures Crowded(touched[other := now], digest, capacity)
  {
    SubsetSize(Since(touched, digest), Since(touched[other := now], digest));
  }

  /** Eviction from a full cache leaves behind a crowd of its size. */
  lemma EvictionCrowds(w: World, kept: Entries, oldest: string, digest: string, now: nat, capacity: nat)
    requires Inv(w, capacity) && w.clock <= now
    requires kept.Keys <= w.cache.Keys && |kept| >= capacity && forall d :: d in kept ==> kept[d] == w.cache[d]
    requires Oldest(kept, oldest) && digest !in kept
    ensures Crowded(w.touched[digest := now], oldest, capacity)
  {
    assert CacheAgrees(w, oldest);
    var others := kept.Keys - {oldest} + {digest};
    forall d | d in kept ensures d in w.touched && w.touched[d] == kept[d].lastSeen { assert CacheAgrees(w, d); }
    assert |others| == |kept|;
    SubsetSize(others, Since(w.touched[digest := now], oldest));
  }

  lemma StoreSize(kept: Entries, oldest: string, digest: string, entry: Entry)
    requires oldest in kept && digest !in kept
    ensures |(kept - {oldest})[digest := entry]| == |kept|
  {
    var after := (kept - {oldest})[digest := entry];
    assert after.Keys == kept.Keys - {oldest} + {digest};
  }

  lemma StoreFits(before: Entries, after: Entries, ttl: nat, capacity: nat, digest: string, os: ClientOs, now: nat)
    requires capacity >= 1 && |before| <= capacity && Stores(before, after, ttl, capacity, digest, os, now)
    ensures |after| <= capacity
  {
    var kept := Pruned(before, now, ttl);
    PrunedSize(before, now, ttl);
    if |kept| >= capacity && digest !in kept {
      var oldest :| Oldest(kept, oldest) && after == (kept - {oldest})[digest := Entry(os, now)];
      StoreSize(kept, oldest, digest, Entry(os, now));
    } else if digest in kept {
      assert after.Keys == kept.Keys;
    } else {
      assert after.Keys == kept.Keys + {digest};
    }
  }

  lemma StoreAgrees(w: World, op: Op, w': World, ttl: nat, capacity: nat, d: string)
    requires Inv(w, capacity) && op.Remember? && Step(w, op, w', ttl, capacity) && d in w'.cache
    ensures CacheAgrees(w', d)
  {
    if d != op.digest { assert d in Pruned(w.cache, op.now, ttl) && CacheAgrees(w, d); }
  }

  lemma StoreKeepsInv(w: World, op: Op, w': World, ttl: nat, capacity: nat)
    requires capacity >= 1 && Inv(w, capacity) && op.Remember? && Step(w, op, w', ttl, capacity)
    ensures Inv(w', capacity)
  {
    StoreFits(w.cache, w'.cache, ttl, capacity, op.digest, op.os, op.now);
    forall d | d in w'.cache ensures CacheAgrees(w', d) {
      StoreAgrees(w, op, w', ttl, capacity, d);
    }
    forall d | d in w'.ideal ensures IdealExplained(w', d, capacity) {
      if d != op.digest { StoreExplains(w, op, w', ttl, capacity, d); }
    }
  }

  /** What else the unbounded cache has after a store is still in the cache, or crowded out. */
  lemma StoreExplains(w: World, op: Op, w': World, ttl: nat, capacity: nat, d: string)
    requires capacity >= 1 && Inv(w, capacity) && op.Remember? && Step(w, op, w', ttl, capacity)
    requires d in w'.ideal && d != op.digest
    ensures IdealExplained(w', d, capacity)
  {
    var kept := Pruned(w.cache, op.now, ttl);
    assert IdealExplained(w, d, capacity);
    if d !in w.cache {
      CrowdStays(w.touched, d, op.digest, op.now, capacity);
    } else if d !in w'.cache {
      assert CacheAgrees(w, d) && d in kept;
      var oldest :| Oldest(kept, oldest) && w'.cache == (kept - {oldest})[op.digest := Entry(op.os, op.now)];
      EvictionCrowds(w, kept, oldest, op.digest, op.now, capacity);
    }
  }

  lemma ResolveKeepsInv(w: World, op: Op, w': World, ttl: nat, capacity: nat)
    requires Inv(w, capacity) && op.Resolve? && Step(w, op, w', ttl, capacity)
    ensures Inv(w', capacity)
  {
    var digest, now := op.digest, op.now;
    var kept := Pruned(w.cache, now, ttl);
    PrunedSize(w.cache, now, ttl);
    assert w'.cache.Keys == kept.Keys;
    forall d | d in w'.cache ensures CacheAgrees(w', d) {
      assert CacheAgrees(w, d);
      assert digest in kept ==> CacheAgrees(w, digest);
    }
    forall d | d in w'.ideal ensures IdealExplained(w', d, capacity) {
      ResolveExplains(w, op, w', ttl, capacity, d);
    }
  }

  lemma ResolveExplains(w: World, op: Op, w': World, ttl: nat, capacity: nat, d: string)
    requires Inv(w, capacity) && op.Resolve? && Step(w, op, w', ttl, capacity) && d in w'.ideal
    ensures IdealExplained(w', d, capacity)
  {
    assert IdealExplained(w, d, capacity);
    if d in w.cache {
      assert CacheAgrees(w, d);
    } else if op.digest in Pruned(w.cache, op.now, ttl) {
      CrowdStays(w.touched, d, op.digest, op.now, capacity);
    }
  }

  /** Every operation keeps the invariant. */
  lemma StepKeepsInv(w: World, op: Op, w': World, ttl: nat, capacity: nat)
    requires capacity >= 1 && Inv(w, capacity) && Step(w, op, w', ttl, capacity)
    ensures Inv(w', capacity)
  {
    if op.Remember? { StoreKeepsInv(w, op, w', ttl, capacity); } else { ResolveKeepsInv(w, op, w', ttl, capacity); }
  }

  lemma StepAtKeepsInv(ws: seq<World>, ops: seq<Op>, ttl: nat, capacity: nat, i: nat)
    requires capacity >= 1 && i < |ops| && Run(ws, ops, ttl, capacity) && Inv(ws[i], capacity)
    ensures Inv(ws[i + 1], capacity)
  {
    assert StepAt(ws, ops, i, ttl, capacity);
    StepKeepsInv(ws[i], ops[i], ws[i + 1], ttl, capacity);
  }

  lemma {:induction false} RunKeepsInv(ws: seq<World>, ops: seq<Op>, ttl: nat, capacity: nat, k: nat)
    requires capacity >= 1 && Run(ws, ops, ttl, capacity) && k <= |ops|
    ensures Inv(ws[k], capacity)
    decreases k
  {
    if k > 0 {
      RunKeepsInv(ws, ops, ttl, capacity, k - 1);
      StepAtKeepsInv(ws, ops, ttl, capacity, k - 1);
    } else {
      StartInv(capacity);
    }
  }

  lemma StartInv(capacity: nat)
    ensures Inv(START, capacity)
  {
  }

  /** The operating system of the latest `Remember` for the digest. */
  function LastRemembered(ops: seq<Op>, digest: string): Option<ClientOs> {
    if ops == [] then None else
      var op := ops[|ops| - 1];
      if op.Remember? && op.digest == digest then Some(op.os) else LastRemembered(ops[..|ops| - 1], digest)
  }

  lemma {:induction false} LastIs(ws: seq<World>, ops: seq<Op>, ttl: nat, capacity: nat, k: nat, digest: string)
    requires Run(ws, ops, ttl, capacity) && k <= |ops|
    ensures LastRemembered(ops[..k], digest) == if digest in ws[k].last then Some(ws[k].last[digest]) else None
    decreases k
  {
    if k > 0 {
      LastIs(ws, ops, ttl, capacity, k - 1, digest);
      assert StepAt(ws, ops, k - 1, ttl, capacity);
      assert ops[..k][..k - 1] == ops[..k - 1];
    }
  }

  // ----- what the operations alone say -----

  /** The last of the first `k` operations that named the digest. */
  function LastAsked(ops: seq<Op>, k: nat, digest: string): (j: Option<nat>)
    requires k <= |ops|
    ensures j.Some? ==> j.value < k && ops[j.value].digest == digest
  {
    if k == 0 then None else if ops[k - 1].digest == digest then Some(k - 1) else LastAsked(ops, k - 1, digest)
  }

  /** Operation `j` came within the time to live of the one that named its digest before it. */
  predicate Soon(ops: seq<Op>, j: nat, ttl: nat)
    requires j < |ops|
  {
    var before := LastAsked(ops, j, ops[j].digest);
    before.Some? && ops[j].now <= ops[before.value].now + ttl
  }

  /** The digest was remembered by operation `i`, and named again without a gap beyond the time to
      live ever since, up to operation `k`. */
  ghost predicate AliveSince(ops: seq<Op>, i: nat, k: nat, digest: string, ttl: nat)
    requires k <= |ops|
  {
    && i < k && ops[i].Remember? && ops[i].digest == digest
    && forall j :: i < j < k && ops[j].digest == digest ==> Soon(ops, j, ttl)
  }

  ghost predicate Alive(ops: seq<Op>, k: nat, digest: string, ttl: nat)
    requires k <= |ops|
  {
    exists i: nat :: AliveSince(ops, i, k, digest, ttl)
  }

  lemma {:induction false} AliveWasAsked(ops: seq<Op>, k: nat, digest: string, ttl: nat)
    requires k <= |ops| && Alive(ops, k, digest, ttl)
    ensures LastAsked(ops, k, digest).Some?
    decreases k
  {
    if ops[k - 1].digest != digest { AliveOther(ops, k - 1, digest, ttl); AliveWasAsked(ops, k - 1, digest, ttl); }
  }

  /** One more operation: a life goes on unless it names the digest too late. */
  lemma SinceGoesOn(ops: seq<Op>, i: nat, k: nat, digest: string, ttl: nat)
    requires i < k < |ops|
    ensures AliveSince(ops, i, k + 1, digest, ttl) <==>
              AliveSince(ops, i, k, digest, ttl) && (ops[k].digest == digest ==> Soon(ops, k, ttl))
  {
  }

  lemma AliveOtherOn(ops: seq<Op>, k: nat, digest: string, ttl: nat)
    requires k < |ops| && ops[k].digest != digest && Alive(ops, k, digest, ttl)
    ensures Alive(ops, k + 1, digest, ttl)
  {
    var i: nat :| AliveSince(ops, i, k, digest, ttl);
    SinceGoesOn(ops, i, k, digest, ttl);
  }

  lemma AliveOtherBack(ops: seq<Op>, k: nat, digest: string, ttl: nat)
    requires k < |ops| && ops[k].digest != digest && Alive(ops, k + 1, digest, ttl)
    ensures Alive(ops, k, digest, ttl)
  {
    var i: nat :| AliveSince(ops, i, k + 1, digest, ttl);
    SinceGoesOn(ops, i, k, digest, ttl);
  }

  /** An operation on another digest changes nothing. */
  lemma AliveOther(ops: seq<Op>, k: nat, digest: string, ttl: nat)
    requires k < |ops| && ops[k].digest != digest
    ensures Alive(ops, k + 1, digest, ttl) <==> Alive(ops, k, digest, ttl)
    ensures LastAsked(ops, k + 1, digest) == LastAsked(ops, k, digest)
  {
    if Alive(ops, k, digest, ttl) { AliveOtherOn(ops, k, digest, ttl); }
    if Alive(ops, k + 1, digest, ttl) { AliveOtherBack(ops, k, digest, ttl); }
  }

  /** Remembering starts a life, asking in time goes on with one. */
  lemma {:induction false} AliveSame(ops: seq<Op>, k: nat, ttl: nat)
    requires k < |ops|
    ensures Alive(ops, k + 1, ops[k].digest, ttl) <==>
              ops[k].Remember? || (Alive(ops, k, ops[k].digest, ttl) && Soon(ops, k, ttl))
    ensures LastAsked(ops, k + 1, ops[k].digest) == Some(k)
  {
    var digest := ops[k].digest;
    if ops[k].Remember? {
      assert AliveSince(ops, k, k + 1, digest, ttl);
    } else if Alive(ops, k, digest, ttl) && Soon(ops, k, ttl) {
      var i: nat :| AliveSince(ops, i, k, digest, ttl);
      SinceGoesOn(ops, i, k, digest, ttl);
    } else if Alive(ops, k + 1, digest, ttl) {
      var i: nat :| AliveSince(ops, i, k + 1, digest, ttl);
      SinceGoesOn(ops, i, k, digest, ttl);
    }
  }

  /** The unbounded cache against the operations: what it holds is alive and was last seen when it was
      last named, and what is alive but not held any more has been silent for too long. */
  ghost predicate HeldIs(w: World, ops: seq<Op>, k: nat, digest: string, ttl: nat)
    requires k <= |ops|
  {
    var asked := LastAsked(ops, k, digest);
    && (digest in w.ideal ==>
          Alive(ops, k, digest, ttl) && asked.Some? && w.ideal[digest].lastSeen == ops[asked.value].now)
    && (Alive(ops, k, digest, ttl) && digest !in w.ideal ==> asked.Some? && ops[asked.value].now + ttl < w.clock)
  }

  lemma HeldOther(w: World, w': World, ops: seq<Op>, k: nat, digest: string, ttl: nat, capacity: nat)
    requires k < |ops| && Step(w, ops[k], w', ttl, capacity) && HeldIs(w, ops, k, digest, ttl) && ops[k].digest != digest
    ensures HeldIs(w', ops, k + 1, digest, ttl)
  {
    AliveOther(ops, k, digest, ttl);
    PrunedIs(w.ideal, ops[k].now, ttl, digest);
  }

  lemma HeldSame(w: World, w': World, ops: seq<Op>, k: nat, ttl: nat, capacity: nat)
    requires k < |ops| && Step(w, ops[k], w', ttl, capacity) && HeldIs(w, ops, k, ops[k].digest, ttl)
    ensures HeldIs(w', ops, k + 1, ops[k].digest, ttl)
  {
    AliveSame(ops, k, ttl);
    PrunedIs(w.ideal, ops[k].now, ttl, ops[k].digest);
    if Alive(ops, k, ops[k].digest, ttl) { AliveWasAsked(ops, k, ops[k].digest, ttl); }
  }

  lemma {:induction false} RunHolds(ws: seq<World>, ops: seq<Op>, ttl: nat, capacity: nat, k: nat, digest: string)
    requires Run(ws, ops, ttl, capacity) && k <= |ops|
    ensures HeldIs(ws[k], ops, k, digest, ttl)
    decreases k
  {
    if k > 0 {
      RunHolds(ws, ops, ttl, capacity, k - 1, digest);
      assert StepAt(ws, ops, k - 1, ttl, capacity);
      if ops[k - 1].digest == digest {
        HeldSame(ws[k - 1], ws[k], ops, k - 1, ttl, capacity);
      } else {
        HeldOther(ws[k - 1], ws[k], ops, k - 1, digest, ttl, capacity);
      }
    }
  }

  lemma {:induction false} LastIsRemembered(ws: seq<World>, ops: seq<Op>, ttl: nat, capacity: nat, k: nat, digest: string)
    requires capacity >= 1 && Run(ws, ops, ttl, capacity) && k <= |ops| && digest in ws[k].ideal
    ensures LastRemembered(ops[..k], digest) == Some(ws[k].ideal[digest].os)
  {
    RunKeepsInv(ws, ops, ttl, capacity, k);
    LastIs(ws, ops, ttl, capacity, k, digest);
    assert IdealExplained(ws[k], digest, capacity);
  }

  /** The unbounded cache answers exactly while the digest is alive: it was remembered, and from then
      on named again within the time to live, this time included.  The answer is the operating system
      remembered last. */
  lemma UnboundedAnswers(ws: seq<World>, ops: seq<Op>, ttl: nat, capacity: nat, k: nat)
    requires capacity >= 1 && Run(ws, ops, ttl, capacity) && k < |ops| && ops[k].Resolve?
    ensures var answer := Resolved(ws[k].ideal, ttl, ops[k].digest, ops[k].now).1;
            && (answer.Some? <==> Alive(ops, k + 1, ops[k].digest, ttl))
            && (answer.Some? ==> answer == LastRemembered(ops[..k], ops[k].digest))
  {
    var digest := ops[k].digest;
    RunHolds(ws, ops, ttl, capacity, k, digest);
    assert StepAt(ws, ops, k, ttl, capacity);
    AliveSame(ops, k, ttl);
    PrunedIs(ws[k].ideal, ops[k].now, ttl, digest);
    if Alive(ops, k, digest, ttl) { AliveWasAsked(ops, k, digest, ttl); }
    if digest in ws[k].ideal { LastIsRemembered(ws, ops, ttl, capacity, k, digest); }
  }

  /** On every run with a clock that never goes back the cache agrees with the unbounded one.  Its
      size never exceeds the capacity.  A hit returns the operating system remembered last, and the
      digest was stored or served within the time to live.  And it misses what the unbounded cache
      still has only if at least `capacity` other digests were stored or served since, by the clock.
      The unbounded cache has what is alive, as the operations alone say. */
  lemma AgreesWithUnbounded(ws: seq<World>, ops: seq<Op>, ttl: nat, capacity: nat, k: nat)
    requires capacity >= 1 && Run(ws, ops, ttl, capacity) && k < |ops| && ops[k].Resolve?
    ensures var (w, digest, now) := (ws[k], ops[k].digest, ops[k].now);
            var hit, ideal := Resolved(w.cache, ttl, digest, now).1, Resolved(w.ideal, ttl, digest, now).1;
            && |w.cache| <= capacity
            && (ideal.Some? <==> Alive(ops, k + 1, digest, ttl))
            && (hit.Some? ==>
                  && hit == ideal == LastRemembered(ops[..k], digest)
                  && digest in w.touched && w.touched[digest] <= now <= w.touched[digest] + ttl)
            && (hit.None? && ideal.Some? ==> Crowded(w.touched, digest, capacity))
  {
    var w, digest := ws[k], ops[k].digest;
    UnboundedAnswers(ws, ops, ttl, capacity, k);
    RunKeepsInv(ws, ops, ttl, capacity, k);
    LastIs(ws, ops, ttl, capacity, k, digest);
    assert StepAt(ws, ops, k, ttl, capacity);
    if digest in w.cache { assert CacheAgrees(w, digest); }
    if digest in w.ideal { assert IdealExplained(w, digest, capacity); }
  }

  // ----- counting operations instead of reading the clock -----

  /** The operation stores or serves the digest. */
  predicate Touches(w: World, op: Op, ttl: nat, digest: string) {
    op.digest == digest && (op.Remember? || Resolved(w.cache, ttl, digest, op.now).1.Some?)
  }

  /** The latest of the first `k` operations that stored or served the digest. */
  function LastTouch(ws: seq<World>, ops: seq<Op>, ttl: nat, k: nat, digest: string): (j: Option<nat>)
    requires k <= |ops| <= |ws|
    ensures j.Some? ==> j.value < k && Touches(ws[j.value], ops[j.value], ttl, digest)
  {
    if k == 0 then None
    else if Touches(ws[k - 1], ops[k - 1], ttl, digest) then Some(k - 1)
    else LastTouch(ws, ops, ttl, k - 1, digest)
  }

  lemma {:induction false} LastTouchIs(ws: seq<World>, ops: seq<Op>, ttl: nat, capacity: nat, k: nat, digest: string)
    requires Run(ws, ops, ttl, capacity) && k <= |ops|
    ensures digest in ws[k].touched <==> LastTouch(ws, ops, ttl, k, digest).Some?
    ensures digest in ws[k].touched ==> ws[k].touched[digest] == ops[LastTouch(ws, ops, ttl, k, digest).value].now
    decreases k
  {
    if k > 0 {
      LastTouchIs(ws, ops, ttl, capacity, k - 1, digest);
      assert StepAt(ws, ops, k - 1, ttl, capacity);
    }
  }

  lemma {:induction false} ClockOnlyGoesOn(ws: seq<World>, ops: seq<Op>, ttl: nat, capacity: nat, i: nat, j: nat)
    requires Run(ws, ops, ttl, capacity) && i <= j < |ops|
    ensures ops[i].now <= ops[j].now
    decreases j
  {
    if i < j {
      ClockOnlyGoesOn(ws, ops, ttl, capacity, i, j - 1);
      assert StepAt(ws, ops, j - 1, ttl, capacity);
      assert StepAt(ws, ops, j, ttl, capacity);
    }
  }

  /** Other digests stored or served by operations after the last one that did so for `digest`. */
  ghost function SinceOps(ws: seq<World>, ops: seq<Op>, ttl: nat, k: nat, digest: string): set<string>
    requires k <= |ops| && |ws| == |ops| + 1 && LastTouch(ws, ops, ttl, k, digest).Some?
  {
    set d | d in ws[k].touched && d != digest && LastTouch(ws, ops, ttl, k, d).Some?
            && LastTouch(ws, ops, ttl, k, d).value > LastTouch(ws, ops, ttl, k, digest).value
  }

  /** Other digests last stored or served before it, but at the same instant. */
  ghost function TiedBefore(ws: seq<World>, ops: seq<Op>, ttl: nat, k: nat, digest: string): set<string>
    requires k <= |ops| && |ws| == |ops| + 1 && LastTouch(ws, ops, ttl, k, digest).Some?
  {
    set d | d in ws[k].touched && d != digest && LastTouch(ws, ops, ttl, k, d).Some?
            && LastTouch(ws, ops, ttl, k, d).value < LastTouch(ws, ops, ttl, k, digest).value
            && ops[LastTouch(ws, ops, ttl, k, d).value].now == ops[LastTouch(ws, ops, ttl, k, digest).value].now
  }

  /** No other digest was asked for earlier at the instant of the last touch. */
  predicate NoTie(ops: seq<Op>, j: nat, digest: string)
    requires j < |ops|
  {
    forall i :: 0 <= i < j && ops[i].now == ops[j].now ==> ops[i].digest == digest
  }

  /** By the clock, what came since is what later operations touched and what tied with the last
      touch. */
  lemma {:induction false} SinceSplits(ws: seq<World>, ops: seq<Op>, ttl: nat, capacity: nat, k: nat, digest: string)
    requires Run(ws, ops, ttl, capacity) && k <= |ops| && digest in ws[k].touched
    ensures LastTouch(ws, ops, ttl, k, digest).Some?
    ensures Since(ws[k].touched, digest) <= SinceOps(ws, ops, ttl, k, digest) + TiedBefore(ws, ops, ttl, k, digest)
  {
    LastTouchIs(ws, ops, ttl, capacity, k, digest);
    forall d | d in Since(ws[k].touched, digest)
      ensures d in SinceOps(ws, ops, ttl, k, digest) + TiedBefore(ws, ops, ttl, k, digest)
    {
      LastTouchIs(ws, ops, ttl, capacity, k, d);
      var i, j := LastTouch(ws, ops, ttl, k, d).value, LastTouch(ws, ops, ttl, k, digest).value;
      assert ops[i].digest == d && ops[j].digest == digest;
      if i < j { ClockOnlyGoesOn(ws, ops, ttl, capacity, i, j); }
    }
  }

  /** A miss that the unbounded cache would not have, counted in operations: those that touched other
      digests since, and the ties before, together fill the capacity.  So without a tie at the last
      touch at least `capacity` other digests were stored or served by later operations. */
  lemma {:induction false} MissCountedInOperations(ws: seq<World>, ops: seq<Op>, ttl: nat, capacity: nat, k: nat)
    requires capacity >= 1 && Run(ws, ops, ttl, capacity) && k < |ops| && ops[k].Resolve?
    requires Resolved(ws[k].cache, ttl, ops[k].digest, ops[k].now).1.None?
    requires Resolved(ws[k].ideal, ttl, ops[k].digest, ops[k].now).1.Some?
    ensures LastTouch(ws, ops, ttl, k, ops[k].digest).Some?
    ensures |SinceOps(ws, ops, ttl, k, ops[k].digest)| + |TiedBefore(ws, ops, ttl, k, ops[k].digest)| >= capacity
    ensures NoTie(ops, LastTouch(ws, ops, ttl, k, ops[k].digest).value, ops[k].digest) ==>
              |SinceOps(ws, ops, ttl, k, ops[k].digest)| >= capacity
  {
    var digest := ops[k].digest;
    AgreesWithUnbounded(ws, ops, ttl, capacity, k);
    SinceSplits(ws, ops, ttl, capacity, k, digest);
    var since, tied := SinceOps(ws, ops, ttl, k, digest), TiedBefore(ws, ops, ttl, k, digest);
    SubsetSize(Since(ws[k].touched, digest), since + tied);
    UnionSize(since, tied);
    var j := LastTouch(ws, ops, ttl, k, digest).value;
    if NoTie(ops, j, digest) {
      assert forall d :: LastTouch(ws, ops, ttl, k, d).Some? ==> ops[LastTouch(ws, ops, ttl, k, d).value].digest == d;
      assert tied == {};
    }
  }

  lemma {:induction false} UnionSize<T>(a: set<T>, b: set<T>)
    ensures |a + b| <= |a| + |b|
  {
    assert a + b == a + (b - a);
    assert a !! (b - a);
    SubsetSize(b - a, b);
  }

  // ----- why ties matter -----

  ghost predicate Distinct(ds: seq<string>) {
    forall i, j :: 0 <= i < j < |ds| ==> ds[i] != ds[j]
  }

  /** Every digest of the list with the same value. */
  function Filled<T>(ds: seq<string>, v: T): (m: map<string, T>)
    ensures forall d :: d in m <==> d in ds
    ensures forall d :: d in m ==> m[d] == v
  {
    if ds == [] then map[] else
      var n := |ds| - 1;
      assert ds == ds[..n] + [ds[n]];
      Filled(ds[..n], v)[ds[n] := v]
  }

  function Entered(ds: seq<string>): Entries {
    Filled(ds, Entry(Linux, 0))
  }

  /** The digests were all remembered at instant 0, and these are left in the cache. */
  function At0(ds: seq<string>, cache: Entries): World {
    World(cache, Entered(ds), Filled(ds, 0), Filled(ds, Linux), 0)
  }

  lemma {:induction false} EnteredSize(ds: seq<string>)
    requires Distinct(ds)
    ensures |Entered(ds)| == |ds|
  {
    if ds != [] {
      var n := |ds| - 1;
      EnteredSize(ds[..n]);
      assert ds == ds[..n] + [ds[n]];
      assert Entered(ds).Keys == Entered(ds[..n]).Keys + {ds[n]};
    }
  }

  lemma EnteredSnoc(ds: seq<string>, d: string)
    ensures Entered(ds)[d := Entry(Linux, 0)] == Entered(ds + [d])
    ensures At0(ds + [d], Entered(ds + [d])).touched == At0(ds, Entered(ds)).touched[d := 0]
    ensures At0(ds + [d], Entered(ds + [d])).last == At0(ds, Entered(ds)).last[d := Linux]
  {
  }

  lemma NothingStale(entries: Entries, ttl: nat)
    ensures Pruned(entries, 0, ttl) == entries
  {
  }

  /** Remembering one digest more, with room for it. */
  lemma FillStep(ds: seq<string>, d: string, ttl: nat, capacity: nat)
    requires Distinct(ds + [d]) && |ds| < capacity
    ensures Step(At0(ds, Entered(ds)), Remember(d, Linux, 0), At0(ds + [d], Entered(ds + [d])), ttl, capacity)
  {
    NothingStale(Entered(ds), ttl);
    EnteredSnoc(ds, d);
    assert forall i :: 0 <= i < |ds| ==> (ds + [d])[i] == ds[i];
    EnteredSize(ds);
  }

  /** All of `left`, then `x`, then `d`, each once. */
  ghost predicate Fresh(left: seq<string>, x: string, d: string) {
    Distinct(left + [x]) && x !in left && d !in left && d != x
  }

  lemma Replaced(left: seq<string>, x: string, d: string)
    requires Fresh(left, x, d)
    ensures x in Entered(left + [x]) && (Entered(left + [x]) - {x})[d := Entry(Linux, 0)] == Entered(left + [d])
  {
  }

  /** In the full cache that has `x` last, remembering `d` may cost `x` its place. */
  lemma EvictStep(left: seq<string>, x: string, d: string, ttl: nat)
    requires Fresh(left, x, d)
    ensures Stores(Entered(left + [x]), Entered(left + [d]), ttl, |left| + 1, d, Linux, 0)
  {
    NothingStale(Entered(left + [x]), ttl);
    EnteredSize(left + [x]);
    Replaced(left, x, d);
    assert Oldest(Entered(left + [x]), x);
  }

  lemma EvictWorld(left: seq<string>, x: string, d: string, ttl: nat)
    requires Fresh(left, x, d)
    ensures Step(At0(left + [x], Entered(left + [x])), Remember(d, Linux, 0),
                 At0(left + [x] + [d], Entered(left + [d])), ttl, |left| + 1)
  {
    EvictStep(left, x, d, ttl);
    EnteredSnoc(left + [x], d);
    NothingStale(Entered(left + [x]), ttl);
  }

  /** The miss; at instant 0 it changes nothing. */
  lemma MissStep(left: seq<string>, x: string, d: string, ttl: nat)
    requires Fresh(left, x, d)
    ensures Resolved(Entered(left + [d]), ttl, x, 0) == (Entered(left + [d]), None)
    ensures Resolved(Entered(left + [x] + [d]), ttl, x, 0) == (Entered(left + [x] + [d]), Some(Linux))
  {
    NothingStale(Entered(left + [d]), ttl);
    NothingStale(Entered(left + [x] + [d]), ttl);
    assert (left + [x] + [d])[|left|] == x;
    assert Entered(left + [x] + [d])[x := Entry(Linux, 0)] == Entered(left + [x] + [d]);
  }

  function TiedOps(left: seq<string>, x: string, d: string): seq<Op> {
    seq(|left| + 1, i requires 0 <= i <= |left| => Remember((left + [x])[i], Linux, 0)) + [Remember(d, Linux, 0), Resolve(x, 0)]
  }

  function TiedWorlds(left: seq<string>, x: string, d: string): seq<World> {
    var last := At0(left + [x] + [d], Entered(left + [d]));
    seq(|left| + 2, i requires 0 <= i < |left| + 2 => At0((left + [x])[..i], Entered((left + [x])[..i]))) + [last, last]
  }

  lemma FillAt(ds: seq<string>, i: nat, ttl: nat)
    requires Distinct(ds) && i < |ds|
    ensures Step(At0(ds[..i], Entered(ds[..i])), Remember(ds[i], Linux, 0), At0(ds[..i + 1], Entered(ds[..i + 1])), ttl, |ds|)
  {
    assert ds[..i] + [ds[i]] == ds[..i + 1];
    FillStep(ds[..i], ds[i], ttl, |ds|);
  }

  lemma MissWorld(left: seq<string>, x: string, d: string, ttl: nat)
    requires Fresh(left, x, d)
    ensures var w := At0(left + [x] + [d], Entered(left + [d]));
            Step(w, Resolve(x, 0), w, ttl, |left| + 1)
  {
    MissStep(left, x, d, ttl);
  }

  lemma TiedWorldAt(left: seq<string>, x: string, d: string, i: nat)
    requires i < |left| + 4
    ensures TiedWorlds(left, x, d)[i] == if i < |left| + 2 then At0((left + [x])[..i], Entered((left + [x])[..i]))
                                         else At0(left + [x] + [d], Entered(left + [d]))
  {
  }

  lemma StepBetween(ws: seq<World>, ops: seq<Op>, i: nat, ttl: nat, capacity: nat, w: World, op: Op, w': World)
    requires i < |ops| && i + 1 < |ws| && ws[i] == w && ops[i] == op && ws[i + 1] == w'
    requires Step(w, op, w', ttl, capacity)
    ensures StepAt(ws, ops, i, ttl, capacity)
  {
  }

  lemma TiedFill(left: seq<string>, x: string, d: string, ttl: nat, i: nat)
    requires Fresh(left, x, d) && i <= |left|
    ensures StepAt(TiedWorlds(left, x, d), TiedOps(left, x, d), i, ttl, |left| + 1)
  {
    var ds := left + [x];
    FillAt(ds, i, ttl);
    TiedWorldAt(left, x, d, i);
    TiedWorldAt(left, x, d, i + 1);
    StepBetween(TiedWorlds(left, x, d), TiedOps(left, x, d), i, ttl, |left| + 1,
                At0(ds[..i], Entered(ds[..i])), Remember(ds[i], Linux, 0), At0(ds[..i + 1], Entered(ds[..i + 1])));
  }

  lemma AroundEviction(left: seq<string>, x: string, d: string)
    ensures var k := |left| + 1;
            && TiedWorlds(left, x, d)[k] == At0(left + [x], Entered(left + [x]))
            && TiedOps(left, x, d)[k] == Remember(d, Linux, 0)
            && TiedWorlds(left, x, d)[k + 1] == At0(left + [x] + [d], Entered(left + [d]))
  {
    var k := |left| + 1;
    assert (left + [x])[..k] == left + [x];
    TiedWorldAt(left, x, d, k);
    TiedWorldAt(left, x, d, k + 1);
  }

  lemma TiedEvict(left: seq<string>, x: string, d: string, ttl: nat)
    requires Fresh(left, x, d)
    ensures StepAt(TiedWorlds(left, x, d), TiedOps(left, x, d), |left| + 1, ttl, |left| + 1)
  {
    var w, w' := At0(left + [x], Entered(left + [x])), At0(left + [x] + [d], Entered(left + [d]));
    AroundEviction(left, x, d);
    EvictWorld(left, x, d, ttl);
    StepBetween(TiedWorlds(left, x, d), TiedOps(left, x, d), |left| + 1, ttl, |left| + 1, w, Remember(d, Linux, 0), w');
  }

  lemma TiedMiss(left: seq<string>, x: string, d: string, ttl: nat)
    requires Fresh(left, x, d)
    ensures StepAt(TiedWorlds(left, x, d), TiedOps(left, x, d), |left| + 2, ttl, |left| + 1)
  {
    var k, w := |left| + 2, At0(left + [x] + [d], Entered(left + [d]));
    MissWorld(left, x, d, ttl);
    TiedWorldAt(left, x, d, k);
    TiedWorldAt(left, x, d, k + 1);
    StepBetween(TiedWorlds(left, x, d), TiedOps(left, x, d), k, ttl, |left| + 1, w, Resolve(x, 0), w);
  }

  lemma TiedRun(left: seq<string>, x: string, d: string, ttl: nat)
    requires Fresh(left, x, d)
    ensures Run(TiedWorlds(left, x, d), TiedOps(left, x, d), ttl, |left| + 1)
  {
    assert (left + [x])[..0] == [];
    assert Entered([]) == map[] && At0([], Entered([])) == START;
    var ws, ops, capacity := TiedWorlds(left, x, d), TiedOps(left, x, d), |left| + 1;
    forall i | 0 <= i < |left| + 3
      ensures StepAt(ws, ops, i, ttl, capacity)
    {
      if i <= |left| { TiedFill(left, x, d, ttl, i); }
      if i == |left| + 1 { TiedEvict(left, x, d, ttl); }
      if i == |left| + 2 { TiedMiss(left, x, d, ttl); }
    }
  }

  lemma {:induction false} LastTouchAt(ws: seq<World>, ops: seq<Op>, ttl: nat, k: nat, j: nat)
    requires j < k <= |ops| <= |ws| && ops[j].Remember? && forall i :: j < i < k ==> ops[i].digest != ops[j].digest
    ensures LastTouch(ws, ops, ttl, k, ops[j].digest) == Some(j)
  {
    if j < k - 1 { LastTouchAt(ws, ops, ttl, k - 1, j); }
  }

  lemma TiedOpsAt(left: seq<string>, x: string, d: string)
    ensures var ops := TiedOps(left, x, d);
            && (forall i :: 0 <= i < |left| ==> ops[i] == Remember(left[i], Linux, 0))
            && ops[|left|] == Remember(x, Linux, 0) && ops[|left| + 1] == Remember(d, Linux, 0)
  {
  }

  lemma DistinctFront(left: seq<string>, x: string)
    requires Distinct(left + [x])
    ensures Distinct(left)
  {
    assert (left + [x])[..|left|] == left;
  }

  lemma TiedEarlier(ws: seq<World>, left: seq<string>, x: string, d: string, ttl: nat, y: string)
    requires Fresh(left, x, d) && y in left && |ws| == |left| + 4
    ensures var j := LastTouch(ws, TiedOps(left, x, d), ttl, |left| + 2, y);
            j.Some? && j.value < |left|
  {
    TiedOpsAt(left, x, d);
    DistinctFront(left, x);
    var i :| 0 <= i < |left| && left[i] == y;
    LastTouchAt(ws, TiedOps(left, x, d), ttl, |left| + 2, i);
  }

  ghost predicate AllTouched(touched: map<string, nat>, left: seq<string>, x: string, d: string) {
    forall y :: y in touched <==> y in left || y == x || y == d
  }

  lemma TiedTouched(left: seq<string>, x: string, d: string)
    ensures AllTouched(TiedWorlds(left, x, d)[|left| + 2].touched, left, x, d)
  {
    TiedWorldAt(left, x, d, |left| + 2);
  }

  /** After the run's stores, the only digest that came after `x` is `d`. */
  lemma TiedSince(ws: seq<World>, left: seq<string>, x: string, d: string, ttl: nat)
    requires Fresh(left, x, d) && |ws| == |left| + 4 && AllTouched(ws[|left| + 2].touched, left, x, d)
    ensures var (ops, k) := (TiedOps(left, x, d), |left| + 2);
            LastTouch(ws, ops, ttl, k, x).Some? && SinceOps(ws, ops, ttl, k, x) == {d}
  {
    var ops, k := TiedOps(left, x, d), |left| + 2;
    TiedOpsAt(left, x, d);
    LastTouchAt(ws, ops, ttl, k, |left|);
    LastTouchAt(ws, ops, ttl, k, |left| + 1);
    forall y | y in left ensures LastTouch(ws, ops, ttl, k, y).Some? && LastTouch(ws, ops, ttl, k, y).value < |left| {
      TiedEarlier(ws, left, x, d, ttl, y);
    }
  }

  /** Counted in operations the bound fails as badly as can be: for every capacity above one there is
      a run, all at one instant, that ends in a miss the unbounded cache would not have, although only one
      other digest was stored after the missed one. */
  lemma {:induction false} TiedClockEvictsEarly(left: seq<string>, x: string, d: string, ttl: nat)
    requires Fresh(left, x, d)
    ensures var (ws, ops, k) := (TiedWorlds(left, x, d), TiedOps(left, x, d), |left| + 2);
            && Run(ws, ops, ttl, |left| + 1) && k == |ops| - 1 && ops[k] == Resolve(x, 0)
            && Resolved(ws[k].cache, ttl, x, 0).1.None? && Resolved(ws[k].ideal, ttl, x, 0).1.Some?
            && LastTouch(ws, ops, ttl, k, x).Some? && SinceOps(ws, ops, ttl, k, x) == {d}
  {
    TiedRun(left, x, d, ttl);
    MissStep(left, x, d, ttl);
    TiedTouched(left, x, d);
    TiedSince(TiedWorlds(left, x, d), left, x, d, ttl);
  }
}
