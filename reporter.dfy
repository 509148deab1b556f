/**
 * The reporter's in-memory telemetry backlog: a queue of size-bounded
 * buckets of transaction payloads whose last element is the bucket being
 * filled, the registry of unknown features (first default wins), the
 * bookkeeping around one attempt to send the oldest bucket, and the pause
 * the sender loop takes after each iteration.
 */
module Reporter {
  import opened Wrappers
  import opened Errors
  import opened RubyValues

  /** Oldest buckets are thrown away once the queue grows past this many. */
  const MAX_BUCKETS: nat := 10

  /** Most payloads one bucket collects. */
  const MAX_BUCKET_SIZE: nat := 100

  type Bucket = seq<Value>

  /** Unknown features: feature name -> version name -> default enabled, as nested Ruby Hashes. */
  type Registry = AList<Value, AList<Value, Value>>

  /** The body of one POST to /report/transactions, less the client id, latency and request log. */
  datatype ReportPayload = ReportPayload(transactions: Bucket, waitingBuckets: seq<nat>, unknownFeatures: Registry)

  /** Every queued payload, oldest first. */
  function Flatten(bs: seq<Bucket>): seq<Value> {
    if bs == [] then [] else bs[0] + Flatten(bs[1..])
  }

  lemma {:induction false} FlattenAppend(a: seq<Bucket>, b: seq<Bucket>)
    ensures Flatten(a + b) == Flatten(a) + Flatten(b)
  {
    if a != [] {
      assert (a + b)[0] == a[0];
      assert (a + b)[1..] == a[1..] + b;
      FlattenAppend(a[1..], b);
      calc {
        Flatten(a + b);
        a[0] + Flatten(a[1..] + b);
        a[0] + (Flatten(a[1..]) + Flatten(b));
        (a[0] + Flatten(a[1..])) + Flatten(b);
      }
    } else {
      assert a + b == b;
    }
  }

  /** The sizes of the buckets, in queue order (stats.waiting_buckets). */
  function Sizes(bs: seq<Bucket>): (r: seq<nat>)
    ensures |r| == |bs| && forall i :: 0 <= i < |bs| ==> r[i] == |bs[i]|
  {
    seq(|bs|, i requires 0 <= i < |bs| => |bs[i]|)
  }

  // ---------------------------------------------------------------------------
  // The unknown-feature registry

  /** Every feature once, and every version once within its feature. */
  ghost predicate WellFormed(reg: Registry) {
    UniqueKeys(reg) && forall i :: 0 <= i < |reg| ==> UniqueKeys(reg[i].1)
  }

  /** Versions merged into one feature's entry: a version already present keeps its default. */
  function MergeVersions(inner: AList<Value, Value>, versions: AList<Value, Value>): (r: AList<Value, Value>)
    ensures |r| >= |inner| && r[..|inner|] == inner
  {
    if versions == [] then inner
    else
      var pre := MergeVersions(inner, versions[..|versions| - 1]);
      var (v, d) := versions[|versions| - 1];
      if HasKey(pre, v) then pre else pre + [(v, d)]
  }

  /** One feature's versions merged in; every other feature's entry is left as it was. */
  function MergeStep(reg: Registry, f: Value, versions: AList<Value, Value>): (r: Registry)
    ensures Keys(r) == if HasKey(reg, f) then Keys(reg) else Keys(reg) + [f]
    ensures forall g :: g != f ==> Get(r, g) == Get(reg, g)
  {
    Put(reg, f, MergeVersions(Get(reg, f).GetOr([]), versions))
  }

  /** The registry after queue_unknown_features has walked `input` in order. */
  function MergeInto(reg: Registry, input: Registry): Registry {
    if input == [] then reg
    else MergeStep(MergeInto(reg, input[..|input| - 1]), input[|input| - 1].0, input[|input| - 1].1)
  }

  /** Features already queued keep their places; new ones are appended after them. */
  lemma {:induction false} MergeIntoKeepsOrder(reg: Registry, input: Registry)
    ensures |MergeInto(reg, input)| >= |reg| && Keys(MergeInto(reg, input))[..|reg|] == Keys(reg)
  {
    if input != [] {
      var init := input[..|input| - 1];
      var (f, versions) := input[|input| - 1];
      var pre := MergeInto(reg, init);
      MergeIntoKeepsOrder(reg, init);
      var next := MergeStep(pre, f, versions);
      assert MergeInto(reg, input) == next;
      assert Keys(next)[..|pre|] == Keys(pre);
      assert Keys(next)[..|reg|] == Keys(pre)[..|reg|];
    }
  }

  /** The default of the earliest entry of `input` that names (f, v). */
  function FirstDefault(input: Registry, f: Value, v: Value): Option<Value> {
    if input == [] then None
    else
      var pre := FirstDefault(input[..|input| - 1], f, v);
      if pre.Some? then pre
      else if input[|input| - 1].0 == f then Get(input[|input| - 1].1, v)
      else None
  }

  lemma {:induction false} MergeVersionsGet(inner: AList<Value, Value>, versions: AList<Value, Value>, v: Value)
    ensures Get(MergeVersions(inner, versions), v) == if HasKey(inner, v) then Get(inner, v) else Get(versions, v)
  {
    if versions != [] {
      var pre := versions[..|versions| - 1];
      var last := versions[|versions| - 1];
      var m := MergeVersions(inner, pre);
      MergeVersionsGet(inner, pre, v);
      assert versions == pre + [last];
      GetAppend(pre, last, v);
      assert Get(versions, v) == if HasKey(pre, v) then Get(pre, v) else if last.0 == v then Some(last.1) else None;
      if HasKey(m, last.0) {
        assert MergeVersions(inner, versions) == m;
      } else {
        assert MergeVersions(inner, versions) == m + [last];
        GetAppend(m, last, v);
      }
    }
  }

  /**
   * First write wins: after a merge, a pair the registry already held keeps
   * its default, and a new pair gets the default of the earliest input entry
   * that names it.
   */
  lemma {:induction false} MergeGet(reg: Registry, input: Registry, f: Value, v: Value)
    ensures Get2(MergeInto(reg, input), f, v) == if Get2(reg, f, v).Some? then Get2(reg, f, v) else FirstDefault(input, f, v)
  {
    if input != [] {
      var pre := input[..|input| - 1];
      var (g, vs) := input[|input| - 1];
      var m := MergeInto(reg, pre);
      MergeGet(reg, pre, f, v);
      if g == f {
        MergeVersionsGet(Get(m, f).GetOr([]), vs, v);
      }
    }
  }

  /** Merging the same unknown features twice records nothing the first merge did not. */
  lemma MergeIdempotent(reg: Registry, input: Registry, f: Value, v: Value)
    ensures Get2(MergeInto(MergeInto(reg, input), input), f, v) == Get2(MergeInto(reg, input), f, v)
  {
    MergeGet(reg, input, f, v);
    MergeGet(MergeInto(reg, input), input, f, v);
  }

  lemma {:induction false} MergeVersionsUnique(inner: AList<Value, Value>, versions: AList<Value, Value>)
    requires UniqueKeys(inner)
    ensures UniqueKeys(MergeVersions(inner, versions))
  {
    if versions != [] {
      var pre := MergeVersions(inner, versions[..|versions| - 1]);
      MergeVersionsUnique(inner, versions[..|versions| - 1]);
      if !HasKey(pre, versions[|versions| - 1].0) {
        AppendFreshUnique(pre, versions[|versions| - 1]);
      }
    }
  }

  lemma MergeStepWellFormed(reg: Registry, f: Value, versions: AList<Value, Value>)
    requires WellFormed(reg)
    ensures WellFormed(MergeStep(reg, f, versions))
  {
    var inner := Get(reg, f).GetOr([]);
    if HasKey(reg, f) {
      GetEntry(reg, f);
    }
    MergeVersionsUnique(inner, versions);
    var r := MergeStep(reg, f, versions);
    PutKeepsKeysUnique(reg, f, MergeVersions(inner, versions));
    forall i | 0 <= i < |r| ensures UniqueKeys(r[i].1) {
      PutEntries(reg, f, MergeVersions(inner, versions), i);
    }
  }

  lemma {:induction false} MergeWellFormed(reg: Registry, input: Registry)
    requires WellFormed(reg)
    ensures WellFormed(MergeInto(reg, input))
  {
    if input != [] {
      MergeWellFormed(reg, input[..|input| - 1]);
      MergeStepWellFormed(MergeInto(reg, input[..|input| - 1]), input[|input| - 1].0, input[|input| - 1].1);
    }
  }

  lemma {:induction false} MergeVersionsIntoEmpty(versions: AList<Value, Value>)
    requires UniqueKeys(versions)
    ensures MergeVersions([], versions) == versions
  {
    if versions != [] {
      var pre := versions[..|versions| - 1];
      var last := versions[|versions| - 1];
      LastKeyFresh(versions);
      MergeVersionsIntoEmpty(pre);
      assert versions == pre + [last];
    }
  }

  /** Merging a well-formed registry into an empty one gives it back unchanged. */
  lemma {:induction false} MergeIntoEmpty(snapshot: Registry)
    requires WellFormed(snapshot)
    ensures MergeInto([], snapshot) == snapshot
  {
    if snapshot != [] {
      var pre := snapshot[..|snapshot| - 1];
      var f := snapshot[|snapshot| - 1].0;
      var versions := snapshot[|snapshot| - 1].1;
      WellFormedPrefix(snapshot);
      MergeIntoEmpty(pre);
      assert MergeInto([], snapshot) == MergeStep(pre, f, versions);
      MergeStepFresh(pre, f, versions);
      assert pre + [(f, versions)] == snapshot;
    }
  }

  lemma MergeStepFresh(reg: Registry, f: Value, versions: AList<Value, Value>)
    requires !HasKey(reg, f) && UniqueKeys(versions)
    ensures MergeStep(reg, f, versions) == reg + [(f, versions)]
  {
    MergeVersionsIntoEmpty(versions);
    PutAbsent(reg, f, versions);
  }

  lemma WellFormedPrefix(reg: Registry)
    requires WellFormed(reg) && reg != []
    ensures WellFormed(reg[..|reg| - 1]) && !HasKey(reg[..|reg| - 1], reg[|reg| - 1].0)
    ensures UniqueKeys(reg[|reg| - 1].1)
  {
    LastKeyFresh(reg);
    var pre := reg[..|reg| - 1];
    forall i | 0 <= i < |pre| ensures UniqueKeys(pre[i].1) {
      assert pre[i] == reg[i];
    }
  }

  /** Every value of the Hash is itself a Hash. */
  predicate HashValued(es: AList<Value, Value>) {
    forall i :: 0 <= i < |es| ==> es[i].1.Hash?
  }

  /** The argument checks of queue_unknown_features: a Hash whose every value is a Hash. */
  function ToRegistry(arg: Value): (r: Result<Registry, Error>)
    ensures r.Ok? <==> arg.Hash? && HashValued(arg.entries)
    ensures !arg.Hash? ==> r == Err(UnknownFeaturesNotHash)
    ensures arg.Hash? && !HashValued(arg.entries) ==> r == Err(UnknownFeaturesValuesNotHash)
    ensures r.Ok? ==> NestedHash(r.value) == arg
  {
    if !arg.Hash? then Err(UnknownFeaturesNotHash)
    else if !HashValued(arg.entries) then Err(UnknownFeaturesValuesNotHash)
    else
      var es := arg.entries;
      var reg := seq(|es|, i requires 0 <= i < |es| => (es[i].0, es[i].1.entries));
      assert NestedHash(reg).entries == es;
      Ok(reg)
  }

  /** A registry passes the checks of queue_unknown_features and reads back as itself. */
  lemma RegistryRoundTrip(reg: Registry)
    ensures ToRegistry(NestedHash(reg)) == Ok(reg)
  {
    var v := NestedHash(reg);
    forall i | 0 <= i < |v.entries| ensures v.entries[i] == (reg[i].0, Hash(reg[i].1)) {
    }
    assert HashValued(v.entries);
    var back := ToRegistry(v).value;
    assert back == seq(|v.entries|, i requires 0 <= i < |v.entries| => (v.entries[i].0, v.entries[i].1.entries));
    forall i | 0 <= i < |reg| ensures back[i] == reg[i] {
    }
    assert back == reg;
  }

  // ---------------------------------------------------------------------------
  // The sender loop's pacing

  datatype Pause =
    | QueueEmptyCheck       // nothing queued
    | SuccessNoneWaiting    // sent, at most one bucket left
    | SuccessNextWaiting    // sent, more buckets waiting
    | SendFailure           // the POST failed or the iteration raised

  function Millis(p: Pause): nat {
    match p
    case QueueEmptyCheck => 500
    case SuccessNoneWaiting => 1000
    case SuccessNextWaiting => 100
    case SendFailure => 5000
  }

  /** The pause after one iteration of the sender loop, given what it saw and how the send ended. */
  function PauseAfter(queued: bool, send: Result<bool, Error>, bucketCount: nat): (p: Pause)
    ensures !queued ==> Millis(p) == 500
    ensures queued && send == Ok(true) ==> Millis(p) == if bucketCount <= 1 then 1000 else 100
    ensures queued && send != Ok(true) ==> Millis(p) == 5000
  {
    if !queued then QueueEmptyCheck
    else if send == Ok(true) then (if bucketCount <= 1 then SuccessNoneWaiting else SuccessNextWaiting)
    else SendFailure
  }

  /** Pauses stay between 0.1 s and 5 s; a failure waits longer than any success, and a backlog drains ten times faster. */
  lemma PacingOrder(queued: bool, send: Result<bool, Error>, n: nat, m: nat)
    requires queued
    ensures 100 <= Millis(PauseAfter(queued, send, n)) <= 5000
    ensures send != Ok(true) ==> Millis(PauseAfter(queued, send, n)) > Millis(PauseAfter(queued, Ok(true), m))
    ensures n > 1 && m <= 1 ==> 10 * Millis(PauseAfter(queued, Ok(true), n)) == Millis(PauseAfter(queued, Ok(true), m))
  {
  }

  // ---------------------------------------------------------------------------
  // The reporter

  class AppReporter {
    var buckets: seq<Bucket>
    var currentBucket: Bucket
    var unknownFeatures: Registry

    /**
     * The queue is never empty, its last element is the current bucket,
     * it holds at most MAX_BUCKETS + 1 buckets (unremove_bucket may put an
     * eleventh back), and no bucket exceeds MAX_BUCKET_SIZE payloads.
     */
    ghost predicate Valid()
      reads this
    {
      1 <= |buckets| <= MAX_BUCKETS + 1 &&
      currentBucket == buckets[|buckets| - 1] &&
      (forall i :: 0 <= i < |buckets| ==> |buckets[i]| <= MAX_BUCKET_SIZE) &&
      WellFormed(unknownFeatures)
    }

    /** Every bucket but the current one holds a payload. */
    ghost predicate SealedNonEmpty()
      reads this
    {
      forall i :: 0 <= i < |buckets| - 1 ==> |buckets[i]| > 0
    }

    function Queued(): bool
      reads this
      requires Valid()
    {
      (|buckets| == 1 && |currentBucket| > 0) || (|buckets| > 1 && |buckets[0]| > 0)
    }

    constructor()
      ensures Valid() && SealedNonEmpty()
      ensures buckets == [[]] && currentBucket == [] && unknownFeatures == []
    {
      buckets := [];
      currentBucket := [];
      unknownFeatures := [];
      new;
      currentBucket := NewBucket();
    }

    /** Push an empty bucket at the back; past MAX_BUCKETS, drop the oldest. The caller makes it current. */
    method NewBucket() returns (bucket: Bucket)
      requires |buckets| <= MAX_BUCKETS + 1
      modifies this`buckets
      ensures bucket == []
      ensures buckets == if |old(buckets)| + 1 > MAX_BUCKETS then (old(buckets) + [[]])[1..] else old(buckets) + [[]]
      ensures 1 <= |buckets| <= MAX_BUCKETS + 1
    {
      bucket := [];
      buckets := buckets + [bucket];
      if |buckets| > MAX_BUCKETS {
        buckets := buckets[1..];
      }
    }

    /** Take the oldest bucket off the queue; an emptied queue gets a fresh current bucket. */
    method RemoveBucket() returns (removed: Option<Bucket>)
      requires Valid()
      modifies this`buckets, this`currentBucket
      ensures Valid()
      ensures removed == if |old(buckets)| > 0 then Some(old(buckets)[0]) else None
      ensures |old(buckets)| > 1 ==> buckets == old(buckets)[1..] && currentBucket == old(currentBucket)
      ensures |old(buckets)| <= 1 ==> buckets == [[]] && currentBucket == []
      ensures |buckets| <= MAX_BUCKETS
      ensures old(SealedNonEmpty()) ==> SealedNonEmpty()
    {
      removed := None;
      if |buckets| > 0 {
        removed := Some(buckets[0]);
        buckets := buckets[1..];
      }
      if |buckets| == 0 {
        currentBucket := [];
        buckets := buckets + [currentBucket];
      }
    }

    /** Put a bucket back at the front, unless the queue already holds more than MAX_BUCKETS. */
    method UnremoveBucket(bucket: Bucket) returns (success: bool)
      requires Valid() && |bucket| <= MAX_BUCKET_SIZE
      modifies this`buckets
      ensures Valid()
      ensures success == (|old(buckets)| <= MAX_BUCKETS)
      ensures buckets == if success then [bucket] + old(buckets) else old(buckets)
      ensures old(SealedNonEmpty()) && |bucket| > 0 ==> SealedNonEmpty()
    {
      success := false;
      if |buckets| <= MAX_BUCKETS {
        buckets := [bucket] + buckets;
        success := true;
      }
    }

    /** Append a payload to the current bucket, first making a fresh one current when it is full. */
    method QueueTransactionPayload(payload: Value)
      requires Valid()
      modifies this`buckets, this`currentBucket
      ensures Valid()
      ensures |old(currentBucket)| < MAX_BUCKET_SIZE ==>
        buckets == old(buckets)[..|old(buckets)| - 1] + [old(currentBucket) + [payload]]
      ensures |old(currentBucket)| >= MAX_BUCKET_SIZE ==>
        buckets == (if |old(buckets)| + 1 > MAX_BUCKETS then old(buckets)[1..] else old(buckets)) + [[payload]]
      ensures old(SealedNonEmpty()) ==> SealedNonEmpty()
    {
      ghost var before := buckets;
      if |currentBucket| >= MAX_BUCKET_SIZE {
        currentBucket := NewBucket();
        if |before| + 1 > MAX_BUCKETS {
          assert buckets == (before + [[]])[1..];
          assert buckets[..|buckets| - 1] == before[1..];
        } else {
          assert buckets[..|buckets| - 1] == before;
        }
      }
      ghost var emptied := currentBucket == [];
      currentBucket := currentBucket + [payload];
      assert emptied ==> currentBucket == [payload];
      // @current_bucket is the queue's last element: one object in the source
      buckets := buckets[..|buckets| - 1] + [currentBucket];
    }

    /** Whether anything is waiting to be sent, judged as the source judges it. */
    method TransactionsQueued() returns (queued: bool)
      requires Valid()
      ensures queued == Queued()
      ensures SealedNonEmpty() ==> (queued <==> Flatten(buckets) != [])
    {
      queued := false;
      if |buckets| == 1 {
        if |currentBucket| > 0 {
          queued := true;
        }
      } else if |buckets| > 1 && |buckets[0]| > 0 {
        queued := true;
      }
      if SealedNonEmpty() {
        FlattenAppend([buckets[0]], buckets[1..]);
        assert buckets == [buckets[0]] + buckets[1..];
      }
    }

    method BucketCount() returns (n: nat)
      requires Valid()
      ensures n == |buckets| && 1 <= n <= MAX_BUCKETS + 1
    {
      n := |buckets|;
    }

    /** Merge one feature's versions into the registry; a version already recorded keeps its default. */
    method MergeFeature(f: Value, versions: AList<Value, Value>)
      requires WellFormed(unknownFeatures)
      modifies this`unknownFeatures
      ensures unknownFeatures == MergeStep(old(unknownFeatures), f, versions)
      ensures WellFormed(unknownFeatures)
    {
      ghost var before := unknownFeatures;
      ghost var inner0 := Get(before, f).GetOr([]);
      if !HasKey(unknownFeatures, f) {
        unknownFeatures := Put(unknownFeatures, f, []);
      } else {
        PutPresent(unknownFeatures, f);
      }
      var j := 0;
      while j < |versions|
        invariant 0 <= j <= |versions|
        invariant unknownFeatures == Put(before, f, MergeVersions(inner0, versions[..j]))
      {
        var (v, d) := versions[j];
        var inner := Get(unknownFeatures, f).value;
        assert versions[..j + 1][..j] == versions[..j];
        if !HasKey(inner, v) {
          PutPut(before, f, inner, inner + [(v, d)]);
          unknownFeatures := Put(unknownFeatures, f, inner + [(v, d)]);
        }
        j := j + 1;
      }
      assert versions[..j] == versions;
      MergeStepWellFormed(before, f, versions);
    }

    /** The argument checks of queue_unknown_features, entry by entry, building the registry as they go. */
    static method CheckUnknownFeatures(arg: Value) returns (r: Result<Registry, Error>)
      ensures r == ToRegistry(arg)
    {
      if !arg.Hash? {
        return Err(UnknownFeaturesNotHash);
      }
      var reg: Registry := [];
      var k := 0;
      while k < |arg.entries|
        invariant 0 <= k <= |arg.entries| && |reg| == k
        invariant forall i :: 0 <= i < k ==> arg.entries[i].1.Hash? && reg[i] == (arg.entries[i].0, arg.entries[i].1.entries)
      {
        if !arg.entries[k].1.Hash? {
          return Err(UnknownFeaturesValuesNotHash);
        }
        reg := reg + [(arg.entries[k].0, arg.entries[k].1.entries)];
        k := k + 1;
      }
      assert HashValued(arg.entries);
      assert reg == ToRegistry(arg).value;
      r := Ok(reg);
    }

    /** Merge checked unknown features into the registry, feature by feature. */
    method MergeAll(input: Registry)
      requires WellFormed(unknownFeatures)
      modifies this`unknownFeatures
      ensures unknownFeatures == MergeInto(old(unknownFeatures), input)
      ensures WellFormed(unknownFeatures)
    {
      var i := 0;
      while i < |input|
        invariant 0 <= i <= |input|
        invariant unknownFeatures == MergeInto(old(unknownFeatures), input[..i])
        invariant WellFormed(unknownFeatures)
      {
        MergeFeature(input[i].0, input[i].1);
        assert input[..i + 1][..i] == input[..i];
        i := i + 1;
      }
      assert input[..i] == input;
    }

    /** Merge unknown features into the registry, first default wins; the checks run before anything changes. */
    method QueueUnknownFeatures(arg: Value) returns (r: Result<(), Error>)
      requires Valid()
      modifies this`unknownFeatures
      ensures Valid()
      ensures ToRegistry(arg).Err? ==> r == Err(ToRegistry(arg).error) && unknownFeatures == old(unknownFeatures)
      ensures ToRegistry(arg).Ok? ==> r == Ok(()) && unknownFeatures == MergeInto(old(unknownFeatures), ToRegistry(arg).value)
    {
      var checked := CheckUnknownFeatures(arg);
      if checked.Err? {
        return Err(checked.error);
      }
      var input := checked.value;
      MergeAll(input);
      assert buckets == old(buckets) && currentBucket == old(currentBucket);
      r := Ok(());
    }

    /**
     * One send attempt: take the oldest bucket, snapshot and clear the
     * registry, report the sizes of the buckets left; on failure put the
     * bucket back at the front and merge the snapshot back in.
     */
    method SendTransactions(postSucceeded: bool) returns (r: Result<bool, Error>, sent: ReportPayload)
      requires Valid()
      modifies this
      ensures Valid()
      ensures r == Ok(postSucceeded)
      ensures sent.transactions == old(buckets)[0] && sent.unknownFeatures == old(unknownFeatures)
      ensures sent.waitingBuckets == Sizes(if |old(buckets)| > 1 then old(buckets)[1..] else [[]])
      ensures postSucceeded ==> (unknownFeatures == [] &&
        buckets == (if |old(buckets)| > 1 then old(buckets)[1..] else [[]]))
      ensures !postSucceeded ==> (unknownFeatures == old(unknownFeatures) &&
        buckets == (if |old(buckets)| > 1 then old(buckets) else [old(buckets)[0], []]))
      ensures old(SealedNonEmpty()) && |old(buckets)[0]| > 0 ==> SealedNonEmpty()
    {
      ghost var before := buckets;
      var removed := RemoveBucket();
      var bucket := removed.value;
      var snapshot := unknownFeatures;
      unknownFeatures := [];
      var waiting := Sizes(buckets);
      sent := ReportPayload(bucket, waiting, snapshot);
      if !postSucceeded {
        var requeued := UnremoveBucket(bucket);
        if !requeued {
          // reporter.rb:179 names the undefined local `discarded_bucket`; the NameError skips the merge below
          r := Err(UndefinedName);
          return;
        }
        assert [before[0]] + before[1..] == before;
        RequeueUnknownFeatures(snapshot);
      }
      r := Ok(postSucceeded);
    }

    /** The snapshot of a failed send queued again into the emptied registry, as queue_unknown_features does it. */
    method RequeueUnknownFeatures(snapshot: Registry)
      requires Valid() && unknownFeatures == [] && WellFormed(snapshot)
      modifies this`unknownFeatures
      ensures Valid() && unknownFeatures == snapshot
    {
      RegistryRoundTrip(snapshot);
      MergeIntoEmpty(snapshot);
      var merged := QueueUnknownFeatures(NestedHash(snapshot));
    }

    /**
     * One iteration of the sender loop, the POST's outcome given: nothing
     * happens while nothing is queued; otherwise one send attempt, then the
     * pause chosen from its outcome and the number of buckets left.
     */
    method SenderIteration(postSucceeded: bool) returns (pause: Pause, sent: Option<ReportPayload>)
      requires Valid() && SealedNonEmpty()
      modifies this
      ensures Valid() && SealedNonEmpty()
      ensures !old(Queued()) ==> (pause == QueueEmptyCheck && sent == None &&
        buckets == old(buckets) && unknownFeatures == old(unknownFeatures))
      ensures old(Queued()) ==> sent.Some? && pause == PauseAfter(true, Ok(postSucceeded), |buckets|)
      ensures old(Queued()) && postSucceeded ==> old(Flatten(buckets)) == sent.value.transactions + Flatten(buckets)
      ensures !postSucceeded ==> Flatten(buckets) == old(Flatten(buckets)) && unknownFeatures == old(unknownFeatures)
    {
      var queued := TransactionsQueued();
      if !queued {
        return QueueEmptyCheck, None;
      }
      ghost var before := buckets;
      var result, payload := SendTransactions(postSucceeded);
      sent := Some(payload);
      var count := BucketCount();
      pause := PauseAfter(true, result, count);
      assert before == [before[0]] + before[1..];
      FlattenAppend([before[0]], before[1..]);
      if |before| <= 1 {
        assert Flatten([[]]) == [];
        FlattenAppend([before[0]], [[]]);
      }
    }
  }
}
