/**
 * The durable stores: a FIFO of report buckets refused once its file
 * grows past a size limit, and a store of two slots holding the last
 * known features and the unknown features. Each PStore file is a state
 * field; the file's size and the failure of a read or write are inputs.
 * Either store has a Null stand-in, chosen from the cache configuration,
 * that keeps nothing.
 */
module Persistence {
  import opened Wrappers
  import opened Errors
  import opened RubyValues

  function Min(a: int, b: int): int { if a <= b then a else b }

  // ---------------------------------------------------------------------------
  // Choosing a store from the cache configuration

  /** Which buckets store `create` builds: a durable one with its size limit, or the Null one. */
  datatype BucketsKind = DurableBuckets(limit: int) | NullBucketsKind

  /**
   * Buckets.create: durable only when the configuration names a directory,
   * is enabled and has a positive limit. `limit > 0` raises for a limit
   * that is not a number.
   */
  function BucketsKindFor(config: Value): (r: Result<BucketsKind, Error>)
    ensures !Truthy(config) ==> r == Ok(NullBucketsKind)
    ensures r.Ok? && r.value.DurableBuckets? <==>
      (config.Hash? && Truthy(Lookup(config.entries, Str("dir"))) && Truthy(Lookup(config.entries, Str("enable")))
       && Lookup(config.entries, Str("limit")).Int? && Lookup(config.entries, Str("limit")).i > 0)
    ensures r.Ok? && r.value.DurableBuckets? ==> r.value.limit == Lookup(config.entries, Str("limit")).i
    ensures (config.Hash? && Truthy(Lookup(config.entries, Str("dir"))) && Truthy(Lookup(config.entries, Str("enable")))
             && !Lookup(config.entries, Str("limit")).Int?) ==> r == Err(RuntimeFault)
  {
    if !Truthy(config) then Ok(NullBucketsKind)
    else if !config.Hash? then Err(RuntimeFault)
    else
      var es := config.entries;
      if !Truthy(Lookup(es, Str("dir"))) || !Truthy(Lookup(es, Str("enable"))) then Ok(NullBucketsKind)
      else
        var limit := Lookup(es, Str("limit"));
        if !limit.Int? then Err(RuntimeFault)
        else if limit.i > 0 then Ok(DurableBuckets(limit.i))
        else Ok(NullBucketsKind)
  }

  /** Features.create: durable when the configuration names a directory and is enabled. */
  function FeaturesDurable(config: Value): (r: Result<bool, Error>)
    ensures !Truthy(config) ==> r == Ok(false)
    ensures r == Ok(true) <==>
      (config.Hash? && Truthy(Lookup(config.entries, Str("dir"))) && Truthy(Lookup(config.entries, Str("enable"))))
    ensures config.Hash? ==> r.Ok?
  {
    if !Truthy(config) then Ok(false)
    else if !config.Hash? then Err(RuntimeFault)
    else Ok(Truthy(Lookup(config.entries, Str("dir"))) && Truthy(Lookup(config.entries, Str("enable"))))
  }

  // ---------------------------------------------------------------------------
  // The buckets store

  /** slice!(0, n) on the stored list: the front part handed out, nil for a negative length. */
  function SliceFront(list: seq<Value>, n: int): (r: Option<seq<Value>>)
    ensures n < 0 <==> r.None?
    ensures r.Some? ==> |r.value| == Min(n, |list|) && r.value <= list
  {
    if n < 0 then None else Some(list[..Min(n, |list|)])
  }

  /** The private transaction's size guard: an append is refused only when the file is already larger than the limit. */
  predicate AppendAllowed(fileSize: int, limit: int) {
    !(fileSize > limit)
  }

  class Buckets {
    var limit: int
    /** store["buckets"]: None until the first write to the file. */
    var list: Option<seq<Value>>

    /** A store over a file that holds `persisted` from an earlier run, or nothing. */
    constructor (limit: int, persisted: Option<seq<Value>>)
      ensures this.limit == limit && list == persisted
    {
      this.limit := limit;
      list := persisted;
    }

    /** The stored buckets, oldest first; a missing list holds none. */
    function Contents(): seq<Value>
      reads this
    {
      list.GetOr([])
    }

    /**
     * fetch(n): the oldest min(n, size) buckets, removed from the store.
     * A missing or empty list answers [] and is left as it is; a negative
     * n answers nil and removes nothing.
     */
    method Fetch(n: int) returns (r: Value)
      modifies this`list
      ensures old(Contents()) == [] ==> r == List([]) && list == old(list)
      ensures old(Contents()) != [] && n < 0 ==> r == Nil && list == old(list)
      ensures old(Contents()) != [] && n >= 0 ==>
        r.List? && |r.items| == Min(n, |old(Contents())|) && r.items + Contents() == old(Contents()) && list.Some?
    {
      if list.None? || list.value == [] {
        return List([]);
      }
      var stored := list.value;
      var count := n;
      if count > |stored| {
        count := |stored|;
      }
      var taken := SliceFront(stored, count);
      if taken.None? {
        r := Nil;
      } else {
        r := List(taken.value);
        list := Some(stored[|taken.value|..]);
        assert taken.value + stored[|taken.value|..] == stored;
      }
    }

    /**
     * append(bs): adds every bucket of bs, in order, behind the stored ones
     * and answers the new list. Refused with false when the file is larger
     * than the limit; false with nothing changed when bs is not an Array
     * or the transaction raises.
     */
    method Append(bs: Value, fileSize: int, fault: bool) returns (r: Value)
      modifies this`list
      ensures AppendAllowed(fileSize, limit) && !fault && bs.List? ==>
        list == Some(old(Contents()) + bs.items) && r == List(Contents())
      ensures !(AppendAllowed(fileSize, limit) && !fault && bs.List?) ==> r == Bool(false) && list == old(list)
    {
      if fileSize > limit {
        return Bool(false);
      }
      if fault || !bs.List? {
        return Bool(false);
      }
      var stored := if list.Some? then list.value else [];
      stored := stored + bs.items;
      list := Some(stored);
      r := List(stored);
    }

    /** append_one(b): adds b behind the stored buckets, under the same guard and rescue as append. */
    method AppendOne(b: Value, fileSize: int, fault: bool) returns (r: Value)
      modifies this`list
      ensures AppendAllowed(fileSize, limit) && !fault ==> list == Some(old(Contents()) + [b]) && r == List(Contents())
      ensures !(AppendAllowed(fileSize, limit) && !fault) ==> r == Bool(false) && list == old(list)
    {
      if fileSize > limit {
        return Bool(false);
      }
      if fault {
        return Bool(false);
      }
      var stored := if list.Some? then list.value else [];
      stored := stored + [b];
      list := Some(stored);
      r := List(stored);
    }

    /** empty?: true when the list is missing or holds nothing. */
    method IsEmpty() returns (e: bool)
      ensures e <==> list.None? || list.value == []
    {
      if list.None? {
        return true;
      }
      return list.value == [];
    }
  }

  /** A fresh store takes what append was given and hands it back from fetch(|bs|), leaving an empty list. */
  method AppendThenFetch(limit: int, bs: seq<Value>, fileSize: int) returns (fetched: Value, emptyAfter: bool)
    requires fileSize <= limit
    ensures fetched == List(bs) && emptyAfter
  {
    var store := new Buckets(limit, None);
    var appended := store.Append(List(bs), fileSize, false);
    fetched := store.Fetch(|bs|);
    if bs != [] {
      assert fetched.items + store.Contents() == bs && |fetched.items| == |bs|;
      assert fetched.items == (fetched.items + store.Contents())[..|bs|];
    }
    emptyAfter := store.IsEmpty();
  }

  /** An append refused by the size guard leaves a fresh store answering [] and empty. */
  method RefusedAppendKeepsEmpty(limit: int, bs: seq<Value>, fileSize: int) returns (appended: Value, fetched: Value)
    requires fileSize > limit
    ensures appended == Bool(false) && fetched == List([])
  {
    var store := new Buckets(limit, None);
    appended := store.Append(List(bs), fileSize, false);
    fetched := store.Fetch(1);
  }

  /** NullBuckets: keeps nothing and refuses every append. */
  class NullBuckets {
    constructor () {}

    method Fetch(n: int) returns (r: Value)
      ensures r == List([])
    {
      r := List([]);
    }

    method Append(bs: Value) returns (r: Value)
      ensures r == Bool(false)
    {
      r := Bool(false);
    }

    method AppendOne(b: Value) returns (r: Value)
      ensures r == Bool(false)
    {
      r := Bool(false);
    }

    method IsEmpty() returns (e: bool)
      ensures e
    {
      e := true;
    }
  }

  // ---------------------------------------------------------------------------
  // The features store

  class Features {
    /** store["features"] and store["unknown_features"]; nil when never written. */
    var features: Value
    var unknownFeatures: Value

    constructor (persistedFeatures: Value, persistedUnknown: Value)
      ensures features == persistedFeatures && unknownFeatures == persistedUnknown
    {
      features := persistedFeatures;
      unknownFeatures := persistedUnknown;
    }

    /** list: the stored features, or {} when nothing truthy is stored. */
    method ListFeatures() returns (r: Value)
      ensures Truthy(features) ==> r == features
      ensures !Truthy(features) ==> r == Hash([])
    {
      if !Truthy(features) {
        return Hash([]);
      }
      r := features;
    }

    /** replace(f): stores f, even a falsy f, and answers whether f is truthy; false with nothing changed when the transaction raises. */
    method Replace(f: Value, fault: bool) returns (r: bool)
      modifies this`features
      ensures !fault ==> features == f && r == Truthy(f)
      ensures fault ==> features == old(features) && !r
    {
      if fault {
        return false;
      }
      features := f;
      r := Truthy(features);
    }

    /** list_unknown: the stored unknown features, or {}. */
    method ListUnknown() returns (r: Value)
      ensures Truthy(unknownFeatures) ==> r == unknownFeatures
      ensures !Truthy(unknownFeatures) ==> r == Hash([])
    {
      if !Truthy(unknownFeatures) {
        return Hash([]);
      }
      r := unknownFeatures;
    }

    /** replace_unknown(f): as replace, on the other slot. */
    method ReplaceUnknown(f: Value, fault: bool) returns (r: bool)
      modifies this`unknownFeatures
      ensures !fault ==> unknownFeatures == f && r == Truthy(f)
      ensures fault ==> unknownFeatures == old(unknownFeatures) && !r
    {
      if fault {
        return false;
      }
      unknownFeatures := f;
      r := Truthy(unknownFeatures);
    }
  }

  /**
   * The two slots are independent: after replace(f) and replace_unknown(u)
   * in either order, list answers f and list_unknown answers u (for truthy
   * f and u), whatever was stored before.
   */
  method ReplaceThenList(f: Value, u: Value, unknownFirst: bool) returns (listed: Value, listedUnknown: Value, replaced: bool)
    requires Truthy(f) && Truthy(u)
    ensures listed == f && listedUnknown == u && replaced
  {
    var store := new Features(Nil, Nil);
    var ok1, ok2;
    if unknownFirst {
      ok2 := store.ReplaceUnknown(u, false);
      ok1 := store.Replace(f, false);
    } else {
      ok1 := store.Replace(f, false);
      ok2 := store.ReplaceUnknown(u, false);
    }
    replaced := ok1 && ok2;
    listed := store.ListFeatures();
    listedUnknown := store.ListUnknown();
  }

  /** NullFeatures: lists nothing and refuses every replacement. */
  class NullFeatures {
    constructor () {}

    method ListFeatures() returns (r: Value)
      ensures r == Hash([])
    {
      r := Hash([]);
    }

    method ListUnknown() returns (r: Value)
      ensures r == Hash([])
    {
      r := Hash([]);
    }

    method Replace(f: Value) returns (r: bool)
      ensures !r
    {
      r := false;
    }

    method ReplaceUnknown(f: Value) returns (r: bool)
      ensures !r
    {
      r := false;
    }
  }
}
