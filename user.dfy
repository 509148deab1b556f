/**
 * A user of the application: the anonymous-user rule of the constructor,
 * the attribute ids sent when the user's features are fetched, the
 * memoised features, the hits recorded against the user, and the report
 * sent when one of the user's requests ends.
 */
module User {
  import opened Wrappers
  import opened Errors
  import opened RubyText
  import opened RubyValues
  import opened Hits

  /** The id of a user who arrives without one: "anon-", a random number, "-", the clock's microseconds. */
  function AnonymousId(random: nat, clockMicros: nat): (s: string)
    ensures |s| > 5 && s[..5] == "anon-"
  {
    "anon-" + NatDecimal(random) + "-" + NatDecimal(clockMicros % 1000000)
  }

  /** The service's answer for the user's features; a nil or false answer stands for {}. */
  function AnswerOrEmpty(response: Value): (v: Value)
    ensures Truthy(v) && (Truthy(response) ==> v == response) && (!Truthy(response) ==> v == Hash([]))
  {
    if Truthy(response) then response else Hash([])
  }

  /**
   * @features ||= load_features: a loaded (truthy) value is kept; otherwise
   * the answer is loaded, unless the attribute ids cannot be built.
   */
  function Memoised(current: Value, ids: Result<AList<Value, Value>, Error>, response: Value): (v: Value)
    ensures Truthy(current) ==> v == current
    ensures !Truthy(current) ==> (Truthy(v) <==> ids.Ok?)
    ensures !Truthy(current) && ids.Ok? ==> v == AnswerOrEmpty(response)
  {
    if Truthy(current) || ids.Err? then current else AnswerOrEmpty(response)
  }

  // ---------------------------------------------------------------------------
  // Attribute ids

  /** The id an attribute gives: a Hash attribute its :id, if it has one; any other attribute itself. */
  function IdOf(attr: Value): (r: Option<Value>)
    ensures !attr.Hash? ==> r == Some(attr)
    ensures attr.Hash? ==> (r.Some? <==> HasKey(attr.entries, Sym("id")))
    ensures attr.Hash? && r.Some? ==> Get(attr.entries, Sym("id")) == Some(r.value)
  {
    if !attr.Hash? then Some(attr)
    else if HasKey(attr.entries, Sym("id")) then Some(Lookup(attr.entries, Sym("id")))
    else None
  }

  /** The assignment one attribute makes to the attribute ids: none when it gives no id. */
  function Contribution(attr: (Value, Value)): AList<Value, Value> {
    if IdOf(attr.1).Some? then [(attr.0, IdOf(attr.1).value)] else []
  }

  /** The contributions of a Hash of attributes, in its order. */
  function Contributions(attrs: AList<Value, Value>): (r: AList<Value, Value>)
    ensures |r| <= |attrs|
  {
    if attrs == [] then [] else Contributions(attrs[..|attrs| - 1]) + Contribution(attrs[|attrs| - 1])
  }

  /**
   * The (key, attribute) a two-parameter block receives for one element of
   * an Array or a Set: an Array element is spread over the two parameters,
   * missing places are nil; any other element is the key, with a nil attribute.
   */
  function ElementPair(e: Value): (kv: (Value, Value))
    ensures !e.List? ==> kv == (e, Nil)
    ensures e.List? ==> kv.0 == (if |e.items| > 0 then e.items[0] else Nil)
                        && kv.1 == (if |e.items| > 1 then e.items[1] else Nil)
  {
    if !e.List? then (e, Nil)
    else (if |e.items| > 0 then e.items[0] else Nil, if |e.items| > 1 then e.items[1] else Nil)
  }

  /** The pairs each element of an Array or Set hands to the loop, in order. */
  function ElementPairs(elements: seq<Value>): (r: AList<Value, Value>)
    ensures |r| == |elements| && forall i :: 0 <= i < |elements| ==> r[i] == ElementPair(elements[i])
  {
    seq(|elements|, i requires 0 <= i < |elements| => ElementPair(elements[i]))
  }

  /**
   * The attributes as the each loop sees them: none for nil or false; a
   * Hash its entries; an Array or a Set its elements as pairs; anything
   * else has no each to call.
   */
  function AttributePairs(attrs: Value): (r: Result<AList<Value, Value>, Error>)
    ensures r.Err? <==> Truthy(attrs) && !(attrs.Hash? || attrs.List? || attrs.SetV?)
    ensures !Truthy(attrs) ==> r == Ok([])
    ensures attrs.Hash? ==> r == Ok(attrs.entries)
    ensures attrs.List? ==> r == Ok(ElementPairs(attrs.items))
    ensures attrs.SetV? ==> r == Ok(ElementPairs(attrs.members))
  {
    if !Truthy(attrs) then Ok([])
    else if attrs.Hash? then Ok(attrs.entries)
    else if attrs.List? then Ok(ElementPairs(attrs.items))
    else if attrs.SetV? then Ok(ElementPairs(attrs.members))
    else Err(RuntimeFault)
  }

  /**
   * The attribute ids before normalisation: {:anonymous => anonymous}, then
   * the unique attributes' contributions, then the cohort attributes', each
   * assigned in turn, so a later one overrides an earlier one with the same key.
   */
  function AttributeIds(anonymous: Value, unique: Value, cohorts: Value): (r: Result<AList<Value, Value>, Error>)
    ensures r.Ok? <==> AttributePairs(unique).Ok? && AttributePairs(cohorts).Ok?
    ensures r.Err? ==> r.error == RuntimeFault
    ensures AttributePairs(unique) == Ok([]) && AttributePairs(cohorts) == Ok([]) ==> r == Ok([(Sym("anonymous"), anonymous)])
  {
    match AttributePairs(unique)
    case Err(e) => Err(e)
    case Ok(u) =>
      match AttributePairs(cohorts)
      case Err(e) => Err(e)
      case Ok(c) => Ok(Update(Update([(Sym("anonymous"), anonymous)], Contributions(u)), Contributions(c)))
  }

  /** With no attributes at all (nil, false, or empty Arrays), only the anonymous flag is sent. */
  lemma NoAttributesOnlyAnonymous(anonymous: Value, unique: Value, cohorts: Value)
    requires !Truthy(unique) || unique == List([])
    requires !Truthy(cohorts) || cohorts == List([])
    ensures AttributeIds(anonymous, unique, cohorts) == Ok([(Sym("anonymous"), anonymous)])
  {
    assert AttributePairs(unique) == Ok([]) && AttributePairs(cohorts) == Ok([]);
  }

  /** An Array of [key, id] pairs assigns like the Hash with those entries. */
  lemma PairListAsHash(items: seq<Value>, entries: AList<Value, Value>)
    requires |items| == |entries|
    requires forall i :: 0 <= i < |items| ==> items[i] == List([entries[i].0, entries[i].1])
    ensures AttributePairs(List(items)) == AttributePairs(Hash(entries))
  {
    assert forall i :: 0 <= i < |items| ==> ElementPairs(items)[i] == entries[i];
    assert ElementPairs(items) == entries;
  }

  /** Attributes that are no Hash are their own ids: each contributes itself, in its place. */
  lemma {:induction false} ContributionsOfPlainIds(attrs: AList<Value, Value>)
    requires forall i :: 0 <= i < |attrs| ==> !attrs[i].1.Hash?
    ensures Contributions(attrs) == attrs
  {
    if attrs != [] {
      ContributionsOfPlainIds(attrs[..|attrs| - 1]);
      assert attrs[..|attrs| - 1] + [attrs[|attrs| - 1]] == attrs;
    }
  }

  /** What a Hash of attributes finally assigns to key k is the id its attribute under k gives. */
  lemma {:induction false} ContributionsGet(attrs: AList<Value, Value>, k: Value)
    requires UniqueKeys(attrs)
    ensures LastValue(Contributions(attrs), k) == if HasKey(attrs, k) then IdOf(Get(attrs, k).value) else None
  {
    if attrs != [] {
      var pre := attrs[..|attrs| - 1];
      var last := attrs[|attrs| - 1];
      var c := Contribution(last);
      LastKeyFresh(attrs);
      ContributionsGet(pre, k);
      assert attrs == pre + [last];
      GetAppend(pre, last, k);
      assert Contributions(attrs) == Contributions(pre) + c;
      if last.0 == k && c != [] {
        assert (Contributions(pre) + c)[|Contributions(pre) + c| - 1] == (k, IdOf(last.1).value);
      } else {
        LastValueAppend(Contributions(pre), c, k);
      }
    }
  }

  /** Assigning one attribute's contribution after the others. */
  lemma UpdateContribution(ids: AList<Value, Value>, done: AList<Value, Value>, attr: (Value, Value))
    ensures Update(ids, done + Contribution(attr))
            == if IdOf(attr.1).Some? then Put(Update(ids, done), attr.0, IdOf(attr.1).value) else Update(ids, done)
  {
    if IdOf(attr.1).None? {
      assert done + Contribution(attr) == done;
    } else {
      assert (done + Contribution(attr))[..|done|] == done;
    }
  }

  /** A key-less tail does not change the last value of a key. */
  lemma LastValueAppend(m: AList<Value, Value>, c: AList<Value, Value>, k: Value)
    requires |c| <= 1 && (c != [] ==> c[0].0 != k)
    ensures LastValue(m + c, k) == LastValue(m, k)
  {
    if c != [] {
      assert (m + c)[..|m + c| - 1] == m;
    } else {
      assert m + c == m;
    }
  }

  /**
   * Later attributes win: a key's id comes from the cohort attributes if
   * they contribute one, else from the unique attributes, else it is the
   * anonymous flag under :anonymous, and no other key is present.
   */
  lemma AttributeIdsGet(anonymous: Value, unique: Value, cohorts: Value, k: Value)
    requires AttributeIds(anonymous, unique, cohorts).Ok?
    ensures var u := Contributions(AttributePairs(unique).value);
      var c := Contributions(AttributePairs(cohorts).value);
      Get(AttributeIds(anonymous, unique, cohorts).value, k)
        == if LastValue(c, k).Some? then LastValue(c, k)
           else if LastValue(u, k).Some? then LastValue(u, k)
           else if k == Sym("anonymous") then Some(anonymous)
           else None
  {
    var start := [(Sym("anonymous"), anonymous)];
    var u := Contributions(AttributePairs(unique).value);
    var c := Contributions(AttributePairs(cohorts).value);
    UpdateGet(Update(start, u), c, k);
    UpdateGet(start, u, k);
  }

  /** The anonymous flag keeps the first position whatever the attributes override. */
  lemma AttributeIdsAnonymousFirst(anonymous: Value, unique: Value, cohorts: Value)
    requires AttributeIds(anonymous, unique, cohorts).Ok?
    ensures var ids := AttributeIds(anonymous, unique, cohorts).value;
      |ids| > 0 && ids[0].0 == Sym("anonymous")
  {
    var start := [(Sym("anonymous"), anonymous)];
    var u := Contributions(AttributePairs(unique).value);
    var c := Contributions(AttributePairs(cohorts).value);
    UpdateKeepsKeys(start, u);
    UpdateKeepsKeys(Update(start, u), c);
    var ids := Update(Update(start, u), c);
    assert Keys(ids)[0] == Keys(Update(start, u))[0] == Keys(start)[0];
  }

  /** An attribute id as the request sends it: true and false as words, other non-Strings by to_s. */
  function NormaliseId(id: Value): (s: Value)
    ensures s.Str?
    ensures id.Str? ==> s == id
    ensures id.Bool? ==> s == Str(if id.b then "true" else "false")
    ensures !id.Str? && !id.Bool? ==> s == Str(ToS(id))
  {
    if id.Bool? then Str(if id.b then "true" else "false")
    else if !id.Str? then Str(ToS(id))
    else id
  }

  /** Every attribute id normalised, each in its place. */
  function NormaliseIds(ids: AList<Value, Value>): (r: AList<Value, Value>)
    ensures |r| == |ids| && forall i :: 0 <= i < |ids| ==> r[i] == (ids[i].0, NormaliseId(ids[i].1))
  {
    seq(|ids|, i requires 0 <= i < |ids| => (ids[i].0, NormaliseId(ids[i].1)))
  }

  /** Normalising keeps the keys, makes every id a String and is idempotent. */
  lemma NormaliseIdsProperties(ids: AList<Value, Value>)
    ensures Keys(NormaliseIds(ids)) == Keys(ids)
    ensures forall k :: HasKey(ids, k) ==> Get(NormaliseIds(ids), k).value.Str?
    ensures NormaliseIds(NormaliseIds(ids)) == NormaliseIds(ids)
  {
    var r := NormaliseIds(ids);
    forall k | HasKey(ids, k) ensures Get(r, k).value.Str? {
      GetNormalised(ids, k);
    }
  }

  lemma {:induction false} GetNormalised(ids: AList<Value, Value>, k: Value)
    requires HasKey(ids, k)
    ensures HasKey(NormaliseIds(ids), k) && Get(NormaliseIds(ids), k) == Some(NormaliseId(Get(ids, k).value))
  {
    if ids[0].0 != k {
      GetNormalised(ids[1..], k);
      assert NormaliseIds(ids)[1..] == NormaliseIds(ids[1..]);
    }
  }

  /** The request that fetches a user's features. */
  datatype FeaturesRequest = FeaturesRequest(path: string, params: AList<Value, Value>)

  class AppUser {
    var uniqueId: Value
    var displayName: Value
    var anonymous: Value
    var uniqueAttrs: Value
    var cohortAttrs: Value
    /** @features: nil until first loaded. */
    var features: Value
    var hits: HitState

    /**
     * A user with no id, or one flagged anonymous, is anonymous; a user with
     * no id gets one made of "anon-", a random number below 9999999999 and
     * the clock's microseconds.
     */
    constructor (userId: Value, displayName: Value, isAnonymous: Value, uniqueAttrs: Value, cohortAttrs: Value,
                 random: nat, clockMicros: nat)
      requires random < 9999999999
      ensures !Truthy(userId) || Truthy(isAnonymous) ==> anonymous == Bool(true)
      ensures Truthy(userId) && !Truthy(isAnonymous) ==> anonymous == isAnonymous
      ensures Truthy(userId) ==> uniqueId == userId
      ensures !Truthy(userId) ==> uniqueId == Str(AnonymousId(random, clockMicros))
      ensures this.displayName == displayName && this.uniqueAttrs == uniqueAttrs && this.cohortAttrs == cohortAttrs
      ensures features == Nil && hits == NoHits()
    {
      this.uniqueId := userId;
      this.displayName := displayName;
      this.anonymous := isAnonymous;
      this.uniqueAttrs := uniqueAttrs;
      this.cohortAttrs := cohortAttrs;
      features := Nil;
      hits := NoHits();
      new;
      if !Truthy(userId) || Truthy(isAnonymous) {
        anonymous := Bool(true);
        if !Truthy(userId) {
          uniqueId := Str(AnonymousId(random, clockMicros));
        }
      }
    }

    /** The contributions of one group of attributes assigned into ids, in order. */
    static method AddContributions(ids: AList<Value, Value>, attrs: AList<Value, Value>) returns (r: AList<Value, Value>)
      ensures r == Update(ids, Contributions(attrs))
    {
      r := ids;
      var i := 0;
      while i < |attrs|
        invariant 0 <= i <= |attrs|
        invariant r == Update(ids, Contributions(attrs[..i]))
      {
        var (key, attr) := attrs[i];
        assert attrs[..i + 1][..i] == attrs[..i];
        UpdateContribution(ids, Contributions(attrs[..i]), attrs[i]);
        if attr.Hash? {
          if HasKey(attr.entries, Sym("id")) {
            r := Put(r, key, Lookup(attr.entries, Sym("id")));
          }
        } else {
          r := Put(r, key, attr);
        }
        i := i + 1;
      }
      assert attrs[..i] == attrs;
    }

    /** Rewrites every attribute id as a String, in place. */
    static method NormaliseEachId(ids: AList<Value, Value>) returns (r: AList<Value, Value>)
      ensures r == NormaliseIds(ids)
    {
      r := ids;
      var i := 0;
      while i < |r|
        invariant 0 <= i <= |r| == |ids|
        invariant forall j :: 0 <= j < i ==> r[j] == (ids[j].0, NormaliseId(ids[j].1))
        invariant forall j :: i <= j < |r| ==> r[j] == ids[j]
      {
        var (key, id) := r[i];
        if id.Bool? {
          r := r[i := (key, Str(if id.b then "true" else "false"))];
        } else if !id.Str? {
          r := r[i := (key, Str(ToS(id)))];
        }
        i := i + 1;
      }
    }

    /**
     * load_features: the request for /user/<id>/features with the normalised
     * attribute ids, and the features it answers, {} for a nil or false answer.
     */
    method LoadFeatures(response: Value) returns (r: Result<(FeaturesRequest, Value), Error>)
      ensures r.Ok? <==> AttributeIds(anonymous, uniqueAttrs, cohortAttrs).Ok?
      ensures r.Ok? ==> r.value.0 == FeaturesRequest("/user/" + ToS(uniqueId) + "/features",
                                                     NormaliseIds(AttributeIds(anonymous, uniqueAttrs, cohortAttrs).value))
      ensures r.Ok? ==> r.value.1 == AnswerOrEmpty(response)
    {
      var ids: AList<Value, Value> := [(Sym("anonymous"), anonymous)];
      var unique := AttributePairs(uniqueAttrs);
      if unique.Err? {
        return Err(unique.error);
      }
      ids := AddContributions(ids, unique.value);
      var cohorts := AttributePairs(cohortAttrs);
      if cohorts.Err? {
        return Err(cohorts.error);
      }
      ids := AddContributions(ids, cohorts.value);
      ids := NormaliseEachId(ids);
      var answer := AnswerOrEmpty(response);
      r := Ok((FeaturesRequest("/user/" + ToS(uniqueId) + "/features", ids), answer));
    }

    /**
     * features: loaded once, then the same value on every later call,
     * whatever the service would answer.
     */
    method Features(response: Value) returns (r: Result<Value, Error>)
      modifies this`features
      ensures features == Memoised(old(features), AttributeIds(anonymous, uniqueAttrs, cohortAttrs), response)
      ensures r.Ok? <==> Truthy(features)
      ensures r.Ok? ==> r.value == features
    {
      if Truthy(features) {
        return Ok(features);
      }
      var loaded := LoadFeatures(response);
      if loaded.Err? {
        return Err(loaded.error);
      }
      features := loaded.value.1;
      r := Ok(features);
    }

    /** feature_enabled?: the user's features (loaded if need be) answer, and the hits are recorded. */
    method FeatureEnabled(name: Value, version: Value, default: Value, response: Value) returns (r: Result<Value, Error>)
      modifies this`features, this`hits
      ensures !name.Str? ==> r == Err(FeatureNameInvalid) && features == old(features) && hits == old(hits)
      ensures name.Str? ==> features == Memoised(old(features), AttributeIds(anonymous, uniqueAttrs, cohortAttrs), response)
      ensures name.Str? ==> (r.Ok? <==> features.Hash?)
      ensures r.Ok? ==> Hits.FeatureEnabled(features, old(hits), name, version, default).Ok?
      ensures r.Ok? ==> r.value == Hits.FeatureEnabled(features, old(hits), name, version, default).value.enabled
      ensures r.Ok? ==> hits == Hits.FeatureEnabled(features, old(hits), name, version, default).value.hits
      ensures r.Err? ==> hits == old(hits)
    {
      if !name.Str? {
        return Err(FeatureNameInvalid);
      }
      var snapshot := Features(response);
      if snapshot.Err? {
        return Err(snapshot.error);
      }
      var outcome := Hits.FeatureEnabled(snapshot.value, hits, name, version, default);
      if outcome.Err? {
        return Err(outcome.error);
      }
      hits := outcome.value.hits;
      r := Ok(outcome.value.enabled);
    }

    /** unknown_feature_hit: the default recorded under (name, version); a later call for the pair overwrites it. */
    method UnknownFeatureHit(name: Value, version: Value, default: Value)
      modifies this`hits
      ensures hits == old(hits).(unknown := Record(old(hits).unknown, name, version, default))
    {
      hits := hits.(unknown := Record(hits.unknown, name, version, default));
    }

    /** goal_hit: the goal and version names validated, then the pair recorded. */
    method GoalHit(goal: Value, version: Value) returns (r: Result<(), Error>)
      modifies this`hits
      ensures r.Ok? <==> Hits.GoalHit(old(hits), goal, version).Ok?
      ensures r.Ok? ==> hits == Hits.GoalHit(old(hits), goal, version).value
      ensures r.Err? ==> r.error == Hits.GoalHit(old(hits), goal, version).error && hits == old(hits)
    {
      var next := Hits.GoalHit(hits, goal, version);
      if next.Err? {
        return Err(next.error);
      }
      hits := next.value;
      r := Ok(());
    }

    /**
     * end_transaction(url, stats): the report posted to
     * /user/<id>/features/hit. Stats other than nil or false must be a
     * Hash, checked before anything changes; the unknown features always go
     * with the report and are then cleared, while the features and goals
     * hit are kept.
     */
    method EndTransaction(url: Value, stats: Value, ffLatency: Value) returns (r: Result<(string, Value), Error>)
      modifies this`hits
      ensures Truthy(stats) && !stats.Hash? ==> r == Err(StatsInvalid) && hits == old(hits)
      ensures !(Truthy(stats) && !stats.Hash?) ==>
        r.Ok? && r.value.0 == "/user/" + ToS(uniqueId) + "/features/hit"
        && r.value.1 == UserReport(url, UserPayload(uniqueId, displayName, anonymous, uniqueAttrs, cohortAttrs),
                                   old(hits), stats, ffLatency)
        && hits == old(hits).(unknown := [])
    {
      if Truthy(stats) && !stats.Hash? {
        return Err(StatsInvalid);
      }
      var payload := UserReport(url, UserPayload(uniqueId, displayName, anonymous, uniqueAttrs, cohortAttrs),
                                hits, stats, ffLatency);
      hits := hits.(unknown := []);
      r := Ok(("/user/" + ToS(uniqueId) + "/features/hit", payload));
    }
  }

  /**
   * The report a user's request ends with: url, user, hits, the stats given
   * (or a fresh Hash) with the service latency added, and the unknown features.
   */
  function UserReport(url: Value, user: AList<Value, Value>, hits: HitState, stats: Value, ffLatency: Value): (p: Value)
    requires !Truthy(stats) || stats.Hash?
    ensures p.Hash? && Keys(p.entries) == [Sym("url"), Sym("user"), Sym("hits"), Sym("stats"), Sym("features")]
    ensures p.entries[0].1 == url && p.entries[1].1 == Hash(user) && p.entries[2].1 == HitsValue(hits)
    ensures p.entries[3].1 == Hash(ReportStats(stats, ffLatency))
    ensures p.entries[4].1 == Hash([(Sym("unknown"), UnknownValue(hits.unknown))])
  {
    Report(url, user, hits, ReportStats(stats, ffLatency))
  }

  /** The stats Hash of an end-of-request report: the caller's stats, if any, with :ff_latency set. */
  function ReportStats(stats: Value, ffLatency: Value): (st: AList<Value, Value>)
    requires !Truthy(stats) || stats.Hash?
    ensures Get(st, Sym("ff_latency")) == Some(ffLatency)
    ensures Truthy(stats) ==> forall k :: k != Sym("ff_latency") ==> Get(st, k) == Get(stats.entries, k)
    ensures !Truthy(stats) ==> st == [(Sym("ff_latency"), ffLatency)]
  {
    Put(if Truthy(stats) then stats.entries else [], Sym("ff_latency"), ffLatency)
  }
}
