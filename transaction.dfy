/**
 * One request of one user: a snapshot of the user's features taken when
 * the request begins, the hits recorded while it runs, and the report
 * built when it ends.
 */
module Transaction {
  import opened Wrappers
  import opened Errors
  import opened RubyValues
  import opened Hits
  import opened User

  /**
   * The report a request ends with: url, user, hits, the request's duration
   * and the service latency, and the unknown features.
   */
  function TransactionReport(url: Value, user: AList<Value, Value>, hits: HitState, duration: Value, ffLatency: Value): (p: Value)
    ensures p.Hash? && Keys(p.entries) == [Sym("url"), Sym("user"), Sym("hits"), Sym("stats"), Sym("features")]
    ensures p.entries[0].1 == url && p.entries[1].1 == Hash(user) && p.entries[2].1 == HitsValue(hits)
    ensures p.entries[3].1 == Hash([(Sym("transaction"), Hash([(Sym("duration"), duration)])), (Sym("ff_latency"), ffLatency)])
    ensures p.entries[4].1 == Hash([(Sym("unknown"), UnknownValue(hits.unknown))])
  {
    Report(url, user, hits, [(Sym("transaction"), Hash([(Sym("duration"), duration)])), (Sym("ff_latency"), ffLatency)])
  }

  class AppUserTransaction {
    const user: AppUser
    const url: Value
    /** The user's features as they were when the request began. */
    const features: Value
    var hits: HitState

    constructor (user: AppUser, url: Value, features: Value)
      ensures this.user == user && this.url == url && this.features == features && hits == NoHits()
    {
      this.user := user;
      this.url := url;
      this.features := features;
      hits := NoHits();
    }

    /**
     * Begins a request: the snapshot is the user's features, loaded (with
     * the service's answer `response`) if the user has none yet.
     */
    static method Begin(user: AppUser, url: Value, response: Value) returns (r: Result<AppUserTransaction, Error>)
      modifies user`features
      ensures old(Truthy(user.features)) ==> r.Ok? && r.value.features == old(user.features)
      ensures r.Ok? ==> fresh(r.value) && r.value.user == user && r.value.url == url
                        && r.value.features == user.features && r.value.hits == NoHits()
      ensures r.Err? ==> user.features == old(user.features)
      ensures !old(Truthy(user.features)) ==>
        (r.Ok? <==> AttributeIds(user.anonymous, user.uniqueAttrs, user.cohortAttrs).Ok?)
        && (r.Ok? ==> r.value.features == AnswerOrEmpty(response))
    {
      var snapshot := user.Features(response);
      if snapshot.Err? {
        return Err(snapshot.error);
      }
      var t := new AppUserTransaction(user, url, snapshot.value);
      r := Ok(t);
    }

    /**
     * feature_enabled?: answered from the snapshot, never from the service;
     * the hits are recorded as for a user.
     */
    method FeatureEnabled(name: Value, version: Value, default: Value) returns (r: Result<Value, Error>)
      modifies this`hits
      ensures r.Ok? <==> Hits.FeatureEnabled(features, old(hits), name, version, default).Ok?
      ensures r.Ok? ==> r.value == Hits.FeatureEnabled(features, old(hits), name, version, default).value.enabled
                        && hits == Hits.FeatureEnabled(features, old(hits), name, version, default).value.hits
      ensures r.Err? ==> r.error == Hits.FeatureEnabled(features, old(hits), name, version, default).error
                         && hits == old(hits)
    {
      var outcome := Hits.FeatureEnabled(features, hits, name, version, default);
      if outcome.Err? {
        return Err(outcome.error);
      }
      hits := outcome.value.hits;
      r := Ok(outcome.value.enabled);
    }

    /** unknown_feature_hit: the default recorded under (name, version), overwriting an earlier one. */
    method UnknownFeatureHit(name: Value, version: Value, default: Value)
      modifies this`hits
      ensures hits == old(hits).(unknown := Record(old(hits).unknown, name, version, default))
    {
      hits := hits.(unknown := Record(hits.unknown, name, version, default));
    }

    /** goal_hit: the goal and version names validated, then the pair recorded. */
    method GoalHit(goal: Value, version: Value) returns (r: Result<(), Error>)
      modifies this`hits
      ensures r.Ok? <==> Hits.GoalHit(old(hits), goal, version).Ok?
      ensures r.Ok? ==> hits == Hits.GoalHit(old(hits), goal, version).value
      ensures r.Err? ==> r.error == Hits.GoalHit(old(hits), goal, version).error && hits == old(hits)
    {
      var next := Hits.GoalHit(hits, goal, version);
      if next.Err? {
        return Err(next.error);
      }
      hits := next.value;
      r := Ok(());
    }

    /**
     * end_transaction: the report for /transaction. The unknown features
     * always go with it (their count is truthy even when zero) and are then
     * cleared; the features and goals hit are kept.
     */
    method EndTransaction(duration: Value, ffLatency: Value) returns (path: string, payload: Value)
      modifies this`hits
      ensures path == "/transaction"
      ensures payload == TransactionReport(url, UserPayload(user.uniqueId, user.displayName, user.anonymous,
                                                            user.uniqueAttrs, user.cohortAttrs), old(hits), duration, ffLatency)
      ensures hits == old(hits).(unknown := [])
    {
      payload := TransactionReport(url, UserPayload(user.uniqueId, user.displayName, user.anonymous,
                                                    user.uniqueAttrs, user.cohortAttrs), hits, duration, ffLatency);
      hits := hits.(unknown := []);
      path := "/transaction";
    }
  }
}
