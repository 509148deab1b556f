/**
 * What a request records as it asks for features and reaches goals, the
 * same in a transaction and in a user: which (feature, version) pairs came
 * out enabled, which goals were hit, and which features the snapshot did
 * not know, with the default the application supplied.
 */
module Hits {
  import opened Wrappers
  import opened Errors
  import opened RubyValues
  import State

  /** name -> version name -> value, as nested Ruby Hashes (features_hit, goals_hit, the unknown features' versions). */
  type Log = AList<Value, AList<Value, Value>>

  datatype HitState = HitState(features: Log, goals: Log, unknown: Log)

  function NoHits(): HitState { HitState([], [], []) }

  /** log[name] ||= {}; log[name][version] = x */
  function Record(log: Log, name: Value, version: Value, x: Value): (r: Log)
    ensures Get2(r, name, version) == Some(x)
    ensures forall f, v :: f != name || v != version ==> Get2(r, f, v) == Get2(log, f, v)
  {
    var inner := Get(log, name).GetOr([]);
    var r := Put(log, name, Put(inner, version, x));
    RecordOthers(log, name, version, x);
    r
  }

  lemma RecordOthers(log: Log, name: Value, version: Value, x: Value)
    ensures var r := Put(log, name, Put(Get(log, name).GetOr([]), version, x));
      forall f, v :: f != name || v != version ==> Get2(r, f, v) == Get2(log, f, v)
  {
    forall f, v | f != name || v != version {
      RecordOther(log, name, version, x, f, v);
    }
  }

  lemma {:induction false} RecordOther(log: Log, name: Value, version: Value, x: Value, f: Value, v: Value)
    requires f != name || v != version
    ensures Get2(Put(log, name, Put(Get(log, name).GetOr([]), version, x)), f, v) == Get2(log, f, v)
  {
    var inner := Get(log, name).GetOr([]);
    var r := Put(log, name, Put(inner, version, x));
    if f == name {
      assert Get(r, f) == Some(Put(inner, version, x));
      assert Get2(r, f, v) == Get(Put(inner, version, x), v);
      assert Get(Put(inner, version, x), v) == Get(inner, v);
      assert Get2(log, f, v) == Get(inner, v);
    } else {
      assert Get(r, f) == Get(log, f);
    }
  }

  /** Recording what is already recorded changes nothing. */
  lemma RecordAgain(log: Log, name: Value, version: Value, x: Value, y: Value)
    ensures Record(Record(log, name, version, x), name, version, y) == Record(log, name, version, y)
  {
    var once := Record(log, name, version, x);
    assert Get(once, name).GetOr([]) == Put(Get(log, name).GetOr([]), version, x);
    PutPut(Get(log, name).GetOr([]), version, x, y);
    PutPut(log, name, Put(Get(log, name).GetOr([]), version, x), Put(Get(log, name).GetOr([]), version, y));
  }

  /** The version name a query uses: a nil or false version name means the default version. */
  function VersionOrDefault(version: Value): (v: Value)
    ensures Truthy(version) ==> v == version
    ensures !Truthy(version) ==> v == Str(State.DEFAULT_VERSION_NAME)
  {
    if Truthy(version) then version else Str(State.DEFAULT_VERSION_NAME)
  }

  /**
   * The value the features snapshot holds for (name, version): nil when the
   * feature is absent, is no Hash, or lacks the version. A snapshot that is
   * not a Hash has no has_key? and raises.
   */
  function StoredValue(features: Value, name: Value, version: Value): (r: Result<Value, Error>)
    ensures r.Err? <==> !features.Hash?
    ensures r.Ok? && r.value != Nil ==>
      (Lookup(features.entries, name).Hash? && Get(Lookup(features.entries, name).entries, version) == Some(r.value))
    ensures features.Hash? && Lookup(features.entries, name).Hash? && HasKey(Lookup(features.entries, name).entries, version) ==>
      r == Ok(Lookup(Lookup(features.entries, name).entries, version))
    ensures features.Hash? && !(Lookup(features.entries, name).Hash? && HasKey(Lookup(features.entries, name).entries, version)) ==>
      r == Ok(Nil)
  {
    if !features.Hash? then Err(RuntimeFault)
    else if !HasKey(features.entries, name) then Ok(Nil)
    else
      var feature := Lookup(features.entries, name);
      if feature.Hash? && HasKey(feature.entries, version) then Ok(Lookup(feature.entries, version)) else Ok(Nil)
  }

  datatype Outcome = Outcome(enabled: Value, hits: HitState)

  /**
   * feature_enabled?(name, version, default): the snapshot's value for the
   * pair; when it holds none (nil), the default, recorded as an unknown
   * feature. A truthy answer is recorded as a hit under the version's to_s.
   */
  function FeatureEnabled(features: Value, hits: HitState, name: Value, version: Value, default: Value): (r: Result<Outcome, Error>)
    ensures !name.Str? ==> r == Err(FeatureNameInvalid)
    ensures name.Str? ==> (r.Ok? <==> features.Hash?)
    ensures r.Ok? ==> r.value.hits.goals == hits.goals
  {
    if !name.Str? then Err(FeatureNameInvalid)
    else
      var v := VersionOrDefault(version);
      match StoredValue(features, name, v)
      case Err(e) => Err(e)
      case Ok(stored) =>
        var enabled := if stored == Nil then default else stored;
        var unknown := if stored == Nil then Record(hits.unknown, name, v, default) else hits.unknown;
        var featuresHit := if Truthy(enabled) then Record(hits.features, name, Str(ToS(v)), Hash([])) else hits.features;
        Ok(Outcome(enabled, HitState(featuresHit, hits.goals, unknown)))
  }

  /** A feature the snapshot knows answers its stored value and records nothing as unknown. */
  lemma KnownFeature(features: Value, hits: HitState, name: string, version: Value, default: Value)
    requires features.Hash?
    requires StoredValue(features, Str(name), VersionOrDefault(version)) != Ok(Nil)
    ensures FeatureEnabled(features, hits, Str(name), version, default).Ok?
    ensures FeatureEnabled(features, hits, Str(name), version, default).value.enabled
            == StoredValue(features, Str(name), VersionOrDefault(version)).value
    ensures FeatureEnabled(features, hits, Str(name), version, default).value.hits.unknown == hits.unknown
  {
  }

  /**
   * A feature the snapshot does not know answers the default and records
   * the default under (name, version) in the unknown features; no other
   * unknown entry changes.
   */
  lemma UnknownFeature(features: Value, hits: HitState, name: string, version: Value, default: Value, f: Value, v: Value)
    requires features.Hash?
    requires StoredValue(features, Str(name), VersionOrDefault(version)) == Ok(Nil)
    ensures FeatureEnabled(features, hits, Str(name), version, default).Ok?
    ensures FeatureEnabled(features, hits, Str(name), version, default).value.enabled == default
    ensures Get2(FeatureEnabled(features, hits, Str(name), version, default).value.hits.unknown, f, v)
            == if f == Str(name) && v == VersionOrDefault(version) then Some(default) else Get2(hits.unknown, f, v)
  {
  }

  /** A truthy answer is recorded as a hit on (name, version.to_s); a falsy one leaves the hits as they were. */
  lemma HitRecordedWhenEnabled(features: Value, hits: HitState, name: string, version: Value, default: Value)
    requires features.Hash?
    ensures var o := FeatureEnabled(features, hits, Str(name), version, default).value;
      (Truthy(o.enabled) ==> Get2(o.hits.features, Str(name), Str(ToS(VersionOrDefault(version)))) == Some(Hash([])))
      && (!Truthy(o.enabled) ==> o.hits.features == hits.features)
  {
  }

  /**
   * Asking the same question twice gives the same answer and records nothing
   * more than asking once; for an unknown feature the later default is the
   * one kept (last write wins).
   */
  lemma FeatureEnabledTwice(features: Value, hits: HitState, name: string, version: Value, d1: Value, d2: Value)
    requires features.Hash?
    ensures var first := FeatureEnabled(features, hits, Str(name), version, d1).value;
      var second := FeatureEnabled(features, first.hits, Str(name), version, d2).value;
      && (StoredValue(features, Str(name), VersionOrDefault(version)) != Ok(Nil) ==> second == first)
      && (StoredValue(features, Str(name), VersionOrDefault(version)) == Ok(Nil) ==>
            second.enabled == d2
            && second.hits.unknown == Record(hits.unknown, Str(name), VersionOrDefault(version), d2))
  {
    var v := VersionOrDefault(version);
    var first := FeatureEnabled(features, hits, Str(name), version, d1).value;
    if StoredValue(features, Str(name), v) != Ok(Nil) {
      var stored := StoredValue(features, Str(name), v).value;
      if Truthy(stored) {
        RecordAgain(hits.features, Str(name), Str(ToS(v)), Hash([]), Hash([]));
      }
    } else {
      RecordAgain(hits.unknown, Str(name), v, d1, d2);
    }
  }

  /**
   * goal_hit(goal, version): the goal name must be a String, a nil version
   * means the default version, which must then be a String; the pair is
   * recorded in the goals hit.
   */
  function GoalHit(hits: HitState, goal: Value, version: Value): (r: Result<HitState, Error>)
    ensures !goal.Str? ==> r == Err(GoalNameInvalid)
    ensures goal.Str? && !VersionOrDefault(version).Str? ==> r == Err(GoalVersionNameInvalid)
    ensures r.Ok? <==> goal.Str? && VersionOrDefault(version).Str?
    ensures r.Ok? ==> r.value.features == hits.features && r.value.unknown == hits.unknown
    ensures r.Ok? ==> Get2(r.value.goals, goal, VersionOrDefault(version)) == Some(Hash([]))
    ensures r.Ok? ==> forall g, v :: g != goal || v != VersionOrDefault(version) ==> Get2(r.value.goals, g, v) == Get2(hits.goals, g, v)
  {
    if !goal.Str? then Err(GoalNameInvalid)
    else
      var v := VersionOrDefault(version);
      if !v.Str? then Err(GoalVersionNameInvalid)
      // goal_name.to_s and goal_version_name.to_s are the Strings themselves
      else Ok(HitState(hits.features, Record(hits.goals, goal, v, Hash([])), hits.unknown))
  }

  // ---------------------------------------------------------------------------
  // The report sent when a request ends

  /** The unknown features as reported: feature name -> {:versions => {version => default}}. */
  function UnknownValue(log: Log): (v: Value)
    ensures v.Hash? && Keys(v.entries) == Keys(log)
    ensures forall i :: 0 <= i < |log| ==> v.entries[i].1 == Hash([(Sym("versions"), Hash(log[i].1))])
  {
    Hash(seq(|log|, i requires 0 <= i < |log| => (log[i].0, Hash([(Sym("versions"), Hash(log[i].1))]))))
  }

  /** The entry payload_user[key] = x adds when x is truthy. */
  function IfTruthy(key: Value, x: Value): AList<Value, Value> {
    if Truthy(x) then [(key, x)] else []
  }

  /**
   * The user entry of a report: the id first, then name, anonymous, unique
   * and cohorts, each only when truthy.
   */
  function UserPayload(id: Value, name: Value, anonymous: Value, unique: Value, cohorts: Value): (es: AList<Value, Value>)
    ensures |es| > 0 && es[0] == (Sym("id"), id)
    ensures (Sym("name"), name) in es <==> Truthy(name)
    ensures (Sym("anonymous"), anonymous) in es <==> Truthy(anonymous)
    ensures (Sym("unique"), unique) in es <==> Truthy(unique)
    ensures (Sym("cohorts"), cohorts) in es <==> Truthy(cohorts)
  {
    // The keys are distinct, so each assignment appends.
    [(Sym("id"), id)] + IfTruthy(Sym("name"), name) + IfTruthy(Sym("anonymous"), anonymous)
      + IfTruthy(Sym("unique"), unique) + IfTruthy(Sym("cohorts"), cohorts)
  }

  /** payload[:hits]: the features and goals hit. */
  function HitsValue(hits: HitState): (v: Value)
    ensures v.Hash? && Keys(v.entries) == [Sym("feature"), Sym("goal")]
    ensures Lookup(v.entries, Sym("feature")) == NestedHash(hits.features)
    ensures Lookup(v.entries, Sym("goal")) == NestedHash(hits.goals)
  {
    var entries := [(Sym("feature"), NestedHash(hits.features)), (Sym("goal"), NestedHash(hits.goals))];
    assert "feature"[0] != "goal"[0];
    assert entries[1..] == [(Sym("goal"), NestedHash(hits.goals))];
    assert Get(entries[1..], Sym("goal")) == Some(NestedHash(hits.goals));
    Hash(entries)
  }

  /** The Hash an end-of-request report is: url, user, hits, stats and features, in that order. */
  function Report(url: Value, user: AList<Value, Value>, hits: HitState, stats: AList<Value, Value>): (p: Value)
    ensures p.Hash? && Keys(p.entries) == [Sym("url"), Sym("user"), Sym("hits"), Sym("stats"), Sym("features")]
    ensures p.entries[0].1 == url && p.entries[1].1 == Hash(user) && p.entries[2].1 == HitsValue(hits)
    ensures p.entries[3].1 == Hash(stats)
    ensures p.entries[4].1 == Hash([(Sym("unknown"), UnknownValue(hits.unknown))])
  {
    Hash([(Sym("url"), url), (Sym("user"), Hash(user)), (Sym("hits"), HitsValue(hits)), (Sym("stats"), Hash(stats)),
          (Sym("features"), Hash([(Sym("unknown"), UnknownValue(hits.unknown))]))])
  }

  /** Every count recorded for a feature and version reads back from the report's Hash of Hashes. */
  lemma {:induction false} ReportReadsBack(m: AList<Value, AList<Value, Value>>, k: Value, k2: Value)
    ensures Get(NestedHash(m).entries, k) == if Get(m, k).Some? then Some(Hash(Get(m, k).value)) else None
    ensures Get2(m, k, k2) == (if Get(m, k).Some? then Get(Get(NestedHash(m).entries, k).value.entries, k2) else None)
  {
    if m != [] {
      assert NestedHash(m).entries[1..] == NestedHash(m[1..]).entries;
      ReportReadsBack(m[1..], k, k2);
    }
  }
}
