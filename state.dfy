/**
 * The application's view of every feature: normalising the parts of each
 * version into a set when the state is loaded, and deciding whether a
 * version of a feature is enabled for a user.
 */
module State {
  import opened Wrappers
  import opened Errors
  import opened RubyText
  import opened RubyValues

  /** The version a caller means when it names none. */
  const DEFAULT_VERSION_NAME: string := "default"

  // ---------------------------------------------------------------------------
  // load_state

  /** No element occurs twice. */
  predicate Distinct(xs: seq<Value>) {
    forall i, j :: 0 <= i < j < |xs| ==> xs[i] != xs[j]
  }

  /** The elements of xs, each once, in order of first occurrence. */
  function Dedup(xs: seq<Value>): (r: seq<Value>)
    ensures forall x :: x in r <==> x in xs
    ensures Distinct(r)
  {
    if xs == [] then []
    else
      var d := Dedup(xs[..|xs| - 1]);
      assert forall x :: x in xs <==> x in xs[..|xs| - 1] || x == xs[|xs| - 1] by {
        assert xs == xs[..|xs| - 1] + [xs[|xs| - 1]];
      }
      if xs[|xs| - 1] in d then d else d + [xs[|xs| - 1]]
  }

  /** A sequence without repetitions is its own deduplication. */
  lemma {:induction false} DedupDistinct(xs: seq<Value>)
    requires Distinct(xs)
    ensures Dedup(xs) == xs
  {
    if xs != [] {
      var pre := xs[..|xs| - 1];
      assert Distinct(pre);
      DedupDistinct(pre);
      assert xs[|xs| - 1] !in pre by {
        forall i | 0 <= i < |pre| ensures pre[i] != xs[|xs| - 1] {
          assert pre[i] == xs[i];
        }
      }
      assert xs == pre + [xs[|xs| - 1]];
    }
  }

  /** Set.new(parts || []): nil and false give the empty set; an Array, a Set or a Hash (as pairs) give the set of their elements. */
  function ToSet(parts: Value): (r: Result<Value, Error>)
    ensures r.Ok? <==> !Truthy(parts) || parts.List? || parts.SetV? || parts.Hash?
    ensures r.Ok? ==> r.value.SetV? && Distinct(r.value.members)
    ensures !Truthy(parts) ==> r == Ok(SetV([]))
    ensures parts.List? ==> forall x :: x in r.value.members <==> x in parts.items
    ensures parts.SetV? ==> forall x :: x in r.value.members <==> x in parts.members
    ensures parts.Hash? ==> forall k, v :: List([k, v]) in r.value.members <==> (k, v) in parts.entries
  {
    match parts
    case Nil => Ok(SetV([]))
    case Bool(b) => if b then Err(RuntimeFault) else Ok(SetV([]))
    case List(items) => Ok(SetV(Dedup(items)))
    case SetV(ms) => Ok(SetV(Dedup(ms)))
    case Hash(es) =>
      var pairs := seq(|es|, i requires 0 <= i < |es| => List([es[i].0, es[i].1]));
      assert forall k, v :: List([k, v]) in pairs <==> (k, v) in es by {
        forall k, v ensures List([k, v]) in pairs <==> (k, v) in es {
          if (k, v) in es {
            var i :| 0 <= i < |es| && es[i] == (k, v);
            assert pairs[i] == List([k, v]);
          }
        }
      }
      Ok(SetV(Dedup(pairs)))
    case _ => Err(RuntimeFault)
  }

  /** A set of parts normalises to itself. */
  lemma ToSetOfSet(ms: seq<Value>)
    requires Distinct(ms)
    ensures ToSet(SetV(ms)) == Ok(SetV(ms))
  {
    DedupDistinct(ms);
  }

  /** One version with its "parts" replaced by their set; a version that is not a Hash cannot be updated. */
  function NormaliseVersion(version: Value): (r: Result<Value, Error>)
    ensures r.Ok? ==> version.Hash? && r.value.Hash?
  {
    if !version.Hash? then Err(RuntimeFault)
    else
      var parts := ToSet(Lookup(version.entries, Str("parts")));
      if parts.Err? then Err(parts.error)
      else Ok(Hash(Put(version.entries, Str("parts"), parts.value)))
  }

  /** Every value of a Hash passed through f, keys and order kept; the first failure wins. */
  function MapValues(es: AList<Value, Value>, f: Value -> Result<Value, Error>): (r: Result<AList<Value, Value>, Error>)
    ensures r.Ok? ==> |r.value| == |es|
    ensures r.Ok? ==> forall i :: 0 <= i < |es| ==> r.value[i].0 == es[i].0 && f(es[i].1) == Ok(r.value[i].1)
    ensures r.Ok? <==> forall i :: 0 <= i < |es| ==> f(es[i].1).Ok?
  {
    if es == [] then Ok([])
    else
      var n := |es| - 1;
      var pre := MapValues(es[..n], f);
      var last := f(es[n].1);
      if pre.Err? then
        assert exists i :: 0 <= i < n && f(es[..n][i].1).Err?;
        pre
      else if last.Err? then Err(last.error)
      else
        var r := pre.value + [(es[n].0, last.value)];
        assert forall i :: 0 <= i < n ==> r[i] == pre.value[i] && es[i] == es[..n][i];
        Ok(r)
  }

  /** The keys of a Hash survive MapValues. */
  lemma MapValuesKeys(es: AList<Value, Value>, f: Value -> Result<Value, Error>)
    requires MapValues(es, f).Ok?
    ensures Keys(MapValues(es, f).value) == Keys(es)
  {
    var r := MapValues(es, f).value;
    assert forall i :: 0 <= i < |es| ==> Keys(r)[i] == Keys(es)[i];
  }

  /** MapValues fails with the error of the first value f rejects. */
  lemma {:induction false} MapValuesFirstError(es: AList<Value, Value>, f: Value -> Result<Value, Error>, i: nat)
    requires i < |es| && MapValues(es[..i], f).Ok? && f(es[i].1).Err?
    ensures MapValues(es, f) == Err(f(es[i].1).error)
  {
    if |es| > i + 1 {
      assert es[..|es| - 1][..i] == es[..i];
      MapValuesFirstError(es[..|es| - 1], f, i);
    } else {
      assert es[..|es| - 1] == es[..i];
    }
  }

  /** One more value mapped: the step of a loop that walks a Hash in order. */
  lemma MapValuesStep(es: AList<Value, Value>, f: Value -> Result<Value, Error>, i: nat, done: AList<Value, Value>, v: Value)
    requires i < |es| && MapValues(es[..i], f) == Ok(done) && f(es[i].1) == Ok(v)
    ensures MapValues(es[..i + 1], f) == Ok(done + [(es[i].0, v)])
  {
    assert es[..i + 1][..i] == es[..i];
  }

  /** Every version of a feature normalised, keys and order kept; the first failure wins. */
  function NormaliseVersions(versions: AList<Value, Value>): Result<AList<Value, Value>, Error> {
    MapValues(versions, NormaliseVersion)
  }

  /** A feature whose "versions" Hash has been normalised in place. */
  function NormaliseFeature(feature: Value): (r: Result<Value, Error>)
    ensures r.Ok? ==> feature.Hash? && r.value.Hash? && Keys(r.value.entries) == Keys(feature.entries)
    ensures r.Ok? <==> feature.Hash? && Lookup(feature.entries, Str("versions")).Hash?
                       && NormaliseVersions(Lookup(feature.entries, Str("versions")).entries).Ok?
    ensures r.Ok? ==> Lookup(r.value.entries, Str("versions"))
                      == Hash(NormaliseVersions(Lookup(feature.entries, Str("versions")).entries).value)
    ensures r.Ok? ==> forall k :: k != Str("versions") ==> Get(r.value.entries, k) == Get(feature.entries, k)
  {
    if !feature.Hash? then Err(RuntimeFault)
    else
      var versions := Lookup(feature.entries, Str("versions"));
      if !versions.Hash? then Err(RuntimeFault)
      else
        var vs := NormaliseVersions(versions.entries);
        if vs.Err? then Err(vs.error)
        else
          assert HasKey(feature.entries, Str("versions"));
          Ok(Hash(Put(feature.entries, Str("versions"), Hash(vs.value))))
  }

  function NormaliseFeatures(features: AList<Value, Value>): Result<AList<Value, Value>, Error> {
    MapValues(features, NormaliseFeature)
  }

  /** The state after load_state has rewritten the server's answer. */
  function NormaliseSnapshot(result: Value): (r: Result<Value, Error>)
    ensures r.Ok? ==> result.Hash? && r.value.Hash? && Keys(r.value.entries) == Keys(result.entries)
    ensures r.Ok? <==> result.Hash? && forall i :: 0 <= i < |result.entries| ==> NormaliseFeature(result.entries[i].1).Ok?
    ensures r.Ok? ==> |r.value.entries| == |result.entries|
    ensures r.Ok? ==> forall i :: 0 <= i < |result.entries| ==>
      r.value.entries[i] == (result.entries[i].0, NormaliseFeature(result.entries[i].1).value)
  {
    if !result.Hash? then Err(RuntimeFault)
    else
      var fs := NormaliseFeatures(result.entries);
      if fs.Err? then Err(fs.error) else Ok(Hash(fs.value))
  }

  /**
   * Normalising a version replaces exactly its "parts", by a set of the
   * elements the old value held, and keeps every other field.
   */
  lemma NormaliseVersionParts(version: Value)
    requires NormaliseVersion(version).Ok?
    ensures var v := NormaliseVersion(version).value;
      Lookup(v.entries, Str("parts")) == ToSet(Lookup(version.entries, Str("parts"))).value &&
      (forall k :: k != Str("parts") ==> Get(v.entries, k) == Get(version.entries, k))
  {
  }

  lemma {:induction false} NormaliseVersionIdempotent(version: Value)
    requires NormaliseVersion(version).Ok?
    ensures NormaliseVersion(NormaliseVersion(version).value) == NormaliseVersion(version)
  {
    var parts := ToSet(Lookup(version.entries, Str("parts"))).value;
    ToSetOfSet(parts.members);
    PutPut(version.entries, Str("parts"), parts, parts);
  }

  /** Mapping twice maps once, when f is idempotent on every value. */
  lemma {:induction false} MapValuesIdempotent(es: AList<Value, Value>, f: Value -> Result<Value, Error>)
    requires MapValues(es, f).Ok?
    requires forall i :: 0 <= i < |es| ==> f(es[i].1).Ok? && f(f(es[i].1).value) == f(es[i].1)
    ensures MapValues(MapValues(es, f).value, f) == MapValues(es, f)
  {
    if es != [] {
      var n := |es| - 1;
      var once := MapValues(es, f).value;
      assert forall i :: 0 <= i < n ==> es[..n][i] == es[i];
      MapValuesIdempotent(es[..n], f);
      assert once[..n] == MapValues(es[..n], f).value;
    }
  }

  lemma NormaliseVersionsIdempotent(versions: AList<Value, Value>)
    requires NormaliseVersions(versions).Ok?
    ensures NormaliseVersions(NormaliseVersions(versions).value) == NormaliseVersions(versions)
  {
    forall i | 0 <= i < |versions|
      ensures NormaliseVersion(versions[i].1).Ok? && NormaliseVersion(NormaliseVersion(versions[i].1).value) == NormaliseVersion(versions[i].1)
    {
      NormaliseVersionIdempotent(versions[i].1);
    }
    MapValuesIdempotent(versions, NormaliseVersion);
  }

  lemma NormaliseFeatureIdempotent(feature: Value)
    requires NormaliseFeature(feature).Ok?
    ensures NormaliseFeature(NormaliseFeature(feature).value) == NormaliseFeature(feature)
  {
    var versions := Lookup(feature.entries, Str("versions"));
    var vs := NormaliseVersions(versions.entries).value;
    NormaliseVersionsIdempotent(versions.entries);
    PutPut(feature.entries, Str("versions"), Hash(vs), Hash(vs));
  }

  lemma NormaliseFeaturesIdempotent(features: AList<Value, Value>)
    requires NormaliseFeatures(features).Ok?
    ensures NormaliseFeatures(NormaliseFeatures(features).value) == NormaliseFeatures(features)
  {
    forall i | 0 <= i < |features|
      ensures NormaliseFeature(features[i].1).Ok? && NormaliseFeature(NormaliseFeature(features[i].1).value) == NormaliseFeature(features[i].1)
    {
      NormaliseFeatureIdempotent(features[i].1);
    }
    MapValuesIdempotent(features, NormaliseFeature);
  }

  /** Loading an already loaded state changes nothing. */
  lemma NormaliseSnapshotIdempotent(result: Value)
    requires NormaliseSnapshot(result).Ok?
    ensures NormaliseSnapshot(NormaliseSnapshot(result).value) == NormaliseSnapshot(result)
  {
    NormaliseFeaturesIdempotent(result.entries);
  }

  class AppState {
    var features: Value

    constructor(initial: Value)
      ensures features == initial
    {
      features := initial;
    }

    /** The inner walk of load_state: every version of one feature, in order. */
    static method NormaliseEachVersion(versions: AList<Value, Value>) returns (r: Result<AList<Value, Value>, Error>)
      ensures r == NormaliseVersions(versions)
    {
      var done: AList<Value, Value> := [];
      var j := 0;
      while j < |versions|
        invariant 0 <= j <= |versions|
        invariant NormaliseVersions(versions[..j]) == Ok(done)
      {
        assert versions[..j + 1][..j] == versions[..j];
        var version := NormaliseVersion(versions[j].1);
        if version.Err? {
          MapValuesFirstError(versions, NormaliseVersion, j);
          return Err(version.error);
        }
        done := done + [(versions[j].0, version.value)];
        j := j + 1;
      }
      assert versions[..j] == versions;
      r := Ok(done);
    }

    /**
     * load_state: walk every feature and every version of the server's
     * answer, replacing each version's parts by their set. If any step
     * fails the state keeps its previous features.
     */
    method LoadState(result: Value) returns (r: Result<Value, Error>)
      modifies this
      ensures r == NormaliseSnapshot(result)
      ensures r.Ok? ==> features == r.value
      ensures r.Err? ==> features == old(features)
    {
      if !result.Hash? {
        return Err(RuntimeFault);
      }
      var es := result.entries;
      var done: AList<Value, Value> := [];
      var i := 0;
      while i < |es|
        invariant 0 <= i <= |es|
        invariant MapValues(es[..i], NormaliseFeature) == Ok(done)
        invariant features == old(features)
      {
        var feature := es[i].1;
        if !feature.Hash? || !Lookup(feature.entries, Str("versions")).Hash? {
          assert NormaliseFeature(feature) == Err(RuntimeFault);
          MapValuesFirstError(es, NormaliseFeature, i);
          return Err(RuntimeFault);
        }
        var versions := NormaliseEachVersion(Lookup(feature.entries, Str("versions")).entries);
        if versions.Err? {
          assert NormaliseFeature(feature) == Err(versions.error);
          MapValuesFirstError(es, NormaliseFeature, i);
          return Err(versions.error);
        }
        var updated := Hash(Put(feature.entries, Str("versions"), Hash(versions.value)));
        assert NormaliseFeature(feature) == Ok(updated);
        MapValuesStep(es, NormaliseFeature, i, done, updated);
        done := done + [(es[i].0, updated)];
        i := i + 1;
      }
      assert es[..i] == es;
      features := Hash(done);
      r := Ok(features);
    }
  }

  // ---------------------------------------------------------------------------
  // feature_version_enabled_for_user

  /**
   * USER_ID_NUMERIC as Ruby reads it: in the double-quoted source string
   * the backslash before d is dropped, so the pattern is ^d+$, and ^ and $
   * match at every line boundary. A string matches when one of its lines
   * is a non-empty run of the letter d.
   */
  predicate MatchesUserIdNumeric(s: string) {
    exists i :: 0 <= i < |Lines(s)| && DRun(Lines(s)[i])
  }

  /** No String of decimal digits matches, so a numeric String id is always hashed by SHA-1. */
  lemma NumericIdNeverMatches(s: string)
    requires AllDigits(s)
    ensures !MatchesUserIdNumeric(s)
  {
    assert forall i :: 0 <= i < |s| ==> s[i] != '\n' by {
      forall i | 0 <= i < |s| ensures s[i] != '\n' {
        assert IsDigit(s[i]);
      }
    }
    assert Lines(s) == [s];
    if s != [] {
      assert IsDigit(s[0]);
    }
  }

  /** Digits are not what the pattern asks for; a line of d's is, on any line of the id. */
  lemma UserIdNumericPattern()
    ensures !MatchesUserIdNumeric("4") && !MatchesUserIdNumeric("42")
    ensures MatchesUserIdNumeric("dd") && MatchesUserIdNumeric("4\ndd")
  {
    assert Lines("4") == ["4"] && "4"[0] != 'd';
    assert Lines("42") == ["42"] && "42"[0] != 'd';
    assert Lines("dd") == ["dd"] && DRun(Lines("dd")[0]);
    assert "4\ndd"[0] != '\n' && "4\ndd"[1] == '\n' && "4\ndd"[..1] == "4";
    assert FirstNewline("4\ndd") == 1;
    assert "4\ndd"[2..] == "dd";
    assert Lines("4\ndd") == ["4", "dd"] && DRun(Lines("4\ndd")[1]);
  }

  predicate DRun(line: string) {
    line != [] && forall i :: 0 <= i < |line| ==> line[i] == 'd'
  }

  /** SHA-1 as hexdigest returns it: forty lower-case hexadecimal digits. */
  ghost predicate HexDigest(sha1: string -> string) {
    forall s :: |sha1(s)| == 40 && AllLowerHex(sha1(s))
  }

  /**
   * The number a user id is bucketed by: an Integer as it is; a matching
   * String read with to_i; any other String by the last ten hexadecimal
   * digits of its SHA-1. Other ids cannot be hashed.
   */
  function UserIdHash(userId: Value, sha1: string -> string): (r: Result<int, Error>)
    requires HexDigest(sha1)
    ensures r.Ok? <==> userId.Int? || userId.Str?
    ensures userId.Int? ==> r == Ok(userId.i)
  {
    match userId
    case Int(i) => Ok(i)
    case Str(s) =>
      if MatchesUserIdNumeric(s) then Ok(ToI(s))
      else
        var digest := sha1(s);
        Ok(HexValue(digest[30..40]))
    case _ => Err(RuntimeFault)
  }

  /** A hashed string id is below 16^10. */
  lemma DigestHashRange(s: string, sha1: string -> string)
    requires HexDigest(sha1) && !MatchesUserIdNumeric(s)
    ensures 0 <= UserIdHash(Str(s), sha1).value < Pow(16, 10)
  {
    HexValueBound(sha1(s)[30..40]);
  }

  /** Integer#div: the quotient rounded towards negative infinity. */
  function RubyDiv(a: int, b: int): int
    requires b != 0
  {
    if b > 0 || a % b == 0 then a / b else a / b - 1
  }

  /** Integer#%: the remainder takes the sign of the divisor and completes Integer#div. */
  function RubyMod(a: int, b: int): (r: int)
    requires b != 0
    ensures b > 0 ==> 0 <= r < b
    ensures b < 0 ==> b < r <= 0
    ensures a == b * RubyDiv(a, b) + r
  {
    assert a == b * (a / b) + a % b;
    if b > 0 || a % b == 0 then a % b
    else
      assert b * (a / b - 1) == b * (a / b) - b;
      a % b + b
  }

  /** include? on the receivers the assignment rule meets. */
  function Includes(container: Value, x: Value): (r: Result<bool, Error>)
    ensures container.SetV? ==> r == Ok(x in container.members)
    ensures container.List? ==> r == Ok(x in container.items)
    ensures container.Hash? ==> r == Ok(HasKey(container.entries, x))
    ensures container.Str? && x.Str? ==> r == Ok(IsSubstring(x.s, container.s))
  {
    match container
    case SetV(ms) => Ok(x in ms)
    case List(items) => Ok(x in items)
    case Hash(es) => Ok(HasKey(es, x))
    case Str(s) => if x.Str? then Ok(IsSubstring(x.s, s)) else Err(RuntimeFault)
    case _ => Err(RuntimeFault)
  }

  /** The feature's Hash, or failure where the source would call a method on nil. */
  function FeatureOf(features: Value, featureName: Value): Result<AList<Value, Value>, Error> {
    if !features.Hash? then Err(RuntimeFault)
    else
      var feature := Lookup(features.entries, featureName);
      if !feature.Hash? then Err(RuntimeFault) else Ok(feature.entries)
  }

  function VersionsOf(feature: AList<Value, Value>): Result<AList<Value, Value>, Error> {
    var versions := Lookup(feature, Str("versions"));
    if !versions.Hash? then Err(RuntimeFault) else Ok(versions.entries)
  }

  /**
   * Whether hash % num_parts is one of the version's parts. A missing
   * version or a missing or zero num_parts is a failure, never false.
   */
  function Baseline(feature: AList<Value, Value>, versionName: Value, hash: int): (r: Result<bool, Error>)
    ensures r.Ok? ==> VersionsOf(feature).Ok? && Lookup(VersionsOf(feature).value, versionName).Hash?
    ensures r.Ok? ==> Lookup(feature, Str("num_parts")).Int? && Lookup(feature, Str("num_parts")).i != 0
  {
    match VersionsOf(feature)
    case Err(e) => Err(e)
    case Ok(versions) =>
      var version := Lookup(versions, versionName);
      var numParts := Lookup(feature, Str("num_parts"));
      if !numParts.Int? || numParts.i == 0 then Err(RuntimeFault)
      else
        var modulus := RubyMod(hash, numParts.i);
        if !version.Hash? then Err(RuntimeFault)
        else Includes(Lookup(version.entries, Str("parts")), Int(modulus))
  }

  /**
   * Whether one user attribute, in the order of the user's Hash, is among
   * the ids a version lists under that attribute's key.
   */
  function AttributeMatch(versionAttributes: AList<Value, Value>, userAttributes: AList<Value, Value>): (r: Result<bool, Error>)
    ensures userAttributes == [] ==> r == Ok(false)
  {
    if userAttributes == [] then Ok(false)
    else
      var (key, id) := userAttributes[0];
      var listed := Lookup(versionAttributes, key);
      var hit := if Truthy(listed) then Includes(listed, id) else Ok(false);
      match hit
      case Err(e) => Err(e)
      case Ok(true) => Ok(true)
      case Ok(false) => AttributeMatch(versionAttributes, userAttributes[1..])
  }

  /** The version does not list this attribute's id under its key (or lists nothing there). */
  predicate Declines(versionAttributes: AList<Value, Value>, attr: (Value, Value)) {
    !Truthy(Lookup(versionAttributes, attr.0)) || Includes(Lookup(versionAttributes, attr.0), attr.1) == Ok(false)
  }

  /** The version lists this attribute's id under its key. */
  predicate Singles(versionAttributes: AList<Value, Value>, attr: (Value, Value)) {
    Truthy(Lookup(versionAttributes, attr.0)) && Includes(Lookup(versionAttributes, attr.0), attr.1) == Ok(true)
  }

  /** Whether a version's enabled.attributes single this user out. */
  function Grants(version: Value, userAttributes: AList<Value, Value>): (r: Result<bool, Error>)
    ensures !Truthy(version) ==> r == Ok(false)
    ensures version.Hash? && !Truthy(Lookup(version.entries, Str("enabled"))) ==> r == Ok(false)
  {
    if !Truthy(version) then Ok(false)
    else if !version.Hash? then Err(RuntimeFault)
    else
      var enabled := Lookup(version.entries, Str("enabled"));
      var holder := if Truthy(enabled) then enabled else Hash([]);
      if !holder.Hash? then Err(RuntimeFault)
      else
        var attributes := Lookup(holder.entries, Str("attributes"));
        if !Truthy(attributes) then Ok(false)
        else if !attributes.Hash? then Err(RuntimeFault)
        else AttributeMatch(attributes.entries, userAttributes)
  }

  /** A version grants only through an attribute id listed under its enabled.attributes. */
  lemma GrantsThroughListedAttribute(version: Value, userAttributes: AList<Value, Value>)
    requires Grants(version, userAttributes) == Ok(true)
    ensures version.Hash? && Lookup(version.entries, Str("enabled")).Hash?
    ensures var attributes := Lookup(Lookup(version.entries, Str("enabled")).entries, Str("attributes"));
      attributes.Hash? && AttributeMatch(attributes.entries, userAttributes) == Ok(true)
      && exists i :: 0 <= i < |userAttributes| && Singles(attributes.entries, userAttributes[i])
  {
    var attributes := Lookup(Lookup(version.entries, Str("enabled")).entries, Str("attributes"));
    AttributeMatchSingles(attributes.entries, userAttributes);
  }

  /** No match exactly when the version declines every attribute of the user. */
  lemma {:induction false} AttributeMatchDeclines(versionAttributes: AList<Value, Value>, userAttributes: AList<Value, Value>)
    ensures AttributeMatch(versionAttributes, userAttributes) == Ok(false)
      <==> forall i :: 0 <= i < |userAttributes| ==> Declines(versionAttributes, userAttributes[i])
  {
    if userAttributes != [] {
      AttributeMatchDeclines(versionAttributes, userAttributes[1..]);
      assert forall i :: 1 <= i < |userAttributes| ==> userAttributes[i] == userAttributes[1..][i - 1];
    }
  }

  /** A match is an attribute of the user whose id the version lists. */
  lemma {:induction false} AttributeMatchSingles(versionAttributes: AList<Value, Value>, userAttributes: AList<Value, Value>)
    requires AttributeMatch(versionAttributes, userAttributes) == Ok(true)
    ensures exists i :: 0 <= i < |userAttributes| && Singles(versionAttributes, userAttributes[i])
  {
    if !Singles(versionAttributes, userAttributes[0]) {
      AttributeMatchSingles(versionAttributes, userAttributes[1..]);
      var i :| 0 <= i < |userAttributes[1..]| && Singles(versionAttributes, userAttributes[1..][i]);
      assert userAttributes[1..][i] == userAttributes[i + 1];
    }
  }

  /**
   * The attribute override: the first version, in the order of the
   * versions Hash, that singles the user out decides: true when it is the
   * version asked about, false when it is another. None when no version does.
   */
  function FirstOverride(versions: AList<Value, Value>, userAttributes: AList<Value, Value>, versionName: Value): (r: Result<Option<bool>, Error>)
    ensures versions == [] ==> r == Ok(None)
    ensures r == Ok(Some(true)) ==> HasKey(versions, versionName)
  {
    if versions == [] then Ok(None)
    else
      match Grants(versions[0].1, userAttributes)
      case Err(e) => Err(e)
      case Ok(true) => Ok(Some(versions[0].0 == versionName))
      case Ok(false) => FirstOverride(versions[1..], userAttributes, versionName)
  }

  /** Version i grants, every version before it declines, and so version i decides the override. */
  ghost predicate DecidesAt(versions: AList<Value, Value>, userAttributes: AList<Value, Value>, versionName: Value, i: int) {
    0 <= i < |versions| && Grants(versions[i].1, userAttributes) == Ok(true)
    && FirstOverride(versions, userAttributes, versionName) == Ok(Some(versions[i].0 == versionName))
    && forall j :: 0 <= j < i ==> Grants(versions[j].1, userAttributes) == Ok(false)
  }

  /** The first version to grant decides, and every version before it declined. */
  lemma {:induction false} FirstOverrideSome(versions: AList<Value, Value>, userAttributes: AList<Value, Value>, versionName: Value)
    requires FirstOverride(versions, userAttributes, versionName).Ok?
    requires FirstOverride(versions, userAttributes, versionName).value.Some?
    ensures exists i :: DecidesAt(versions, userAttributes, versionName, i)
  {
    assert versions != [];
    if Grants(versions[0].1, userAttributes) == Ok(false) {
      assert FirstOverride(versions, userAttributes, versionName) == FirstOverride(versions[1..], userAttributes, versionName);
      FirstOverrideSome(versions[1..], userAttributes, versionName);
      var i :| DecidesAt(versions[1..], userAttributes, versionName, i);
      forall j | 0 <= j < i + 1 ensures Grants(versions[j].1, userAttributes) == Ok(false) {
        if j > 0 {
          assert versions[j] == versions[1..][j - 1];
        }
      }
      assert versions[i + 1] == versions[1..][i];
      assert DecidesAt(versions, userAttributes, versionName, i + 1);
    } else {
      assert Grants(versions[0].1, userAttributes) == Ok(true);
      assert DecidesAt(versions, userAttributes, versionName, 0);
    }
  }

  /** Conversely, a granting version preceded only by declining ones decides. */
  lemma {:induction false} FirstOverrideDecides(versions: AList<Value, Value>, userAttributes: AList<Value, Value>, versionName: Value, i: nat)
    requires i < |versions| && Grants(versions[i].1, userAttributes) == Ok(true)
    requires forall j :: 0 <= j < i ==> Grants(versions[j].1, userAttributes) == Ok(false)
    ensures FirstOverride(versions, userAttributes, versionName) == Ok(Some(versions[i].0 == versionName))
  {
    if i > 0 {
      assert Grants(versions[0].1, userAttributes) == Ok(false);
      assert FirstOverride(versions, userAttributes, versionName) == FirstOverride(versions[1..], userAttributes, versionName);
      forall j | 0 <= j < i - 1 ensures Grants(versions[1..][j].1, userAttributes) == Ok(false) {
        assert versions[1..][j] == versions[j + 1];
      }
      FirstOverrideDecides(versions[1..], userAttributes, versionName, i - 1);
    }
  }

  /** No override exactly when every version declines. */
  lemma {:induction false} FirstOverrideNone(versions: AList<Value, Value>, userAttributes: AList<Value, Value>, versionName: Value)
    ensures FirstOverride(versions, userAttributes, versionName) == Ok(None)
      <==> forall j :: 0 <= j < |versions| ==> Grants(versions[j].1, userAttributes) == Ok(false)
  {
    if versions != [] {
      FirstOverrideNone(versions[1..], userAttributes, versionName);
      assert forall j :: 1 <= j < |versions| ==> versions[j] == versions[1..][j - 1];
    }
  }

  /** What feature_version_enabled_for_user returns, with the caller's attributes Hash as the call leaves it. */
  datatype Decision = Decision(userAttributes: Value, enabled: Result<bool, Error>)

  /**
   * feature_version_enabled_for_user: check the names, write the raw user
   * id under "user" in the attributes, hash the id, take the baseline from
   * the parts, then let the first granting version override it.
   */
  function EnabledForUser(features: Value, featureName: Value, versionName: Value, userId: Value,
                          userAttributes: Value, sha1: string -> string): (d: Decision)
    requires HexDigest(sha1)
    ensures !featureName.Str? ==> d == Decision(userAttributes, Err(FeatureNameInvalid))
    ensures featureName.Str? && Truthy(versionName) && !versionName.Str? ==> d == Decision(userAttributes, Err(VersionNameInvalid))
    ensures featureName.Str? && (!Truthy(versionName) || versionName.Str?) && Truthy(userAttributes) && !userAttributes.Hash? ==>
      d == Decision(userAttributes, Err(RuntimeFault))
    ensures featureName.Str? && (!Truthy(versionName) || versionName.Str?) && !Truthy(userAttributes) ==>
      d.userAttributes == userAttributes
    ensures featureName.Str? && (!Truthy(versionName) || versionName.Str?) && Truthy(userAttributes) && userAttributes.Hash? ==>
      d.userAttributes.Hash? && Get(d.userAttributes.entries, Str("user")) == Some(userId)
      && forall k :: k != Str("user") ==> Get(d.userAttributes.entries, k) == Get(userAttributes.entries, k)
    ensures featureName.Str? && (!Truthy(versionName) || versionName.Str?) && (!Truthy(userAttributes) || userAttributes.Hash?) ==>
      d.enabled == Decide(features, featureName, if Truthy(versionName) then versionName else Str(DEFAULT_VERSION_NAME), userId,
                          Put(if Truthy(userAttributes) then userAttributes.entries else [], Str("user"), userId), sha1)
  {
    if !featureName.Str? then Decision(userAttributes, Err(FeatureNameInvalid))
    else
      var version := if Truthy(versionName) then versionName else Str(DEFAULT_VERSION_NAME);
      if !version.Str? then Decision(userAttributes, Err(VersionNameInvalid))
      else
        // A nil or false argument is replaced by a new local Hash, so the caller sees the user id only in a Hash it passed in.
        var given := if Truthy(userAttributes) then userAttributes else Hash([]);
        if !given.Hash? then Decision(userAttributes, Err(RuntimeFault))
        else
          var attrs := Put(given.entries, Str("user"), userId);
          Decision(if Truthy(userAttributes) then Hash(attrs) else userAttributes,
                   Decide(features, featureName, version, userId, attrs, sha1))
  }

  /** The answer once the names are checked and the attributes hold the user id. */
  function Decide(features: Value, featureName: Value, versionName: Value, userId: Value,
                  attrs: AList<Value, Value>, sha1: string -> string): (r: Result<bool, Error>)
    requires HexDigest(sha1)
    ensures !(userId.Int? || userId.Str?) ==> r == Err(RuntimeFault)
    ensures r.Ok? ==> FeatureOf(features, featureName).Ok? && VersionsOf(FeatureOf(features, featureName).value).Ok?
                      && HasKey(VersionsOf(FeatureOf(features, featureName).value).value, versionName)
  {
    match UserIdHash(userId, sha1)
    case Err(e) => Err(e)
    case Ok(hash) =>
      match FeatureOf(features, featureName)
      case Err(e) => Err(e)
      case Ok(feature) =>
        match Baseline(feature, versionName, hash)
        case Err(e) => Err(e)
        case Ok(enabled) =>
          match FirstOverride(VersionsOf(feature).value, attrs, versionName)
          case Err(e) => Err(e)
          case Ok(None) => Ok(enabled)
          case Ok(Some(decided)) => Ok(decided)
  }

  /**
   * The override takes precedence: a granting version preceded only by
   * declining ones makes the answer true for itself and false for every
   * other version, whatever the parts say.
   */
  lemma OverridePrecedence(features: Value, featureName: Value, versionName: Value, userId: Value,
                           attrs: AList<Value, Value>, sha1: string -> string, i: nat)
    requires HexDigest(sha1)
    requires UserIdHash(userId, sha1).Ok? && FeatureOf(features, featureName).Ok?
    requires Baseline(FeatureOf(features, featureName).value, versionName, UserIdHash(userId, sha1).value).Ok?
    requires var versions := VersionsOf(FeatureOf(features, featureName).value).value;
      i < |versions| && Grants(versions[i].1, attrs) == Ok(true) &&
      forall j :: 0 <= j < i ==> Grants(versions[j].1, attrs) == Ok(false)
    ensures Decide(features, featureName, versionName, userId, attrs, sha1)
      == Ok(VersionsOf(FeatureOf(features, featureName).value).value[i].0 == versionName)
  {
    FirstOverrideDecides(VersionsOf(FeatureOf(features, featureName).value).value, attrs, versionName, i);
  }

  /** With no granting version the answer is exactly the baseline. */
  lemma NoOverrideIsBaseline(features: Value, featureName: Value, versionName: Value, userId: Value,
                             attrs: AList<Value, Value>, sha1: string -> string)
    requires HexDigest(sha1)
    requires UserIdHash(userId, sha1).Ok? && FeatureOf(features, featureName).Ok?
    requires var versions := VersionsOf(FeatureOf(features, featureName).value);
      versions.Ok? && forall j :: 0 <= j < |versions.value| ==> Grants(versions.value[j].1, attrs) == Ok(false)
    ensures Decide(features, featureName, versionName, userId, attrs, sha1)
      == Baseline(FeatureOf(features, featureName).value, versionName, UserIdHash(userId, sha1).value)
  {
    FirstOverrideNone(VersionsOf(FeatureOf(features, featureName).value).value, attrs, versionName);
  }

  /** An absent feature, or an absent version of a present feature, is a failure, never false. */
  lemma AbsentFeatureOrVersionFails(features: Value, featureName: Value, versionName: Value, userId: Value,
                                    attrs: AList<Value, Value>, sha1: string -> string)
    requires HexDigest(sha1) && features.Hash?
    requires !HasKey(features.entries, featureName)
             || (FeatureOf(features, featureName).Ok? && VersionsOf(FeatureOf(features, featureName).value).Ok?
                 && !HasKey(VersionsOf(FeatureOf(features, featureName).value).value, versionName))
    ensures Decide(features, featureName, versionName, userId, attrs, sha1).Err?
  {
  }

  /** Version "a" of the assignment examples: on for parts 1, 3 and 5, and for users whose attribute "key" is "id". */
  function ExampleVersion(): Value {
    Hash([(Str("parts"), List([Int(1), Int(3), Int(5)])),
          (Str("enabled"), Hash([(Str("attributes"), Hash([(Str("key"), List([Str("id")]))]))]))])
  }

  function ExampleFeature(): AList<Value, Value> {
    [(Str("num_parts"), Int(3)), (Str("versions"), Hash([(Str("a"), ExampleVersion())]))]
  }

  function ExampleFeatures(): Value {
    Hash([(Str("Feature"), Hash(ExampleFeature()))])
  }

  lemma ExampleShape()
    ensures FeatureOf(ExampleFeatures(), Str("Feature")) == Ok(ExampleFeature())
    ensures VersionsOf(ExampleFeature()) == Ok([(Str("a"), ExampleVersion())])
  {
  }

  /** Part m is among version "a"'s parts exactly for 1, 3 and 5. */
  lemma ExampleBaseline(hash: int)
    ensures Baseline(ExampleFeature(), Str("a"), hash) == Ok(RubyMod(hash, 3) in {1, 3, 5})
  {
    ExampleShape();
  }

  /** Version "a" singles out the user whose "key" is "id", and nobody else. */
  lemma ExampleGrants(u: int, keyed: bool)
    ensures Grants(ExampleVersion(), (if keyed then [(Str("key"), Str("id"))] else []) + [(Str("user"), Int(u))]) == Ok(keyed)
  {
    var listed := [(Str("key"), List([Str("id")]))];
    assert Lookup(ExampleVersion().entries, Str("enabled")) == Hash([(Str("attributes"), Hash(listed))]);
    assert Lookup(listed, Str("user")) == Nil;
    assert AttributeMatch(listed, [(Str("user"), Int(u))]) == Ok(false);
    if keyed {
      var attrs := [(Str("key"), Str("id")), (Str("user"), Int(u))];
      assert Lookup(listed, Str("key")) == List([Str("id")]);
      assert Includes(List([Str("id")]), Str("id")) == Ok(true);
      assert AttributeMatch(listed, attrs) == Ok(true);
    } else {
      assert [] + [(Str("user"), Int(u))] == [(Str("user"), Int(u))];
    }
  }

  lemma ExampleDecide(userId: int, keyed: bool, sha1: string -> string)
    requires HexDigest(sha1)
    ensures Decide(ExampleFeatures(), Str("Feature"), Str("a"), Int(userId),
                   (if keyed then [(Str("key"), Str("id"))] else []) + [(Str("user"), Int(userId))], sha1)
      == Ok(keyed || RubyMod(userId, 3) in {1, 3, 5})
  {
    var put := (if keyed then [(Str("key"), Str("id"))] else []) + [(Str("user"), Int(userId))];
    ExampleShape();
    ExampleBaseline(userId);
    ExampleGrants(userId, keyed);
    assert FirstOverride([(Str("a"), ExampleVersion())], put, Str("a")) == if keyed then Ok(Some(true)) else Ok(None);
  }

  lemma ExampleDecision(userId: int, keyed: bool, sha1: string -> string)
    requires HexDigest(sha1)
    ensures var attrs := if keyed then Hash([(Str("key"), Str("id"))]) else Nil;
      EnabledForUser(ExampleFeatures(), Str("Feature"), Str("a"), Int(userId), attrs, sha1).enabled
      == Ok(keyed || RubyMod(userId, 3) in {1, 3, 5})
  {
    var put := (if keyed then [(Str("key"), Str("id"))] else []) + [(Str("user"), Int(userId))];
    assert Put(if keyed then [(Str("key"), Str("id"))] else [], Str("user"), Int(userId)) == put;
    ExampleDecide(userId, keyed, sha1);
  }

  /**
   * User 4 falls on part 1 and is in; user 5 falls on part 2 and is out,
   * unless its attribute "key" is "id", which version "a" lists.
   */
  lemma AssignmentExamples(sha1: string -> string)
    requires HexDigest(sha1)
    ensures EnabledForUser(ExampleFeatures(), Str("Feature"), Str("a"), Int(4), Nil, sha1).enabled == Ok(true)
    ensures EnabledForUser(ExampleFeatures(), Str("Feature"), Str("a"), Int(5), Nil, sha1).enabled == Ok(false)
    ensures EnabledForUser(ExampleFeatures(), Str("Feature"), Str("a"), Int(5), Hash([(Str("key"), Str("id"))]), sha1).enabled == Ok(true)
  {
    ExampleDecision(4, false, sha1);
    assert RubyMod(4, 3) == 1;
    ExampleDecision(5, false, sha1);
    assert RubyMod(5, 3) == 2;
    ExampleDecision(5, true, sha1);
  }
}
