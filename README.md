# FluidFeatures Ruby client: a Dafny model of its core

FluidFeatures is a feature-flag service. Its Ruby client decides which
version of a feature a user sees, records which features and goals each
request touched, and reports that back to the service in buckets. This
project models the parts of the client that hold its logic and proves what
they promise:

- **The reporter's bucket queue** (`reporter.dfy`, module `Reporter`). This
  is a class whose fields are:
  - the queue of buckets, whose last bucket is always the current one;
  - the current bucket;
  - the registry of unknown features.

  Its methods rotate, bound and drain the queue as the source does. The
  class invariant says that the queue is never empty, ends in the current
  bucket, holds at most eleven buckets, and that no bucket holds more than
  100 payloads. The module also covers:
  - the first-default-wins merge of unknown features;
  - one send attempt, with the POST's outcome as an input;
  - the pause the sender loop takes, in milliseconds.
- **The assignment rule** (`state.dfy`, module `State`). `load_state` turns
  every version's `parts` into a set. `feature_version_enabled_for_user`
  works in three steps:
  1. It checks the feature and version names.
  2. It hashes the user id, reading the last ten hex digits of its SHA-1.
     SHA-1 is a function parameter that always yields 40 lower-case hex digits.
  3. It tests Ruby's `hash % num_parts` for membership in the version's parts.
     The first version whose attributes single the user out then overrides
     that answer.
- **The durable stores** (`persistence.dfy`, module `Persistence`). Each
  PStore file is a field:
  - the buckets FIFO, with a size guard on appends;
  - the two-slot features store.

  The file's size and a failing transaction are inputs. A Null variant of
  each store is chosen from the cache configuration.
- **Per-request hits** (`hits.dfy`, `transaction.dfy`, `user.dfy`). These
  cover:
  - the lookup, default and recording rules of `feature_enabled?`,
    `unknown_feature_hit` and `goal_hit`, which the user and the transaction
    share;
  - the report each request ends with, after which the unknown features are
    cleared;
  - the user's anonymous rule;
  - the user's attribute-id extraction and normalisation;
  - the user's memoised features.
- **The configuration** (`config.dfy`, module `Configuration`). This covers:
  - `parse_file_size`, including a line-anchored model of its regular
    expression;
  - the merge of the `common` and environment sections;
  - the rewrite of the cache limit;
  - `[]`.

Ruby values are one datatype `Value` (`values.dfy`). A Hash is an ordered
association list, because the attribute override depends on insertion
order. Ruby's exceptions are `Err` results of the `Error` type in
`wrappers.dfy`. A method call on a receiver that lacks that method is
`Err(RuntimeFault)`.

Where the code and its own tests disagree, the model follows the code:
- In `spec/config_spec.rb:11-21`, `parse_file_size("foo")` is expected to
  pass "foo" through. The code raises `FFeaturesConfigInvalid`
  (`Configuration.ParseNotASize`).
- "1Kb" and "2GB" are expected to parse. The code raises for both; see
  Findings.
- In `spec/app/state_spec.rb:59-61`, the string id `"4"` is expected to be
  numeric. The source's pattern `"^\d+$"` is written in a double-quoted
  string, where Ruby reads `\d` as a plain `d`. The pattern therefore
  matches only lines made of the letter d, and `State.MatchesUserIdNumeric`
  follows that text.

## Model

| member | source | states |
|---|---|---|
| Reporter.AppReporter.constructor | lib/fluidfeatures/app/reporter.rb:35-40 | the queue starts as one empty bucket, which is the current bucket; the registry is empty; the invariant holds |
| Reporter.AppReporter.NewBucket | lib/fluidfeatures/app/reporter.rb:199-212 | an empty bucket is pushed at the back and returned; when the queue then exceeds MAX_BUCKETS (10), exactly the oldest bucket is dropped and the rest keep their order |
| Reporter.AppReporter.RemoveBucket | lib/fluidfeatures/app/reporter.rb:215-229 | answers the front bucket, or none for an empty queue; a queue left empty gets a fresh bucket that is both its only element and the current bucket; at most MAX_BUCKETS remain; the invariant is kept |
| Reporter.AppReporter.UnremoveBucket | lib/fluidfeatures/app/reporter.rb:232-241 | succeeds exactly when the queue holds at most MAX_BUCKETS buckets, and then puts the bucket at the front; otherwise the queue is unchanged; the invariant, with its bound of MAX_BUCKETS + 1, is kept |
| Reporter.AppReporter.QueueTransactionPayload | lib/fluidfeatures/app/reporter.rb:244-251 | below MAX_BUCKET_SIZE (100) the payload is appended to the current bucket and nothing else changes; a full current bucket is first replaced by a fresh one (new_bucket, dropping the oldest past 10); no bucket ever exceeds 100 |
| Reporter.AppReporter.TransactionsQueued | lib/fluidfeatures/app/reporter.rb:121-135 | true exactly when the queue has one bucket and it is non-empty, or several and the front one is non-empty; when only the current bucket can be empty, that means some payload is queued |
| Reporter.AppReporter.BucketCount | lib/fluidfeatures/app/reporter.rb:189-196 | the number of buckets, between 1 and MAX_BUCKETS + 1 |
| Reporter.AppReporter.CheckUnknownFeatures | lib/fluidfeatures/app/reporter.rb:255-258 | the checks run entry by entry and build the registry as they go; the outcome is ToRegistry's: a non-Hash argument or a non-Hash value raises, otherwise the registry read from the argument |
| Reporter.ToRegistry | lib/fluidfeatures/app/reporter.rb:255-258 | accepts exactly a Hash whose every value is a Hash; reports "should be a Hash" for a non-Hash and "values should be Hash" otherwise; what it accepts reads back as the argument |
| Reporter.RegistryRoundTrip | lib/fluidfeatures/app/reporter.rb:254-258 | every registry, written as nested Hashes, passes the checks and reads back as itself |
| Reporter.AppReporter.MergeFeature | lib/fluidfeatures/app/reporter.rb:261-268 | one feature's versions are merged in, keeping the registry well formed (every feature and version once) |
| Reporter.AppReporter.MergeAll | lib/fluidfeatures/app/reporter.rb:259-270 | the loop over the features computes MergeInto and keeps the registry well formed |
| Reporter.AppReporter.QueueUnknownFeatures | lib/fluidfeatures/app/reporter.rb:254-271 | a rejected argument raises and leaves the registry unchanged, because the checks run before any mutation; an accepted one is merged first-write-wins |
| Reporter.MergeVersionsGet | lib/fluidfeatures/app/reporter.rb:264-268 | after merging versions into a feature's entry, a version already there keeps its default, and a new one gets the first default the input gives it |
| Reporter.MergeGet | lib/fluidfeatures/app/reporter.rb:260-269 | first write wins for every (feature, version): a pair already held keeps its default; a new pair gets the default of the earliest input entry naming it |
| Reporter.MergeVersions | lib/fluidfeatures/app/reporter.rb:264-268 | a feature's versions already queued stay at the front, in their order; new versions only come after them |
| Reporter.MergeStep | lib/fluidfeatures/app/reporter.rb:260-268 | only the merged feature's entry changes; a feature not yet queued is appended after the others |
| Reporter.MergeIntoKeepsOrder | lib/fluidfeatures/app/reporter.rb:260-269 | after a merge, the features already queued keep their places, and new ones come after them |
| Reporter.MergeIdempotent | lib/fluidfeatures/app/reporter.rb:254-271 | queueing the same unknown features twice records nothing the first time did not |
| Reporter.MergeWellFormed | lib/fluidfeatures/app/reporter.rb:260-269 | merging keeps every feature and every version within a feature unique |
| Reporter.MergeIntoEmpty | lib/fluidfeatures/app/reporter.rb:182 | re-merging a snapshot into the emptied registry gives the snapshot back unchanged |
| Reporter.Sizes | lib/fluidfeatures/app/reporter.rb:152 | the waiting-bucket statistics list each remaining bucket's size, in queue order |
| Reporter.AppReporter.SendTransactions | lib/fluidfeatures/app/reporter.rb:138-187 | sends the front bucket and a snapshot of the registry, and reports the sizes of the remaining buckets; on success the bucket is gone and the registry is empty; on failure the bucket is back at the front and the registry is as it was; answers the POST's outcome; the invariant is kept |
| Reporter.AppReporter.RequeueUnknownFeatures | lib/fluidfeatures/app/reporter.rb:181-182 | queueing the snapshot of a failed send into the emptied registry restores that snapshot exactly |
| Reporter.AppReporter.SenderIteration | lib/fluidfeatures/app/reporter.rb:86-108 | with nothing queued, waits 0.5 s and changes nothing; otherwise one send attempt whose POST returns rather than raises, whose pause is PauseAfter of its outcome and the remaining bucket count; a success removes exactly the sent payloads from the front of the backlog, and a failure loses none |
| Reporter.PauseAfter | lib/fluidfeatures/app/reporter.rb:89-108 | 500 ms when nothing is queued; after a success, 1000 ms with at most one bucket left and 100 ms otherwise; after a failure or an exception, 5000 ms |
| Reporter.PacingOrder | lib/fluidfeatures/app/reporter.rb:17-27 | pauses lie between 0.1 s and 5 s; a failure waits longer than any success; a waiting backlog is sent ten times as often |
| State.Dedup | lib/fluidfeatures/app/state.rb:29 | Set.new keeps each element once (membership both ways, no repeats) |
| State.DedupDistinct | lib/fluidfeatures/app/state.rb:29 | a list without repeats becomes a set of the same elements in the same order |
| State.ToSet | lib/fluidfeatures/app/state.rb:29 | `Set.new(parts \|\| [])`: nil or false give the empty set; an Array, a Set or a Hash give a repetition-free set of exactly their elements; anything else raises |
| State.ToSetOfSet | lib/fluidfeatures/app/state.rb:29 | a set of parts normalises to itself |
| State.NormaliseVersion | lib/fluidfeatures/app/state.rb:29 | only a Hash version can be rewritten, and it stays a Hash |
| State.NormaliseVersionParts | lib/fluidfeatures/app/state.rb:29 | "parts" becomes the set of the old value's elements, and every other field is kept |
| State.NormaliseFeature | lib/fluidfeatures/app/state.rb:27-30 | fails exactly when the feature is no Hash, its versions are no Hash, or a version cannot be normalised; otherwise "versions" holds the normalised versions, and every other key keeps its value and its place |
| State.NormaliseSnapshot | lib/fluidfeatures/app/state.rb:26-31 | fails exactly when the answer is no Hash or one of its features cannot be normalised; otherwise every feature, under its own name and in its own place, is that feature normalised |
| State.NormaliseSnapshotIdempotent | lib/fluidfeatures/app/state.rb:24-33 | loading an already loaded state changes nothing |
| State.AppState.NormaliseEachVersion | lib/fluidfeatures/app/state.rb:27-30 | the loop over one feature's versions computes NormaliseVersions, and its first failure wins |
| State.AppState.LoadState | lib/fluidfeatures/app/state.rb:24-33 | the features become the normalised answer; on failure they are left as they were |
| State.UserIdHash | lib/fluidfeatures/app/state.rb:44-50 | an Integer id is its own hash; a String id is hashed by the pattern or by SHA-1; other ids cannot be hashed |
| State.UserIdNumericPattern | lib/fluidfeatures/app/state.rb:12 | the pattern accepts no digits: "4" and "42" do not match, while "dd" does, also as the second line of "4\ndd" |
| State.NumericIdNeverMatches | lib/fluidfeatures/app/state.rb:44-50 | no String of decimal digits matches the pattern, so a numeric String id such as "4" is hashed by SHA-1, never read with to_i |
| State.DigestHashRange | lib/fluidfeatures/app/state.rb:49 | a SHA-1-hashed id lies in [0, 16^10) |
| State.RubyMod | lib/fluidfeatures/app/state.rb:55 | Integer#%: for a positive divisor the result lies in [0, num_parts), and it takes the divisor's sign and completes floor division |
| State.Includes | lib/fluidfeatures/app/state.rb:56 | include? on a Set, an Array, a Hash (its keys) and a String (substring) |
| State.Baseline | lib/fluidfeatures/app/state.rb:53-56 | an answer exists only when the version exists as a Hash and num_parts is a non-zero Integer |
| State.FirstOverrideSome | lib/fluidfeatures/app/state.rb:59-77 | an override comes from a granting version preceded only by declining ones, and is true exactly when that version is the one queried |
| State.FirstOverrideDecides | lib/fluidfeatures/app/state.rb:59-77 | conversely, the first granting version decides |
| State.FirstOverrideNone | lib/fluidfeatures/app/state.rb:59-77 | no override exactly when every version declines |
| State.FirstOverride | lib/fluidfeatures/app/state.rb:59-77 | no versions, no override; an override that answers true names a version that exists |
| State.Grants | lib/fluidfeatures/app/state.rb:60-62 | a nil or false version grants nobody, and neither does a version without enabled |
| State.GrantsThroughListedAttribute | lib/fluidfeatures/app/state.rb:60-65 | a version grants only through its enabled.attributes Hash, which lists the id of one of the user's attributes under that attribute's key |
| State.AttributeMatch | lib/fluidfeatures/app/state.rb:63-74 | a user with no attributes matches nothing |
| State.AttributeMatchDeclines | lib/fluidfeatures/app/state.rb:63-74 | no match exactly when, for every attribute of the user, the version lists nothing under its key or does not include its id |
| State.AttributeMatchSingles | lib/fluidfeatures/app/state.rb:63-74 | a match is an attribute of the user whose id the version lists under its key |
| State.EnabledForUser | lib/fluidfeatures/app/state.rb:35-80 | raises "feature_name invalid" for a non-String name; a nil version means "default", and a non-String version raises "version_name invalid"; truthy attributes that are no Hash raise; a Hash of attributes comes back with the raw user id under "user" and every other key as it was, while nil or false come back unchanged; the answer is Decide's on those attributes |
| State.Decide | lib/fluidfeatures/app/state.rb:44-79 | an id that is neither an Integer nor a String cannot be hashed; an answer needs the feature, its versions Hash and the queried version to exist |
| State.OverridePrecedence | lib/fluidfeatures/app/state.rb:59-79 | a granting version preceded only by declining ones makes the answer true for itself and false for any other version, whatever the parts say |
| State.NoOverrideIsBaseline | lib/fluidfeatures/app/state.rb:51-79 | with no granting version the answer is exactly the parts test |
| State.AbsentFeatureOrVersionFails | lib/fluidfeatures/app/state.rb:53-56 | an absent feature, or an absent version of a present one, raises rather than answering false |
| State.AssignmentExamples | spec/app/state_spec.rb:55-69 | with num_parts 3 and parts {1, 3, 5}, user 4 is enabled, user 5 is not, and user 5 with attribute key => id is enabled |
| Persistence.BucketsKindFor | lib/fluidfeatures/persistence/buckets.rb:6-9 | the durable store exactly when the configuration has a dir, is enabled and has a positive limit, which becomes the store's limit; otherwise the Null store; a non-numeric limit raises |
| Persistence.FeaturesDurable | lib/fluidfeatures/persistence/features.rb:5-8 | durable exactly when the configuration has a dir and is enabled |
| Persistence.SliceFront | lib/fluidfeatures/persistence/buckets.rb:21 | `slice!(0, n)` hands out the first min(n, size) elements, or nil for a negative n |
| Persistence.Buckets.constructor | lib/fluidfeatures/persistence/buckets.rb:11-14 | a store with its limit over what the file already holds |
| Persistence.Buckets.Fetch | lib/fluidfeatures/persistence/buckets.rb:16-25 | a missing or empty list answers [] and stays as it is; a negative n answers nil and removes nothing; otherwise it answers the first min(n, size) buckets in order and removes exactly those |
| Persistence.Buckets.Append | lib/fluidfeatures/persistence/buckets.rb:27-31 | when the file is not larger than the limit and nothing raises, all of bs is appended in order behind the stored buckets and the new list is returned; otherwise false and no change |
| Persistence.Buckets.AppendOne | lib/fluidfeatures/persistence/buckets.rb:33-37 | under the same guard, b is appended behind the stored buckets; otherwise false and no change |
| Persistence.Buckets.IsEmpty | lib/fluidfeatures/persistence/buckets.rb:39-44 | true exactly when the list is missing or empty |
| Persistence.AppendThenFetch | lib/fluidfeatures/persistence/buckets.rb:16-31 | on a fresh store within its limit, fetching \|bs\| after appending bs gives back bs and leaves the store empty |
| Persistence.RefusedAppendKeepsEmpty | lib/fluidfeatures/persistence/buckets.rb:48-58 | a file larger than the limit refuses the append and leaves the store empty (a size equal to the limit is allowed, see Append) |
| Persistence.NullBuckets.Fetch | lib/fluidfeatures/persistence/buckets.rb:62 | always [] |
| Persistence.NullBuckets.Append | lib/fluidfeatures/persistence/buckets.rb:64 | always false |
| Persistence.NullBuckets.AppendOne | lib/fluidfeatures/persistence/buckets.rb:66 | always false |
| Persistence.NullBuckets.IsEmpty | lib/fluidfeatures/persistence/buckets.rb:68 | always true |
| Persistence.Features.ListFeatures | lib/fluidfeatures/persistence/features.rb:14-19 | the stored features, or {} when nothing truthy is stored |
| Persistence.Features.Replace | lib/fluidfeatures/persistence/features.rb:21-26 | stores f and answers whether f is truthy; a failing transaction answers false and changes nothing |
| Persistence.Features.ListUnknown | lib/fluidfeatures/persistence/features.rb:28-33 | the stored unknown features, or {} |
| Persistence.Features.ReplaceUnknown | lib/fluidfeatures/persistence/features.rb:35-40 | as Replace, on the other slot only |
| Persistence.ReplaceThenList | lib/fluidfeatures/persistence/features.rb:14-40 | after replace(f) and replace_unknown(u), in either order, list answers f and list_unknown answers u: the slots are independent |
| Persistence.NullFeatures.ListFeatures | lib/fluidfeatures/persistence/features.rb:56 | always {} |
| Persistence.NullFeatures.ListUnknown | lib/fluidfeatures/persistence/features.rb:57 | always {} |
| Persistence.NullFeatures.Replace | lib/fluidfeatures/persistence/features.rb:58 | always false |
| Persistence.NullFeatures.ReplaceUnknown | lib/fluidfeatures/persistence/features.rb:59 | always false |
| Hits.Record | lib/fluidfeatures/app/transaction.rb:47-48 | `log[name] \|\|= {}; log[name][version] = x`: the pair then reads x, and every other pair reads as before |
| Hits.RecordAgain | lib/fluidfeatures/app/transaction.rb:65-70 | recording a pair twice is recording it once with the later value (last write wins) |
| Hits.VersionOrDefault | lib/fluidfeatures/app/transaction.rb:28 | a nil or false version name means "default" |
| Hits.StoredValue | lib/fluidfeatures/app/transaction.rb:30-37 | raises exactly for a snapshot that is not a Hash; otherwise the value stored under the feature's Hash and the version when the feature is a Hash holding the version, and nil when the feature is absent, is no Hash, or lacks the version |
| Hits.HitsValue | lib/fluidfeatures/app/transaction.rb:98-101 | the report's hits are a Hash with the keys :feature and :goal, in that order, holding the features hit and the goals hit |
| Hits.ReportReadsBack | lib/fluidfeatures/app/transaction.rb:98-101 | every count recorded for a feature (or goal) and version reads back from the report's Hash of Hashes, and nothing else does |
| Hits.FeatureEnabled | lib/fluidfeatures/app/transaction.rb:25-52 | raises "feature_name invalid" for a non-String name; for a String name it answers exactly when the snapshot is a Hash; goals are never touched |
| Hits.KnownFeature | lib/fluidfeatures/app/transaction.rb:30-37 | a feature the snapshot holds answers its stored value and records nothing as unknown |
| Hits.UnknownFeature | lib/fluidfeatures/app/transaction.rb:39-44 | otherwise it answers the default and records it under (name, version) in the unknown features; nothing else there changes |
| Hits.HitRecordedWhenEnabled | lib/fluidfeatures/app/transaction.rb:46-49 | a truthy answer records a hit under (name, version.to_s); a falsy one leaves the hits unchanged |
| Hits.FeatureEnabledTwice | lib/fluidfeatures/app/transaction.rb:25-52 | asking twice gives the same answer and records nothing more, except that an unknown feature keeps the later default |
| Hits.GoalHit | lib/fluidfeatures/app/transaction.rb:72-78 | raises for a non-String goal; a nil version means "default"; raises for a non-String version; otherwise records (goal, version) and nothing else |
| Hits.UnknownValue | lib/fluidfeatures/app/transaction.rb:65-70 | each unknown feature is reported as `{:versions => {version => default}}`, in order |
| Hits.UserPayload | lib/fluidfeatures/app/transaction.rb:93-115 | the id comes first and is always present; name, anonymous, unique and cohorts are present exactly when truthy |
| Transaction.TransactionReport | lib/fluidfeatures/app/transaction.rb:93-120 | the report has url, user, hits, stats and features, in that order: the url, the user Hash, the hits as HitsValue gives them, stats holding {:transaction => {:duration => duration}} and :ff_latency, and features holding {:unknown => the unknown features} |
| Transaction.AppUserTransaction.constructor | lib/fluidfeatures/app/transaction.rb:9-23 | a transaction over the user's snapshot, with no hits |
| Transaction.AppUserTransaction.Begin | lib/fluidfeatures/app/transaction.rb:9-23 | the snapshot is the user's features, loaded only if the user has none yet; on a first load, the transaction begins exactly when the attribute ids can be built, and its snapshot is the value `app.get` returned, {} for nil or false |
| Transaction.AppUserTransaction.FeatureEnabled | lib/fluidfeatures/app/transaction.rb:25-52 | answers from the snapshot as Hits.FeatureEnabled does, and records its hits; an error changes nothing |
| Transaction.AppUserTransaction.UnknownFeatureHit | lib/fluidfeatures/app/transaction.rb:65-70 | the default is recorded under (name, version) and overwrites an earlier one |
| Transaction.AppUserTransaction.GoalHit | lib/fluidfeatures/app/transaction.rb:72-78 | as Hits.GoalHit; an error changes nothing |
| Transaction.AppUserTransaction.EndTransaction | lib/fluidfeatures/app/transaction.rb:88-124 | the report for /transaction, with the unknown features always attached (`size` is truthy even when 0); afterwards only the unknown features are cleared |
| User.AnonymousId | lib/fluidfeatures/app/user.rb:34 | a generated id starts with "anon-" |
| User.AppUser.constructor | lib/fluidfeatures/app/user.rb:9-38 | a user with no id, or flagged anonymous, is anonymous; with no id, they get an "anon-" id; otherwise the id and the flag are kept; no features and no hits yet |
| User.ContributionsGet | lib/fluidfeatures/app/user.rb:53-61 | from a Hash of attributes, key k gets the :id of a Hash attribute that has one, nothing for a Hash without :id, and any other attribute itself |
| User.IdOf | lib/fluidfeatures/app/user.rb:54-60 | an attribute that is no Hash is its own id; a Hash gives an id exactly when it has :id, and then that value |
| User.Contributions | lib/fluidfeatures/app/user.rb:53-61 | no more assignments than attributes |
| User.ContributionsOfPlainIds | lib/fluidfeatures/app/user.rb:58-60 | attributes that are no Hash assign themselves, each under its own key, in order |
| User.AttributePairs | lib/fluidfeatures/app/user.rb:51-53 | nil or false give no pairs; a Hash gives its entries; an Array or a Set gives one pair per element, each element spread over (key, attribute) as a two-parameter block does; any other value raises |
| User.ElementPair | lib/fluidfeatures/app/user.rb:53 | an Array element supplies its first two items as key and attribute, nil where missing; any other element is the key with a nil attribute |
| User.ElementPairs | lib/fluidfeatures/app/user.rb:51-53 | one pair per element, in order, each ElementPair's |
| User.PairListAsHash | lib/fluidfeatures/app/user.rb:51-53 | an Array of [key, attribute] pairs is iterated exactly as the Hash of those pairs |
| User.AttributeIds | lib/fluidfeatures/app/user.rb:48-63 | built exactly when both attribute values can be iterated (otherwise a RuntimeError); when both give no pairs, only {:anonymous => anonymous} |
| User.NoAttributesOnlyAnonymous | lib/fluidfeatures/app/user.rb:48-63 | with each attribute value nil, false or an empty Array, the ids are only {:anonymous => anonymous} |
| User.AttributeIdsGet | lib/fluidfeatures/app/user.rb:48-63 | a key's id comes from the cohort attributes if they give one, else from the unique attributes, else it is the anonymous flag under :anonymous |
| User.AttributeIdsAnonymousFirst | lib/fluidfeatures/app/user.rb:48-50 | :anonymous stays the first key |
| User.AppUser.AddContributions | lib/fluidfeatures/app/user.rb:51-63 | the loop over one group of attributes assigns each contribution in order (Hash#update of the contributions) |
| User.NormaliseId | lib/fluidfeatures/app/user.rb:66-72 | every id becomes a String; Strings are kept; true and false become "true" and "false"; any other id becomes its to_s |
| User.NormaliseIds | lib/fluidfeatures/app/user.rb:66-72 | every id is normalised in its place |
| User.NormaliseIdsProperties | lib/fluidfeatures/app/user.rb:66-72 | normalising keeps the keys, makes every id a String, and is idempotent |
| User.GetNormalised | lib/fluidfeatures/app/user.rb:66-72 | the id read back under a key is the normalised id that was stored there |
| User.AppUser.NormaliseEachId | lib/fluidfeatures/app/user.rb:66-72 | the in-place loop computes NormaliseIds |
| User.AppUser.LoadFeatures | lib/fluidfeatures/app/user.rb:45-75 | fails exactly when the attribute ids cannot be built; otherwise requests /user/\<id\>/features with the normalised attribute ids, and the features are the value `app.get` returned when truthy, else {} |
| User.AppUser.Features | lib/fluidfeatures/app/user.rb:77-79 | the features become Memoised of what was held: a truthy value is kept and returned on every call whatever the service would say; otherwise the value `app.get` returned ({} for nil or false) is stored and returned, unless the attribute ids cannot be built, which raises and keeps nil |
| User.Memoised | lib/fluidfeatures/app/user.rb:77-78 | a truthy value held is kept; otherwise the value becomes truthy exactly when the attribute ids can be built, and then it is the value `app.get` returned, or {} |
| User.AppUser.FeatureEnabled | lib/fluidfeatures/app/user.rb:81-108 | raises for a non-String name before loading; otherwise the features become as features leaves them (loaded at most once), the call answers exactly when they are a Hash, and the answer and the hits recorded are Hits.FeatureEnabled's on them |
| User.AppUser.UnknownFeatureHit | lib/fluidfeatures/app/user.rb:121-126 | last write wins under (name, version) |
| User.AppUser.GoalHit | lib/fluidfeatures/app/user.rb:128-135 | as Hits.GoalHit; an error changes nothing |
| User.AppUser.EndTransaction | lib/fluidfeatures/app/user.rb:145-177 | non-Hash stats other than nil or false raise "stats invalid" before any change; otherwise the report for /user/\<id\>/features/hit is built, and afterwards only the unknown features are cleared |
| User.UserReport | lib/fluidfeatures/app/user.rb:147-173 | the report has url, user, hits, stats and features, in that order: the url, the user Hash, the hits as HitsValue gives them, stats holding :ff_latency and every other key of the given stats unchanged (only :ff_latency when none are given), and features holding {:unknown => the unknown features} |
| User.ReportStats | lib/fluidfeatures/app/user.rb:158-168 | the stats sent hold :ff_latency; every other key keeps the caller's value, and without caller stats :ff_latency is the only key |
| Hits.Report | lib/fluidfeatures/app/transaction.rb:93-120 | a report Hash has the keys url, user, hits, stats and features in that order, holding the url, the user Hash, the hits as HitsValue gives them, the given stats and {:unknown => the unknown features} |
| Configuration.MatchAt | lib/fluidfeatures/config.rb:49 | a match of `^(\d+)\s*(k\|m\|g)b$` (case-insensitive) captures a non-empty run of digits and a unit letter |
| Configuration.FirstMatch | lib/fluidfeatures/config.rb:49 | the leftmost match has the same shape |
| Configuration.ParseFileSize | lib/fluidfeatures/config.rb:45-53 | nil or false give nil; an Integer passes through; a String of digits only is its value; any answer for a String is a non-negative Integer; a String matching no line of the pattern raises FFeaturesConfigInvalid |
| Configuration.UnitIndex | lib/fluidfeatures/config.rb:52 | exactly the lower-case letters k, m and g have an index, their position in "kmg" |
| Configuration.ParseFileSizeDigits | lib/fluidfeatures/config.rb:48 | a number written out in digits reads back as itself |
| Configuration.ParseFileSizeUnits | lib/fluidfeatures/config.rb:49-52 | n, any spaces, then kb, mb or gb gives n times 1024, 1024^2 or 1024^3 |
| Configuration.ParseTwoMegabytes | spec/config_spec.rb:17-21 | "2mb" is 2097152 |
| Configuration.ParseNotASize | lib/fluidfeatures/config.rb:49-51 | "foo" raises FFeaturesConfigInvalid |
| Configuration.ParseUpperCaseKilobyte | lib/fluidfeatures/config.rb:52 | as written, "1Kb" raises, because "kmg".index("K") is nil |
| Configuration.ParseUpperCaseGigabytes | lib/fluidfeatures/config.rb:52 | as written, "2GB" raises |
| Configuration.ParseFileSizeIntended | lib/fluidfeatures/config.rb:45-53 | agrees with parse_file_size wherever that answers, differs only where it raises on nil + 1, and answers for every String the pattern accepts |
| Configuration.ParseFileSizeIntendedUnits | lib/fluidfeatures/config.rb:49-52 | n, any spaces, a unit letter and a b, in either case, give n times 1024^(1, 2 or 3) |
| Configuration.ParseUpperCaseKilobyteIntended | spec/config_spec.rb:17-21 | "1Kb" is 1024 |
| Configuration.ParseUpperCaseGigabytesIntended | spec/config_spec.rb:17-21 | "2GB" is 2147483648 |
| Configuration.FileVars | lib/fluidfeatures/config.rb:29-39 | a missing file raises FFeaturesConfigFileNotExists; a file that is not a Hash raises FFeaturesConfigInvalid; otherwise the variables load exactly when the common and environment sections are each absent (nil or false) or a Hash, and with no environment section they are the common section's entries, or none without it |
| Configuration.FileVarsGet | lib/fluidfeatures/config.rb:37-38 | whenever the variables load, a variable is the environment section's when that section exists and has it, else the common section's when that exists, else absent |
| Configuration.RewriteCacheLimit | lib/fluidfeatures/config.rb:20 | without a cache section nothing changes; with one, the rewrite succeeds exactly when the section is a Hash whose limit parse_file_size accepts; then only cache.limit changes, to that parsed size, the cache's other entries keep their values and places (limit is appended if it was missing), and the top-level keys keep their order |
| Configuration.RewriteCacheExample | lib/fluidfeatures/config.rb:20 | a cache section of enable, dir and limit "2mb" becomes enable and dir unchanged with limit 2097152, the shape spec/config_spec.rb:28-35 expects |
| Configuration.InitialVars | lib/fluidfeatures/config.rb:10-19 | a source that is neither a path String nor a Hash raises FFeaturesConfigInvalid |
| Configuration.Config.New | lib/fluidfeatures/config.rb:10-21 | the configuration holds the initial variables with the cache limit rewritten; every error is InitialVars' error |
| Configuration.Config.Get | lib/fluidfeatures/config.rb:23-25 | `config[name]` looks up name.to_s, so a Symbol and a String name the same variable; an absent one is nil |

## Findings

| source | as written | input that shows it | evidently intended | confidence | as-written member | corrected member |
|---|---|---|---|---|---|---|
| lib/fluidfeatures/config.rb:49-52 | the pattern is case-insensitive, but the unit's exponent is `"kmg".index($2)`, which is nil for an upper-case letter, so `nil + 1` raises | "1Kb" and "2GB" | the unit letter read in either case, as spec/config_spec.rb:17-21 expects (1024 and 2147483648) | high; not executed | Configuration.ParseUpperCaseKilobyte | Configuration.ParseUpperCaseKilobyteIntended |

`Configuration.ParseFileSize` models the code as written.
`Configuration.ParseUpperCaseKilobyte` and
`Configuration.ParseUpperCaseGigabytes` exhibit the error.
`Configuration.ParseFileSizeIntended` is the corrected reading, and
`Configuration.ParseFileSizeIntendedUnits` proves its general rule.
`Configuration.RewriteCacheLimit`, and with it `Configuration.Config.New`,
follows the code as written: a configuration whose cache limit has an
upper-case unit fails to load, as it does in the program.

## Left out

- The network:
  - `lib/fluidfeatures/client.rb` (HTTP, JSON, ETag caching) is not part of this model.
  - The service's answers (`app.get`) and the outcome of a POST are inputs.
  - The `response` and `answer` inputs stand for the value `app.get`
    returns. With lib/fluidfeatures/client.rb as it stands, `app.get`
    (lib/fluidfeatures/app.rb:27-29) returns the pair [success, payload], an
    Array. On that value load_state and feature_enabled? raise, and the model
    gives `Err` for it as for any non-Hash. The lemmas that pass a Hash
    answer follow the pair-aware API that spec/app/state_spec.rb:26-36
    expects, where the payload Hash is what reaches these methods. This
    concerns State.AppState.LoadState, State.NormaliseSnapshot,
    User.AppUser.LoadFeatures, User.AppUser.Features, User.Memoised and
    Transaction.AppUserTransaction.Begin.
  - The model returns each report and its path instead of posting it.
- Threads, mutexes and sleeps: the reporter's sender loop is modelled one
  iteration at a time, sequentially. Its pauses are milliseconds, not float
  seconds. The `sleep 10` at the start of `AppUser#goal_hit`
  (lib/fluidfeatures/app/user.rb:129) is left out.
- Reporter.AppReporter.SendTransactions: `discarded_bucket` at reporter.rb:179
  is an undefined name, so reaching that line would raise a NameError and
  skip the re-merge. Run sequentially, remove_bucket leaves at most
  MAX_BUCKETS buckets, so unremove_bucket always succeeds and the line is
  never reached; the model proves this and has no error path for it.
- Reporter.AppReporter.SendTransactions: a POST that raises is not modelled.
  The POST's outcome is a bool, but lib/fluidfeatures/client.rb:173-175
  re-raises any exception other than a PersistentHTTP error. In that case
  the bucket already taken by remove_bucket (reporter.rb:139) and the
  unknown features already cleared (reporter.rb:144-148) are lost, and the
  sender loop's rescue pauses 5000 ms (reporter.rb:110-115).
  Reporter.AppReporter.SenderIteration models only a POST that returns true
  or false.
- Reporter.AppReporter.SendTransactions: the payload's client uuid,
  ff_latency and API request log come from the client and are not modelled.
- `report_transaction` (reporter.rb:51-82) reads `features_hit`,
  `goals_hit`, `duration` and `unknown_features` from the transaction, and
  the transaction class does not define them. It is not modelled;
  queue_transaction_payload and queue_unknown_features are.
- SHA-1 is a function parameter returning 40 lower-case hex digits; its
  internals are not modelled.
- PStore and the file system:
  - Each store's file is a field.
  - `File.size` and the failure of a write transaction are inputs.
  - Read failures in fetch, list and empty? are not modelled.
  - YAML loading and `File.exists?` are inputs of `Configuration.Config.New`.
- Random numbers and the clock: the anonymous id's digits are parameters of
  `User.AppUser.constructor`. Durations and ff_latency are parameters of the
  end_transaction methods.
- The constructors' `app` validity checks (`raise "app invalid"`) are left
  out; the app object itself is not modelled.
- `user.post` at lib/fluidfeatures/app/transaction.rb:122: AppUser defines
  no `post` method, so the call would raise. The model returns the path and
  payload that call would send.
- Transaction.AppUserTransaction.EndTransaction and
  User.AppUser.EndTransaction: aliasing is not modelled. The report holds
  copies of the hits and of the caller's stats Hash; in the source they are
  the same objects, and the stats Hash gains :ff_latency.
- Configuration.Config.New: the shallow `clone` means that the cache-limit
  rewrite also changes the caller's nested cache Hash. This aliasing is not
  modelled.
- Ruby receivers the source does not expect (a Symbol or an Integer where a
  Hash or String is used, for example) are modelled as `Err(RuntimeFault)`,
  even where Ruby would answer something. `Float` sizes and ids are not
  modelled.
- State.ToSet, State.Dedup and State.Includes: Hash values are compared
  entry by entry, in order. Ruby's Hash#==, eql? and hash ignore entry order,
  so `Set.new` keeps one of two Hashes that differ only in order, and
  include? finds either; the model keeps both and finds only the same order.
- RubyValues.Lookup and RubyValues.Put: a Hash used as a key is matched by the same
  ordered comparison, so two Hash keys that differ only in entry order are
  one key in Ruby and two in the model (this concerns the unknown-feature versions of
  lib/fluidfeatures/app/transaction.rb:69 when a version name is a Hash).
- `Object#inspect` and `to_s` of nested values do not reproduce Ruby's
  string escaping.
- `lib/fluidfeatures/app/feature.rb`, `lib/fluidfeatures/app.rb`,
  `lib/fluidfeatures.rb` and `persistence/storage.rb` are not part of this
  model: they are wiring, or they call the network or the file system.
