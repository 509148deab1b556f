/**
 * Ruby objects as the modelled code handles them, and Ruby's Hash as an
 * ordered association list: lookups find a key's entry, assignment to an
 * existing key keeps its position, assignment to a new key appends.
 */
module RubyValues {
  import opened Wrappers
  import opened RubyText

  datatype Value =
    | Nil
    | Bool(b: bool)
    | Int(i: int)
    | Str(s: string)
    | Sym(name: string)
    | List(items: seq<Value>)
    | SetV(members: seq<Value>)   // a Ruby Set: insertion order, no element twice
    | Hash(entries: AList<Value, Value>)

  type AList<K, V> = seq<(K, V)>

  /** Ruby truthiness: everything except nil and false. */
  predicate Truthy(v: Value) {
    !(v.Nil? || v == Bool(false))
  }

  function Keys<K, V>(m: AList<K, V>): (ks: seq<K>)
    ensures |ks| == |m| && forall i :: 0 <= i < |m| ==> ks[i] == m[i].0
  {
    if m == [] then [] else [m[0].0] + Keys(m[1..])
  }

  predicate HasKey<K(==, !new), V>(m: AList<K, V>, k: K) {
    k in Keys(m)
  }

  /** No key occurs twice, as in every Ruby Hash. */
  predicate UniqueKeys<K(==, !new), V>(m: AList<K, V>) {
    forall i, j :: 0 <= i < j < |m| ==> m[i].0 != m[j].0
  }

  /** Hash#[] for a key that is present; None when it is absent. */
  function Get<K(==, !new), V>(m: AList<K, V>, k: K): (r: Option<V>)
    ensures r.Some? <==> HasKey(m, k)
  {
    if m == [] then None else if m[0].0 == k then Some(m[0].1) else Get(m[1..], k)
  }

  /** Hash#[]=. */
  function Put<K(==, !new), V>(m: AList<K, V>, k: K, v: V): (r: AList<K, V>)
    ensures Keys(r) == if HasKey(m, k) then Keys(m) else Keys(m) + [k]
    ensures Get(r, k) == Some(v)
    ensures forall j :: j != k ==> Get(r, j) == Get(m, j)
  {
    if m == [] then [(k, v)]
    else if m[0].0 == k then
      var r := [(k, v)] + m[1..];
      assert r[1..] == m[1..];
      r
    else
      var r := [m[0]] + Put(m[1..], k, v);
      assert r[1..] == Put(m[1..], k, v);
      assert forall j :: j != k ==> Get(r, j) == Get(m, j) by {
        forall j | j != k ensures Get(r, j) == Get(m, j) {
          if j != m[0].0 {
            assert Get(r, j) == Get(Put(m[1..], k, v), j);
          }
        }
      }
      r
  }

  lemma PutKeepsKeysUnique<K(!new), V>(m: AList<K, V>, k: K, v: V)
    requires UniqueKeys(m)
    ensures UniqueKeys(Put(m, k, v))
  {
    var r := Put(m, k, v);
    assert Keys(r) == if HasKey(m, k) then Keys(m) else Keys(m) + [k];
    forall i, j | 0 <= i < j < |r| ensures r[i].0 != r[j].0 {
      assert Keys(r)[i] == r[i].0 && Keys(r)[j] == r[j].0;
      if j < |m| {
        assert Keys(m)[i] == m[i].0 && Keys(m)[j] == m[j].0;
      }
    }
  }

  lemma {:induction false} GetAppend<K(!new), V>(m: AList<K, V>, e: (K, V), k: K)
    ensures Get(m + [e], k) == if HasKey(m, k) then Get(m, k) else if e.0 == k then Some(e.1) else None
  {
    if m != [] {
      assert (m + [e])[1..] == m[1..] + [e];
      GetAppend(m[1..], e, k);
    }
  }

  lemma {:induction false} PutAbsent<K(!new), V>(m: AList<K, V>, k: K, v: V)
    requires !HasKey(m, k)
    ensures Put(m, k, v) == m + [(k, v)]
  {
    if m != [] {
      PutAbsent(m[1..], k, v);
    }
  }

  lemma PutPresent<K(!new), V>(m: AList<K, V>, k: K)
    requires HasKey(m, k)
    ensures Put(m, k, Get(m, k).value) == m
  {
    if m[0].0 != k {
      PutPresent(m[1..], k);
    }
  }

  lemma {:induction false} PutPut<K(!new), V>(m: AList<K, V>, k: K, a: V, b: V)
    ensures Put(Put(m, k, a), k, b) == Put(m, k, b)
  {
    if m != [] && m[0].0 != k {
      PutPut(m[1..], k, a, b);
    }
  }

  lemma {:induction false} PutEntries<K(!new), V>(m: AList<K, V>, k: K, v: V, i: nat)
    requires i < |Put(m, k, v)|
    ensures Put(m, k, v)[i] == (k, v) || (i < |m| && Put(m, k, v)[i] == m[i])
  {
    if m != [] && m[0].0 != k && i > 0 {
      PutEntries(m[1..], k, v, i - 1);
    }
  }

  lemma {:induction false} GetEntry<K(!new), V>(m: AList<K, V>, k: K)
    requires HasKey(m, k)
    ensures exists i :: 0 <= i < |m| && m[i] == (k, Get(m, k).value)
  {
    if m[0].0 != k {
      GetEntry(m[1..], k);
      var i :| 0 <= i < |m[1..]| && m[1..][i] == (k, Get(m, k).value);
      assert m[i + 1] == (k, Get(m, k).value);
    }
  }

  lemma AppendFreshUnique<K(!new), V>(m: AList<K, V>, e: (K, V))
    requires UniqueKeys(m) && !HasKey(m, e.0)
    ensures UniqueKeys(m + [e])
  {
    forall i | 0 <= i < |m| ensures m[i].0 != e.0 {
      assert Keys(m)[i] == m[i].0;
    }
  }

  /** In a Hash with unique keys, the last key is absent from the entries before it. */
  lemma LastKeyFresh<K(!new), V>(m: AList<K, V>)
    requires UniqueKeys(m) && m != []
    ensures UniqueKeys(m[..|m| - 1]) && !HasKey(m[..|m| - 1], m[|m| - 1].0)
  {
    var pre := m[..|m| - 1];
    forall i | 0 <= i < |pre| ensures Keys(pre)[i] != m[|m| - 1].0 {
      assert pre[i] == m[i];
    }
  }

  /** h[k][k2] for a Hash of Hashes; None when either key is absent. */
  function Get2<K(==, !new), K2(==, !new), V>(m: AList<K, AList<K2, V>>, k: K, k2: K2): Option<V> {
    match Get(m, k)
    case None => None
    case Some(inner) => Get(inner, k2)
  }

  /** The Ruby Hash of Hashes an association list of association lists stands for. */
  function NestedHash(m: AList<Value, AList<Value, Value>>): (v: Value)
    ensures v.Hash? && |v.entries| == |m|
    ensures forall i :: 0 <= i < |m| ==> v.entries[i] == (m[i].0, Hash(m[i].1))
  {
    Hash(seq(|m|, i requires 0 <= i < |m| => (m[i].0, Hash(m[i].1))))
  }

  /** Hash#[] on a Hash: nil for an absent key. */
  function Lookup(entries: AList<Value, Value>, k: Value): Value {
    Get(entries, k).GetOr(Nil)
  }

  /** Hash#update: each entry of `other`, in order, assigned into m. */
  function Update<K(==, !new), V>(m: AList<K, V>, other: AList<K, V>): AList<K, V>
  {
    if other == [] then m else Put(Update(m, other[..|other| - 1]), other[|other| - 1].0, other[|other| - 1].1)
  }

  /** The value of the last entry for k; the entry of a later duplicate overrides an earlier one. */
  function LastValue<K(==, !new), V>(m: AList<K, V>, k: K): Option<V>
  {
    if m == [] then None
    else if m[|m| - 1].0 == k then Some(m[|m| - 1].1)
    else LastValue(m[..|m| - 1], k)
  }

  /** After Hash#update, a key of `other` holds other's (last) value; every other key is as before. */
  lemma {:induction false} UpdateGet<K(!new), V>(m: AList<K, V>, other: AList<K, V>, k: K)
    ensures Get(Update(m, other), k) == if LastValue(other, k).Some? then LastValue(other, k) else Get(m, k)
  {
    if other != [] {
      UpdateGet(m, other[..|other| - 1], k);
    }
  }

  /** Hash#update keeps m's keys in place and appends the new ones. */
  lemma {:induction false} UpdateKeepsKeys<K(!new), V>(m: AList<K, V>, other: AList<K, V>)
    ensures |Keys(Update(m, other))| >= |Keys(m)| && Keys(Update(m, other))[..|m|] == Keys(m)
  {
    if other != [] {
      UpdateKeepsKeys(m, other[..|other| - 1]);
    }
  }

  function Join(parts: seq<string>): string {
    if parts == [] then "" else if |parts| == 1 then parts[0] else parts[0] + ", " + Join(parts[1..])
  }

  /** Object#inspect. String escaping is not reproduced. */
  function Inspect(v: Value): string {
    match v
    case Nil => "nil"
    case Bool(b) => if b then "true" else "false"
    case Int(i) => Decimal(i)
    case Str(s) => "\"" + s + "\""
    case Sym(n) => ":" + n
    case List(items) =>
      "[" + Join(seq(|items|, i requires 0 <= i < |items| => Inspect(items[i]))) + "]"
    case SetV(ms) =>
      "#<Set: {" + Join(seq(|ms|, i requires 0 <= i < |ms| => Inspect(ms[i]))) + "}>"
    case Hash(es) =>
      "{" + Join(seq(|es|, i requires 0 <= i < |es| => Inspect(es[i].0) + "=>" + Inspect(es[i].1))) + "}"
  }

  /** Object#to_s. */
  function ToS(v: Value): string {
    match v
    case Nil => ""
    case Bool(b) => if b then "true" else "false"
    case Int(i) => Decimal(i)
    case Str(s) => s
    case Sym(n) => n
    case _ => Inspect(v)
  }
}
