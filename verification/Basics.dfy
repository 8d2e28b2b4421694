/** A missing value, sequences with one element taken out, put in or looked up, and sizes of maps. */
module Basics {
  datatype Option<T> = None | Some(value: T)

  function Without<T>(s: seq<T>, i: nat): (r: seq<T>)
    requires i < |s|
    ensures |r| == |s| - 1
    ensures forall j :: 0 <= j < |r| ==> r[j] == if j < i then s[j] else s[j + 1]
  {
    s[..i] + s[i + 1..]
  }

  function With<T>(s: seq<T>, i: nat, x: T): (r: seq<T>)
    requires i <= |s|
    ensures |r| == |s| + 1
    ensures forall j :: 0 <= j < |r| ==> r[j] == if j < i then s[j] else if j == i then x else s[j - 1]
  {
    s[..i] + [x] + s[i..]
  }

  lemma WithAt<T>(s: seq<T>, i: nat, x: T, j: nat)
    requires i <= |s| && j <= |s|
    ensures |With(s, i, x)| == |s| + 1
    ensures With(s, i, x)[j] == if j < i then s[j] else if j == i then x else s[j - 1]
  {
  }

  /** The place of the first element with a key, or the length. */
  function First<T, K(==)>(key: T -> K, s: seq<T>, k: K): (i: nat)
    ensures i <= |s| && (i < |s| ==> key(s[i]) == k)
    ensures forall j :: 0 <= j < i ==> key(s[j]) != k
  {
    if |s| == 0 || key(s[0]) == k then 0 else 1 + First(key, s[1..], k)
  }

  lemma {:induction false} FirstIs<T, K>(key: T -> K, s: seq<T>, k: K, i: nat)
    requires i <= |s| && (i < |s| ==> key(s[i]) == k)
    requires forall j :: 0 <= j < i ==> key(s[j]) != k
    ensures First(key, s, k) == i
  {
    if i > 0 {
      FirstIs(key, s[1..], k, i - 1);
    }
  }

  lemma RemoveSize<K, V>(m: map<K, V>, k: K)
    requires k in m
    ensures |m - {k}| == |m| - 1
  {
    assert m.Keys == (m - {k}).Keys + {k};
  }

  lemma RemoveAbsent<K, V>(m: map<K, V>, k: K)
    requires k !in m
    ensures m - {k} == m
  {
  }

  lemma PutSize<K, V>(m: map<K, V>, k: K, v: V)
    ensures |m[k := v]| == |m| + if k in m then 0 else 1
  {
    assert m[k := v].Keys == m.Keys + {k};
  }
}
