/** The three list rebuilds every page performs on its in-memory records:
    `list.find(p)`, `list.map(x => key(x) === k ? f(x) : x)` and `list.filter(p)`. */
module Keyed {
  import opened Wrappers

  /** `xs.find(p)`: the first element satisfying p, or nothing. */
  function Find<T>(xs: seq<T>, p: T -> bool): (r: Option<T>)
    ensures r.None? <==> forall i :: 0 <= i < |xs| ==> !p(xs[i])
    ensures r.Some? ==> exists i :: (0 <= i < |xs| && xs[i] == r.value && p(xs[i])
                                     && forall j :: 0 <= j < i ==> !p(xs[j]))
  {
    if |xs| == 0 then None
    else if p(xs[0]) then Some(xs[0])
    else
      var r := Find(xs[1..], p);
      assert r.Some? ==> exists i :: (0 <= i < |xs| && xs[i] == r.value && p(xs[i])
                                      && forall j :: 0 <= j < i ==> !p(xs[j])) by {
        if r.Some? {
          var i :| 0 <= i < |xs[1..]| && xs[1..][i] == r.value && p(xs[1..][i])
                   && forall j :: 0 <= j < i ==> !p(xs[1..][j]);
          assert forall j :: 1 <= j < i + 1 ==> xs[j] == xs[1..][j - 1];
        }
      }
      r
  }

  /** `xs.map(x => key(x) === k ? f(x) : x)`: the records whose key is k are rewritten
      by f, every other record stays where it was, as it was. */
  function Update<T, K(==)>(xs: seq<T>, key: T -> K, k: K, f: T -> T): (r: seq<T>)
    ensures |r| == |xs|
    ensures forall i :: 0 <= i < |xs| && key(xs[i]) != k ==> r[i] == xs[i]
    ensures forall i :: 0 <= i < |xs| && key(xs[i]) == k ==> r[i] == f(xs[i])
  {
    seq(|xs|, i requires 0 <= i < |xs| => if key(xs[i]) == k then f(xs[i]) else xs[i])
  }

  /** A key no record carries leaves the list as it was. */
  lemma UpdateAbsentKey<T, K>(xs: seq<T>, key: T -> K, k: K, f: T -> T)
    requires forall i :: 0 <= i < |xs| ==> key(xs[i]) != k
    ensures Update(xs, key, k, f) == xs
  {
  }

  /** Rewriting twice with an involution that keeps the key gives back the list. */
  lemma UpdateInvolution<T, K>(xs: seq<T>, key: T -> K, k: K, f: T -> T)
    requires forall i :: 0 <= i < |xs| && key(xs[i]) == k ==> key(f(xs[i])) == k && f(f(xs[i])) == xs[i]
    ensures Update(Update(xs, key, k, f), key, k, f) == xs
  {
  }

  /** Rewriting twice with an idempotent rewrite that keeps the key is rewriting once. */
  lemma UpdateIdempotent<T, K>(xs: seq<T>, key: T -> K, k: K, f: T -> T)
    requires forall i :: 0 <= i < |xs| && key(xs[i]) == k ==> key(f(xs[i])) == k && f(f(xs[i])) == f(xs[i])
    ensures Update(Update(xs, key, k, f), key, k, f) == Update(xs, key, k, f)
  {
  }

  /** `xs.filter(p)`: the elements satisfying p, in their original order. */
  function Keep<T>(xs: seq<T>, p: T -> bool): (r: seq<T>)
    ensures |r| <= |xs|
    ensures forall i :: 0 <= i < |r| ==> p(r[i]) && r[i] in xs
    ensures forall i :: 0 <= i < |xs| && p(xs[i]) ==> xs[i] in r
    ensures |r| == |xs| <==> forall i :: 0 <= i < |xs| ==> p(xs[i])
  {
    KeptFacts(xs, p);
    Kept(xs, p)
  }

  /** The filter as a plain recursion: the head if it passes, then the filtered tail. */
  function Kept<T>(xs: seq<T>, p: T -> bool): seq<T>
    decreases |xs|
  {
    if |xs| == 0 then [] else (if p(xs[0]) then [xs[0]] else []) + Kept(xs[1..], p)
  }

  lemma {:induction false} KeptFacts<T>(xs: seq<T>, p: T -> bool)
    ensures |Kept(xs, p)| <= |xs|
    ensures forall i :: 0 <= i < |Kept(xs, p)| ==> p(Kept(xs, p)[i]) && Kept(xs, p)[i] in xs
    ensures forall i :: 0 <= i < |xs| && p(xs[i]) ==> xs[i] in Kept(xs, p)
    ensures |Kept(xs, p)| == |xs| <==> forall i :: 0 <= i < |xs| ==> p(xs[i])
    decreases |xs|
  {
    if |xs| > 0 {
      KeptFacts(xs[1..], p);
      assert forall i :: 1 <= i < |xs| ==> xs[i] == xs[1..][i - 1];
    }
  }

  /** Filtering distributes over concatenation: the kept elements keep their order. */
  lemma KeepConcat<T>(a: seq<T>, b: seq<T>, p: T -> bool)
    ensures Keep(a + b, p) == Keep(a, p) + Keep(b, p)
  {
    KeptConcat(a, b, p);
  }

  lemma {:induction false} KeptConcat<T>(a: seq<T>, b: seq<T>, p: T -> bool)
    ensures Kept(a + b, p) == Kept(a, p) + Kept(b, p)
    decreases |a|
  {
    if |a| > 0 {
      KeptConcat(a[1..], b, p);
      assert (a + b)[0] == a[0] && (a + b)[1..] == a[1..] + b;
    } else {
      assert a + b == b;
    }
  }

  /** When every element passes, the filter returns the list itself. */
  lemma {:induction false} KeepAll<T>(xs: seq<T>, p: T -> bool)
    requires forall i :: 0 <= i < |xs| ==> p(xs[i])
    ensures Keep(xs, p) == xs
    decreases |xs|
  {
    if |xs| > 0 {
      KeepAll(xs[1..], p);
      assert Keep(xs, p) == [xs[0]] + Keep(xs[1..], p);
      assert xs == [xs[0]] + xs[1..];
    }
  }

  /** A relation that holds of every ordered pair of positions still holds after filtering. */
  lemma {:induction false} KeepPairwise<T>(xs: seq<T>, p: T -> bool, rel: (T, T) -> bool)
    requires forall i, j :: 0 <= i < j < |xs| ==> rel(xs[i], xs[j])
    ensures forall i, j :: 0 <= i < j < |Keep(xs, p)| ==> rel(Keep(xs, p)[i], Keep(xs, p)[j])
    decreases |xs|
  {
    if |xs| > 0 {
      var rest := Keep(xs[1..], p);
      KeepPairwise(xs[1..], p, rel);
      if p(xs[0]) {
        forall k | 0 <= k < |rest|
          ensures rel(xs[0], rest[k])
        {
          var m :| 0 <= m < |xs[1..]| && xs[1..][m] == rest[k];
          assert xs[m + 1] == rest[k];
        }
        ConsPairwise(xs[0], rest, rel);
        assert Keep(xs, p) == [xs[0]] + rest;
      }
    }
  }

  /** A head related to every later element keeps a pairwise-related list pairwise related. */
  lemma ConsPairwise<T>(x: T, rest: seq<T>, rel: (T, T) -> bool)
    requires forall i, j :: 0 <= i < j < |rest| ==> rel(rest[i], rest[j])
    requires forall k :: 0 <= k < |rest| ==> rel(x, rest[k])
    ensures forall i, j :: 0 <= i < j < |[x] + rest| ==> rel(([x] + rest)[i], ([x] + rest)[j])
  {
    var r := [x] + rest;
    assert forall k :: 1 <= k < |r| ==> r[k] == rest[k - 1];
  }

  /** The filter predicate of Remove: the record's key is not k. */
  function NotKey<T, K(==)>(key: T -> K, k: K): T -> bool
  {
    x => key(x) != k
  }

  /** `xs.filter(x => key(x) !== k)`: drops the records with key k, keeps the rest in order. */
  function Remove<T, K(==)>(xs: seq<T>, key: T -> K, k: K): (r: seq<T>)
    ensures forall i :: 0 <= i < |r| ==> key(r[i]) != k && r[i] in xs
    ensures forall i :: 0 <= i < |xs| && key(xs[i]) != k ==> xs[i] in r
    ensures |r| == |xs| <==> forall i :: 0 <= i < |xs| ==> key(xs[i]) != k
  {
    Keep(xs, NotKey(key, k))
  }

  /** Removing from a list split around one record with key k is removing from each side:
      the surviving records keep their order. */
  lemma RemoveAround<T, K>(before: seq<T>, x: T, after: seq<T>, key: T -> K, k: K)
    requires key(x) == k
    ensures Remove(before + [x] + after, key, k) == Remove(before, key, k) + Remove(after, key, k)
  {
    KeepConcat(before + [x], after, NotKey(key, k));
    KeepConcat(before, [x], NotKey(key, k));
  }

  /** A relation that holds of every ordered pair still holds after a removal. */
  lemma RemovePairwise<T, K>(xs: seq<T>, key: T -> K, k: K, rel: (T, T) -> bool)
    requires forall i, j :: 0 <= i < j < |xs| ==> rel(xs[i], xs[j])
    ensures forall i, j :: 0 <= i < j < |Remove(xs, key, k)| ==> rel(Remove(xs, key, k)[i], Remove(xs, key, k)[j])
  {
    KeepPairwise(xs, NotKey(key, k), rel);
    assert Remove(xs, key, k) == Keep(xs, NotKey(key, k));
  }
}
