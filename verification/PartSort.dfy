/**
 * The insertion sort that orders the parts of a split stream in place: a stable sort of block
 * numbers by a key of the block.
 */
module PartSort {
  import opened Bytes

  /** `x` put behind everything in `s` whose key is not larger than its own. */
  function Insert(s: seq<U32>, x: U32, keys: seq<nat>): (r: seq<U32>)
    requires x < |keys| && forall i :: 0 <= i < |s| ==> s[i] < |keys|
    ensures |r| == |s| + 1 && forall i :: 0 <= i < |r| ==> r[i] < |keys|
  {
    if s == [] || keys[s[|s| - 1]] <= keys[x] then s + [x]
    else Insert(s[..|s| - 1], x, keys) + [s[|s| - 1]]
  }

  /** The elements of `s` in stable order of their keys. */
  function SortByKey(s: seq<U32>, keys: seq<nat>): (r: seq<U32>)
    requires forall i :: 0 <= i < |s| ==> s[i] < |keys|
    ensures |r| == |s| && forall i :: 0 <= i < |r| ==> r[i] < |keys|
  {
    if s == [] then [] else Insert(SortByKey(s[..|s| - 1], keys), s[|s| - 1], keys)
  }

  ghost predicate SortedByKey(s: seq<U32>, keys: seq<nat>)
    requires forall i :: 0 <= i < |s| ==> s[i] < |keys|
  {
    forall i, j :: 0 <= i < j < |s| ==> keys[s[i]] <= keys[s[j]]
  }

  /** The elements of `s` with key `v`, in the order of `s`. */
  ghost function WithKey(s: seq<U32>, v: nat, keys: seq<nat>): seq<U32>
    requires forall i :: 0 <= i < |s| ==> s[i] < |keys|
  {
    if s == [] then []
    else
      var last := s[|s| - 1];
      WithKey(s[..|s| - 1], v, keys) + if keys[last] == v then [last] else []
  }

  lemma {:induction false} InsertPermutes(s: seq<U32>, x: U32, keys: seq<nat>)
    requires x < |keys| && forall i :: 0 <= i < |s| ==> s[i] < |keys|
    ensures multiset(Insert(s, x, keys)) == multiset(s) + multiset{x}
  {
    if s != [] && keys[s[|s| - 1]] > keys[x] {
      var init, last := s[..|s| - 1], s[|s| - 1];
      InsertPermutes(init, x, keys);
      assert s == init + [last];
    }
  }

  /** An upper bound of the keys of `s` and of `x` bounds the keys of the result. */
  lemma {:induction false} InsertBound(s: seq<U32>, x: U32, keys: seq<nat>, bound: nat)
    requires x < |keys| && forall i :: 0 <= i < |s| ==> s[i] < |keys|
    requires keys[x] <= bound && forall i :: 0 <= i < |s| ==> keys[s[i]] <= bound
    ensures forall i :: 0 <= i < |Insert(s, x, keys)| ==> keys[Insert(s, x, keys)[i]] <= bound
  {
    if s != [] && keys[s[|s| - 1]] > keys[x] {
      var init, last := s[..|s| - 1], s[|s| - 1];
      InsertBound(init, x, keys, bound);
      assert Insert(s, x, keys) == Insert(init, x, keys) + [last];
    } else {
      assert Insert(s, x, keys) == s + [x];
    }
  }

  lemma {:induction false} InsertSorts(s: seq<U32>, x: U32, keys: seq<nat>)
    requires x < |keys| && forall i :: 0 <= i < |s| ==> s[i] < |keys|
    requires SortedByKey(s, keys)
    ensures SortedByKey(Insert(s, x, keys), keys)
  {
    if s != [] && keys[s[|s| - 1]] > keys[x] {
      var init, last := s[..|s| - 1], s[|s| - 1];
      InsertSorts(init, x, keys);
      InsertBound(init, x, keys, keys[last]);
      SortedAppend(Insert(init, x, keys), last, keys);
    } else {
      SortedAppend(s, x, keys);
    }
  }

  lemma SortedAppend(s: seq<U32>, x: U32, keys: seq<nat>)
    requires x < |keys| && forall i :: 0 <= i < |s| ==> s[i] < |keys|
    requires SortedByKey(s, keys) && forall i :: 0 <= i < |s| ==> keys[s[i]] <= keys[x]
    ensures SortedByKey(s + [x], keys)
  {
    var r := s + [x];
    forall i, j | 0 <= i < j < |r|
      ensures keys[r[i]] <= keys[r[j]]
    {
      assert r[i] == s[i];
    }
  }

  lemma WithKeyAppend(s: seq<U32>, x: U32, v: nat, keys: seq<nat>)
    requires x < |keys| && forall i :: 0 <= i < |s| ==> s[i] < |keys|
    ensures WithKey(s + [x], v, keys) == WithKey(s, v, keys) + if keys[x] == v then [x] else []
  {
    assert (s + [x])[..|s|] == s;
  }

  lemma {:induction false} InsertKeepsOrder(s: seq<U32>, x: U32, v: nat, keys: seq<nat>)
    requires x < |keys| && forall i :: 0 <= i < |s| ==> s[i] < |keys|
    ensures WithKey(Insert(s, x, keys), v, keys) == WithKey(s, v, keys) + if keys[x] == v then [x] else []
  {
    hide WithKey;
    if s != [] && keys[s[|s| - 1]] > keys[x] {
      var init, last := s[..|s| - 1], s[|s| - 1];
      InsertKeepsOrder(init, x, v, keys);
      WithKeyAppend(Insert(init, x, keys), last, v, keys);
      WithKeyAppend(init, last, v, keys);
      assert s == init + [last];
    } else {
      WithKeyAppend(s, x, v, keys);
    }
  }

  /** `SortByKey` is a sorted permutation of `s` and keeps the order of elements with equal keys. */
  lemma {:induction false} SortByKeyIsStableSort(s: seq<U32>, keys: seq<nat>)
    requires forall i :: 0 <= i < |s| ==> s[i] < |keys|
    ensures SortedByKey(SortByKey(s, keys), keys)
    ensures multiset(SortByKey(s, keys)) == multiset(s)
    ensures forall v: nat :: WithKey(SortByKey(s, keys), v, keys) == WithKey(s, v, keys)
  {
    if s != [] {
      var init, last := s[..|s| - 1], s[|s| - 1];
      SortByKeyIsStableSort(init, keys);
      InsertSorts(SortByKey(init, keys), last, keys);
      InsertPermutes(SortByKey(init, keys), last, keys);
      assert s == init + [last];
      forall v: nat ensures WithKey(SortByKey(s, keys), v, keys) == WithKey(s, v, keys) {
        InsertKeepsOrder(SortByKey(init, keys), last, v, keys);
      }
    }
  }

  /** Sorts the first `count` entries in place. */
  method InsertionSort(indices: array<U32>, count: nat, keys: seq<nat>)
    requires count <= indices.Length && forall i :: 0 <= i < count ==> indices[i] < |keys|
    modifies indices
    ensures indices[..count] == SortByKey(old(indices[..count]), keys)
    ensures indices[count..] == old(indices[count..])
  {
    ghost var all := indices[..];
    if count == 0 {
      assert all[..0] == [];
      return;
    }
    var i := 1;
    assert all[..1] == [all[0]] && all[..1][..0] == [];
    assert indices[..1] == all[..1];
    while i < count
      invariant 1 <= i <= count && SortedPart(all, indices[..], i, keys)
    {
      SortedOn(all, indices[..], i, keys);
      hide *;
      SiftDown(indices, i, keys);
      i := i + 1;
    }
  }

  /** The first `n` entries are sorted, and the rest is as it was. */
  ghost predicate SortedPart(all: seq<U32>, now: seq<U32>, n: nat, keys: seq<nat>) {
    && n <= |all| == |now| && (forall k :: 0 <= k < n ==> all[k] < |keys|)
    && now[..n] == SortByKey(all[..n], keys) && now[n..] == all[n..]
  }

  /** Sinking in the next entry sorts one more. */
  lemma SortedOn(all: seq<U32>, now: seq<U32>, n: nat, keys: seq<nat>)
    requires n < |all| && SortedPart(all, now, n, keys) && all[n] < |keys|
    ensures n < |now| && (forall k :: 0 <= k <= n ==> now[k] < |keys|)
    ensures forall next: seq<U32> ::
              |next| == |now| && next[..n + 1] == Insert(now[..n], now[n], keys) && next[n + 1..] == now[n + 1..] ==>
                SortedPart(all, next, n + 1, keys)
  {
    SortByKeyIsStableSort(all[..n], keys);
    assert all[..n + 1][..n] == all[..n] && now[n] == now[n..][0] == all[n];
    assert now[n + 1..] == now[n..][1..] == all[n + 1..];
    forall k | 0 <= k < n ensures now[k] < |keys| {
      assert now[..n][k] in multiset(SortByKey(all[..n], keys));
      assert now[..n][k] in multiset(all[..n]);
    }
    hide Insert;
  }

  lemma InsertOnce(s: seq<U32>, key: U32, keys: seq<nat>)
    requires s != [] && key < |keys| && forall k :: 0 <= k < |s| ==> s[k] < |keys|
    ensures keys[s[|s| - 1]] <= keys[key] ==> Insert(s, key, keys) == s + [key]
    ensures keys[s[|s| - 1]] > keys[key] ==> Insert(s, key, keys) == Insert(s[..|s| - 1], key, keys) + [s[|s| - 1]]
  {
  }

  /** Past a larger entry the search goes on; behind the first one that is not larger it ends. */
  lemma InsertStep(s: seq<U32>, j: nat, key: U32, keys: seq<nat>)
    requires 0 < j <= |s| && key < |keys| && forall k :: 0 <= k < |s| ==> s[k] < |keys|
    ensures keys[s[j - 1]] <= keys[key] ==> Insert(s[..j], key, keys) == s[..j] + [key]
    ensures keys[s[j - 1]] > keys[key] ==>
              Insert(s[..j], key, keys) + s[j..] == Insert(s[..j - 1], key, keys) + s[j - 1..]
  {
    hide Insert;
    var init, tail := s[..j], s[j..];
    InsertOnce(init, key, keys);
    assert init[..j - 1] == s[..j - 1] && init[j - 1] == s[j - 1];
    var shorter := Insert(s[..j - 1], key, keys);
    assert s[j - 1..] == [s[j - 1]] + tail;
    assert (shorter + [s[j - 1]]) + tail == shorter + ([s[j - 1]] + tail);
  }

  lemma InsertFirst(key: U32, keys: seq<nat>)
    requires key < |keys|
    ensures Insert([], key, keys) == [] + [key]
  {
  }

  /** Moves entry `i` to its place among the sorted entries before it. */
  method SiftDown(indices: array<U32>, i: nat, keys: seq<nat>)
    requires i < indices.Length && forall k :: 0 <= k <= i ==> indices[k] < |keys|
    modifies indices
    ensures indices[..i + 1] == Insert(old(indices[..i]), old(indices[i]), keys)
    ensures indices[i + 1..] == old(indices[i + 1..])
  {
    var key := indices[i];
    ghost var was, s := indices[..], indices[..i];
    var j := i;
    SiftStart(was, i, keys);
    while j > 0
      invariant 0 <= j <= i && SiftedTo(was, indices[..], i, j, keys)
    {
      var prev := indices[j - 1];
      SiftStep(was, indices[..], i, j, keys);
      hide *;
      if keys[prev] <= keys[key] {
        break;
      }
      indices[j] := prev;
      j := j - 1;
    }
    SiftEnd(was, indices[..], i, j, keys);
    indices[j] := key;
  }

  /** The entries from `j` on have moved up by one, and the key belongs among those before them. */
  ghost predicate SiftedTo(was: seq<U32>, now: seq<U32>, i: nat, j: nat, keys: seq<nat>) {
    && j <= i < |was| == |now| && (forall k :: 0 <= k <= i ==> was[k] < |keys|)
    && MovedUp(was, now, i, j)
    && Insert(was[..i], was[i], keys) == Insert(was[..j], was[i], keys) + was[j..i]
  }

  ghost predicate MovedUp(was: seq<U32>, now: seq<U32>, i: nat, j: nat)
    requires j <= i < |was| == |now|
  {
    && (forall k :: 0 <= k < j ==> now[k] == was[k])
    && (forall k :: j < k <= i ==> now[k] == was[k - 1])
    && (forall k :: i < k < |was| ==> now[k] == was[k])
  }

  lemma SiftStart(was: seq<U32>, i: nat, keys: seq<nat>)
    requires i < |was| && forall k :: 0 <= k <= i ==> was[k] < |keys|
    ensures SiftedTo(was, was, i, i, keys)
  {
    assert was[i..i] == [];
  }

  /** What the key is compared with is the entry it was; a larger one moves up. */
  lemma SiftStep(was: seq<U32>, now: seq<U32>, i: nat, j: nat, keys: seq<nat>)
    requires 0 < j && SiftedTo(was, now, i, j, keys)
    ensures now[j - 1] == was[j - 1] < |keys| && was[i] < |keys|
    ensures keys[now[j - 1]] <= keys[was[i]] ==> Insert(was[..j], was[i], keys) == was[..j] + [was[i]]
    ensures keys[now[j - 1]] > keys[was[i]] ==> SiftedTo(was, now[j := now[j - 1]], i, j - 1, keys)
  {
    InsertBack(was, i, j, keys);
    hide Insert;
    UpOneMore(was, now, i, j);
    assert was[j - 1] < |keys|;
    hide MovedUp;
  }

  lemma UpOneMore(was: seq<U32>, now: seq<U32>, i: nat, j: nat)
    requires 0 < j <= i < |was| == |now| && MovedUp(was, now, i, j)
    ensures now[j - 1] == was[j - 1] && MovedUp(was, now[j := now[j - 1]], i, j - 1)
  {
  }

  lemma KeyPut(was: seq<U32>, now: seq<U32>, i: nat, j: nat, key: U32)
    requires j <= i < |was| == |now| && MovedUp(was, now, i, j)
    ensures now[j := key][..i + 1] == was[..j] + [key] + was[j..i] && now[j := key][i + 1..] == was[i + 1..]
  {
  }

  lemma InsertBack(was: seq<U32>, i: nat, j: nat, keys: seq<nat>)
    requires 0 < j <= i < |was| && forall k :: 0 <= k <= i ==> was[k] < |keys|
    ensures keys[was[j - 1]] <= keys[was[i]] ==> Insert(was[..j], was[i], keys) == was[..j] + [was[i]]
    ensures keys[was[j - 1]] > keys[was[i]] ==>
              Insert(was[..j], was[i], keys) + was[j..i] == Insert(was[..j - 1], was[i], keys) + was[j - 1..i]
  {
    var s := was[..i];
    assert s[..j] == was[..j] && s[j..] == was[j..i] && s[..j - 1] == was[..j - 1] && s[j - 1..] == was[j - 1..i];
    hide Insert;
    InsertStep(s, j, was[i], keys);
  }

  /** Where the search ends, the key is put. */
  lemma SiftEnd(was: seq<U32>, now: seq<U32>, i: nat, j: nat, keys: seq<nat>)
    requires SiftedTo(was, now, i, j, keys) && (j > 0 ==> Insert(was[..j], was[i], keys) == was[..j] + [was[i]])
    ensures now[j := was[i]][..i + 1] == Insert(was[..i], was[i], keys) && now[j := was[i]][i + 1..] == was[i + 1..]
  {
    InsertFirst(was[i], keys);
    assert was[..0] == [];
    hide Insert;
    KeyPut(was, now, i, j, was[i]);
    hide MovedUp;
  }
}
