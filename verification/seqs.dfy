/**
 * Order-preserving sequence operations the notes code uses through Swift's
 * collection API: `filter`, `firstIndex(where:)` and `removeAll(where:)`,
 * the latter two always with the predicate "key equals a given id".
 */
module Seqs {
  import opened Optionals

  /** The elements of `s` that satisfy `keep`, in their original order. */
  function Filter<T(==,!new)>(s: seq<T>, keep: T -> bool): (r: seq<T>)
    ensures |r| <= |s|
    ensures forall i :: 0 <= i < |r| ==> keep(r[i])
    decreases |s|
  {
    if |s| == 0 then []
    else (if keep(s[0]) then [s[0]] else []) + Filter(s[1..], keep)
  }

  /** Filtering keeps every element `keep` accepts as often as it occurs, and no other. */
  lemma {:induction false} FilterCount<T(!new)>(s: seq<T>, keep: T -> bool)
    ensures forall x :: multiset(Filter(s, keep))[x] == if keep(x) then multiset(s)[x] else 0
    decreases |s|
  {
    if |s| > 0 {
      FilterCount(s[1..], keep);
      assert s == [s[0]] + s[1..];
    }
  }

  /** Filtering distributes over concatenation: the survivors keep their order. */
  lemma {:induction false} FilterAppend<T(!new)>(a: seq<T>, b: seq<T>, keep: T -> bool)
    ensures Filter(a + b, keep) == Filter(a, keep) + Filter(b, keep)
    decreases |a|
  {
    if |a| == 0 {
      assert a + b == b;
    } else {
      assert (a + b)[1..] == a[1..] + b;
      FilterAppend(a[1..], b, keep);
    }
  }

  /** Filtering a sequence none of whose elements is dropped changes nothing. */
  lemma {:induction false} FilterKeepsAll<T(!new)>(s: seq<T>, keep: T -> bool)
    requires forall i :: 0 <= i < |s| ==> keep(s[i])
    ensures Filter(s, keep) == s
    decreases |s|
  {
    if |s| > 0 {
      FilterKeepsAll(s[1..], keep);
      assert s == [s[0]] + s[1..];
    }
  }

  /** Some element of `s` has key `id`. */
  ghost predicate HasKey<T>(s: seq<T>, key: T -> string, id: string)
  {
    exists i :: 0 <= i < |s| && key(s[i]) == id
  }

  /** No two positions of `s` hold elements with the same key. */
  ghost predicate DistinctKeys<T>(s: seq<T>, key: T -> string)
  {
    forall i, j :: 0 <= i < j < |s| ==> key(s[i]) != key(s[j])
  }

  /** The position of the first element whose key is `id` (`firstIndex(where:)`). */
  function FirstIndex<T>(s: seq<T>, key: T -> string, id: string): (r: Option<nat>)
    ensures r.None? <==> !HasKey(s, key, id)
    ensures r.Some? ==>
      && r.value < |s|
      && key(s[r.value]) == id
      && forall j :: 0 <= j < r.value ==> key(s[j]) != id
    decreases |s|
  {
    if |s| == 0 then None
    else if key(s[0]) == id then Some(0)
    else
      match FirstIndex(s[1..], key, id)
      case None =>
        assert forall i :: 1 <= i < |s| ==> s[i] == s[1..][i - 1];
        None
      case Some(k) => Some(k + 1)
  }

  /** The predicate "the key of this element is not `id`". */
  function KeyIsNot<T>(key: T -> string, id: string): T -> bool
  {
    x => key(x) != id
  }

  /** `s` without the elements whose key is `id`, the rest in order (`removeAll(where:)`). */
  function RemoveAll<T(==,!new)>(s: seq<T>, key: T -> string, id: string): (r: seq<T>)
    ensures |r| <= |s|
    ensures forall i :: 0 <= i < |r| ==> key(r[i]) != id
    ensures forall x :: multiset(r)[x] == if key(x) == id then 0 else multiset(s)[x]
  {
    FilterCount(s, KeyIsNot(key, id));
    Filter(s, KeyIsNot(key, id))
  }

  /** Removing a key that no element carries leaves the sequence as it was. */
  lemma RemoveAbsentKey<T(!new)>(s: seq<T>, key: T -> string, id: string)
    requires !HasKey(s, key, id)
    ensures RemoveAll(s, key, id) == s
  {
    FilterKeepsAll(s, KeyIsNot(key, id));
  }

  /** Removal by key distributes over concatenation. */
  lemma RemoveAllAppend<T(!new)>(a: seq<T>, b: seq<T>, key: T -> string, id: string)
    ensures RemoveAll(a + b, key, id) == RemoveAll(a, key, id) + RemoveAll(b, key, id)
  {
    FilterAppend(a, b, KeyIsNot(key, id));
  }

  /** A sequence is its prefix before `k`, the element at `k`, and the rest. */
  lemma SplitAt<T>(s: seq<T>, k: nat)
    requires k < |s|
    ensures s == s[..k] + ([s[k]] + s[k + 1..])
  {
  }

  /**
   * Removing a key carried only by the element at `k` removes exactly that
   * element and keeps everything before and after it in place.
   */
  lemma RemoveOnlyKeyed<T(!new)>(s: seq<T>, key: T -> string, id: string, k: nat)
    requires k < |s| && key(s[k]) == id
    requires !HasKey(s[..k], key, id) && !HasKey(s[k + 1..], key, id)
    ensures RemoveAll(s, key, id) == s[..k] + s[k + 1..]
  {
    var before, after := s[..k], s[k + 1..];
    var rest := [s[k]] + after;
    RemoveAbsentKey(after, key, id);
    RemoveAllAppend([s[k]], after, key, id);
    assert RemoveAll([s[k]], key, id) == [];
    assert RemoveAll(rest, key, id) == after;
    RemoveAbsentKey(before, key, id);
    SplitAt(s, k);
    RemoveAllAppend(before, rest, key, id);
  }

  /**
   * With distinct keys, removing a key present at position `k` removes exactly
   * that one element and keeps everything before and after it in place.
   */
  lemma RemoveDistinctKey<T(!new)>(s: seq<T>, key: T -> string, id: string, k: nat)
    requires DistinctKeys(s, key)
    requires k < |s| && key(s[k]) == id
    ensures RemoveAll(s, key, id) == s[..k] + s[k + 1..]
  {
    var before, after := s[..k], s[k + 1..];
    assert !HasKey(before, key, id) by {
      forall i | 0 <= i < |before| ensures key(before[i]) != id {
        assert before[i] == s[i];
      }
    }
    assert !HasKey(after, key, id) by {
      forall i | 0 <= i < |after| ensures key(after[i]) != id {
        assert after[i] == s[k + 1 + i];
      }
    }
    RemoveOnlyKeyed(s, key, id, k);
  }

  /** A filtered sequence keeps distinct keys distinct. */
  lemma {:induction false} FilterKeepsKeysDistinct<T(!new)>(s: seq<T>, keep: T -> bool, key: T -> string)
    requires DistinctKeys(s, key)
    ensures DistinctKeys(Filter(s, keep), key)
    decreases |s|
  {
    if |s| > 0 {
      var rest := Filter(s[1..], keep);
      FilterKeepsKeysDistinct(s[1..], keep, key);
      FilterCount(s[1..], keep);
      forall i | 0 <= i < |rest|
        ensures key(rest[i]) != key(s[0])
      {
        assert multiset(rest)[rest[i]] > 0;
        assert rest[i] in multiset(s[1..]);
        var j :| 0 <= j < |s[1..]| && s[1..][j] == rest[i];
        assert s[j + 1] == rest[i];
      }
    }
  }
}
