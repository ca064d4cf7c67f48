/** Python list operations used on the JSON list columns (followers, following, likes):
    membership, `append` guarded by `not in`, and `remove`, which deletes the first occurrence. */
module Lists {

  /** No element occurs twice. */
  predicate NoDup<T(==)>(s: seq<T>)
  {
    forall i, j :: 0 <= i < j < |s| ==> s[i] != s[j]
  }

  /** How often `x` occurs in `s`. */
  function Occurrences<T(==)>(s: seq<T>, x: T): nat
  {
    if s == [] then 0 else (if s[0] == x then 1 else 0) + Occurrences(s[1..], x)
  }

  /** `Occurrences` is the multiplicity in the multiset of the list. */
  lemma {:induction false} OccurrencesIsMultiplicity<T>(s: seq<T>, x: T)
    ensures Occurrences(s, x) == multiset(s)[x]
  {
    if s != [] {
      assert s == [s[0]] + s[1..];
      OccurrencesIsMultiplicity(s[1..], x);
    }
  }

  /** Index of the first occurrence of `x`. */
  function FirstIndex<T(==)>(s: seq<T>, x: T): (i: nat)
    requires x in s
    ensures i < |s| && s[i] == x && x !in s[..i]
  {
    if s[0] == x then 0 else 1 + FirstIndex(s[1..], x)
  }

  /** `s.remove(x)`: Python demands that `x` is present and deletes its first occurrence. */
  function RemoveFirst<T(==)>(s: seq<T>, x: T): (r: seq<T>)
    requires x in s
    ensures |r| == |s| - 1
    ensures multiset(r) == multiset(s) - multiset{x}
    ensures NoDup(s) ==> NoDup(r) && x !in r
  {
    var i := FirstIndex(s, x);
    assert s == s[..i] + [x] + s[i + 1..];
    assert multiset(s) == multiset(s[..i]) + multiset{x} + multiset(s[i + 1..]);
    RemoveAtKeepsNoDup(s, i);
    s[..i] + s[i + 1..]
  }

  /** Deleting one position of a list without duplicates leaves a list without duplicates that no
      longer holds the deleted element. */
  lemma RemoveAtKeepsNoDup<T>(s: seq<T>, i: nat)
    requires i < |s|
    ensures NoDup(s) ==> NoDup(s[..i] + s[i + 1..]) && s[i] !in s[..i] + s[i + 1..]
  {
    var r := s[..i] + s[i + 1..];
    assert forall k :: 0 <= k < |r| ==> r[k] == if k < i then s[k] else s[k + 1];
    if NoDup(s) {
      forall a, b | 0 <= a < b < |r| ensures r[a] != r[b] {
        var a', b' := if a < i then a else a + 1, if b < i then b else b + 1;
        assert r[a] == s[a'] && r[b] == s[b'] && a' < b';
      }
    }
  }

  /** `if x not in s: s.append(x)` */
  function AppendIfAbsent<T(==)>(s: seq<T>, x: T): (r: seq<T>)
    ensures x in r
    ensures forall i :: 0 <= i < |s| ==> s[i] in r
    ensures forall i :: 0 <= i < |r| ==> r[i] in s || r[i] == x
    ensures x in s ==> r == s
    ensures x !in s ==> |r| == |s| + 1 && r[..|s|] == s
    ensures NoDup(s) ==> NoDup(r)
  {
    if x in s then s else s + [x]
  }

  /** `if x in s: s.remove(x)` */
  function RemoveIfPresent<T(==)>(s: seq<T>, x: T): (r: seq<T>)
    ensures x !in s ==> r == s
    ensures x in s ==> multiset(r) == multiset(s) - multiset{x}
    ensures forall i :: 0 <= i < |r| ==> r[i] in s
    ensures NoDup(s) ==> NoDup(r) && x !in r
  {
    if x in s then RemoveFirst(s, x) else s
  }

  /** Removing an element that was just appended to a list not holding it gives back the list. */
  lemma {:induction false} RemoveLastAppended<T>(s: seq<T>, x: T)
    requires x !in s
    ensures RemoveFirst(s + [x], x) == s
  {
    if s != [] {
      assert (s + [x])[1..] == s[1..] + [x];
      RemoveLastAppended(s[1..], x);
    }
  }

  /** An unguarded append followed by a remove restores the list (the like list round trip). */
  lemma AppendThenRemove<T>(s: seq<T>, x: T)
    requires x !in s
    ensures x in s + [x] && RemoveFirst(s + [x], x) == s
  {
    RemoveLastAppended(s, x);
  }

  /** A guarded append followed by a guarded remove restores a list that did not hold the element. */
  lemma AppendIfAbsentThenRemove<T>(s: seq<T>, x: T)
    requires x !in s
    ensures RemoveIfPresent(AppendIfAbsent(s, x), x) == s
  {
    RemoveLastAppended(s, x);
  }

  /** Appending the same element twice under the guard changes the list only once. */
  lemma AppendIfAbsentIdempotent<T>(s: seq<T>, x: T)
    ensures AppendIfAbsent(AppendIfAbsent(s, x), x) == AppendIfAbsent(s, x)
  {
  }

  /** On a list without duplicates, a second guarded remove does nothing. */
  lemma RemoveIfPresentIdempotent<T>(s: seq<T>, x: T)
    requires NoDup(s)
    ensures RemoveIfPresent(RemoveIfPresent(s, x), x) == RemoveIfPresent(s, x)
  {
  }
}
