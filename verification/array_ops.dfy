/**
 The two JavaScript array primitives the address-book classes rely on:
 `Array.prototype.indexOf` (strict equality, first match, -1 when absent) and
 `Array.prototype.splice(index, 1)` (delete one element in place), modelled on
 immutable sequences, plus the pairwise-distinctness predicate used by the
 invariants.
 */
module ArrayOps {

  /** No value occurs twice in `s`. */
  predicate Distinct<T(==)>(s: seq<T>) {
    forall i, j :: 0 <= i < j < |s| ==> s[i] != s[j]
  }

  /** Distinctness of a sequence built by putting one element in front. */
  lemma DistinctCons<T>(x: T, s: seq<T>)
    ensures Distinct([x] + s) <==> x !in s && Distinct(s)
  {
    var t := [x] + s;
    if Distinct(t) {
      forall i, j | 0 <= i < j < |s| ensures s[i] != s[j] {
        assert s[i] == t[i + 1] && s[j] == t[j + 1];
      }
      forall k | 0 <= k < |s| ensures s[k] != x {
        assert s[k] == t[k + 1] && t[0] == x;
        assert t[0] != t[k + 1];
      }
    }
    if x !in s && Distinct(s) {
      forall i, j | 0 <= i < j < |t| ensures t[i] != t[j] {
        if i == 0 {
          assert t[j] == s[j - 1];
        } else {
          assert t[i] == s[i - 1] && t[j] == s[j - 1];
        }
      }
    }
  }

  /** Distinctness of a sequence built by putting one element at the end. */
  lemma DistinctSnoc<T>(s: seq<T>, x: T)
    requires Distinct(s)
    requires x !in s
    ensures Distinct(s + [x])
  {
    var t := s + [x];
    forall i, j | 0 <= i < j < |t| ensures t[i] != t[j] {
      if j == |s| {
        assert t[i] == s[i];
      } else {
        assert t[i] == s[i] && t[j] == s[j];
      }
    }
  }

  /**
   `indexOf(x)`: the first index holding `x`, or -1 when `x` does not occur.
   */
  function IndexOf<T(==)>(s: seq<T>, x: T): (r: int)
    ensures -1 <= r < |s|
    ensures r == -1 <==> x !in s
    ensures 0 <= r ==> s[r] == x && x !in s[..r]
  {
    if |s| == 0 then -1
    else if s[0] == x then 0
    else
      var k := IndexOf(s[1..], x);
      if k == -1 then -1
      else
        assert s[..k + 1] == [s[0]] + s[1..][..k];
        k + 1
  }

  /** `splice(i, 1)`: the sequence with the element at index `i` taken out. */
  function Splice<T>(s: seq<T>, i: int): (r: seq<T>)
    requires 0 <= i < |s|
    ensures |r| == |s| - 1
    ensures forall k :: 0 <= k < i ==> r[k] == s[k]
    ensures forall k :: i <= k < |r| ==> r[k] == s[k + 1]
    ensures multiset(r) == multiset(s) - multiset{s[i]}
  {
    assert s == s[..i] + [s[i]] + s[i + 1..];
    s[..i] + s[i + 1..]
  }

  /**
   The body shared by both `removeContact` methods: look the element up with
   `indexOf` and splice it out when the index is greater than -1.
   */
  function RemoveFirst<T(==)>(s: seq<T>, x: T): (r: seq<T>)
    ensures x !in s ==> r == s
    ensures x in s ==> |r| == |s| - 1 && multiset(r) == multiset(s) - multiset{x}
  {
    var index := IndexOf(s, x);
    if index > -1 then Splice(s, index) else s
  }

  /**
   An independent, recursive definition of "delete the first occurrence",
   scanning from the front.
   */
  function DeleteFirst<T(==)>(s: seq<T>, x: T): seq<T> {
    if s == [] then []
    else if s[0] == x then s[1..]
    else [s[0]] + DeleteFirst(s[1..], x)
  }

  /** Splicing past the head of a sequence splices its tail. */
  lemma SpliceCons<T>(s: seq<T>, k: int)
    requires 0 <= k < |s| - 1
    ensures Splice(s, k + 1) == [s[0]] + Splice(s[1..], k)
  {
  }

  /** `indexOf` followed by `splice` deletes exactly the first occurrence. */
  lemma {:induction false} RemoveFirstIsDeleteFirst<T>(s: seq<T>, x: T)
    ensures RemoveFirst(s, x) == DeleteFirst(s, x)
  {
    if s == [] {
    } else if s[0] == x {
      assert IndexOf(s, x) == 0;
    } else {
      RemoveFirstIsDeleteFirst(s[1..], x);
      var k := IndexOf(s[1..], x);
      if k == -1 {
        assert DeleteFirst(s, x) == [s[0]] + s[1..] == s;
      } else {
        assert IndexOf(s, x) == k + 1;
        SpliceCons(s, k);
      }
    }
  }

  /** Taking one element out of a sequence without repetitions keeps it so. */
  lemma SpliceKeepsDistinct<T>(s: seq<T>, i: int)
    requires Distinct(s)
    requires 0 <= i < |s|
    ensures Distinct(Splice(s, i))
    ensures s[i] !in Splice(s, i)
  {
    var r := Splice(s, i);
    forall a, b | 0 <= a < b < |r| ensures r[a] != r[b] {
      var a' := if a < i then a else a + 1;
      var b' := if b < i then b else b + 1;
      assert r[a] == s[a'] && r[b] == s[b'];
    }
    forall k | 0 <= k < |r| ensures r[k] != s[i] {
      var k' := if k < i then k else k + 1;
      assert r[k] == s[k'];
    }
  }

  /**
   Removing from a sequence without repetitions keeps it without
   repetitions, and afterwards the removed element is gone for good.
   */
  lemma RemoveFirstDistinct<T>(s: seq<T>, x: T)
    requires Distinct(s)
    ensures Distinct(RemoveFirst(s, x))
    ensures x !in RemoveFirst(s, x)
  {
    var index := IndexOf(s, x);
    if index > -1 {
      SpliceKeepsDistinct(s, index);
    }
  }
}
