/** Generic facts about sequences and their permutations that the sorting
    and the write-replay proofs share. */
module Sequences {

  /** Applies `f` to every element, keeping positions. */
  function MapSeq<A, B>(s: seq<A>, f: A -> B): (r: seq<B>)
    ensures |r| == |s|
    ensures forall i :: 0 <= i < |s| ==> r[i] == f(s[i])
  {
    seq(|s|, i requires 0 <= i < |s| => f(s[i]))
  }

  /** Taking out one element and the rest, as multisets. */
  lemma MultisetRemoveAt<T>(s: seq<T>, k: nat)
    requires k < |s|
    ensures multiset(s) == multiset(s[..k] + s[k + 1..]) + multiset{s[k]}
  {
    assert s == s[..k] + [s[k]] + s[k + 1..];
  }

  /** Where an element of a permutation came from. */
  lemma PermutationSource<T>(x: seq<T>, y: seq<T>, i: nat) returns (j: nat)
    requires multiset(x) == multiset(y) && i < |x|
    ensures j < |y| && y[j] == x[i]
  {
    assert x[i] in multiset(y);
    j :| 0 <= j < |y| && y[j] == x[i];
  }

  /** Taking the same element out of two permutations leaves permutations. */
  lemma RemoveSame<T>(x: seq<T>, y: seq<T>, i: nat, j: nat)
    requires i < |x| && j < |y| && x[i] == y[j]
    requires multiset(x) == multiset(y)
    ensures multiset(x[..i] + x[i + 1..]) == multiset(y[..j] + y[j + 1..])
  {
    MultisetRemoveAt(x, i);
    MultisetRemoveAt(y, j);
    assert multiset(x[..i] + x[i + 1..]) == multiset(x) - multiset{x[i]};
  }

  /** Putting the same element back into two permutations keeps them so. */
  lemma ReinsertSame<T>(x: seq<T>, y: seq<T>, i: nat, j: nat, restX: seq<T>, restY: seq<T>)
    requires i < |x| && j < |y| && x[i] == y[j]
    requires restX == x[..i] + x[i + 1..] && restY == y[..j] + y[j + 1..]
    requires multiset(restX) == multiset(restY)
    ensures multiset(x) == multiset(y)
  {
    MultisetRemoveAt(x, i);
    MultisetRemoveAt(y, j);
  }

  /** Mapping acts element by element, so taking an element out commutes with it. */
  lemma MapRemoveAt<A, B>(s: seq<A>, k: nat, f: A -> B)
    requires k < |s|
    ensures MapSeq(s[..k] + s[k + 1..], f) == MapSeq(s, f)[..k] + MapSeq(s, f)[k + 1..]
  {
    var rest := s[..k] + s[k + 1..];
    var lhs := MapSeq(rest, f);
    var rhs := MapSeq(s, f)[..k] + MapSeq(s, f)[k + 1..];
    assert |lhs| == |rhs|;
    forall i | 0 <= i < |lhs| ensures lhs[i] == rhs[i] {
      if i < k {
        assert rest[i] == s[i];
      } else {
        assert rest[i] == s[i + 1];
      }
    }
  }

  /** Mapping two permutations of each other gives permutations of each other. */
  lemma {:induction false} MapKeepsPermutation<A, B>(a: seq<A>, b: seq<A>, f: A -> B)
    requires multiset(a) == multiset(b)
    ensures multiset(MapSeq(a, f)) == multiset(MapSeq(b, f))
    decreases |a|
  {
    if |a| == 0 {
      assert |b| == |multiset(b)| == 0;
    } else {
      assert a[0] in multiset(b);
      var k :| 0 <= k < |b| && b[k] == a[0];
      var restA, restB := a[..0] + a[1..], b[..k] + b[k + 1..];
      RemoveSame(a, b, 0, k);
      MapKeepsPermutation(restA, restB, f);
      MapRemoveAt(a, 0, f);
      MapRemoveAt(b, k, f);
      ReinsertSame(MapSeq(a, f), MapSeq(b, f), 0, k, MapSeq(restA, f), MapSeq(restB, f));
    }
  }
}
