/** Small shared vocabulary: an optional value and a few sequence helpers. */
module Basics {

  datatype Option<+T> = None | Some(value: T)

  function Min(a: int, b: int): int { if a <= b then a else b }

  function Max(a: int, b: int): int { if a <= b then b else a }

  /** No element occurs twice in `s` (what a Python list built from a set guarantees). */
  predicate NoDuplicates<T(==)>(s: seq<T>) {
    forall i, j | 0 <= i < j < |s| :: s[i] != s[j]
  }

  /** The elements of a sequence, as a set. */
  function Elems<T>(s: seq<T>): set<T> {
    set x | x in s
  }

  lemma AppendAssoc<T>(a: seq<T>, b: seq<T>, c: seq<T>)
    ensures a + b + c == a + (b + c)
  {
  }

  lemma ElemsPrefix<T>(s: seq<T>, i: nat)
    requires i < |s|
    ensures Elems(s[..i + 1]) == Elems(s[..i]) + {s[i]}
  {
    assert s[..i + 1] == s[..i] + [s[i]];
  }

  /** A prefix of a sequence without duplicates has none, and takes its
      elements from the sequence. */
  lemma TakeKeepsDistinct<T>(s: seq<T>, n: nat)
    requires n <= |s|
    ensures NoDuplicates(s) ==> NoDuplicates(s[..n])
    ensures Elems(s[..n]) <= Elems(s)
  {
    assert forall x | x in s[..n] :: x in s;
  }

  /** Adding one element grows a set by at most one. */
  lemma CardAddOne<T>(s: set<T>, x: T)
    ensures |s + {x}| <= |s| + 1
  {
    if x in s {
      assert s + {x} == s;
    }
  }

  /** A sequence has at most as many distinct elements as it is long. */
  lemma {:induction false} ElemsCard<T>(s: seq<T>)
    ensures |Elems(s)| <= |s|
  {
    if s != [] {
      assert Elems(s) == Elems(s[1..]) + {s[0]};
      ElemsCard(s[1..]);
      CardAddOne(Elems(s[1..]), s[0]);
    }
  }

  /** A subset is no larger than the set that holds it. */
  lemma {:induction false} SubsetCard<T>(a: set<T>, b: set<T>)
    ensures a <= b ==> |a| <= |b|
    decreases a
  {
    if a != {} && a <= b {
      var x :| x in a;
      SubsetCard(a - {x}, b - {x});
    }
  }
}
