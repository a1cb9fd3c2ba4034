/** How often an element occurs in a sequence. */
module Counting {

  ghost function Occurs<T>(s: seq<T>, x: T): nat {
    multiset(s)[x]
  }

  lemma OccursNothing<T>(x: T)
    ensures Occurs([], x) == 0
  {
  }

  lemma OccursSingle<T>(y: T, x: T)
    ensures Occurs([y], x) == if y == x then 1 else 0
  {
  }

  lemma OccursAppend<T>(a: seq<T>, b: seq<T>, x: T)
    ensures Occurs(a + b, x) == Occurs(a, x) + Occurs(b, x)
  {
  }

  lemma OccursSnoc<T>(s: seq<T>, y: T, x: T)
    ensures Occurs(s + [y], x) == Occurs(s, x) + if y == x then 1 else 0
  {
  }

  lemma OccursCons<T>(y: T, s: seq<T>, x: T)
    ensures Occurs([y] + s, x) == Occurs(s, x) + if y == x then 1 else 0
  {
  }

  lemma OccursHead<T>(s: seq<T>, x: T)
    requires s != []
    ensures Occurs(s, x) == Occurs(s[1..], x) + if s[0] == x then 1 else 0
  {
    assert s == [s[0]] + s[1..];
  }

  lemma OccursIn<T>(s: seq<T>, x: T)
    ensures Occurs(s, x) > 0 <==> x in s
  {
  }

  /** The chosen elements are those of the wanted positions and no others, in the order of the sequence. */
  ghost predicate Filters<T>(s: seq<T>, wanted: seq<bool>, at: seq<nat>, chosen: seq<T>) {
    && |wanted| == |s| && |at| == |chosen|
    && (forall q :: 0 <= q < |at| ==> at[q] < |s| && wanted[at[q]] && chosen[q] == s[at[q]])
    && (forall p, q :: 0 <= p < q < |at| ==> at[p] < at[q])
    && (forall i :: 0 <= i < |s| && wanted[i] ==> i in at)
  }

  lemma FiltersNothing<T>()
    ensures Filters<T>([], [], [], [])
  {
  }

  /** One more element is chosen or passed over. */
  lemma FiltersOneMore<T>(s: seq<T>, wanted: seq<bool>, at: seq<nat>, chosen: seq<T>, x: T, want: bool)
    returns (at': seq<nat>)
    requires Filters(s, wanted, at, chosen)
    ensures Filters(s + [x], wanted + [want], at', if want then chosen + [x] else chosen)
  {
    at' := if want then at + [|s|] else at;
    forall i | 0 <= i < |s + [x]| && (wanted + [want])[i] ensures i in at' {
      if i < |s| {
        var q :| 0 <= q < |at| && at[q] == i;
        assert at'[q] == i;
      } else {
        assert at'[|at|] == i;
      }
    }
  }

  /** Equal counts, taken one by one, are equal multisets. */
  lemma SameCounts<T(!new)>(a: seq<T>, b: seq<T>)
    requires forall x :: Occurs(a, x) == Occurs(b, x)
    ensures multiset(a) == multiset(b)
  {
    forall x ensures multiset(a)[x] == multiset(b)[x] {
      assert Occurs(a, x) == Occurs(b, x);
    }
  }
}
