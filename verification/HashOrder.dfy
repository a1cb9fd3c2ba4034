/** Sorting hash strings: the order, the counts, and why the sorted list is unique. */
module HashOrder {
  import opened Counting

  // ---------- Lexicographic order

  predicate AtMost(a: string, b: string) {
    a == "" || (b != "" && (a[0] < b[0] || (a[0] == b[0] && AtMost(a[1..], b[1..]))))
  }

  lemma {:induction false} AtMostTotal(a: string, b: string)
    ensures AtMost(a, b) || AtMost(b, a)
  {
    if a != "" && b != "" { AtMostTotal(a[1..], b[1..]); }
  }

  lemma {:induction false} AtMostAntisymmetric(a: string, b: string)
    requires AtMost(a, b) && AtMost(b, a)
    ensures a == b
  {
    if a != "" && b != "" {
      AtMostAntisymmetric(a[1..], b[1..]);
      assert a == [a[0]] + a[1..] && b == [b[0]] + b[1..];
    }
  }

  lemma {:induction false} AtMostTransitive(a: string, b: string, c: string)
    requires AtMost(a, b) && AtMost(b, c)
    ensures AtMost(a, c)
  {
    if a != "" && a[0] == b[0] == c[0] { AtMostTransitive(a[1..], b[1..], c[1..]); }
  }

  /** One string comes first exactly when it is a prefix of the other or has the smaller character where they first
      differ. */
  lemma {:induction false} AtMostExactly(a: string, b: string)
    ensures AtMost(a, b) <==> a <= b || exists i :: 0 <= i < |a| && i < |b| && SmallerAt(a, b, i)
  {
    if a == "" || b == "" {
    } else {
      AtMostExactly(a[1..], b[1..]);
      var x, y := a[1..], b[1..];
      if a[0] < b[0] {
        assert SmallerAt(a, b, 0);
      } else if a[0] == b[0] {
        assert a <= b <==> x <= y;
        if i :| 0 <= i < |x| && i < |y| && SmallerAt(x, y, i) {
          assert a[..i + 1] == [a[0]] + x[..i] && b[..i + 1] == [b[0]] + y[..i];
          assert SmallerAt(a, b, i + 1);
        }
        if i :| 0 <= i < |a| && i < |b| && SmallerAt(a, b, i) {
          assert i > 0 && x[..i - 1] == a[..i][1..] && y[..i - 1] == b[..i][1..];
          assert SmallerAt(x, y, i - 1);
        }
      } else {
        forall i | 0 <= i < |a| && i < |b| ensures !SmallerAt(a, b, i) {
          if i > 0 { assert a[..i][0] != b[..i][0]; }
        }
      }
    }
  }

  ghost predicate SmallerAt(a: string, b: string, i: nat)
    requires i < |a| && i < |b|
  {
    a[..i] == b[..i] && a[i] < b[i]
  }

  // ---------- Sorting

  ghost predicate Sorted(s: seq<string>) {
    forall i, j :: 0 <= i < j < |s| ==> AtMost(s[i], s[j])
  }

  function Insert(x: string, s: seq<string>): seq<string> {
    if s == [] || AtMost(x, s[0]) then [x] + s else [s[0]] + Insert(x, s[1..])
  }

  function Sort(s: seq<string>): seq<string> {
    if s == [] then [] else Insert(s[0], Sort(s[1..]))
  }

  lemma {:induction false} InsertCounts(x: string, s: seq<string>, y: string)
    ensures Occurs(Insert(x, s), y) == Occurs(s, y) + if x == y then 1 else 0
  {
    hide Occurs, AtMost;
    if s == [] || AtMost(x, s[0]) {
      OccursCons(x, s, y);
    } else {
      InsertCounts(x, s[1..], y);
      OccursCons(s[0], Insert(x, s[1..]), y);
      OccursHead(s, y);
    }
  }

  /** A list that starts with its least element is sorted when its rest is. */
  lemma SortedCons(x: string, s: seq<string>)
    requires Sorted(s) && forall i :: 0 <= i < |s| ==> AtMost(x, s[i])
    ensures Sorted([x] + s)
  {
    hide AtMost;
  }

  lemma {:induction false} InsertSorted(x: string, s: seq<string>)
    requires Sorted(s)
    ensures Sorted(Insert(x, s))
  {
    hide AtMost, Occurs;
    if s == [] || AtMost(x, s[0]) {
      forall i | 0 <= i < |s| ensures AtMost(x, s[i]) {
        if i > 0 { AtMostTransitive(x, s[0], s[i]); }
      }
      SortedCons(x, s);
    } else {
      InsertSorted(x, s[1..]);
      AtMostTotal(x, s[0]);
      var rest := Insert(x, s[1..]);
      forall i | 0 <= i < |rest| ensures AtMost(s[0], rest[i]) {
        InsertCounts(x, s[1..], rest[i]);
        OccursIn(rest, rest[i]);
        OccursIn(s[1..], rest[i]);
      }
      SortedCons(s[0], rest);
    }
  }

  lemma {:induction false} SortCounts(s: seq<string>, x: string)
    ensures Occurs(Sort(s), x) == Occurs(s, x)
  {
    hide Occurs, Insert;
    if s == [] {
    } else {
      SortCounts(s[1..], x);
      InsertCounts(s[0], Sort(s[1..]), x);
      OccursHead(s, x);
    }
  }

  lemma {:induction false} SortSorts(s: seq<string>)
    ensures Sorted(Sort(s)) && multiset(Sort(s)) == multiset(s)
  {
    if s == [] {
    } else {
      SortSorts(s[1..]);
      InsertSorted(s[0], Sort(s[1..]));
    }
    hide Occurs;
    forall x ensures Occurs(Sort(s), x) == Occurs(s, x) { SortCounts(s, x); }
    SameCounts(Sort(s), s);
  }

  lemma LeastIsFirst(a: seq<string>, b: seq<string>)
    requires a != [] && b != [] && Sorted(a) && Sorted(b) && multiset(a) == multiset(b)
    ensures AtMost(a[0], b[0])
  {
    hide AtMost;
    assert b[0] in multiset(b);
    var i :| 0 <= i < |a| && a[i] == b[0];
    if i == 0 { AtMostTotal(a[0], b[0]); }
  }

  /** Whatever algorithm sorts, there is one sorted list of given elements. */
  lemma {:induction false} SortedUnique(a: seq<string>, b: seq<string>)
    requires Sorted(a) && Sorted(b) && multiset(a) == multiset(b)
    ensures a == b
  {
    assert |a| == |multiset(a)| && |b| == |multiset(b)|;
    if a == [] {
    } else {
      LeastIsFirst(a, b);
      LeastIsFirst(b, a);
      AtMostAntisymmetric(a[0], b[0]);
      assert a == [a[0]] + a[1..] && b == [b[0]] + b[1..];
      assert multiset(a[1..]) == multiset(a) - multiset{a[0]};
      assert multiset(b[1..]) == multiset(b) - multiset{b[0]};
      SortedUnique(a[1..], b[1..]);
    }
  }

  // ---------- Concatenation

  function Concat(s: seq<string>): string {
    if s == [] then "" else s[0] + Concat(s[1..])
  }

  lemma {:induction false} ConcatAppend(s: seq<string>, x: string)
    ensures Concat(s + [x]) == Concat(s) + x
  {
    if s == [] {
      assert s + [x] == [x];
    } else {
      ConcatAppend(s[1..], x);
      assert (s + [x])[1..] == s[1..] + [x];
    }
  }

  /** The strings are written one after the other, in the order of the list, with nothing between them. */
  lemma {:induction false} ConcatIs(a: seq<string>, b: seq<string>, x: string)
    ensures Concat([]) == "" && Concat([x]) == x
    ensures Concat(a + b) == Concat(a) + Concat(b)
  {
    if a == [] {
      assert a + b == b;
    } else {
      ConcatIs(a[1..], b, x);
      assert (a + b)[1..] == a[1..] + b;
      assert a[0] + (Concat(a[1..]) + Concat(b)) == Concat(a) + Concat(b);
    }
  }

  ghost predicate AllOfLength(s: seq<string>, n: nat) {
    forall i :: 0 <= i < |s| ==> |s[i]| == n
  }

  /** Pieces of one positive length can be cut apart again. */
  lemma {:induction false} ConcatInjective(a: seq<string>, b: seq<string>, n: nat)
    requires n > 0 && AllOfLength(a, n) && AllOfLength(b, n) && Concat(a) == Concat(b)
    ensures a == b
  {
    assert (a != [] ==> |Concat(a)| >= n) && (b != [] ==> |Concat(b)| >= n);
    if a != [] && b != [] {
      assert a[0] == Concat(a)[..n] && b[0] == Concat(b)[..n];
      assert Concat(a[1..]) == Concat(a)[n..] && Concat(b[1..]) == Concat(b)[n..];
      ConcatInjective(a[1..], b[1..], n);
      assert a == [a[0]] + a[1..] && b == [b[0]] + b[1..];
    }
  }
}
