/** Splitting a test suite into shards. */
module TestShards {
  import opened Counting
  import opened Powers

  datatype Mark = UniqueShard | ShardGroup(name: string) | OtherMark

  datatype Item = Item(id: int, marks: seq<Mark>)

  datatype Place = Alone | Grouped(name: string) | Anywhere

  /** The first of the two special markers decides. */
  function PlaceOf(marks: seq<Mark>): Place {
    if marks == [] then Anywhere
    else match marks[0]
      case UniqueShard => Alone
      case ShardGroup(name) => Grouped(name)
      case OtherMark => PlaceOf(marks[1..])
  }

  /** The three collections; groups are kept in the order their names first appear. */
  datatype Split = Split(unique: seq<Item>, names: seq<string>, groups: map<string, seq<Item>>, rest: seq<Item>)

  ghost predicate WellFormed(s: Split) {
    && (forall i :: 0 <= i < |s.names| ==> s.names[i] in s.groups)
    && (forall n :: n in s.groups ==> n in s.names)
    && (forall i, j :: 0 <= i < j < |s.names| ==> s.names[i] != s.names[j])
    && (forall n :: n in s.groups ==> s.groups[n] != [])
  }

  function Add(s: Split, item: Item): Split {
    match PlaceOf(item.marks)
    case Alone => s.(unique := s.unique + [item])
    case Grouped(n) =>
      if n in s.groups then s.(groups := s.groups[n := s.groups[n] + [item]])
      else s.(names := s.names + [n], groups := s.groups[n := [item]])
    case Anywhere => s.(rest := s.rest + [item])
  }

  function SplitItems(items: seq<Item>): Split {
    if items == [] then Split([], [], map[], [])
    else Add(SplitItems(items[..|items| - 1]), items[|items| - 1])
  }

  /** Every n-th element from position k: the slice [k::n]. */
  function Stride<T>(s: seq<T>, k: nat, n: nat): seq<T>
    requires n >= 1
    decreases |s| - k
  {
    if k < |s| then [s[k]] + Stride(s, k + n, n) else []
  }

  datatype Outcome = Items(items: seq<Item>) | NotEnoughShards

  function ShardOf(s: Split, shard: nat, num: nat): Outcome
    requires WellFormed(s)
  {
    var u, g := |s.unique|, |s.names|;
    if u + g + 1 > num then NotEnoughShards
    else if shard < u then Items([s.unique[shard]])
    else if shard - u < g then Items(s.groups[s.names[shard - u]])
    else Items(Stride(s.rest, shard - u - g, num - u - g))
  }

  /** The inner loop over a test's markers. */
  method FindPlace(marks: seq<Mark>) returns (place: Place)
    ensures place == PlaceOf(marks)
  {
    for m := 0 to |marks|
      invariant PlaceOf(marks) == PlaceOf(marks[m..])
    {
      if marks[m].UniqueShard? {
        return Alone;
      } else if marks[m].ShardGroup? {
        return Grouped(marks[m].name);
      }
    }
    return Anywhere;
  }

  /** The loop that fills the three collections. */
  method SplitSuite(items: seq<Item>)
    returns (unique: seq<Item>, names: seq<string>, groups: map<string, seq<Item>>, rest: seq<Item>)
    ensures Split(unique, names, groups, rest) == SplitItems(items)
  {
    hide PlaceOf;
    unique, names, groups, rest := [], [], map[], [];
    for i := 0 to |items|
      invariant Split(unique, names, groups, rest) == SplitItems(items[..i])
    {
      var item := items[i];
      assert items[..i + 1][..i] == items[..i];
      var place := FindPlace(item.marks);
      match place
      case Alone => unique := unique + [item];
      case Grouped(n) =>
        if n !in groups {
          names, groups := names + [n], groups[n := [item]];
        } else {
          groups := groups[n := groups[n] + [item]];
        }
      case Anywhere => rest := rest + [item];
    }
    assert items[..|items|] == items;
  }

  /** The filter: the descent through the three ranges of shard numbers. */
  method FilterByShard(items: seq<Item>, shardId: nat, num: nat) returns (r: Outcome)
    ensures WellFormed(SplitItems(items)) && r == ShardOf(SplitItems(items), shardId, num)
  {
    hide SplitItems, Stride;
    var unique, names, groups, rest := SplitSuite(items);
    SplitWellFormed(items);
    if |unique| + |names| + 1 > num {
      return NotEnoughShards;
    }
    if shardId < |unique| {
      return Items([unique[shardId]]);
    }
    var shard := shardId - |unique|;
    if shard < |names| {
      return Items(groups[names[shard]]);
    }
    shard := shard - |names|;
    return Items(Stride(rest, shard, num - |unique| - |names|));
  }

  // ---------- Which marker decides

  /** The mark at i is the first one that is not an ordinary one. */
  ghost predicate FirstSpecial(marks: seq<Mark>, i: nat)
    requires i < |marks|
  {
    !marks[i].OtherMark? && forall j :: 0 <= j < i ==> marks[j].OtherMark?
  }

  /** The place a special mark asks for. */
  ghost predicate AsksFor(m: Mark, p: Place) {
    (m.UniqueShard? && p == Alone) || (m.ShardGroup? && p == Grouped(m.name))
  }

  /** A test has a place of its own exactly when its first special mark asks for it, whatever ordinary marks stand
      before it; it may go anywhere exactly when all its marks are ordinary. */
  lemma {:induction false} PlaceExactly(marks: seq<Mark>, p: Place)
    ensures p != Anywhere ==>
              (PlaceOf(marks) == p <==> exists i :: 0 <= i < |marks| && FirstSpecial(marks, i) && AsksFor(marks[i], p))
    ensures PlaceOf(marks) == Anywhere <==> forall i :: 0 <= i < |marks| ==> marks[i].OtherMark?
  {
    if marks == [] {
    } else if marks[0].OtherMark? {
      PlaceExactly(marks[1..], p);
      OrdinaryFirst(marks, p);
    } else {
      assert FirstSpecial(marks, 0);
    }
  }

  lemma OrdinaryFirst(marks: seq<Mark>, p: Place)
    requires marks != [] && marks[0].OtherMark?
    ensures (exists i :: 0 <= i < |marks| && FirstSpecial(marks, i) && AsksFor(marks[i], p)) <==>
            (exists i :: 0 <= i < |marks[1..]| && FirstSpecial(marks[1..], i) && AsksFor(marks[1..][i], p))
    ensures (forall i :: 0 <= i < |marks| ==> marks[i].OtherMark?) <==>
            (forall i :: 0 <= i < |marks[1..]| ==> marks[1..][i].OtherMark?)
  {
    var rest := marks[1..];
    assert forall i :: 0 < i < |marks| ==> marks[i] == rest[i - 1];
    if i :| 0 <= i < |marks| && FirstSpecial(marks, i) && AsksFor(marks[i], p) {
      assert FirstSpecial(rest, i - 1) && AsksFor(rest[i - 1], p);
    }
    if i :| 0 <= i < |rest| && FirstSpecial(rest, i) && AsksFor(rest[i], p) {
      assert FirstSpecial(marks, i + 1) && AsksFor(marks[i + 1], p);
    }
  }

  // ---------- The collections

  lemma {:induction false} AddWellFormed(s: Split, item: Item)
    requires WellFormed(s)
    ensures WellFormed(Add(s, item))
  {
    hide PlaceOf;
  }

  lemma {:induction false} SplitWellFormed(items: seq<Item>)
    ensures WellFormed(SplitItems(items))
    decreases |items|
  {
    hide WellFormed, Add;
    if items == [] {
      EmptyWellFormed();
    } else {
      SplitWellFormed(items[..|items| - 1]);
      AddWellFormed(SplitItems(items[..|items| - 1]), items[|items| - 1]);
    }
  }

  lemma EmptyWellFormed()
    ensures WellFormed(Split([], [], map[], []))
  {
  }

  /** The tests of a kind, in suite order. */
  function Select(items: seq<Item>, p: Place): seq<Item> {
    if items == [] then []
    else
      var last := items[|items| - 1];
      Select(items[..|items| - 1], p) + (if PlaceOf(last.marks) == p then [last] else [])
  }

  /** Each collection is exactly the tests of its kind, in suite order. */
  lemma {:induction false} SplitSelects(items: seq<Item>)
    ensures var s := SplitItems(items);
            && s.unique == Select(items, Alone) && s.rest == Select(items, Anywhere)
            && (forall n :: n in s.groups ==> s.groups[n] == Select(items, Grouped(n)))
            && (forall n :: n !in s.groups ==> Select(items, Grouped(n)) == [])
    decreases |items|
  {
    if items == [] {
    } else {
      hide PlaceOf, Select, SplitItems;
      SplitSelects(items[..|items| - 1]);
      forall p { SelectOneMore(items, p); }
      SplitOneMore(items);
    }
  }

  lemma SelectOneMore(items: seq<Item>, p: Place)
    requires items != []
    ensures var init, last := items[..|items| - 1], items[|items| - 1];
      Select(items, p) == if PlaceOf(last.marks) == p then Select(init, p) + [last] else Select(init, p)
  {
    hide PlaceOf;
    var init := items[..|items| - 1];
    assert Select(init, p) + [] == Select(init, p);
  }

  lemma SplitOneMore(items: seq<Item>)
    requires items != []
    ensures SplitItems(items) == Add(SplitItems(items[..|items| - 1]), items[|items| - 1])
  {
    hide Add;
  }

  function HavePlace(items: seq<Item>, p: Place): (r: seq<bool>)
    ensures |r| == |items| && forall i :: 0 <= i < |items| ==> (r[i] <==> PlaceOf(items[i].marks) == p)
  {
    seq(|items|, i requires 0 <= i < |items| => PlaceOf(items[i].marks) == p)
  }

  /** A selection takes exactly the tests of its place, each at its position in the suite. */
  lemma {:induction false} SelectInOrder(items: seq<Item>, p: Place) returns (at: seq<nat>)
    ensures Filters(items, HavePlace(items, p), at, Select(items, p))
    decreases |items|
  {
    hide PlaceOf, Filters;
    if items == [] {
      at := [];
      FiltersNothing<Item>();
    } else {
      var n := |items| - 1;
      var init, last := items[..n], items[n];
      var before := SelectInOrder(init, p);
      assert items == init + [last];
      assert HavePlace(items, p) == HavePlace(init, p) + [PlaceOf(last.marks) == p];
      SelectOneMore(items, p);
      at := FiltersOneMore(init, HavePlace(init, p), before, Select(init, p), last, PlaceOf(last.marks) == p);
    }
  }

  // ---------- Strides

  /** Appending an element lengthens exactly the stride whose turn it is. */
  lemma {:induction false} StrideAppend<T>(s: seq<T>, x: T, k: nat, n: nat)
    requires n >= 1
    ensures Stride(s + [x], k, n) == Stride(s, k, n) + (if k <= |s| && (|s| - k) % n == 0 then [x] else [])
    decreases |s| - k
  {
    if k < |s| {
      StrideAppend(s, x, k + n, n);
      if k + n <= |s| {
        DropOnePeriod(|s| - k, n);
      } else {
        DivModUnique(|s| - k, n, 0, |s| - k);
      }
    }
  }

  lemma DropOnePeriod(d: nat, n: nat)
    requires 1 <= n <= d
    ensures (d - n) % n == d % n
  {
    var q, r := d / n, d % n;
    assert d - n == (q - 1) * n + r by { assert (q - 1) * n == q * n - n; }
    DivModUnique(d - n, n, q - 1, r);
  }

  lemma TurnIsRemainder(len: nat, k: nat, n: nat)
    requires k < n
    ensures k <= len && (len - k) % n == 0 <==> k == len % n
  {
    var q, r := len / n, len % n;
    assert len == q * n + r;
    if r >= k {
      DivModUnique(len - k, n, q, r - k);
    } else if k <= len {
      assert (q - 1) * n == q * n - n;
      DivModUnique(len - k, n, q - 1, r - k + n);
    }
  }

  /** How often x occurs in the first m strides together. */
  ghost function StridesOccurs<T>(s: seq<T>, n: nat, m: nat, x: T): nat
    requires n >= 1
  {
    if m == 0 then 0 else StridesOccurs(s, n, m - 1, x) + Occurs(Stride(s, m - 1, n), x)
  }

  lemma {:induction false} StridesOccursAppend<T>(s: seq<T>, y: T, n: nat, m: nat, x: T)
    requires n >= 1 && m <= n
    ensures StridesOccurs(s + [y], n, m, x) == StridesOccurs(s, n, m, x) + (if |s| % n < m && y == x then 1 else 0)
  {
    hide Stride, Occurs;
    if m == 0 {
    } else {
      StridesOccursAppend(s, y, n, m - 1, x);
      StrideAppend(s, y, m - 1, n);
      TurnIsRemainder(|s|, m - 1, n);
      var stride := Stride(s, m - 1, n);
      OccursSnoc(stride, y, x);
      assert stride + [] == stride;
    }
  }

  lemma {:induction false} StridesOfNothing<T>(n: nat, m: nat, x: T)
    requires n >= 1
    ensures StridesOccurs([], n, m, x) == 0
  {
    if m == 0 {
    } else {
      StridesOfNothing(n, m - 1, x);
    }
  }

  /** The n strides of a sequence hold each of its elements exactly as often as it does. */
  lemma {:induction false} StridesPartition<T>(s: seq<T>, n: nat, x: T)
    requires n >= 1
    ensures StridesOccurs(s, n, n, x) == Occurs(s, x)
    decreases |s|
  {
    hide Stride;
    if s == [] {
      StridesOfNothing(n, n, x);
    } else {
      var init, last := s[..|s| - 1], s[|s| - 1];
      StridesPartition(init, n, x);
      StridesOccursAppend(init, last, n, n, x);
      OccursSnoc(init, last, x);
      assert s == init + [last];
    }
  }

  /** The length of a stride; the strides of a sequence differ by at most one, earlier ones being longer. */
  lemma {:induction false} StrideLength<T>(s: seq<T>, k: nat, n: nat)
    requires k < n
    ensures |Stride(s, k, n)| == |s| / n + (if k < |s| % n then 1 else 0)
    decreases |s|
  {
    if s == [] {
      DivModUnique(0, n, 0, 0);
    } else {
      var init, last := s[..|s| - 1], s[|s| - 1];
      StrideLength(init, k, n);
      StrideAppend(init, last, k, n);
      TurnIsRemainder(|init|, k, n);
      assert s == init + [last];
      NextQuotient(|init|, n);
    }
  }

  /** A stride takes the elements at k, k + n, k + 2n and so on, in order. */
  lemma {:induction false} StrideAt<T>(s: seq<T>, k: nat, n: nat, i: nat)
    requires n >= 1 && i < |Stride(s, k, n)|
    ensures 0 <= k + i * n < |s| && Stride(s, k, n)[i] == s[k + i * n]
    decreases i
  {
    if i == 0 {
    } else {
      StrideAt(s, k + n, n, i - 1);
      assert k + n + (i - 1) * n == k + i * n;
    }
  }

  /** A stride goes as far as the sequence does. */
  lemma {:induction false} StrideReaches<T>(s: seq<T>, k: nat, n: nat, i: nat)
    requires n >= 1
    ensures i < |Stride(s, k, n)| <==> k + i * n < |s|
    decreases i
  {
    if i == 0 {
    } else {
      StrideReaches(s, k + n, n, i - 1);
      assert k + n + (i - 1) * n == k + i * n;
      assert k <= k + i * n by { assert i * n >= 0; }
    }
  }

  lemma NextQuotient(m: nat, n: nat)
    requires n >= 1
    ensures (m + 1) / n == m / n + (if m % n == n - 1 then 1 else 0)
    ensures (m + 1) % n == if m % n == n - 1 then 0 else m % n + 1
  {
    var q, r := m / n, m % n;
    assert m == q * n + r;
    if r == n - 1 {
      assert (q + 1) * n == q * n + n;
      DivModUnique(m + 1, n, q + 1, 0);
    } else {
      DivModUnique(m + 1, n, q, r + 1);
    }
  }

  // ---------- Partition

  ghost function GroupsOccurs(groups: map<string, seq<Item>>, names: seq<string>, x: Item): nat
    requires forall i :: 0 <= i < |names| ==> names[i] in groups
  {
    if names == [] then 0
    else GroupsOccurs(groups, names[..|names| - 1], x) + Occurs(groups[names[|names| - 1]], x)
  }

  lemma {:induction false} GroupsOccursAfter(groups: map<string, seq<Item>>, names: seq<string>, n: string,
                                             g: seq<Item>, y: Item, x: Item)
    requires forall i :: 0 <= i < |names| ==> names[i] in groups
    requires forall i, j :: 0 <= i < j < |names| ==> names[i] != names[j]
    requires n in groups ==> g == groups[n] + [y]
    ensures GroupsOccurs(groups[n := g], names, x) ==
            GroupsOccurs(groups, names, x) + (if n in names && y == x then 1 else 0)
    decreases |names|
  {
    hide Occurs;
    if names == [] {
    } else {
      var init, last := names[..|names| - 1], names[|names| - 1];
      GroupsOccursAfter(groups, init, n, g, y, x);
      assert names == init + [last];
      if last == n { OccursSnoc(groups[n], y, x); }
    }
  }

  ghost function SplitOccurs(s: Split, x: Item): nat
    requires WellFormed(s)
  {
    Occurs(s.unique, x) + GroupsOccurs(s.groups, s.names, x) + Occurs(s.rest, x)
  }

  lemma {:induction false} AddConserves(s: Split, item: Item, x: Item)
    requires WellFormed(s)
    ensures WellFormed(Add(s, item)) && SplitOccurs(Add(s, item), x) == SplitOccurs(s, x) + (if item == x then 1 else 0)
  {
    hide PlaceOf, Occurs, GroupsOccurs;
    AddWellFormed(s, item);
    match PlaceOf(item.marks)
    case Alone => OccursSnoc(s.unique, item, x);
    case Anywhere => OccursSnoc(s.rest, item, x);
    case Grouped(n) => AddToGroup(s, n, item, x);
  }

  lemma {:induction false} AddToGroup(s: Split, n: string, item: Item, x: Item)
    requires WellFormed(s) && WellFormed(Add(s, item)) && PlaceOf(item.marks) == Grouped(n)
    ensures var t := Add(s, item);
            GroupsOccurs(t.groups, t.names, x) == GroupsOccurs(s.groups, s.names, x) + (if item == x then 1 else 0)
  {
    hide PlaceOf, Occurs, GroupsOccurs;
    if n in s.groups {
      GroupsOccursAfter(s.groups, s.names, n, s.groups[n] + [item], item, x);
    } else {
      NewGroup(s, n, item, x);
    }
  }

  lemma {:induction false} NewGroup(s: Split, n: string, item: Item, x: Item)
    requires WellFormed(s) && n !in s.groups
    ensures GroupsOccurs(s.groups[n := [item]], s.names + [n], x) ==
            GroupsOccurs(s.groups, s.names, x) + (if item == x then 1 else 0)
  {
    hide Occurs;
    GroupsOccursAfter(s.groups, s.names, n, [item], item, x);
    assert (s.names + [n])[..|s.names|] == s.names;
    assert Occurs([item], x) == if item == x then 1 else 0 by { OccursSingle(item, x); }
  }

  lemma {:induction false} SplitConserves(items: seq<Item>, x: Item)
    ensures WellFormed(SplitItems(items)) && SplitOccurs(SplitItems(items), x) == Occurs(items, x)
    decreases |items|
  {
    hide Add, SplitOccurs, WellFormed, Occurs;
    if items == [] {
      EmptyOccurs(x);
    } else {
      var init, last := items[..|items| - 1], items[|items| - 1];
      SplitConserves(init, x);
      AddConserves(SplitItems(init), last, x);
      OccursSnoc(init, last, x);
      assert items == init + [last];
    }
  }

  lemma EmptyOccurs(x: Item)
    ensures var s := Split([], [], map[], []); WellFormed(s) && SplitOccurs(s, x) == 0
    ensures Occurs<Item>([], x) == 0
  {
  }

  /** How often a test occurs in the first m shards together. */
  ghost function ShardsOccurs(s: Split, num: nat, m: nat, x: Item): nat
    requires WellFormed(s) && |s.unique| + |s.names| + 1 <= num
  {
    if m == 0 then 0 else ShardsOccurs(s, num, m - 1, x) + Occurs(ShardOf(s, m - 1, num).items, x)
  }

  lemma {:induction false} OccursInUnique(s: Split, num: nat, m: nat, x: Item)
    requires WellFormed(s) && |s.unique| + |s.names| + 1 <= num && m <= |s.unique|
    ensures ShardsOccurs(s, num, m, x) == Occurs(s.unique[..m], x)
  {
    hide WellFormed, Stride, Occurs;
    OccursNothing(x);
    if m > 0 {
      OccursInUnique(s, num, m - 1, x);
      var y := s.unique[m - 1];
      assert s.unique[..m] == s.unique[..m - 1] + [y];
      OccursSnoc(s.unique[..m - 1], y, x);
      OccursSingle(y, x);
    } else {
      assert s.unique[..0] == [];
    }
  }

  lemma {:induction false} OccursInGroups(s: Split, num: nat, m: nat, x: Item)
    requires WellFormed(s) && |s.unique| + |s.names| + 1 <= num && m <= |s.names|
    ensures ShardsOccurs(s, num, |s.unique| + m, x) == Occurs(s.unique, x) + GroupsOccurs(s.groups, s.names[..m], x)
  {
    hide Stride, Occurs;
    if m > 0 {
      OccursInGroups(s, num, m - 1, x);
      assert s.names[..m][..m - 1] == s.names[..m - 1];
    } else {
      OccursInUnique(s, num, |s.unique|, x);
      assert s.unique[..|s.unique|] == s.unique;
    }
  }

  lemma {:induction false} OccursInRest(s: Split, num: nat, m: nat, x: Item)
    requires WellFormed(s) && |s.unique| + |s.names| + 1 <= num
    ensures ShardsOccurs(s, num, |s.unique| + |s.names| + m, x) ==
            Occurs(s.unique, x) + GroupsOccurs(s.groups, s.names, x) +
            StridesOccurs(s.rest, num - |s.unique| - |s.names|, m, x)
  {
    hide Stride, Occurs, GroupsOccurs;
    if m > 0 {
      OccursInRest(s, num, m - 1, x);
    } else {
      OccursInGroups(s, num, |s.names|, x);
      assert s.names[..|s.names|] == s.names;
    }
  }

  /** With enough shards, the shards together hold every test exactly as often as the suite does: once. */
  lemma {:induction false} ShardsPartition(items: seq<Item>, num: nat, x: Item)
    requires WellFormed(SplitItems(items)) && |SplitItems(items).unique| + |SplitItems(items).names| + 1 <= num
    ensures ShardsOccurs(SplitItems(items), num, num, x) == multiset(items)[x]
  {
    hide ShardsOccurs, GroupsOccurs, StridesOccurs, SplitItems;
    var s := SplitItems(items);
    var n := num - |s.unique| - |s.names|;
    OccursInRest(s, num, n, x);
    StridesPartition(s.rest, n, x);
    SplitConserves(items, x);
  }

  // ---------- Special markers and balance

  lemma {:induction false} SpecialShardsSelect(items: seq<Item>, num: nat, shard: nat)
    requires WellFormed(SplitItems(items))
    requires var s := SplitItems(items); |s.unique| + |s.names| + 1 <= num && shard < |s.unique| + |s.names|
    ensures var s, r := SplitItems(items), ShardOf(SplitItems(items), shard, num);
            && |s.unique| == |Select(items, Alone)|
            && (shard < |s.unique| ==> r == Items([Select(items, Alone)[shard]]))
            && (shard >= |s.unique| ==> r == Items(Select(items, Grouped(s.names[shard - |s.unique|]))))
  {
    hide SplitItems;
    SplitSelects(items);
  }

  lemma {:induction false} SelectHas(items: seq<Item>, p: Place, x: Item)
    ensures x in Select(items, p) <==> x in items && PlaceOf(x.marks) == p
    decreases |items|
  {
    hide PlaceOf;
    if items == [] {
    } else {
      var init, last := items[..|items| - 1], items[|items| - 1];
      SelectHas(init, p, x);
      assert items == init + [last];
    }
  }

  /** The suite's numbers of dedicated shards leave one to spare. */
  ghost predicate EnoughShards(items: seq<Item>, num: nat) {
    |SplitItems(items).unique| + |SplitItems(items).names| + 1 <= num
  }

  /** The positions of the tests that want a shard of their own. */
  ghost function UniqueTests(items: seq<Item>): set<int> {
    set i | 0 <= i < |items| && PlaceOf(items[i].marks) == Alone
  }

  /** The names of the groups that some test belongs to. */
  ghost function GroupNames(items: seq<Item>): set<string> {
    set i | 0 <= i < |items| && PlaceOf(items[i].marks).Grouped? :: PlaceOf(items[i].marks).name
  }

  /** There is one dedicated shard for each unique test and one for each group name. */
  lemma {:induction false} DedicatedShards(items: seq<Item>)
    ensures |SplitItems(items).unique| == |UniqueTests(items)|
    ensures |SplitItems(items).names| == |GroupNames(items)| && SplitItems(items).groups.Keys == GroupNames(items)
    decreases |items|
  {
    if items == [] {
      assert UniqueTests(items) == {} && GroupNames(items) == {};
    } else {
      DedicatedShards(items[..|items| - 1]);
      UniqueTestsOfLast(items);
      GroupNamesOfLast(items);
      hide PlaceOf, UniqueTests, GroupNames;
    }
  }

  lemma UniqueTestsOfLast(items: seq<Item>)
    requires items != []
    ensures |UniqueTests(items)| ==
              |UniqueTests(items[..|items| - 1])| + if PlaceOf(items[|items| - 1].marks) == Alone then 1 else 0
  {
    hide PlaceOf;
    var init, last := items[..|items| - 1], items[|items| - 1];
    assert UniqueTests(items) == UniqueTests(init) + if PlaceOf(last.marks) == Alone then {|init|} else {};
  }

  lemma GroupNamesOfLast(items: seq<Item>)
    requires items != []
    ensures var init, p := items[..|items| - 1], PlaceOf(items[|items| - 1].marks);
            GroupNames(items) == GroupNames(init) + if p.Grouped? then {p.name} else {}
  {
    hide PlaceOf;
    var init, p := items[..|items| - 1], PlaceOf(items[|items| - 1].marks);
    forall n | n in GroupNames(items) ensures n in GroupNames(init) || (p.Grouped? && n == p.name) {
      var i :| 0 <= i < |items| && PlaceOf(items[i].marks).Grouped? && PlaceOf(items[i].marks).name == n;
      if i < |init| {
        assert init[i] == items[i];
      }
    }
    forall n | n in GroupNames(init) ensures n in GroupNames(items) {
      var i :| 0 <= i < |init| && PlaceOf(init[i].marks).Grouped? && PlaceOf(init[i].marks).name == n;
      assert init[i] == items[i];
    }
  }

  /** A suite is refused, in every shard, exactly when its unique tests and group names leave no shard to spare. */
  lemma RefusedExactly(items: seq<Item>, shard: nat, num: nat)
    ensures WellFormed(SplitItems(items))
    ensures ShardOf(SplitItems(items), shard, num) == NotEnoughShards <==>
              num <= |UniqueTests(items)| + |GroupNames(items)|
    ensures EnoughShards(items, num) <==> |UniqueTests(items)| + |GroupNames(items)| < num
  {
    hide SplitItems, WellFormed;
    SplitWellFormed(items);
    DedicatedShards(items);
  }

  /** What a shard runs. */
  ghost function Shard(items: seq<Item>, num: nat, shard: nat): seq<Item>
    requires EnoughShards(items, num)
  {
    SplitWellFormed(items);
    ShardOf(SplitItems(items), shard, num).items
  }

  /** Which of the three ranges a shard number is in decides which tests it may hold. */
  lemma ShardHolds(items: seq<Item>, num: nat, shard: nat, x: Item)
    requires EnoughShards(items, num) && x in Shard(items, num, shard)
    ensures var s := SplitItems(items);
      && x in items
      && (PlaceOf(x.marks) == Alone <==> shard < |s.unique|)
      && (PlaceOf(x.marks) == Anywhere <==> shard >= |s.unique| + |s.names|)
      && (|s.unique| <= shard < |s.unique| + |s.names| ==> PlaceOf(x.marks) == Grouped(s.names[shard - |s.unique|]))
  {
    hide PlaceOf, Select, SplitItems, Stride;
    SplitWellFormed(items);
    SplitSelects(items);
    var s := SplitItems(items);
    SelectHas(items, Alone, x);
    SelectHas(items, Anywhere, x);
    if shard < |s.unique| {
    } else if shard < |s.unique| + |s.names| {
      SelectHas(items, Grouped(s.names[shard - |s.unique|]), x);
    } else {
      StrideHas(s.rest, shard - |s.unique| - |s.names|, num - |s.unique| - |s.names|, x);
    }
  }

  lemma {:induction false} StrideHas<T>(s: seq<T>, k: nat, n: nat, x: T)
    requires n >= 1 && x in Stride(s, k, n)
    ensures x in s
    decreases |s| - k
  {
    if x != s[k] { StrideHas(s, k + n, n, x); }
  }

  /** A test whose first special mark is the unique one is alone in every shard that holds it. */
  lemma UniqueIsAlone(items: seq<Item>, num: nat, shard: nat, x: Item, i: nat)
    requires EnoughShards(items, num) && x in Shard(items, num, shard)
    requires i < |x.marks| && FirstSpecial(x.marks, i) && x.marks[i].UniqueShard?
    ensures Shard(items, num, shard) == [x]
  {
    hide SplitItems, Stride;
    PlaceExactly(x.marks, Alone);
    ShardHolds(items, num, shard, x);
  }

  /** Two tests of the suite share a shard dedicated to a group exactly when their first special marks name the same
      group: the shard of one holds the other. */
  lemma GroupIsTogether(items: seq<Item>, num: nat, shard: nat, x: Item, y: Item, i: nat)
    requires EnoughShards(items, num) && x in Shard(items, num, shard) && y in items
    requires i < |x.marks| && FirstSpecial(x.marks, i) && x.marks[i].ShardGroup?
    ensures y in Shard(items, num, shard) <==>
            exists j :: 0 <= j < |y.marks| && FirstSpecial(y.marks, j) && y.marks[j] == x.marks[i]
  {
    var n := x.marks[i].name;
    var place := Grouped(n);
    PlaceExactly(x.marks, place);
    PlaceExactly(y.marks, place);
    ShardHolds(items, num, shard, x);
    SplitWellFormed(items);
    SpecialShardsSelect(items, num, shard);
    SelectHas(items, place, y);
    hide PlaceOf, Select, SplitItems, Stride;
    assert y in Shard(items, num, shard) <==> PlaceOf(y.marks) == place;
    NamesGroup(y.marks, n);
    assert x.marks[i] == ShardGroup(n);
  }

  lemma NamesGroup(marks: seq<Mark>, n: string)
    ensures PlaceOf(marks) == Grouped(n) <==>
            exists j :: 0 <= j < |marks| && FirstSpecial(marks, j) && marks[j] == ShardGroup(n)
  {
    PlaceExactly(marks, Grouped(n));
    hide PlaceOf;
    if j :| 0 <= j < |marks| && FirstSpecial(marks, j) && AsksFor(marks[j], Grouped(n)) {
      assert marks[j] == ShardGroup(n);
    }
    if j :| 0 <= j < |marks| && FirstSpecial(marks, j) && marks[j] == ShardGroup(n) {
      assert AsksFor(marks[j], Grouped(n));
    }
  }

  /** No shard of the first m holds x exactly when it does not occur in them. */
  lemma {:induction false} HeldNowhere(s: Split, num: nat, m: nat, x: Item)
    requires WellFormed(s) && |s.unique| + |s.names| + 1 <= num
    ensures ShardsOccurs(s, num, m, x) == 0 <==> forall i :: 0 <= i < m ==> x !in ShardOf(s, i, num).items
  {
    hide Stride, Occurs;
    if m == 0 {
    } else {
      HeldNowhere(s, num, m - 1, x);
      OccursIn(ShardOf(s, m - 1, num).items, x);
    }
  }

  lemma {:induction false} HeldOnce(s: Split, num: nat, m: nat, x: Item) returns (shard: nat)
    requires WellFormed(s) && |s.unique| + |s.names| + 1 <= num && ShardsOccurs(s, num, m, x) == 1
    ensures shard < m && x in ShardOf(s, shard, num).items
    ensures forall i :: 0 <= i < m && i != shard ==> x !in ShardOf(s, i, num).items
  {
    hide Stride, Occurs;
    OccursIn(ShardOf(s, m - 1, num).items, x);
    if x in ShardOf(s, m - 1, num).items {
      shard := m - 1;
      HeldNowhere(s, num, m - 1, x);
    } else {
      shard := HeldOnce(s, num, m - 1, x);
    }
  }

  /** Every test is in exactly one shard; if its first special mark is the unique one it is alone there, and if that
      mark names a group the shard holds exactly the tests whose first special mark names the same group. */
  lemma SpecialShards(items: seq<Item>, num: nat, x: Item, i: nat) returns (shard: nat)
    requires EnoughShards(items, num) && multiset(items)[x] == 1 && i < |x.marks| && FirstSpecial(x.marks, i)
    ensures shard < num && x in Shard(items, num, shard)
    ensures forall other :: 0 <= other < num && other != shard ==> x !in Shard(items, num, other)
    ensures x.marks[i].UniqueShard? ==> Shard(items, num, shard) == [x]
    ensures x.marks[i].ShardGroup? ==> forall y :: y in items ==>
              (y in Shard(items, num, shard) <==>
                 exists j :: 0 <= j < |y.marks| && FirstSpecial(y.marks, j) && y.marks[j] == x.marks[i])
  {
    hide ShardOf, ShardsOccurs, SplitItems, FirstSpecial;
    SplitWellFormed(items);
    ShardsPartition(items, num, x);
    shard := HeldOnce(SplitItems(items), num, num, x);
    if x.marks[i].UniqueShard? {
      UniqueIsAlone(items, num, shard, x, i);
    } else if x.marks[i].ShardGroup? {
      forall y | y in items
        ensures y in Shard(items, num, shard) <==>
                exists j :: 0 <= j < |y.marks| && FirstSpecial(y.marks, j) && y.marks[j] == x.marks[i]
      {
        GroupIsTogether(items, num, shard, x, y, i);
      }
    }
  }

  /** The shards that are not dedicated deal the unmarked tests out in turn: the k-th of n such shards runs the unmarked
      tests number k, k + n, k + 2n and so on, in suite order, and no others. */
  lemma RoundRobin(items: seq<Item>, num: nat, shard: nat, i: nat)
    requires EnoughShards(items, num) && shard >= |UniqueTests(items)| + |GroupNames(items)|
    ensures var dedicated := |UniqueTests(items)| + |GroupNames(items)|;
      var unmarked, runs := Select(items, Anywhere), Shard(items, num, shard);
      var at := shard - dedicated + i * (num - dedicated);
      && (i < |runs| <==> at < |unmarked|)
      && (0 <= at < |unmarked| ==> i < |runs| && runs[i] == unmarked[at])
  {
    hide SplitItems, Stride, Select, UniqueTests, GroupNames;
    RefusedExactly(items, shard, num);
    DedicatedShards(items);
    SplitSelects(items);
    var s := SplitItems(items);
    var k, n := shard - |s.unique| - |s.names|, num - |s.unique| - |s.names|;
    StrideReaches(s.rest, k, n, i);
    if i < |Stride(s.rest, k, n)| { StrideAt(s.rest, k, n, i); }
  }

  /** The remaining shards differ in size by at most one. */
  lemma {:induction false} RemainingBalanced(s: Split, num: nat, a: nat, b: nat)
    requires WellFormed(s) && |s.unique| + |s.names| + 1 <= num
    requires |s.unique| + |s.names| <= a <= b < num
    ensures |ShardOf(s, b, num).items| <= |ShardOf(s, a, num).items| <= |ShardOf(s, b, num).items| + 1
  {
    hide Stride;
    var u, n := |s.unique| + |s.names|, num - |s.unique| - |s.names|;
    StrideLength(s.rest, a - u, n);
    StrideLength(s.rest, b - u, n);
  }

  /** A shard runs without error and has something to do. */
  ghost predicate Works(s: Split, shard: nat, num: nat)
    requires WellFormed(s)
  {
    ShardOf(s, shard, num).Items? && ShardOf(s, shard, num).items != []
  }

  /** Every shard has work exactly when there is a shard to spare for the rest and the rest fills the spare shards. */
  lemma {:induction false} AllShardsWork(s: Split, num: nat)
    requires WellFormed(s) && num >= 1
    ensures (forall shard :: 0 <= shard < num ==> Works(s, shard, num)) <==>
            |s.unique| + |s.names| + 1 <= num <= |s.unique| + |s.names| + |s.rest|
  {
    var ug := |s.unique| + |s.names|;
    if ug + 1 <= num <= ug + |s.rest| {
      forall shard | 0 <= shard < num ensures Works(s, shard, num) {
      }
    } else if ug + 1 <= num {
      assert !Works(s, num - 1, num);
    } else {
      assert !Works(s, 0, num);
    }
  }

  /** A suite of two tests on two shards need not work: a group of two leaves a shard empty, and two unique tests
      are refused. */
  lemma {:induction false} TwoTestsTwoShards(a: int, b: int)
    ensures var s := SplitItems([Item(a, [ShardGroup("g")]), Item(b, [ShardGroup("g")])]);
            WellFormed(s) && ShardOf(s, 1, 2) == Items([])
    ensures var s := SplitItems([Item(a, [UniqueShard]), Item(b, [UniqueShard])]);
            WellFormed(s) && ShardOf(s, 0, 2) == NotEnoughShards
  {
    var g1, g2 := Item(a, [ShardGroup("g")]), Item(b, [ShardGroup("g")]);
    var u1, u2 := Item(a, [UniqueShard]), Item(b, [UniqueShard]);
    SplitWellFormed([g1, g2]);
    SplitWellFormed([u1, u2]);
    assert [g1, g2][..1] == [g1] && [g1][..0] == [] && [u1, u2][..1] == [u1] && [u1][..0] == [];
    assert SplitItems([]) == Split([], [], map[], []);
    assert SplitItems([g1]) == Split([], ["g"], map["g" := [g1]], []);
    assert SplitItems([g1, g2]) == Split([], ["g"], map["g" := [g1] + [g2]], []);
    assert SplitItems([u1]) == Split([u1], [], map[], []);
    assert SplitItems([u1, u2]) == Split([u1] + [u2], [], map[], []);
  }

  // ---------- The order of the group shards

  /** The first test of a place. */
  ghost predicate FirstOf(items: seq<Item>, i: nat, p: Place)
    requires i < |items|
  {
    PlaceOf(items[i].marks) == p && forall j :: 0 <= j < i ==> PlaceOf(items[j].marks) != p
  }

  /** Group shards come in the order in which the suite first names their groups. */
  lemma {:induction false} GroupsInOrder(items: seq<Item>, a: nat, b: nat, i: nat, j: nat)
    requires var s := SplitItems(items); a < b < |s.names| && i < |items| && j < |items|
    requires var s := SplitItems(items);
      FirstOf(items, i, Grouped(s.names[a])) && FirstOf(items, j, Grouped(s.names[b]))
    ensures i < j
    decreases |items|
  {
    hide PlaceOf;
    var n := |items| - 1;
    var init := items[..n];
    var before, after := SplitItems(init), SplitItems(items);
    assert forall m :: 0 <= m < n ==> init[m] == items[m];
    SplitWellFormed(init);
    NamedEarlier(items, n, before.names[a], i);
    if b < |before.names| {
      NamedEarlier(items, n, before.names[b], j);
      GroupsInOrder(init, a, b, i, j);
    } else {
      FirstIsNew(items, n, after.names[b], j);
    }
  }

  lemma NamedEarlier(items: seq<Item>, n: nat, name: string, i: nat)
    requires n == |items| - 1 && name in SplitItems(items[..n]).names
    requires i < |items| && FirstOf(items, i, Grouped(name))
    ensures i < n && FirstOf(items[..n], i, Grouped(name))
  {
    hide PlaceOf;
    var init := items[..n];
    SplitWellFormed(init);
    SplitSelects(init);
    var x := SplitItems(init).groups[name][0];
    SelectHas(init, Grouped(name), x);
    hide SplitItems, Select;
    var m :| 0 <= m < n && init[m] == x;
    assert items[m] == x;
  }

  lemma FirstIsNew(items: seq<Item>, n: nat, name: string, j: nat)
    requires n == |items| - 1 && name !in SplitItems(items[..n]).names
    requires j < |items| && FirstOf(items, j, Grouped(name))
    ensures j == n
  {
    hide PlaceOf;
    var init := items[..n];
    SplitWellFormed(init);
    SplitSelects(init);
    if j < n {
      assert init[j] == items[j];
      SelectHas(init, Grouped(name), items[j]);
    }
  }
}
