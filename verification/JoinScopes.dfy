/** Nearest enclosing scopes, found in one pass with a stack. */
module JoinScopes {
  import opened ByteStrings
  import opened JoinAttr

  predicate IsVar(d: Die) {
    d.tag == "DW_TAG_variable" || d.tag == "DW_TAG_formal_parameter"
  }

  predicate IsScope(d: Die) {
    d.tag == "DW_TAG_subprogram" || d.tag == "DW_TAG_inlined_subroutine"
  }

  ghost predicate DistinctOffsets(order: seq<Die>) {
    forall i, j :: 0 <= i < j < |order| ==> order[i].off != order[j].off
  }

  // ---------- The tree that depths induce

  /** The last entry before i, at or before j - 1, that is less deep than i. */
  function ParentBelow(order: seq<Die>, i: nat, j: nat): (p: Option<nat>)
    requires j <= i < |order|
    ensures p.Some? ==> p.value < j && order[p.value].depth < order[i].depth
    ensures p.Some? ==> forall m :: p.value < m < j ==> order[m].depth >= order[i].depth
    ensures p.None? ==> forall m :: 0 <= m < j ==> order[m].depth >= order[i].depth
  {
    if j == 0 then None
    else if order[j - 1].depth < order[i].depth then Some(j - 1)
    else ParentBelow(order, i, j - 1)
  }

  /** The parent of entry i: the nearest earlier entry that is less deep. */
  function Parent(order: seq<Die>, i: nat): (p: Option<nat>)
    requires i < |order|
    ensures p.Some? ==> p.value < i
  {
    ParentBelow(order, i, i)
  }

  /** The nearest proper ancestor of entry i that is a scope. */
  function NearestScope(order: seq<Die>, i: nat): (p: Option<nat>)
    requires i < |order|
    ensures p.Some? ==> p.value < i && IsScope(order[p.value])
  {
    var p := Parent(order, i);
    if p.None? then None
    else if IsScope(order[p.value]) then p
    else NearestScope(order, p.value)
  }

  lemma {:induction false} ParentIs(order: seq<Die>, i: nat, p: Option<nat>)
    requires i < |order|
    requires p.Some? ==> p.value < i && order[p.value].depth < order[i].depth
    requires forall m :: (if p.Some? then p.value + 1 else 0) <= m < i ==> order[m].depth >= order[i].depth
    ensures Parent(order, i) == p
  {
    var q := Parent(order, i);
    assert p.Some? ==> order[p.value].depth < order[i].depth;
    assert q.Some? ==> order[q.value].depth < order[i].depth;
  }

  // ---------- The stack

  /** Positions, from the outermost in: each is the parent of the next. */
  ghost predicate Lineage(order: seq<Die>, at: seq<nat>) {
    && (forall q :: 0 <= q < |at| ==> at[q] < |order|)
    && (|at| > 0 ==> Parent(order, at[0]) == None)
    && (forall q :: 0 < q < |at| ==> Parent(order, at[q]) == Some(at[q - 1]))
  }

  /** The stack holds the entries at these positions. */
  ghost predicate Holds(order: seq<Die>, at: seq<nat>, stack: seq<Die>) {
    |stack| == |at| && Lineage(order, at) && forall q :: 0 <= q < |at| ==> stack[q] == order[at[q]]
  }

  /** After popping: what lies between the top and entry i is at least as deep as i. */
  ghost predicate Cleared(order: seq<Die>, at: seq<nat>, i: nat)
    requires i < |order|
  {
    forall m :: (if at == [] then 0 else at[|at| - 1] + 1) <= m < i ==> order[m].depth >= order[i].depth
  }

  /** The innermost scope among the positions. */
  function InnermostScope(order: seq<Die>, at: seq<nat>): (p: Option<nat>)
    requires forall q :: 0 <= q < |at| ==> at[q] < |order|
    ensures p.Some? ==> p.value < |order|
  {
    if at == [] then None
    else if IsScope(order[at[|at| - 1]]) then Some(at[|at| - 1])
    else InnermostScope(order, at[..|at| - 1])
  }

  function Top(at: seq<nat>): Option<nat> {
    if at == [] then None else Some(at[|at| - 1])
  }

  lemma {:induction false} InnermostIsNearest(order: seq<Die>, at: seq<nat>, i: nat)
    requires i < |order| && Lineage(order, at) && Parent(order, i) == Top(at)
    ensures NearestScope(order, i) == InnermostScope(order, at)
    decreases |at|
  {
    if at == [] {
    } else {
      InnermostIsNearest(order, at[..|at| - 1], at[|at| - 1]);
    }
  }

  ghost function DieAt(order: seq<Die>, p: Option<nat>): Option<Die>
    requires p.Some? ==> p.value < |order|
  {
    if p.None? then None else Some(order[p.value])
  }

  /** The inner loop: from the top of the stack down to the first scope. */
  method FindScope(stack: seq<Die>, ghost order: seq<Die>, ghost at: seq<nat>) returns (found: Option<Die>)
    requires Holds(order, at, stack)
    ensures found == DieAt(order, InnermostScope(order, at))
  {
    var q := |stack|;
    assert at[..q] == at;
    while q > 0
      invariant 0 <= q <= |stack|
      invariant InnermostScope(order, at) == InnermostScope(order, at[..q])
    {
      q := q - 1;
      assert at[..q + 1][..q] == at[..q];
      if IsScope(stack[q]) {
        return Some(stack[q]);
      }
    }
    return None;
  }

  /** Popping leaves the ancestors of entry i. */
  method PopTo(order: seq<Die>, i: nat, stack: seq<Die>, ghost at: seq<nat>)
    returns (stack': seq<Die>, ghost at': seq<nat>)
    requires i < |order| && Holds(order, at, stack) && Top(at) == (if i == 0 then None else Some(i - 1))
    ensures Holds(order, at', stack') && Parent(order, i) == Top(at')
  {
    stack', at' := stack, at;
    while stack' != [] && stack'[|stack'| - 1].depth >= order[i].depth
      invariant Holds(order, at', stack') && Cleared(order, at', i)
      invariant at' != [] ==> at'[|at'| - 1] < i
      decreases |stack'|
    {
      ClearedByPop(order, at', i);
      stack', at' := stack'[..|stack'| - 1], at'[..|at'| - 1];
    }
    ParentIs(order, i, Top(at'));
  }

  lemma {:induction false} ClearedByPop(order: seq<Die>, at: seq<nat>, i: nat)
    requires i < |order| && at != [] && Lineage(order, at) && Cleared(order, at, i)
    requires order[at[|at| - 1]].depth >= order[i].depth && at[|at| - 1] < i
    ensures Lineage(order, at[..|at| - 1]) && Cleared(order, at[..|at| - 1], i)
    ensures |at| > 1 ==> at[|at| - 2] < at[|at| - 1]
  {
    var top := at[|at| - 1];
    assert Parent(order, top) == if |at| == 1 then None else Some(at[|at| - 2]);
    forall m | (if |at| == 1 then 0 else at[|at| - 2] + 1) <= m < i ensures order[m].depth >= order[i].depth {
      if m < top {
        assert order[m].depth >= order[top].depth;
      }
    }
  }

  /** The nearest scopes of the variables among the first n entries, by offset. */
  function ScopesUpTo(order: seq<Die>, n: nat): map<Off, Die>
    requires n <= |order|
  {
    if n == 0 then map[] else
    var before, i := ScopesUpTo(order, n - 1), n - 1;
    if IsVar(order[i]) && NearestScope(order, i).Some? then before[order[i].off := order[NearestScope(order, i).value]]
    else before
  }

  /** One pass over the entries gives each variable its nearest enclosing scope in the tree of depths, and nothing
      to anyone else. */
  method EnclosingScopes(order: seq<Die>) returns (out: map<Off, Die>)
    ensures out == ScopesUpTo(order, |order|)
  {
    hide NearestScope, InnermostScope, IsVar, Parent, Lineage;
    var stack: seq<Die> := [];
    ghost var at: seq<nat> := [];
    out := map[];
    EmptyLineage(order);
    for i := 0 to |order|
      invariant Holds(order, at, stack) && Top(at) == if i == 0 then None else Some(i - 1)
      invariant out == ScopesUpTo(order, i)
    {
      stack, at := PopTo(order, i, stack, at);
      if IsVar(order[i]) {
        InnermostIsNearest(order, at, i);
        var scope := FindScope(stack, order, at);
        if scope.Some? {
          out := out[order[i].off := scope.value];
        }
      }
      ExtendLineage(order, at, i);
      stack, at := stack + [order[i]], at + [i];
    }
  }

  lemma EmptyLineage(order: seq<Die>)
    ensures Lineage(order, [])
  {
  }

  lemma {:induction false} ExtendLineage(order: seq<Die>, at: seq<nat>, i: nat)
    requires Lineage(order, at) && i < |order| && Parent(order, i) == Top(at)
    ensures Lineage(order, at + [i])
  {
  }

  /** Read back: entry i has a scope exactly if it is a variable inside one, and then it is the nearest. */
  lemma {:induction false} ScopeOf(order: seq<Die>, n: nat, i: nat)
    requires DistinctOffsets(order) && i < |order| && n <= |order|
    ensures var out := ScopesUpTo(order, n);
            && (order[i].off in out <==> i < n && IsVar(order[i]) && NearestScope(order, i).Some?)
            && (order[i].off in out ==> out[order[i].off] == order[NearestScope(order, i).value])
    decreases n
  {
    hide NearestScope, IsVar;
    if n == 0 {
    } else {
      ScopeOf(order, n - 1, i);
    }
  }

  /** A variable's scope by the tag of its parent: a function or an inlined one is the scope itself; any other parent
      passes on the scope it is in, and a variable without a parent has none. */
  lemma ScopeByParent(order: seq<Die>, i: nat)
    requires DistinctOffsets(order) && i < |order|
    requires order[i].tag in {"DW_TAG_variable", "DW_TAG_formal_parameter"}
    ensures var out, p := ScopesUpTo(order, |order|), Parent(order, i);
      && (p.None? ==> order[i].off !in out)
      && (p.Some? && order[p.value].tag in {"DW_TAG_subprogram", "DW_TAG_inlined_subroutine"} ==>
            order[i].off in out && out[order[i].off] == order[p.value])
      && (p.Some? && order[p.value].tag !in {"DW_TAG_subprogram", "DW_TAG_inlined_subroutine"} ==>
            var q := NearestScope(order, p.value);
            if q.None? then order[i].off !in out else order[i].off in out && out[order[i].off] == order[q.value])
  {
    hide ScopesUpTo, Parent;
    ScopeOf(order, |order|, i);
  }

  /** No other entry has a scope recorded. */
  lemma OnlyVariablesHaveScopes(order: seq<Die>, i: nat)
    requires DistinctOffsets(order) && i < |order|
    ensures order[i].off in ScopesUpTo(order, |order|) ==>
              order[i].tag in {"DW_TAG_variable", "DW_TAG_formal_parameter"}
  {
    hide ScopesUpTo, NearestScope;
    ScopeOf(order, |order|, i);
  }
}
