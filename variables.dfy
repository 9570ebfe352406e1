/**
 * The variable objects of cp_solver/base.py: `Variable`, whose methods update
 * its mask and assignment in place, and the snapshot iterators
 * `DomainIterator` and `DomainEnumerator`. Each mutating method is proved to
 * take the variable's `State()` to the matching function of module Domains.
 */
module Variables {
  import opened Wrappers
  import opened Domains

  class Variable {
    var values: seq<int>
    var visible: seq<bool>
    var assignment: Option<int>

    ghost predicate Valid()
      reads this
    {
      |values| == |visible|
    }

    /** The variable's state as a value. */
    function State(): Domain
      reads this
    {
      Domain(values, visible, assignment)
    }

    constructor (vs: seq<int>)
      ensures Valid() && State() == Fresh(vs)
    {
      values := vs;
      visible := seq(|vs|, _ => true);
      assignment := None;
    }

    method AddValue(v: int)
      requires Valid()
      modifies this
      ensures Valid() && State() == old(State()).WithValue(v)
    {
      values := values + [v];
      visible := visible + [true];
    }

    method Assign(v: int)
      modifies this
      ensures State() == old(State()).Assign(v)
    {
      assignment := Some(v);
    }

    method Unassign()
      modifies this
      ensures State() == old(State()).Unassign()
    {
      assignment := None;
    }

    function IsAssigned(): bool
      reads this
    {
      assignment.Some?
    }

    function AssignedValue(): Option<int>
      reads this
    {
      assignment
    }

    /** `restore_domain`: an index loop that makes every position visible. */
    method RestoreDomain()
      requires Valid()
      modifies this
      ensures Valid() && State() == old(State()).Restored()
    {
      for i := 0 to |visible|
        invariant |visible| == |old(visible)|
        invariant values == old(values) && assignment == old(assignment)
        invariant forall k :: 0 <= k < i ==> visible[k]
        invariant forall k :: i <= k < |visible| ==> visible[k] == old(visible[k])
      {
        visible := visible[i := true];
      }
    }

    function DomainSize(): nat
      reads this
      requires Valid()
    {
      State().Size()
    }

    function InDomain(v: int): bool
      reads this
      requires Valid()
    {
      State().InDomain(v)
    }

    function InDomainIndex(i: nat): bool
      reads this
      requires Valid() && i < |values|
    {
      State().InDomainAt(i)
    }

    /**
     * `prune(v, unprune)`: sets the mask entry at the first position of `v`.
     * `found` is false where `list.index` raises ValueError; nothing changes then.
     */
    method Prune(v: int, unprune: bool) returns (found: bool)
      requires Valid()
      modifies this
      ensures Valid()
      ensures found <==> v in old(values)
      ensures found ==> State() == old(State()).PruneValue(v, unprune).value
      ensures !found ==> State() == old(State())
    {
      var i := FirstIndex(values, v);
      if i.None? {
        return false;
      }
      visible := visible[i.value := unprune];
      return true;
    }

    /** `prune_at_index(i, unprune)`, for an in-bounds position. */
    method PruneAtIndex(i: nat, unprune: bool)
      requires Valid() && i < |visible|
      modifies this
      ensures Valid() && State() == old(State()).SetVisible(i, unprune)
    {
      visible := visible[i := unprune];
    }

    /**
     * `__iter__`: a snapshot iterator. While assigned, an iterator over the
     * single assigned value (the source's `iter([value])`).
     */
    method Iter() returns (it: DomainIterator)
      requires Valid()
      ensures fresh(it) && it.Valid() && it.Remaining() == State().Iteration()
    {
      if assignment.Some? {
        it := new DomainIterator([assignment.value], [true]);
      } else {
        it := new DomainIterator(values, visible);
      }
    }

    /**
     * `enumerate`: a snapshot enumerator. While assigned, one that yields only
     * the assigned value at its first position; None where that lookup raises
     * ValueError.
     */
    method Enumerate() returns (r: Option<DomainEnumerator>)
      requires Valid()
      ensures r.None? <==> State().Enumeration().None?
      ensures r.Some? ==> fresh(r.value) && r.value.Valid() && r.value.Remaining() == State().Enumeration().value
    {
      if assignment.Some? {
        var i := FirstIndex(values, assignment.value);
        if i.None? {
          return None;
        }
        OnlyAtEnumerates(values, i.value, 0);
        var e := new DomainEnumerator(values, OnlyAt(|values|, i.value));
        return Some(e);
      }
      var e := new DomainEnumerator(values, visible);
      return Some(e);
    }
  }

  /** A mask of `n` positions where only `i` is visible. */
  function OnlyAt(n: nat, i: nat): (m: seq<bool>)
    ensures |m| == n
  {
    seq(n, k => k == i)
  }

  lemma {:induction false} OnlyAtEnumerates(values: seq<int>, i: nat, from: nat)
    requires i < |values| && from <= i
    ensures EnumFrom(values, OnlyAt(|values|, i), from) == [(i, values[i])]
    decreases i - from
  {
    if from < i {
      OnlyAtEnumerates(values, i, from + 1);
    } else {
      NoneVisibleAfter(values, OnlyAt(|values|, i), i + 1);
    }
  }

  lemma {:induction false} NoneVisibleAfter(values: seq<int>, visible: seq<bool>, from: nat)
    requires |values| == |visible|
    requires forall k :: from <= k < |visible| ==> !visible[k]
    ensures EnumFrom(values, visible, from) == []
    decreases |visible| - from
  {
    if from < |visible| {
      NoneVisibleAfter(values, visible, from + 1);
    }
  }

  /** `DomainIterator`: a copy of the mask taken at creation, and a position counter. */
  class DomainIterator {
    const domain: seq<int>
    const visible: seq<bool>
    const maxLength: nat
    var current: nat

    ghost predicate Valid()
      reads this
    {
      |visible| == |domain| == maxLength && current <= maxLength
    }

    /** What the iterator has still to yield. */
    function Remaining(): seq<int>
      reads this
      requires Valid()
    {
      YieldFrom(domain, visible, current)
    }

    constructor (domain: seq<int>, visible: seq<bool>)
      requires |domain| == |visible|
      ensures Valid() && this.domain == domain && this.visible == visible && current == 0
    {
      this.domain := domain;
      this.visible := visible;
      maxLength := |domain|;
      current := 0;
    }

    /** `__next__`: skip hidden positions, then yield the next visible value; None stands for StopIteration. */
    method Next() returns (r: Option<int>)
      requires Valid()
      modifies this
      ensures Valid()
      ensures old(Remaining()) == [] ==> r.None? && Remaining() == []
      ensures old(Remaining()) != [] ==> r == Some(old(Remaining())[0]) && Remaining() == old(Remaining())[1..]
    {
      while current < maxLength && !visible[current]
        invariant Valid()
        invariant YieldFrom(domain, visible, current) == old(YieldFrom(domain, visible, current))
      {
        current := current + 1;
      }
      if current >= maxLength {
        return None;
      }
      current := current + 1;
      return Some(domain[current - 1]);
    }
  }

  /** `DomainEnumerator`: a `DomainIterator` that also yields each value's position. */
  class DomainEnumerator {
    const domain: seq<int>
    const visible: seq<bool>
    const maxLength: nat
    var current: nat

    ghost predicate Valid()
      reads this
    {
      |visible| == |domain| == maxLength && current <= maxLength
    }

    function Remaining(): seq<(nat, int)>
      reads this
      requires Valid()
    {
      EnumFrom(domain, visible, current)
    }

    constructor (domain: seq<int>, visible: seq<bool>)
      requires |domain| == |visible|
      ensures Valid() && this.domain == domain && this.visible == visible && current == 0
    {
      this.domain := domain;
      this.visible := visible;
      maxLength := |domain|;
      current := 0;
    }

    method Next() returns (r: Option<(nat, int)>)
      requires Valid()
      modifies this
      ensures Valid()
      ensures old(Remaining()) == [] ==> r.None? && Remaining() == []
      ensures old(Remaining()) != [] ==> r == Some(old(Remaining())[0]) && Remaining() == old(Remaining())[1..]
    {
      while current < maxLength && !visible[current]
        invariant Valid()
        invariant EnumFrom(domain, visible, current) == old(EnumFrom(domain, visible, current))
      {
        current := current + 1;
      }
      if current >= maxLength {
        return None;
      }
      var i := current;
      current := current + 1;
      return Some((i, domain[i]));
    }
  }

  /**
   * The pairs two nested loops produce, the outer over `xs` and the inner
   * over `ys`: for each element of `xs` in turn, that element paired with
   * each element of `ys`.
   */
  function Cross(xs: seq<int>, ys: seq<int>): seq<(int, int)> {
    if xs == [] then [] else Cross(xs[..|xs| - 1], ys) + PairsWith(xs[|xs| - 1], ys)
  }

  /** The pairs the inner loop produces for the outer element `x`. */
  function PairsWith(x: int, ys: seq<int>): seq<(int, int)> {
    if ys == [] then [] else PairsWith(x, ys[..|ys| - 1]) + [(x, ys[|ys| - 1])]
  }

  /** The inner loop pairs `x` with each element of `ys` and nothing else. */
  lemma {:induction false} PairsWithMembers(x: int, ys: seq<int>, a: int, b: int)
    ensures (a, b) in PairsWith(x, ys) <==> a == x && b in ys
  {
    if ys != [] {
      PairsWithMembers(x, ys[..|ys| - 1], a, b);
      assert ys == ys[..|ys| - 1] + [ys[|ys| - 1]];
    }
  }

  /** The nested loops produce every pair of an element of `xs` with one of `ys`, and nothing else. */
  lemma {:induction false} CrossMembers(xs: seq<int>, ys: seq<int>, a: int, b: int)
    ensures (a, b) in Cross(xs, ys) <==> a in xs && b in ys
  {
    if xs != [] {
      CrossMembers(xs[..|xs| - 1], ys, a, b);
      PairsWithMembers(xs[|xs| - 1], ys, a, b);
      assert xs == xs[..|xs| - 1] + [xs[|xs| - 1]];
    }
  }

  /**
   * Two nested loops over the same variable, as the solver's tests write them:
   * each iterator works on its own snapshot, so together they yield every
   * pair of visible values, in loop order.
   */
  method NestedIteration(v: Variable) returns (pairs: seq<(int, int)>)
    requires v.Valid()
    ensures pairs == Cross(v.State().Iteration(), v.State().Iteration())
  {
    var all := v.State().Iteration();
    pairs := [];
    var outer := v.Iter();
    ghost var n := 0;
    while true
      invariant outer.Valid() && fresh(outer)
      invariant n <= |all| && outer.Remaining() == all[n..]
      invariant pairs == Cross(all[..n], all)
      decreases |all| - n
    {
      var x := outer.Next();
      if x.None? {
        assert all[..n] == all;
        break;
      }
      SnapshotStep(all, n);
      var row := InnerLoop(v, x.value);
      pairs := pairs + row;
      n := n + 1;
    }
  }

  /** The inner loop of NestedIteration: a fresh iterator paired with the outer value `x`. */
  method InnerLoop(v: Variable, x: int) returns (row: seq<(int, int)>)
    requires v.Valid()
    ensures row == PairsWith(x, v.State().Iteration())
  {
    var all := v.State().Iteration();
    var inner := v.Iter();
    ghost var n := 0;
    row := [];
    while true
      invariant inner.Valid() && fresh(inner)
      invariant n <= |all| && inner.Remaining() == all[n..]
      invariant row == PairsWith(x, all[..n])
      decreases |all| - n
    {
      var y := inner.Next();
      if y.None? {
        assert all[..n] == all;
        break;
      }
      SnapshotStep(all, n);
      row := row + [(x, y.value)];
      n := n + 1;
    }
  }

  /**
   * A loop over a variable that hides each value as it is yielded, as a
   * propagator does while it sweeps: the iterator keeps to its snapshot, so
   * the loop still visits every value that was visible when it started.
   */
  method IterateWhilePruning(v: Variable) returns (seen: seq<int>)
    requires v.Valid()
    modifies v
    ensures v.Valid()
    ensures seen == old(v.State().Iteration())
  {
    ghost var all := v.State().Iteration();
    var it := v.Iter();
    ghost var n := 0;
    seen := [];
    while true
      invariant v.Valid() && it.Valid() && fresh(it)
      invariant n <= |all| && it.Remaining() == all[n..]
      invariant seen == all[..n]
      decreases |all| - n
    {
      var x := it.Next();
      if x.None? {
        assert all[..n] == all;
        break;
      }
      SnapshotStep(all, n);
      var _ := v.Prune(x.value, false);
      seen := seen + [x.value];
      n := n + 1;
    }
  }

  /** One step of a loop over a snapshot `all`: the value at `n` moves from what remains to what was seen. */
  lemma SnapshotStep(all: seq<int>, n: nat)
    requires n < |all|
    ensures all[n..][1..] == all[n + 1..] && all[..n + 1] == all[..n] + [all[n]] && all[..n + 1][..n] == all[..n]
  {
  }

  /** The states of the variables, in order. */
  function Doms(vars: seq<Variable>): (s: seq<Domain>)
    reads vars
    ensures |s| == |vars| && forall k :: 0 <= k < |vars| ==> s[k] == vars[k].State()
  {
    seq(|vars|, k requires 0 <= k < |vars| reads vars => vars[k].State())
  }

  ghost predicate DistinctVars(vars: seq<Variable>) {
    forall i, j :: 0 <= i < j < |vars| ==> vars[i] != vars[j]
  }
}
