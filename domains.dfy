/**
 * The value-level view of one variable of the solver (cp_solver/base.py, class
 * Variable): its candidate values in insertion order, the parallel visibility
 * mask, and the optional assigned value. Every operation of the class is a
 * function here; the class in variables.dfy is proved against them.
 */
module Domains {
  import opened Wrappers

  /** Python's `sum` over a mask: how many positions are visible. */
  function CountTrue(s: seq<bool>): (n: nat)
    ensures n <= |s|
  {
    if s == [] then 0 else (if s[0] then 1 else 0) + CountTrue(s[1..])
  }

  /** Python's `list.index`: the first position holding `x`, or None where it raises ValueError. */
  function FirstIndex(s: seq<int>, x: int): (r: Option<nat>)
    ensures r.None? <==> x !in s
    ensures r.Some? ==> r.value < |s| && s[r.value] == x && x !in s[..r.value]
  {
    if s == [] then None
    else if s[0] == x then Some(0)
    else
      match FirstIndex(s[1..], x)
      case None => None
      case Some(i) =>
        assert s[..i + 1] == [s[0]] + s[1..][..i];
        Some(i + 1)
  }

  /** The positions at or after `from` whose mask entry is true, in increasing order. */
  function Positions(visible: seq<bool>, from: nat): (ps: seq<nat>)
    ensures forall k :: 0 <= k < |ps| ==> from <= ps[k] < |visible|
    decreases |visible| - from
  {
    if from >= |visible| then []
    else (if visible[from] then [from] else []) + Positions(visible, from + 1)
  }

  /** What a DomainIterator created with position counter `from` still yields. */
  function YieldFrom(values: seq<int>, visible: seq<bool>, from: nat): seq<int>
    requires |values| == |visible|
    decreases |visible| - from
  {
    if from >= |visible| then []
    else (if visible[from] then [values[from]] else []) + YieldFrom(values, visible, from + 1)
  }

  /** What a DomainEnumerator created with position counter `from` still yields. */
  function EnumFrom(values: seq<int>, visible: seq<bool>, from: nat): (e: seq<(nat, int)>)
    requires |values| == |visible|
    ensures forall k :: 0 <= k < |e| ==> from <= e[k].0 < |visible| && e[k].1 == values[e[k].0]
    decreases |visible| - from
  {
    if from >= |visible| then []
    else (if visible[from] then [(from, values[from])] else []) + EnumFrom(values, visible, from + 1)
  }

  /** A mask with every one of `n` positions visible. */
  function AllVisible(n: nat): (m: seq<bool>)
    ensures |m| == n && forall k :: 0 <= k < n ==> m[k]
  {
    seq(n, _ => true)
  }

  /** The state of one variable. */
  datatype Domain = Domain(values: seq<int>, visible: seq<bool>, assignment: Option<int>)
  {
    /** The mask has one entry per value. */
    predicate Valid() {
      |values| == |visible|
    }

    predicate IsAssigned() {
      assignment.Some?
    }

    /** `domain_size`: 1 while assigned, otherwise the number of visible positions. */
    function Size(): nat {
      if assignment.Some? then 1 else CountTrue(visible)
    }

    /** `in_domain`: the assignment decides while present; otherwise the mask entry of the value's first position. */
    function InDomain(v: int): bool
      requires Valid()
    {
      if assignment.Some? then assignment.value == v
      else
        match FirstIndex(values, v)
        case None => false
        case Some(i) => visible[i]
    }

    /** `in_domain_index`, for an in-bounds position. */
    function InDomainAt(i: nat): bool
      requires Valid() && i < |values|
    {
      if assignment.Some? then values[i] == assignment.value else visible[i]
    }

    /** The sequence `iter(variable)` produces. */
    function Iteration(): seq<int>
      requires Valid()
    {
      if assignment.Some? then [assignment.value] else YieldFrom(values, visible, 0)
    }

    /** The pairs `variable.enumerate()` produces; None where it raises ValueError (an assigned value that is not a domain value). */
    function Enumeration(): Option<seq<(nat, int)>>
      requires Valid()
    {
      if assignment.Some? then
        match FirstIndex(values, assignment.value)
        case None => None
        case Some(i) => Some([(i, assignment.value)])
      else Some(EnumFrom(values, visible, 0))
    }

    /** `add_value`. */
    function WithValue(v: int): Domain {
      Domain(values + [v], visible + [true], assignment)
    }

    /** `assign`. */
    function Assign(v: int): Domain {
      this.(assignment := Some(v))
    }

    /** `unassign`. */
    function Unassign(): Domain {
      this.(assignment := None)
    }

    /** `restore_domain`. */
    function Restored(): Domain {
      this.(visible := AllVisible(|visible|))
    }

    /** `prune_at_index(i, unprune)`: the mask entry at `i` becomes `unprune`. */
    function SetVisible(i: nat, unprune: bool): Domain
      requires i < |visible|
    {
      this.(visible := visible[i := unprune])
    }

    /** `prune(v, unprune)`: acts on the first position of `v`; None where `list.index` raises ValueError. */
    function PruneValue(v: int, unprune: bool): Option<Domain>
      requires Valid()
    {
      match FirstIndex(values, v)
      case None => None
      case Some(i) => Some(SetVisible(i, unprune))
    }
  }

  /** `Variable(values)`: every value visible, nothing assigned. */
  function Fresh(vs: seq<int>): Domain {
    Domain(vs, AllVisible(|vs|), None)
  }

  /** Every variable's mask has one entry per value. */
  predicate AllValid(s: seq<Domain>) {
    forall k :: 0 <= k < |s| ==> s[k].Valid()
  }

  predicate Distinct(s: seq<int>) {
    forall i, j :: 0 <= i < j < |s| ==> s[i] != s[j]
  }

  // ---------------------------------------------------------------------------
  // Facts about the helpers
  // ---------------------------------------------------------------------------

  /** Changing one mask entry changes the count by the difference it makes. */
  lemma {:induction false} CountTrueUpdate(s: seq<bool>, i: nat, b: bool)
    requires i < |s|
    ensures CountTrue(s[i := b]) == CountTrue(s) - (if s[i] then 1 else 0) + (if b then 1 else 0)
  {
    if i > 0 {
      assert s[i := b][1..] == s[1..][i - 1 := b];
      CountTrueUpdate(s[1..], i - 1, b);
    } else {
      assert s[i := b][1..] == s[1..];
    }
  }

  /** An all-visible mask counts every position. */
  lemma {:induction false} CountAllVisible(n: nat)
    ensures CountTrue(AllVisible(n)) == n
  {
    if n > 0 {
      assert AllVisible(n)[1..] == AllVisible(n - 1);
      CountAllVisible(n - 1);
    }
  }

  /** Positions are exactly the visible indices at or after `from`, strictly increasing, and there are as many as the count. */
  lemma {:induction false} PositionsSpec(visible: seq<bool>, from: nat)
    requires from <= |visible|
    ensures forall p :: p in Positions(visible, from) <==> from <= p < |visible| && visible[p]
    ensures forall k, l :: 0 <= k < l < |Positions(visible, from)| ==> Positions(visible, from)[k] < Positions(visible, from)[l]
    ensures |Positions(visible, from)| == CountTrue(visible[from..])
    decreases |visible| - from
  {
    if from < |visible| {
      PositionsSpec(visible, from + 1);
      assert visible[from..][1..] == visible[from + 1..];
      var rest := Positions(visible, from + 1);
      assert forall k :: 0 <= k < |rest| ==> from < rest[k] by {
        forall k | 0 <= k < |rest| ensures from < rest[k] {
          assert rest[k] in rest;
        }
      }
    }
  }

  /** The values an iterator yields are those at its positions, in order. */
  lemma {:induction false} YieldIsPositions(values: seq<int>, visible: seq<bool>, from: nat)
    requires |values| == |visible|
    ensures |YieldFrom(values, visible, from)| == |Positions(visible, from)|
    ensures forall k :: 0 <= k < |Positions(visible, from)| ==>
      YieldFrom(values, visible, from)[k] == values[Positions(visible, from)[k]]
    decreases |visible| - from
  {
    if from < |visible| {
      YieldIsPositions(values, visible, from + 1);
      var Y, Y' := YieldFrom(values, visible, from), YieldFrom(values, visible, from + 1);
      var P, P' := Positions(visible, from), Positions(visible, from + 1);
      var d := if visible[from] then 1 else 0;
      forall k | 0 <= k < |P| ensures Y[k] == values[P[k]] {
        if k >= d {
          assert Y[k] == Y'[k - d] && P[k] == P'[k - d];
        }
      }
    }
  }

  /** The pairs an enumerator yields are the positions with their values, in order. */
  lemma {:induction false} EnumIsPositions(values: seq<int>, visible: seq<bool>, from: nat)
    requires |values| == |visible|
    ensures |EnumFrom(values, visible, from)| == |Positions(visible, from)|
    ensures forall k :: 0 <= k < |Positions(visible, from)| ==>
      EnumFrom(values, visible, from)[k] == (Positions(visible, from)[k], values[Positions(visible, from)[k]])
    decreases |visible| - from
  {
    if from < |visible| {
      EnumIsPositions(values, visible, from + 1);
      var E, E' := EnumFrom(values, visible, from), EnumFrom(values, visible, from + 1);
      var P, P' := Positions(visible, from), Positions(visible, from + 1);
      var d := if visible[from] then 1 else 0;
      forall k | 0 <= k < |P| ensures E[k] == (P[k], values[P[k]]) {
        if k >= d {
          assert E[k] == E'[k - d] && P[k] == P'[k - d];
        }
      }
    }
  }

  /** With every position visible, iteration yields the values themselves. */
  lemma {:induction false} YieldAllVisible(values: seq<int>, from: nat)
    requires from <= |values|
    ensures YieldFrom(values, AllVisible(|values|), from) == values[from..]
    decreases |values| - from
  {
    if from < |values| {
      YieldAllVisible(values, from + 1);
      assert values[from..] == [values[from]] + values[from + 1..];
    }
  }

  /** Appending a visible value appends it to what iteration yields. */
  lemma {:induction false} YieldAppend(values: seq<int>, visible: seq<bool>, v: int, from: nat)
    requires |values| == |visible| && from <= |values|
    ensures YieldFrom(values + [v], visible + [true], from) == YieldFrom(values, visible, from) + [v]
    decreases |values| - from
  {
    if from < |values| {
      YieldAppend(values, visible, v, from + 1);
    }
  }

  // ---------------------------------------------------------------------------
  // Properties of a variable (cp_solver/base.py, class Variable)
  // ---------------------------------------------------------------------------

  /** A fresh variable has one visible position per value and iterates the values in order. */
  lemma FreshDomain(vs: seq<int>)
    ensures Fresh(vs).Valid() && !Fresh(vs).IsAssigned()
    ensures Fresh(vs).Size() == |vs|
    ensures Fresh(vs).Iteration() == vs
    ensures Fresh(vs).Enumeration() == Some(seq(|vs|, i requires 0 <= i < |vs| => (i, vs[i])))
  {
    CountAllVisible(|vs|);
    YieldAllVisible(vs, 0);
    EnumIsPositions(vs, AllVisible(|vs|), 0);
    PositionsSpec(AllVisible(|vs|), 0);
    var ps := Positions(AllVisible(|vs|), 0);
    assert |ps| == |vs|;
    forall k | 0 <= k < |vs| ensures ps[k] == k {
      AllPositionsAt(|vs|, k);
    }
    assert EnumFrom(vs, AllVisible(|vs|), 0) == seq(|vs|, i requires 0 <= i < |vs| => (i, vs[i]));
  }

  /** With every position visible the positions are 0, 1, 2, ... */
  lemma {:induction false} AllPositionsAt(n: nat, k: nat)
    requires k < n
    ensures PositionsSpecHolds(AllVisible(n)) && |Positions(AllVisible(n), 0)| == n && Positions(AllVisible(n), 0)[k] == k
  {
    var m := AllVisible(n);
    PositionsSpec(m, 0);
    CountAllVisible(n);
    assert m[0..] == m;
    var ps := Positions(m, 0);
    // a strictly increasing sequence of n naturals below n is the identity
    forall j | 0 <= j < n ensures j <= ps[j] && ps[j] <= j {
      IncreasingBounds(ps, n, j);
    }
  }

  ghost predicate PositionsSpecHolds(visible: seq<bool>) {
    forall p :: p in Positions(visible, 0) <==> 0 <= p < |visible| && visible[p]
  }

  /** A strictly increasing sequence of `n` naturals below `n` holds `j` at index `j`. */
  lemma {:induction false} IncreasingBounds(ps: seq<nat>, n: nat, j: nat)
    requires |ps| == n && j < n
    requires forall k, l :: 0 <= k < l < |ps| ==> ps[k] < ps[l]
    requires forall k :: 0 <= k < |ps| ==> ps[k] < n
    ensures ps[j] == j
  {
    LowerBound(ps, j);
    UpperBound(ps, n, j);
  }

  lemma {:induction false} LowerBound(ps: seq<nat>, j: nat)
    requires j < |ps|
    requires forall k, l :: 0 <= k < l < |ps| ==> ps[k] < ps[l]
    ensures j <= ps[j]
  {
    if j > 0 {
      LowerBound(ps, j - 1);
    }
  }

  lemma {:induction false} UpperBound(ps: seq<nat>, n: nat, j: nat)
    requires |ps| == n && j < n
    requires forall k, l :: 0 <= k < l < |ps| ==> ps[k] < ps[l]
    requires forall k :: 0 <= k < |ps| ==> ps[k] < n
    ensures ps[j] <= j
    decreases n - j
  {
    if j < n - 1 {
      UpperBound(ps, n, j + 1);
    }
  }

  /** `add_value` appends a visible value: it comes last and the size grows by one. */
  lemma AddValueAppends(d: Domain, v: int)
    requires d.Valid() && !d.IsAssigned()
    ensures d.WithValue(v).Valid()
    ensures d.WithValue(v).Size() == d.Size() + 1
    ensures d.WithValue(v).Iteration() == d.Iteration() + [v]
  {
    YieldAppend(d.values, d.visible, v, 0);
    CountTrueUpdate(d.visible + [true], |d.visible|, true);
    CountTrueAppend(d.visible, true);
  }

  lemma {:induction false} CountTrueAppend(s: seq<bool>, b: bool)
    ensures CountTrue(s + [b]) == CountTrue(s) + (if b then 1 else 0)
  {
    if s != [] {
      assert (s + [b])[1..] == s[1..] + [b];
      CountTrueAppend(s[1..], b);
    }
  }

  /**
   * `prune_at_index` hides one position and its `unprune` twin shows it again:
   * the round trip restores the mask, hiding a visible position of an
   * unassigned variable shrinks the size by one, and the iteration loses
   * exactly that position.
   */
  lemma PruneAtRoundTrip(d: Domain, i: nat)
    requires d.Valid() && i < |d.visible|
    ensures d.SetVisible(i, false).SetVisible(i, d.visible[i]) == d
    ensures d.SetVisible(i, false).SetVisible(i, true).visible == d.visible[i := true]
    ensures !d.IsAssigned() && d.visible[i] ==> d.SetVisible(i, false).Size() == d.Size() - 1
    ensures !d.IsAssigned() && !d.visible[i] ==> d.SetVisible(i, true).Size() == d.Size() + 1
  {
    CountTrueUpdate(d.visible, i, false);
    CountTrueUpdate(d.visible, i, true);
  }

  /** Hiding position `i` removes exactly `i` from the visible positions. */
  lemma PruneAtHidesOne(d: Domain, i: nat)
    requires d.Valid() && i < |d.visible|
    ensures forall p :: p in Positions(d.SetVisible(i, false).visible, 0) <==> p in Positions(d.visible, 0) && p != i
  {
    PositionsSpec(d.visible, 0);
    PositionsSpec(d.SetVisible(i, false).visible, 0);
  }

  /** `prune(v)` acts on the first position of `v`, and raises exactly when `v` is not a domain value. */
  lemma PruneByValue(d: Domain, v: int, unprune: bool)
    requires d.Valid()
    ensures d.PruneValue(v, unprune).None? <==> v !in d.values
    ensures d.PruneValue(v, unprune).Some? ==>
      exists i :: 0 <= i < |d.values| && d.values[i] == v && v !in d.values[..i] &&
        d.PruneValue(v, unprune).value == d.SetVisible(i, unprune)
  {
    match FirstIndex(d.values, v)
    case None =>
    case Some(i) =>
  }

  /** `restore_domain` makes every position visible and leaves the values and the assignment alone. */
  lemma RestoreShowsAll(d: Domain)
    requires d.Valid()
    ensures d.Restored().Valid()
    ensures d.Restored().values == d.values && d.Restored().assignment == d.assignment
    ensures forall k :: 0 <= k < |d.visible| ==> d.Restored().visible[k]
    ensures !d.IsAssigned() ==> d.Restored().Size() == |d.values| && d.Restored().Iteration() == d.values
  {
    CountAllVisible(|d.visible|);
    YieldAllVisible(d.values, 0);
  }

  /**
   * While a variable is assigned, the assignment overrides the mask: the size
   * is 1, iteration yields only the assigned value and membership is equality
   * with it. The mask is untouched, so unassigning gives back the mask-based view.
   */
  lemma AssignOverridesMask(d: Domain, v: int)
    requires d.Valid()
    ensures d.Assign(v).Size() == 1
    ensures d.Assign(v).Iteration() == [v]
    ensures forall x :: d.Assign(v).InDomain(x) <==> x == v
    ensures d.Assign(v).visible == d.visible && d.Assign(v).values == d.values
    ensures d.Assign(v).Unassign() == d.Unassign()
    ensures forall i :: 0 <= i < |d.values| ==> (d.Assign(v).InDomainAt(i) <==> d.values[i] == v)
  {
  }

  /**
   * An unassigned variable iterates exactly the values at its visible
   * positions, in increasing position order, and its size is how many there are.
   */
  lemma {:induction false} IterationSpec(d: Domain)
    requires d.Valid() && !d.IsAssigned()
    ensures var ps := Positions(d.visible, 0);
      d.Iteration() == seq(|ps|, k requires 0 <= k < |ps| => d.values[ps[k]])
    ensures forall p :: p in Positions(d.visible, 0) <==> 0 <= p < |d.visible| && d.visible[p]
    ensures |d.Iteration()| == d.Size()
  {
    YieldIsPositions(d.values, d.visible, 0);
    PositionsSpec(d.visible, 0);
    assert d.visible[0..] == d.visible;
    var ps := Positions(d.visible, 0);
    assert d.Iteration() == seq(|ps|, k requires 0 <= k < |ps| => d.values[ps[k]]);
  }

  /** Whatever the state, the size is the number of values iteration yields. */
  lemma SizeIsIterationLength(d: Domain)
    requires d.Valid()
    ensures |d.Iteration()| == d.Size()
  {
    if !d.IsAssigned() {
      IterationSpec(d);
    }
  }

  /**
   * `enumerate` yields each visible position with its value in increasing
   * position order; while assigned it yields the single pair of the assigned
   * value's first position, and raises when the assigned value is not a domain value.
   */
  lemma {:induction false} EnumerationSpec(d: Domain)
    requires d.Valid()
    ensures !d.IsAssigned() ==> var ps := Positions(d.visible, 0);
      d.Enumeration() == Some(seq(|ps|, k requires 0 <= k < |ps| => (ps[k], d.values[ps[k]])))
    ensures d.IsAssigned() ==> (d.Enumeration().None? <==> d.assignment.value !in d.values)
    ensures d.IsAssigned() && d.Enumeration().Some? ==>
      |d.Enumeration().value| == 1 && d.Enumeration().value[0].1 == d.assignment.value &&
      d.Enumeration().value[0].0 < |d.values| && d.values[d.Enumeration().value[0].0] == d.assignment.value
  {
    EnumIsPositions(d.values, d.visible, 0);
    var ps := Positions(d.visible, 0);
    assert EnumFrom(d.values, d.visible, 0) == seq(|ps|, k requires 0 <= k < |ps| => (ps[k], d.values[ps[k]]));
  }

  /**
   * `in_domain` never reports a value iteration would not yield; it reports
   * every yielded value when the values are distinct (otherwise a hidden
   * first copy of a value hides its visible later copies from it).
   */
  lemma InDomainSound(d: Domain, v: int)
    requires d.Valid()
    ensures d.InDomain(v) ==> v in d.Iteration()
    ensures Distinct(d.values) && v in d.Iteration() ==> d.InDomain(v)
  {
    if !d.IsAssigned() {
      IterationSpec(d);
      var ps := Positions(d.visible, 0);
      if d.InDomain(v) {
        var i := FirstIndex(d.values, v).value;
        assert i in ps;
        var k :| 0 <= k < |ps| && ps[k] == i;
        assert d.Iteration()[k] == v;
      }
      if Distinct(d.values) && v in d.Iteration() {
        var k :| 0 <= k < |d.Iteration()| && d.Iteration()[k] == v;
        assert ps[k] in ps;
        var i := FirstIndex(d.values, v).value;
        assert d.values[ps[k]] == v;
        assert i == ps[k];
      }
    }
  }
}
