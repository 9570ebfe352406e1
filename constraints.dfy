/**
 * Constraints of cp_solver/base.py (`Constraint`, `DifferentConstraint`,
 * `FunctionConstraint`) as values whose scope is a sequence of variable
 * indices, and the value-level meaning of `unassigned`, `check_feasible` and
 * `forward_check` over the states of all variables.
 */
module Constraints {
  import opened Wrappers
  import opened Domains

  /** `DomainWipeout`. */
  datatype Wipeout = NoDwo | Dwo

  /** An undo-log entry: the index of the pruned variable and the pruned position. */
  type Pruned = (nat, nat)

  datatype Constraint =
    | Different(a: nat, b: nat)                      // DifferentConstraint(a, b)
    | Function(vars: seq<nat>, f: seq<int> -> bool)  // FunctionConstraint(vars, f)
  {
    function Scope(): seq<nat> {
      match this
      case Different(a, b) => [a, b]
      case Function(vs, _) => vs
    }

    /** `test`: one value per scope entry, in scope order. */
    predicate Test(vals: seq<int>)
      requires |vals| == |Scope()|
    {
      match this
      case Different(_, _) => vals[0] != vals[1]
      case Function(_, f) => f(vals)
    }
  }

  /** What a pruning operation returns (wipeout flag and undo log) together with the variables' new states. */
  datatype Propagation = Propagation(wipeout: Wipeout, log: seq<Pruned>, doms: seq<Domain>)

  /** Every scope entry names one of `n` variables. */
  predicate InScope(c: Constraint, n: nat) {
    forall k :: 0 <= k < |c.Scope()| ==> c.Scope()[k] < n
  }

  /** The scope entries of `xs` whose variable is unassigned, in order (repeats kept). */
  function FilterUnassigned(xs: seq<nat>, S: seq<Domain>): (r: seq<nat>)
    requires forall k :: 0 <= k < |xs| ==> xs[k] < |S|
    ensures |r| <= |xs|
    ensures forall k :: 0 <= k < |r| ==> r[k] < |S| && !S[r[k]].IsAssigned()
  {
    if xs == [] then []
    else
      FilterUnassigned(xs[..|xs| - 1], S) +
      (if S[xs[|xs| - 1]].IsAssigned() then [] else [xs[|xs| - 1]])
  }

  /** `unassigned()`. */
  function UnassignedOf(c: Constraint, S: seq<Domain>): seq<nat>
    requires InScope(c, |S|)
  {
    FilterUnassigned(c.Scope(), S)
  }

  /** The list `[v.assigned_value() for v in scope]`, None for an unassigned variable. */
  function Slots(c: Constraint, S: seq<Domain>): (slots: seq<Option<int>>)
    requires InScope(c, |S|)
    ensures |slots| == |c.Scope()|
  {
    seq(|c.Scope()|, k requires 0 <= k < |c.Scope()| => S[c.Scope()[k]].assignment)
  }

  /** `values.index(None)`. */
  function FirstNone(slots: seq<Option<int>>): (r: Option<nat>)
    ensures r.None? <==> forall k :: 0 <= k < |slots| ==> slots[k].Some?
    ensures r.Some? ==>
      r.value < |slots| && slots[r.value].None? && forall k :: 0 <= k < r.value ==> slots[k].Some?
  {
    if slots == [] then None
    else if slots[0].None? then Some(0)
    else
      match FirstNone(slots[1..])
      case None => None
      case Some(i) => Some(i + 1)
  }

  /** The tuple tested when slot `uv` holds `v` and every other slot its assigned value. */
  function Fill(slots: seq<Option<int>>, uv: nat, v: int): (t: seq<int>)
    ensures |t| == |slots|
  {
    seq(|slots|, k requires 0 <= k < |slots| => if k == uv then v else slots[k].GetOr(0))
  }

  /**
   * The mask after the loop of `forward_check` over the enumerated pairs `E`
   * of the one unassigned variable, starting from `m`: each pair whose value
   * fails the test has its position hidden.
   */
  function SweepMask(c: Constraint, slots: seq<Option<int>>, uv: nat, m: seq<bool>, E: seq<(nat, int)>): (m': seq<bool>)
    requires |slots| == |c.Scope()|
    requires forall l :: 0 <= l < |E| ==> E[l].0 < |m|
    ensures |m'| == |m|
    decreases |E|
  {
    if E == [] then m
    else
      var last := E[|E| - 1];
      var prev := SweepMask(c, slots, uv, m, E[..|E| - 1]);
      if c.Test(Fill(slots, uv, last.1)) then prev else prev[last.0 := false]
  }

  /** The log that loop appends to: `(u, i)` for each pair `(i, v)` whose value fails, in the order of `E`. */
  function SweepLog(c: Constraint, slots: seq<Option<int>>, uv: nat, u: nat, E: seq<(nat, int)>): seq<Pruned>
    requires |slots| == |c.Scope()|
    decreases |E|
  {
    if E == [] then []
    else
      var last := E[|E| - 1];
      SweepLog(c, slots, uv, u, E[..|E| - 1]) + (if c.Test(Fill(slots, uv, last.1)) then [] else [(u, last.0)])
  }

  /** One more enumerated pair extends the mask and the log by that pair's outcome alone. */
  lemma SweepSnoc(c: Constraint, slots: seq<Option<int>>, uv: nat, u: nat, m: seq<bool>, E: seq<(nat, int)>, p: (nat, int))
    requires |slots| == |c.Scope()| && p.0 < |m|
    requires forall l :: 0 <= l < |E| ==> E[l].0 < |m|
    ensures forall l :: 0 <= l < |E + [p]| ==> (E + [p])[l].0 < |m|
    ensures SweepMask(c, slots, uv, m, E + [p]) ==
      if c.Test(Fill(slots, uv, p.1)) then SweepMask(c, slots, uv, m, E) else SweepMask(c, slots, uv, m, E)[p.0 := false]
    ensures SweepLog(c, slots, uv, u, E + [p]) ==
      SweepLog(c, slots, uv, u, E) + (if c.Test(Fill(slots, uv, p.1)) then [] else [(u, p.0)])
  {
    assert (E + [p])[..|E|] == E;
  }

  /** When exactly one scope entry is unassigned, its slot is the first None and every other slot holds a value. */
  lemma OneUnassignedSlot(c: Constraint, S: seq<Domain>)
    requires InScope(c, |S|) && |UnassignedOf(c, S)| == 1
    ensures FirstNone(Slots(c, S)).Some?
    ensures var k0 := FirstNone(Slots(c, S)).value;
      k0 < |c.Scope()| && c.Scope()[k0] == UnassignedOf(c, S)[0] &&
      forall k :: 0 <= k < |c.Scope()| && k != k0 ==> S[c.Scope()[k]].IsAssigned()
  {
    var k0 := OneUnassigned(c.Scope(), S);
    var slots := Slots(c, S);
    assert slots[k0].None?;
  }

  lemma {:induction false} OneUnassigned(xs: seq<nat>, S: seq<Domain>) returns (k0: nat)
    requires forall k :: 0 <= k < |xs| ==> xs[k] < |S|
    requires |FilterUnassigned(xs, S)| == 1
    ensures k0 < |xs| && xs[k0] == FilterUnassigned(xs, S)[0] && !S[xs[k0]].IsAssigned()
    ensures forall k :: 0 <= k < |xs| && k != k0 ==> S[xs[k]].IsAssigned()
  {
    var init := xs[..|xs| - 1];
    var x := xs[|xs| - 1];
    if S[x].IsAssigned() {
      k0 := OneUnassigned(init, S);
    } else {
      NoneUnassigned(init, S);
      k0 := |xs| - 1;
    }
  }

  /** No scope entry of `xs` is unassigned exactly when the filter is empty. */
  lemma {:induction false} NoneUnassigned(xs: seq<nat>, S: seq<Domain>)
    requires forall k :: 0 <= k < |xs| ==> xs[k] < |S|
    ensures FilterUnassigned(xs, S) == [] <==> forall k :: 0 <= k < |xs| ==> S[xs[k]].IsAssigned()
  {
    if xs != [] {
      var init, x := xs[..|xs| - 1], xs[|xs| - 1];
      NoneUnassigned(init, S);
      assert forall k :: 0 <= k < |init| ==> init[k] == xs[k];
      assert FilterUnassigned(xs, S) == [] <==> FilterUnassigned(init, S) == [] && S[x].IsAssigned();
    }
  }

  /** The test `forward_check` applies to a candidate `v` of the one unassigned variable. */
  predicate Passes(c: Constraint, S: seq<Domain>, v: int)
    requires InScope(c, |S|) && |UnassignedOf(c, S)| == 1
  {
    OneUnassignedSlot(c, S);
    c.Test(Fill(Slots(c, S), FirstNone(Slots(c, S)).value, v))
  }

  /**
   * `forward_check`: a no-op unless exactly one scope entry is unassigned;
   * then every enumerated value of that variable failing the test is hidden
   * and logged, and the result is a wipeout when its size ends at zero.
   */
  function ForwardCheckSpec(c: Constraint, S: seq<Domain>): (r: Propagation)
    requires AllValid(S) && InScope(c, |S|)
  {
    var ua := UnassignedOf(c, S);
    if |ua| != 1 then Propagation(NoDwo, [], S)
    else
      var u := ua[0];
      var slots := Slots(c, S);
      OneUnassignedSlot(c, S);
      var uv := FirstNone(slots).value;
      var E := EnumFrom(S[u].values, S[u].visible, 0);
      var doms := S[u := S[u].(visible := SweepMask(c, slots, uv, S[u].visible, E))];
      Propagation(if doms[u].Size() == 0 then Dwo else NoDwo, SweepLog(c, slots, uv, u, E), doms)
  }

  // ---------------------------------------------------------------------------
  // Predicates relating a state before and after pruning
  // ---------------------------------------------------------------------------

  /** `T` is `S` with some positions hidden: same values, assignments and mask lengths, and nothing shown that was hidden. */
  ghost predicate OnlyHides(S: seq<Domain>, T: seq<Domain>) {
    |T| == |S| &&
    forall x :: 0 <= x < |S| ==>
      T[x].values == S[x].values && T[x].assignment == S[x].assignment &&
      |T[x].visible| == |S[x].visible| &&
      forall j :: 0 <= j < |S[x].visible| && T[x].visible[j] ==> S[x].visible[j]
  }

  /** `log` names exactly the positions visible in `S` and hidden in `T`. */
  ghost predicate LogsExactly(S: seq<Domain>, T: seq<Domain>, log: seq<Pruned>) {
    OnlyHides(S, T) &&
    (forall k :: 0 <= k < |log| ==>
      log[k].0 < |S| && log[k].1 < |S[log[k].0].visible| &&
      S[log[k].0].visible[log[k].1] && !T[log[k].0].visible[log[k].1]) &&
    (forall x, j :: 0 <= x < |S| && 0 <= j < |S[x].visible| && S[x].visible[j] && !T[x].visible[j] ==> (x, j) in log)
  }

  /** A log naming exactly what was hidden between a state and itself is empty. */
  lemma NothingHiddenNothingLogged(S: seq<Domain>, log: seq<Pruned>)
    requires LogsExactly(S, S, log)
    ensures log == []
  {
    assert forall p :: p !in log;
    assert multiset(log) == multiset{};
    assert |log| == |multiset(log)| == 0;
  }

  // ---------------------------------------------------------------------------
  // Properties of forward_check (cp_solver/base.py:170-190)
  // ---------------------------------------------------------------------------

  /** The sweep hides exactly the positions of `m` that some pair of `E` names with a failing value. */
  lemma {:induction false} MaskHidesFailing(c: Constraint, slots: seq<Option<int>>, uv: nat, m: seq<bool>, E: seq<(nat, int)>)
    requires |slots| == |c.Scope()|
    requires forall l :: 0 <= l < |E| ==> E[l].0 < |m|
    ensures forall j :: 0 <= j < |m| ==>
      (SweepMask(c, slots, uv, m, E)[j] <==> m[j] && forall l :: 0 <= l < |E| && E[l].0 == j ==> c.Test(Fill(slots, uv, E[l].1)))
    decreases |E|
  {
    if E != [] {
      var init := E[..|E| - 1];
      MaskHidesFailing(c, slots, uv, m, init);
      assert forall l :: 0 <= l < |init| ==> init[l] == E[l];
    }
  }

  /** Every log entry is `(u, i)` for a pair `(i, v)` of `E` whose value fails. */
  lemma {:induction false} LogSound(c: Constraint, slots: seq<Option<int>>, uv: nat, u: nat, E: seq<(nat, int)>)
    requires |slots| == |c.Scope()|
    ensures forall k :: 0 <= k < |SweepLog(c, slots, uv, u, E)| ==>
      SweepLog(c, slots, uv, u, E)[k].0 == u &&
      exists l :: 0 <= l < |E| && E[l].0 == SweepLog(c, slots, uv, u, E)[k].1 && !c.Test(Fill(slots, uv, E[l].1))
    decreases |E|
  {
    if E != [] {
      var init := E[..|E| - 1];
      LogSound(c, slots, uv, u, init);
      var prev := SweepLog(c, slots, uv, u, init);
      var log := SweepLog(c, slots, uv, u, E);
      forall k | 0 <= k < |log|
        ensures log[k].0 == u && exists l :: 0 <= l < |E| && E[l].0 == log[k].1 && !c.Test(Fill(slots, uv, E[l].1))
      {
        if k < |prev| {
          var l :| 0 <= l < |init| && init[l].0 == prev[k].1 && !c.Test(Fill(slots, uv, init[l].1));
          assert E[l] == init[l];
        } else {
          assert E[|E| - 1].0 == log[k].1;
        }
      }
    }
  }

  /** Every pair of `E` whose value fails is logged. */
  lemma {:induction false} LogComplete(c: Constraint, slots: seq<Option<int>>, uv: nat, u: nat, E: seq<(nat, int)>)
    requires |slots| == |c.Scope()|
    ensures forall l :: 0 <= l < |E| && !c.Test(Fill(slots, uv, E[l].1)) ==> (u, E[l].0) in SweepLog(c, slots, uv, u, E)
    decreases |E|
  {
    if E != [] {
      var init := E[..|E| - 1];
      LogComplete(c, slots, uv, u, init);
      assert forall l :: 0 <= l < |init| ==> init[l] == E[l];
    }
  }

  /** When the pairs of `E` come in increasing position, so do the log entries. */
  lemma {:induction false} LogSorted(c: Constraint, slots: seq<Option<int>>, uv: nat, u: nat, E: seq<(nat, int)>)
    requires |slots| == |c.Scope()|
    requires forall l, l' :: 0 <= l < l' < |E| ==> E[l].0 < E[l'].0
    ensures forall k, k' :: 0 <= k < k' < |SweepLog(c, slots, uv, u, E)| ==>
      SweepLog(c, slots, uv, u, E)[k].1 < SweepLog(c, slots, uv, u, E)[k'].1
    decreases |E|
  {
    if E != [] {
      var init := E[..|E| - 1];
      LogSorted(c, slots, uv, u, init);
      LogSound(c, slots, uv, u, init);
      var prev := SweepLog(c, slots, uv, u, init);
      var log := SweepLog(c, slots, uv, u, E);
      forall k, k' | 0 <= k < k' < |log| ensures log[k].1 < log[k'].1 {
        if k' == |prev| {
          assert log[k] == prev[k];
          var l :| 0 <= l < |init| && init[l].0 == prev[k].1 && !c.Test(Fill(slots, uv, init[l].1));
          assert E[l] == init[l];
        }
      }
    }
  }

  /** Over a mask's own enumeration the sweep hides exactly the visible positions whose value fails. */
  lemma EnumMask(c: Constraint, slots: seq<Option<int>>, uv: nat, values: seq<int>, visible: seq<bool>)
    requires |slots| == |c.Scope()| && |values| == |visible|
    ensures forall j :: 0 <= j < |visible| ==>
      (SweepMask(c, slots, uv, visible, EnumFrom(values, visible, 0))[j] <==> visible[j] && c.Test(Fill(slots, uv, values[j])))
  {
    var E := EnumFrom(values, visible, 0);
    EnumIsPositions(values, visible, 0);
    PositionsSpec(visible, 0);
    var ps := Positions(visible, 0);
    MaskHidesFailing(c, slots, uv, visible, E);
    forall j | 0 <= j < |visible| && visible[j]
      ensures exists l :: 0 <= l < |E| && E[l].0 == j
    {
      assert j in ps;
      var l :| 0 <= l < |ps| && ps[l] == j;
      assert E[l].0 == j;
    }
  }

  /** Each logged position was visible and failing, and the positions increase. */
  lemma EnumLogSound(c: Constraint, slots: seq<Option<int>>, uv: nat, u: nat, values: seq<int>, visible: seq<bool>, log: seq<Pruned>)
    requires |slots| == |c.Scope()| && |values| == |visible|
    requires log == SweepLog(c, slots, uv, u, EnumFrom(values, visible, 0))
    ensures forall k :: 0 <= k < |log| ==>
      log[k].0 == u && log[k].1 < |visible| && visible[log[k].1] && !c.Test(Fill(slots, uv, values[log[k].1]))
    ensures forall k, k' :: 0 <= k < k' < |log| ==> log[k].1 < log[k'].1
  {
    var E := EnumFrom(values, visible, 0);
    EnumIsPositions(values, visible, 0);
    PositionsSpec(visible, 0);
    var ps := Positions(visible, 0);
    LogSound(c, slots, uv, u, E);
    LogSorted(c, slots, uv, u, E);
    forall k | 0 <= k < |log| ensures log[k].1 < |visible| && visible[log[k].1] {
      var l :| 0 <= l < |E| && E[l].0 == log[k].1 && !c.Test(Fill(slots, uv, E[l].1));
      assert ps[l] in ps;
    }
  }

  /** Each visible position whose value fails is logged. */
  lemma EnumLogComplete(c: Constraint, slots: seq<Option<int>>, uv: nat, u: nat, values: seq<int>, visible: seq<bool>, log: seq<Pruned>)
    requires |slots| == |c.Scope()| && |values| == |visible|
    requires log == SweepLog(c, slots, uv, u, EnumFrom(values, visible, 0))
    ensures forall j :: 0 <= j < |visible| && visible[j] && !c.Test(Fill(slots, uv, values[j])) ==> (u, j) in log
  {
    var E := EnumFrom(values, visible, 0);
    EnumIsPositions(values, visible, 0);
    PositionsSpec(visible, 0);
    var ps := Positions(visible, 0);
    LogComplete(c, slots, uv, u, E);
    forall j | 0 <= j < |visible| && visible[j] && !c.Test(Fill(slots, uv, values[j])) ensures (u, j) in log {
      assert j in ps;
      var l :| 0 <= l < |ps| && ps[l] == j;
      assert E[l].0 == j;
    }
  }

  /**
   * With exactly one unassigned scope variable `u`, `forward_check` hides
   * exactly the visible positions of `u` whose value fails the test with the
   * other slots at their assigned values, changes no other variable, logs
   * `(u, i)` for the hidden positions in increasing `i`, and reports a wipeout
   * exactly when `u` has no visible value left.
   */
  lemma ForwardCheckPrunes(c: Constraint, S: seq<Domain>)
    requires AllValid(S) && InScope(c, |S|) && |UnassignedOf(c, S)| == 1
    ensures var u := UnassignedOf(c, S)[0]; var r := ForwardCheckSpec(c, S);
      u < |S| && |r.doms| == |S| && AllValid(r.doms) &&
      (forall x :: 0 <= x < |S| && x != u ==> r.doms[x] == S[x]) &&
      r.doms[u].values == S[u].values && r.doms[u].assignment == S[u].assignment &&
      |r.doms[u].visible| == |S[u].visible|
    ensures var u := UnassignedOf(c, S)[0]; var r := ForwardCheckSpec(c, S);
      forall j :: 0 <= j < |S[u].visible| ==>
        (r.doms[u].visible[j] <==> S[u].visible[j] && Passes(c, S, S[u].values[j]))
    ensures var u := UnassignedOf(c, S)[0]; var r := ForwardCheckSpec(c, S);
      (forall k :: 0 <= k < |r.log| ==> r.log[k].0 == u && r.log[k].1 < |S[u].visible|) &&
      (forall k, k' :: 0 <= k < k' < |r.log| ==> r.log[k].1 < r.log[k'].1) &&
      (forall j :: 0 <= j < |S[u].visible| ==> ((u, j) in r.log <==> S[u].visible[j] && !Passes(c, S, S[u].values[j])))
    ensures var u := UnassignedOf(c, S)[0]; var r := ForwardCheckSpec(c, S);
      r.wipeout == Dwo <==> r.doms[u].Size() == 0
  {
    var u := UnassignedOf(c, S)[0];
    OneUnassignedSlot(c, S);
    EnumMask(c, Slots(c, S), FirstNone(Slots(c, S)).value, S[u].values, S[u].visible);
    EnumLogSound(c, Slots(c, S), FirstNone(Slots(c, S)).value, u, S[u].values, S[u].visible, ForwardCheckSpec(c, S).log);
    EnumLogComplete(c, Slots(c, S), FirstNone(Slots(c, S)).value, u, S[u].values, S[u].visible, ForwardCheckSpec(c, S).log);
  }

  /**
   * `forward_check` only hides positions, and its log names exactly the
   * positions it hid; with zero or several unassigned scope entries it
   * changes nothing and logs nothing.
   */
  lemma ForwardCheckFrame(c: Constraint, S: seq<Domain>)
    requires AllValid(S) && InScope(c, |S|)
    ensures var r := ForwardCheckSpec(c, S);
      AllValid(r.doms) && OnlyHides(S, r.doms) && LogsExactly(S, r.doms, r.log)
    ensures |UnassignedOf(c, S)| != 1 ==> ForwardCheckSpec(c, S) == Propagation(NoDwo, [], S)
  {
    if |UnassignedOf(c, S)| == 1 {
      ForwardCheckPrunes(c, S);
      var u := UnassignedOf(c, S)[0];
      var r := ForwardCheckSpec(c, S);
      forall k | 0 <= k < |r.log|
        ensures r.log[k].0 < |S| && r.log[k].1 < |S[r.log[k].0].visible| &&
          S[r.log[k].0].visible[r.log[k].1] && !r.doms[r.log[k].0].visible[r.log[k].1]
      {
        assert (u, r.log[k].1) in r.log;
      }
    }
  }

  /** `forward_check` keeps the number of variables and every mask as long as its values. */
  lemma ForwardCheckValid(c: Constraint, S: seq<Domain>)
    requires AllValid(S) && InScope(c, |S|)
    ensures AllValid(ForwardCheckSpec(c, S).doms) && |ForwardCheckSpec(c, S).doms| == |S|
  {
    if |UnassignedOf(c, S)| == 1 {
      OneUnassignedSlot(c, S);
    }
  }

  /** When every visible value of the one unassigned variable passes, `forward_check` prunes and logs nothing. */
  lemma ForwardCheckStable(c: Constraint, S: seq<Domain>)
    requires AllValid(S) && InScope(c, |S|) && |UnassignedOf(c, S)| == 1
    requires var u := UnassignedOf(c, S)[0];
      u < |S| && forall j :: 0 <= j < |S[u].visible| && S[u].visible[j] ==> Passes(c, S, S[u].values[j])
    ensures ForwardCheckSpec(c, S).doms == S && ForwardCheckSpec(c, S).log == []
  {
    ForwardCheckPrunes(c, S);
    ForwardCheckFrame(c, S);
    var u := UnassignedOf(c, S)[0];
    var r := ForwardCheckSpec(c, S);
    assert r.doms[u].visible == S[u].visible;
    assert r.doms[u] == S[u];
    assert r.doms == S;
    NothingHiddenNothingLogged(S, r.log);
  }

  /** A second `forward_check` with nothing changed in between prunes nothing and gives the same verdict. */
  lemma ForwardCheckIdempotent(c: Constraint, S: seq<Domain>)
    requires AllValid(S) && InScope(c, |S|)
    ensures var r := ForwardCheckSpec(c, S);
      AllValid(r.doms) && ForwardCheckSpec(c, r.doms) == Propagation(r.wipeout, [], r.doms)
  {
    ForwardCheckFrame(c, S);
    if |UnassignedOf(c, S)| == 1 {
      ForwardCheckKeepsPassing(c, S);
      ForwardCheckStable(c, ForwardCheckSpec(c, S).doms);
    }
  }

  /** After `forward_check`, its one unassigned variable is the same and every value it keeps passes. */
  lemma ForwardCheckKeepsPassing(c: Constraint, S: seq<Domain>)
    requires AllValid(S) && InScope(c, |S|) && |UnassignedOf(c, S)| == 1
    ensures var T := ForwardCheckSpec(c, S).doms;
      AllValid(T) && |T| == |S| && UnassignedOf(c, T) == UnassignedOf(c, S)
    ensures var T := ForwardCheckSpec(c, S).doms; var u := UnassignedOf(c, S)[0];
      u < |T| && forall j :: 0 <= j < |T[u].visible| && T[u].visible[j] ==> Passes(c, T, T[u].values[j])
  {
    ForwardCheckPrunes(c, S);
    var T := ForwardCheckSpec(c, S).doms;
    var u := UnassignedOf(c, S)[0];
    SameAssignmentsSameFilter(c.Scope(), S, T);
    assert Slots(c, T) == Slots(c, S);
    forall j | 0 <= j < |T[u].visible| && T[u].visible[j] ensures Passes(c, T, T[u].values[j]) {
      assert Passes(c, S, S[u].values[j]);
    }
  }

  /** The filter depends only on which variables are assigned. */
  lemma {:induction false} SameAssignmentsSameFilter(xs: seq<nat>, S: seq<Domain>, T: seq<Domain>)
    requires |S| == |T| && forall k :: 0 <= k < |xs| ==> xs[k] < |S|
    requires forall x :: 0 <= x < |S| ==> T[x].assignment == S[x].assignment
    ensures FilterUnassigned(xs, T) == FilterUnassigned(xs, S)
  {
    if xs != [] {
      SameAssignmentsSameFilter(xs[..|xs| - 1], S, T);
    }
  }

  // ---------------------------------------------------------------------------
  // check_feasible (cp_solver/base.py:150-155)
  // ---------------------------------------------------------------------------

  /** `itertools.product` of the columns, in its order. */
  function Product(cols: seq<seq<int>>): (ts: seq<seq<int>>)
    ensures forall k :: 0 <= k < |ts| ==> |ts[k]| == |cols|
    decreases |cols|
  {
    if cols == [] then [[]] else PrependEach(cols[0], Product(cols[1..]), |cols| - 1)
  }

  /** Every `[x] + t` for `x` in `xs` and `t` in `ts`, `x` varying slowest. */
  function PrependEach(xs: seq<int>, ts: seq<seq<int>>, n: nat): (r: seq<seq<int>>)
    requires forall k :: 0 <= k < |ts| ==> |ts[k]| == n
    ensures forall k :: 0 <= k < |r| ==> |r[k]| == n + 1
  {
    if xs == [] then []
    else seq(|ts|, k requires 0 <= k < |ts| => [xs[0]] + ts[k]) + PrependEach(xs[1..], ts, n)
  }

  /** What iterating each scope variable yields. */
  function Columns(c: Constraint, S: seq<Domain>): (cols: seq<seq<int>>)
    requires AllValid(S) && InScope(c, |S|)
    ensures |cols| == |c.Scope()|
  {
    seq(|c.Scope()|, k requires 0 <= k < |c.Scope()| => S[c.Scope()[k]].Iteration())
  }

  /** The loop of `check_feasible`: does some tuple pass the test. */
  function AnyPasses(c: Constraint, ts: seq<seq<int>>): bool
    requires forall k :: 0 <= k < |ts| ==> |ts[k]| == |c.Scope()|
  {
    if ts == [] then false else c.Test(ts[0]) || AnyPasses(c, ts[1..])
  }

  /** `check_feasible`. */
  function CheckFeasible(c: Constraint, S: seq<Domain>): bool
    requires AllValid(S) && InScope(c, |S|)
  {
    AnyPasses(c, Product(Columns(c, S)))
  }

  /** `t` takes its `k`-th entry from the `k`-th column. */
  predicate InColumns(t: seq<int>, cols: seq<seq<int>>) {
    |t| == |cols| && forall k :: 0 <= k < |t| ==> t[k] in cols[k]
  }

  lemma {:induction false} PrependEachMembership(xs: seq<int>, ts: seq<seq<int>>, n: nat, t: seq<int>)
    requires forall k :: 0 <= k < |ts| ==> |ts[k]| == n
    ensures t in PrependEach(xs, ts, n) <==> |t| > 0 && t[0] in xs && t[1..] in ts
  {
    if xs != [] {
      PrependEachMembership(xs[1..], ts, n, t);
      var head := seq(|ts|, k requires 0 <= k < |ts| => [xs[0]] + ts[k]);
      if t in head {
        var k :| 0 <= k < |ts| && head[k] == t;
        assert t[1..] == ts[k];
      }
      if |t| > 0 && t[0] == xs[0] && t[1..] in ts {
        var k :| 0 <= k < |ts| && ts[k] == t[1..];
        assert head[k] == t;
      }
    }
  }

  /** The product holds exactly the tuples that take each entry from its column. */
  lemma {:induction false} ProductMembership(cols: seq<seq<int>>, t: seq<int>)
    ensures t in Product(cols) <==> InColumns(t, cols)
    decreases |cols|
  {
    if cols == [] {
    } else {
      PrependEachMembership(cols[0], Product(cols[1..]), |cols| - 1, t);
      if |t| > 0 {
        ProductMembership(cols[1..], t[1..]);
        if InColumns(t, cols) {
          assert InColumns(t[1..], cols[1..]) by {
            forall k | 0 <= k < |t[1..]| ensures t[1..][k] in cols[1..][k] {
              assert t[k + 1] in cols[k + 1];
            }
          }
        }
        if t[0] in cols[0] && InColumns(t[1..], cols[1..]) {
          forall k | 0 <= k < |t| ensures t[k] in cols[k] {
            if k > 0 {
              assert t[1..][k - 1] in cols[1..][k - 1];
            }
          }
        }
      }
    }
  }

  lemma {:induction false} AnyPassesSpec(c: Constraint, ts: seq<seq<int>>)
    requires forall k :: 0 <= k < |ts| ==> |ts[k]| == |c.Scope()|
    ensures AnyPasses(c, ts) <==> exists k :: 0 <= k < |ts| && c.Test(ts[k])
  {
    if ts != [] {
      AnyPassesSpec(c, ts[1..]);
      if exists k :: 0 <= k < |ts| && c.Test(ts[k]) {
        var k :| 0 <= k < |ts| && c.Test(ts[k]);
        if k > 0 {
          assert ts[1..][k - 1] == ts[k];
        }
      }
    }
  }

  /**
   * `check_feasible` holds exactly when some tuple drawing each entry from
   * what its scope variable currently iterates passes the test.
   */
  lemma CheckFeasibleSpec(c: Constraint, S: seq<Domain>)
    requires AllValid(S) && InScope(c, |S|)
    ensures CheckFeasible(c, S) <==>
      exists t :: InColumns(t, Columns(c, S)) && |t| == |c.Scope()| && c.Test(t)
  {
    var cols := Columns(c, S);
    var ts := Product(cols);
    AnyPassesSpec(c, ts);
    if CheckFeasible(c, S) {
      var k :| 0 <= k < |ts| && c.Test(ts[k]);
      ProductMembership(cols, ts[k]);
    }
    if exists t :: InColumns(t, cols) && |t| == |c.Scope()| && c.Test(t) {
      var t :| InColumns(t, cols) && |t| == |c.Scope()| && c.Test(t);
      ProductMembership(cols, t);
      var k :| 0 <= k < |ts| && ts[k] == t;
    }
  }

  /** The scope's assigned values, in scope order. */
  function AssignedTuple(c: Constraint, S: seq<Domain>): (t: seq<int>)
    requires InScope(c, |S|)
    ensures |t| == |c.Scope()|
  {
    seq(|c.Scope()|, k requires 0 <= k < |c.Scope()| => S[c.Scope()[k]].assignment.GetOr(0))
  }

  /** With the whole scope assigned, `check_feasible` is the test of the assigned values. */
  lemma CheckFeasibleAssigned(c: Constraint, S: seq<Domain>)
    requires AllValid(S) && InScope(c, |S|) && UnassignedOf(c, S) == []
    ensures CheckFeasible(c, S) <==> c.Test(AssignedTuple(c, S))
  {
    NoneUnassigned(c.Scope(), S);
    CheckFeasibleSpec(c, S);
    var cols := Columns(c, S);
    var a := AssignedTuple(c, S);
    assert InColumns(a, cols);
    forall t | InColumns(t, cols) ensures t == a {
      forall k | 0 <= k < |t| ensures t[k] == a[k] {
        assert t[k] in cols[k];
      }
    }
  }
}
