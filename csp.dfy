/**
 * The problem container `CSP` of cp_solver/base.py: a list of variables, a
 * list of constraints and, per variable, the list of constraints whose scope
 * names it. Variables are known by their index in `vars`, so the dictionary
 * keyed by variable object becomes a map keyed by index.
 */
module Csps {
  import opened Wrappers
  import opened Domains
  import opened Variables
  import opened Constraints

  /** How often `k` occurs in `xs`. */
  function Count(xs: seq<nat>, k: nat): (n: nat)
    ensures n <= |xs|
  {
    if xs == [] then 0
    else Count(xs[..|xs| - 1], k) + (if xs[|xs| - 1] == k then 1 else 0)
  }

  /** `n` copies of `c`. */
  function Repeat(c: Constraint, n: nat): (r: seq<Constraint>)
    ensures |r| == n && forall j :: 0 <= j < n ==> r[j] == c
  {
    seq(n, _ => c)
  }

  /**
   * The list the source keeps for variable `k` once every constraint of
   * `cons` has been registered: each constraint once per occurrence of `k`
   * in its scope, in registration order.
   */
  function Involving(cons: seq<Constraint>, k: nat): seq<Constraint> {
    if cons == [] then []
    else Involving(cons[..|cons| - 1], k) + Repeat(cons[|cons| - 1], Count(cons[|cons| - 1].Scope(), k))
  }

  /**
   * A constraint is in `Involving(cons, k)` exactly when it is one of `cons`
   * whose scope names `k`.
   */
  lemma {:induction false} InvolvingSpec(cons: seq<Constraint>, k: nat)
    ensures forall c :: c in Involving(cons, k) <==> c in cons && k in c.Scope()
  {
    if cons != [] {
      var init := cons[..|cons| - 1];
      var last := cons[|cons| - 1];
      InvolvingSpec(init, k);
      CountZero(last.Scope(), k);
      assert cons == init + [last];
      forall c ensures c in Involving(cons, k) <==> c in cons && k in c.Scope() {
        if c in Repeat(last, Count(last.Scope(), k)) {
          assert c == last;
        }
        if c == last && k in c.Scope() {
          assert Repeat(last, Count(last.Scope(), k))[0] == c;
        }
      }
    }
  }

  /** Registering one more constraint extends each list by its occurrences. */
  lemma InvolvingAppend(cons: seq<Constraint>, c: Constraint, k: nat)
    ensures Involving(cons + [c], k) == Involving(cons, k) + Repeat(c, Count(c.Scope(), k))
  {
    assert (cons + [c])[..|cons|] == cons;
  }

  /** How often `k` occurs in `xs` is zero exactly when it does not occur. */
  lemma {:induction false} CountZero(xs: seq<nat>, k: nat)
    ensures Count(xs, k) == 0 <==> k !in xs
  {
    if xs != [] {
      CountZero(xs[..|xs| - 1], k);
      assert xs == xs[..|xs| - 1] + [xs[|xs| - 1]];
    }
  }

  /** `m` after appending `c` to the list of each entry of `xs`, in order. */
  function AppendEach(m: map<nat, seq<Constraint>>, c: Constraint, xs: seq<nat>): (r: map<nat, seq<Constraint>>)
    requires forall j :: 0 <= j < |xs| ==> xs[j] in m
    ensures r.Keys == m.Keys
  {
    if xs == [] then m
    else
      var prev := AppendEach(m, c, xs[..|xs| - 1]);
      prev[xs[|xs| - 1] := prev[xs[|xs| - 1]] + [c]]
  }

  /** Each list grows by one copy of `c` per occurrence of its key in `xs`. */
  lemma {:induction false} AppendEachSpec(m: map<nat, seq<Constraint>>, c: Constraint, xs: seq<nat>)
    requires forall j :: 0 <= j < |xs| ==> xs[j] in m
    ensures forall k :: k in m ==> AppendEach(m, c, xs)[k] == m[k] + Repeat(c, Count(xs, k))
  {
    if xs != [] {
      AppendEachSpec(m, c, xs[..|xs| - 1]);
    }
  }

  /** The position of the first scope entry outside `keys`. */
  function FirstUnknownKey(scope: seq<nat>, keys: set<nat>): (f: nat)
    ensures f <= |scope| && (forall j :: 0 <= j < f ==> scope[j] in keys) && (f < |scope| ==> scope[f] !in keys)
  {
    if scope == [] || scope[0] !in keys then 0 else 1 + FirstUnknownKey(scope[1..], keys)
  }

  /** No constraint scoped over fewer than `n` variables involves variable `n` or above. */
  lemma {:induction false} InvolvingNone(cons: seq<Constraint>, n: nat, k: nat)
    requires forall j :: 0 <= j < |cons| ==> InScope(cons[j], n)
    requires n <= k
    ensures Involving(cons, k) == []
  {
    if cons != [] {
      InvolvingNone(cons[..|cons| - 1], n, k);
      CountZero(cons[|cons| - 1].Scope(), k);
    }
  }

  /**
   * The loop of `add_constraint` over the scope: append `c` to the list of
   * each scope entry in turn, stopping at the first entry with no list.
   */
  method AppendToLists(m: map<nat, seq<Constraint>>, c: Constraint) returns (ok: bool, r: map<nat, seq<Constraint>>)
    ensures ok <==> forall j :: 0 <= j < |c.Scope()| ==> c.Scope()[j] in m
    ensures r == AppendEach(m, c, c.Scope()[..FirstUnknownKey(c.Scope(), m.Keys)])
  {
    var scope := c.Scope();
    ghost var n := FirstUnknownKey(scope, m.Keys);
    r := m;
    for i := 0 to |scope|
      invariant i <= n
      invariant r == AppendEach(m, c, scope[..i])
    {
      var v: nat := scope[i];
      if v !in r {
        UnknownKeyFound(scope, m.Keys, i);
        return false, r;
      }
      AppendEachSnoc(m, c, scope, i);
      r := r[v := r[v] + [c]];
    }
    assert scope[..|scope|] == scope;
    return true, r;
  }

  /** Appending along one more scope entry updates that entry's list last. */
  lemma AppendEachSnoc(m: map<nat, seq<Constraint>>, c: Constraint, scope: seq<nat>, i: nat)
    requires i < |scope| && forall j :: 0 <= j <= i ==> scope[j] in m
    ensures var prev := AppendEach(m, c, scope[..i]);
      scope[i] in prev && AppendEach(m, c, scope[..i + 1]) == prev[scope[i] := prev[scope[i]] + [c]]
  {
    assert scope[..i + 1][..i] == scope[..i];
  }

  /** The first scope entry found missing from `keys`, with none missing before it, is the one FirstUnknownKey names. */
  lemma UnknownKeyFound(scope: seq<nat>, keys: set<nat>, i: nat)
    requires i <= FirstUnknownKey(scope, keys) && i < |scope| && scope[i] !in keys
    ensures FirstUnknownKey(scope, keys) == i
  {
  }

  /** A list of constraints over known variables stays so after appending one more. */
  lemma ScopedSnoc(cons: seq<Constraint>, c: Constraint, n: nat)
    requires InScope(c, n) && forall j :: 0 <= j < |cons| ==> InScope(cons[j], n)
    ensures forall j :: 0 <= j < |cons + [c]| ==> InScope((cons + [c])[j], n)
  {
    forall j | 0 <= j < |cons + [c]| ensures InScope((cons + [c])[j], n) {
      if j < |cons| {
        assert (cons + [c])[j] == cons[j];
      }
    }
  }

  /** Appending a constraint over known variables keeps every listed constraint over known variables. */
  lemma AppendedScoped(m: map<nat, seq<Constraint>>, r: map<nat, seq<Constraint>>, c: Constraint, n: nat)
    requires InScope(c, n) && r.Keys == m.Keys
    requires forall k, j :: k in m && 0 <= j < |m[k]| ==> InScope(m[k][j], n)
    requires forall k :: k in m ==> r[k] == m[k] + Repeat(c, Count(c.Scope(), k))
    ensures forall k, j :: k in r && 0 <= j < |r[k]| ==> InScope(r[k][j], n)
  {
    forall k, j | k in r && 0 <= j < |r[k]| ensures InScope(r[k][j], n) {
      if j >= |m[k]| {
        assert r[k][j] == c;
      } else {
        assert r[k][j] == m[k][j];
      }
    }
  }

  /** Appending a constraint to the lists registered for `cons` gives the lists registered for `cons + [c]`. */
  lemma AppendedRegistered(cons: seq<Constraint>, m: map<nat, seq<Constraint>>, r: map<nat, seq<Constraint>>, c: Constraint, n: nat)
    requires forall k :: 0 <= k < n ==> k in m && m[k] == Involving(cons, k)
    requires forall k :: k in m ==> k in r && r[k] == m[k] + Repeat(c, Count(c.Scope(), k))
    ensures forall k :: 0 <= k < n ==> r[k] == Involving(cons + [c], k)
  {
    forall k | 0 <= k < n ensures r[k] == Involving(cons + [c], k) {
      InvolvingAppend(cons, c, k);
    }
  }

  class CSP {
    var vars: seq<Variable>
    var cons: seq<Constraint>
    var byVar: map<nat, seq<Constraint>>

    /** Distinct variables, one list per variable, and every listed constraint scoped over known variables. */
    ghost predicate Valid()
      reads this
    {
      DistinctVars(vars) &&
      (forall k: nat :: k in byVar <==> k < |vars|) &&
      (forall j :: 0 <= j < |cons| ==> InScope(cons[j], |vars|)) &&
      (forall k, j :: k in byVar && 0 <= j < |byVar[k]| ==> InScope(byVar[k][j], |vars|))
    }

    /** Every list holds exactly what registering `cons` in order puts there. */
    ghost predicate Registered()
      reads this
    {
      Valid() && forall k :: 0 <= k < |vars| ==> byVar[k] == Involving(cons, k)
    }

    /** The states of the variables, in CSP order. */
    function States(): seq<Domain>
      reads this, vars
    {
      Doms(vars)
    }

    /** `CSP(variables)`: registers each variable in turn. */
    constructor (vs: seq<Variable>)
      requires DistinctVars(vs)
      ensures Registered() && vars == vs && cons == []
      ensures forall k :: 0 <= k < |vs| ==> byVar[k] == []
    {
      vars := [];
      cons := [];
      byVar := map[];
      new;
      for i := 0 to |vs|
        invariant Registered() && vars == vs[..i] && cons == []
        invariant forall k :: 0 <= k < i ==> byVar[k] == []
      {
        AddVariable(vs[i]);
      }
    }

    /** `add_variable`: append the variable and give it an empty constraint list. */
    method AddVariable(v: Variable)
      requires Valid() && v !in vars
      modifies this
      ensures Valid() && vars == old(vars) + [v] && cons == old(cons)
      ensures byVar == old(byVar)[|old(vars)| := []]
      ensures old(Registered()) ==> Registered()
    {
      InvolvingNone(cons, |vars|, |vars|);
      byVar := byVar[|vars| := []];
      vars := vars + [v];
    }

    /**
     * `add_constraint`: append `c` to the list of each scope variable, once
     * per occurrence, then to the constraints. `ok` is false where the source
     * raises RuntimeError for a scope entry naming no known variable; the
     * entries before it have then already been appended.
     */
    method AddConstraint(c: Constraint) returns (ok: bool)
      requires Valid()
      modifies this
      ensures vars == old(vars) && byVar.Keys == old(byVar).Keys
      ensures ok <==> InScope(c, |vars|)
      ensures ok ==> Valid() && cons == old(cons) + [c]
      ensures ok ==> forall k :: k in byVar ==> byVar[k] == old(byVar)[k] + Repeat(c, Count(c.Scope(), k))
      ensures ok && old(Registered()) ==> Registered()
      ensures !ok ==> cons == old(cons)
      ensures !ok ==> forall k :: k in byVar ==>
        byVar[k] == old(byVar)[k] + Repeat(c, Count(c.Scope()[..FirstUnknownKey(c.Scope(), old(byVar).Keys)], k))
    {
      ghost var m := byVar;
      ghost var n := FirstUnknownKey(c.Scope(), m.Keys);
      ok, byVar := AppendToLists(byVar, c);
      AppendEachSpec(m, c, c.Scope()[..n]);
      if !ok {
        return;
      }
      assert c.Scope()[..n] == c.Scope();
      ghost var wasRegistered := forall k :: 0 <= k < |vars| ==> m[k] == Involving(cons, k);
      AppendedScoped(m, byVar, c, |vars|);
      if wasRegistered {
        AppendedRegistered(cons, m, byVar, c, |vars|);
      }
      ScopedSnoc(cons, c, |vars|);
      cons := cons + [c];
    }
    /** `constraints()`: a copy of the constraint list. */
    method Constraints() returns (r: seq<Constraint>)
      ensures r == cons
    {
      r := cons;
    }

    /** `variables()`: a copy of the variable list. */
    method Variables() returns (r: seq<Variable>)
      ensures r == vars
    {
      r := vars;
    }

    /**
     * `constraints_involving_variable`: a copy of the variable's list; None
     * where the source raises KeyError for an unknown variable. Once every
     * constraint is registered, the list holds exactly the constraints whose
     * scope names the variable.
     */
    method ConstraintsInvolving(k: nat) returns (r: Option<seq<Constraint>>)
      ensures r.None? <==> k !in byVar
      ensures r.Some? ==> r.value == byVar[k]
      ensures Registered() && k < |vars| ==> r.Some? && forall c :: c in r.value <==> c in cons && k in c.Scope()
    {
      if k !in byVar {
        return None;
      }
      r := Some(byVar[k]);
      if Registered() && k < |vars| {
        InvolvingSpec(cons, k);
      }
    }
  }
}
