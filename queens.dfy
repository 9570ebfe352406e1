/**
 * The n-queens encoding of examples/queens.py as a concrete instance: one
 * variable per column with domain `range(n)`, and for each pair of columns
 * `i < j` a row constraint and the two diagonal constraints, registered in
 * the loop order of `solve`. With `ForwardCheck`, any solution `search`
 * returns places no two queens on a row or a diagonal.
 */
module Queens {
  import opened Wrappers
  import opened Domains
  import opened Constraints
  import opened Csps
  import opened Propagators
  import opened SearchModel
  import opened Soundness

  /** `list(range(n))`. */
  function Range(n: nat): (r: seq<int>)
    ensures |r| == n && forall i :: 0 <= i < n ==> r[i] == i
  {
    seq(n, i => i)
  }

  /** The three constraints `solve` adds for columns `i < j`. */
  function PairCons(i: nat, j: nat): seq<Constraint> {
    [Different(i, j),
     Function([i, j], t => |t| != 2 || t[0] != t[1] + (j - i)),
     Function([i, j], t => |t| != 2 || t[0] != t[1] - (j - i))]
  }

  /** The inner loop of `solve` for column `i`, from column `j` on. */
  function InnerCons(i: nat, j: nat, n: nat): seq<Constraint>
    decreases n - j
  {
    if j >= n then [] else PairCons(i, j) + InnerCons(i, j + 1, n)
  }

  /** The outer loop of `solve`, from column `i` on. */
  function OuterCons(i: nat, n: nat): seq<Constraint>
    decreases n - i
  {
    if i >= n then [] else InnerCons(i, i + 1, n) + OuterCons(i + 1, n)
  }

  /** Every constraint `solve` registers, in order. */
  function QueensCons(n: nat): seq<Constraint> {
    OuterCons(0, n)
  }

  /** The columns' initial states: `Variable(range(n))` each. */
  function QueensDomains(n: nat): (S: seq<Domain>)
    ensures |S| == n
  {
    seq(n, _ => Fresh(Range(n)))
  }

  /** What a `CSP` built by `solve` lists per variable. */
  function QueensByVar(n: nat): map<nat, seq<Constraint>> {
    map k: nat | k < n :: Involving(QueensCons(n), k)
  }

  /** The setup `BacktrackSearch(csp, ForwardCheck())` of `solve` presents. */
  function QueensSetup(n: nat): Setup {
    Setup(ForwardCheck, QueensCons(n), QueensByVar(n))
  }

  /** `c` is over two columns, the first before the second, both below `n`. */
  predicate PairScoped(c: Constraint, n: nat) {
    |c.Scope()| == 2 && c.Scope()[0] < c.Scope()[1] < n
  }

  /** Every constraint of the inner loop is over two columns `i < j` below `n`. */
  lemma {:induction false} InnerShape(i: nat, j: nat, n: nat)
    requires i < j
    ensures forall k :: 0 <= k < |InnerCons(i, j, n)| ==>
      PairScoped(InnerCons(i, j, n)[k], n) && InnerCons(i, j, n)[k].Scope()[0] == i
    decreases n - j
  {
    if j < n {
      InnerShape(i, j + 1, n);
      var A, B := PairCons(i, j), InnerCons(i, j + 1, n);
      forall k | 0 <= k < |A + B| ensures PairScoped((A + B)[k], n) && (A + B)[k].Scope()[0] == i {
        if k >= |A| {
          assert (A + B)[k] == B[k - |A|];
        }
      }
    }
  }

  /** Every constraint of the outer loop is over two columns below `n`, the first before the second. */
  lemma {:induction false} OuterShape(i: nat, n: nat)
    ensures forall k :: 0 <= k < |OuterCons(i, n)| ==> PairScoped(OuterCons(i, n)[k], n)
    decreases n - i
  {
    if i < n {
      InnerShape(i, i + 1, n);
      OuterShape(i + 1, n);
      var A, B := InnerCons(i, i + 1, n), OuterCons(i + 1, n);
      forall k | 0 <= k < |A + B| ensures PairScoped((A + B)[k], n) {
        if k < |A| {
          assert (A + B)[k] == A[k];
        } else {
          assert (A + B)[k] == B[k - |A|];
        }
      }
    }
  }

  /** The three constraints for `i < j` are among those of the inner loop from any column up to `j`. */
  lemma {:induction false} InnerHas(i: nat, j0: nat, j: nat, n: nat)
    requires j0 <= j < n
    ensures forall c :: c in PairCons(i, j) ==> c in InnerCons(i, j0, n)
    decreases j - j0
  {
    if j0 < j {
      InnerHas(i, j0 + 1, j, n);
    }
  }

  /** The three constraints for `i < j < n` are among those `solve` registers. */
  lemma {:induction false} OuterHas(i0: nat, i: nat, j: nat, n: nat)
    requires i0 <= i < j < n
    ensures forall c :: c in PairCons(i, j) ==> c in OuterCons(i0, n)
    decreases i - i0
  {
    if i0 < i {
      OuterHas(i0 + 1, i, j, n);
    } else {
      InnerHas(i, i + 1, j, n);
    }
  }

  /**
   * The queens problem meets what soundness needs: scopes over known
   * columns, non-empty and without repeats, identity values, and per-column
   * lists of constraints over known columns.
   */
  lemma QueensWellFormed(n: nat)
    ensures AllValid(QueensDomains(n)) && IdentityValues(QueensDomains(n))
    ensures Fits(QueensSetup(n), n) && WellScoped(QueensCons(n))
  {
    var cons := QueensCons(n);
    OuterShape(0, n);
    assert WellScoped(cons);
    forall k, j | k in QueensByVar(n) && 0 <= j < |QueensByVar(n)[k]| ensures InScope(QueensByVar(n)[k][j], n) {
      InvolvingSpec(cons, k);
      assert QueensByVar(n)[k][j] in Involving(cons, k);
    }
    var S := QueensDomains(n);
    forall x | 0 <= x < n ensures S[x].Valid() {
      CountAllVisible(n);
    }
  }

  /** Queens in columns `i` and `j` at rows `vals[i]`, `vals[j]` share no row and no diagonal. */
  predicate NoAttack(vals: seq<int>, i: nat, j: nat)
    requires i < j < |vals|
  {
    vals[i] != vals[j] && vals[i] != vals[j] + (j - i) && vals[i] != vals[j] - (j - i)
  }

  /** The three constraints for `i < j` hold of `vals` exactly when the two queens share no row and no diagonal. */
  lemma PairTests(i: nat, j: nat, vals: seq<int>)
    requires i < j < |vals|
    ensures (forall m :: 0 <= m < 3 ==> PairCons(i, j)[m].Test(Restrict(PairCons(i, j)[m], vals))) <==> NoAttack(vals, i, j)
  {
    var pc := PairCons(i, j);
    forall m | 0 <= m < 3 ensures Restrict(pc[m], vals) == [vals[i], vals[j]] {
    }
    assert pc[0].Test([vals[i], vals[j]]) <==> vals[i] != vals[j];
    assert pc[1].Test([vals[i], vals[j]]) <==> vals[i] != vals[j] + (j - i);
    assert pc[2].Test([vals[i], vals[j]]) <==> vals[i] != vals[j] - (j - i);
  }

  /** A constraint among those all of which `vals` satisfies is satisfied by `vals`. */
  lemma MemberHolds(cons: seq<Constraint>, c: Constraint, vals: seq<int>)
    requires forall k :: 0 <= k < |cons| ==> InScope(cons[k], |vals|)
    requires forall k :: 0 <= k < |cons| ==> cons[k].Test(Restrict(cons[k], vals))
    requires c in cons
    ensures InScope(c, |vals|) && c.Test(Restrict(c, vals))
  {
    var k :| 0 <= k < |cons| && cons[k] == c;
  }

  /** Values that satisfy every constraint of `solve(n)` place no two queens on a row or a diagonal. */
  lemma SatisfiesAll(n: nat, vals: seq<int>)
    requires |vals| == n
    requires forall k :: 0 <= k < |QueensCons(n)| ==> InScope(QueensCons(n)[k], n)
    requires forall k :: 0 <= k < |QueensCons(n)| ==> QueensCons(n)[k].Test(Restrict(QueensCons(n)[k], vals))
    ensures forall i, j :: 0 <= i < j < n ==> NoAttack(vals, i, j)
  {
    var cons := QueensCons(n);
    forall i, j | 0 <= i < j < n ensures NoAttack(vals, i, j) {
      OuterHas(0, i, j, n);
      forall m | 0 <= m < 3 ensures PairCons(i, j)[m].Test(Restrict(PairCons(i, j)[m], vals)) {
        MemberHolds(cons, PairCons(i, j)[m], vals);
      }
      PairTests(i, j, vals);
    }
  }

  /**
   * `solve(n)` with `ForwardCheck`: a returned solution gives one row per
   * column, and no two columns share a row or a diagonal.
   */
  lemma QueensSound(n: nat)
    requires (QueensWellFormed(n); Search(QueensSetup(n), QueensDomains(n)).0.Solution?)
    ensures |Search(QueensSetup(n), QueensDomains(n)).0.values| == n
    ensures forall i, j :: 0 <= i < j < n ==> NoAttack(Search(QueensSetup(n), QueensDomains(n)).0.values, i, j)
  {
    QueensWellFormed(n);
    var P, S0 := QueensSetup(n), QueensDomains(n);
    SearchSound(P, S0);
    SatisfiesAll(n, Search(P, S0).0.values);
  }
}
