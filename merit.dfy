/** The bookkeeping of `System.optimize` around the external solver:
    reading and writing the free parameters, splitting the constraints by
    their `equality` flag, and assembling the objective vector from the
    weighted demerit outputs. The solver itself is opaque. */
module Merit {
  import opened Optics
  import opened Propagation

  /** A free parameter: an accessor pair on the system, bounds and a scale. */
  type Parameter(==, !new)

  /** A demerit term with a weight. */
  type Demerit(==, !new)

  /** A constraint term, flagged as an equality or an inequality. */
  type Constraint(==, !new)

  /** What the optimisation caller supplies: parameter accessors, demerit
      and constraint terms, and the paraxial trace of a system state. */
  datatype Terms = Terms(
    getValue: (Parameter, Snapshot) -> real,
    setValue: (Parameter, Snapshot, real) -> Snapshot,
    bounds: Parameter -> (real, real),
    scale: Parameter -> real,
    demerit: (Demerit, Snapshot, Trace, seq<Rays>) -> seq<real>,
    weight: Demerit -> real,
    constraint: (Constraint, Snapshot) -> seq<real>,
    equality: Constraint -> bool,
    paraxialTrace: Snapshot -> Trace)

  // ---------------------------------------------------------------------
  // Parameters

  /** `[p.get_value(self) for p in parameters]`. */
  function Values(terms: Terms, ps: seq<Parameter>, s: Snapshot): (x: seq<real>)
    ensures |x| == |ps|
    ensures forall i :: 0 <= i < |ps| ==> x[i] == terms.getValue(ps[i], s)
  {
    if ps == [] then [] else [terms.getValue(ps[0], s)] + Values(terms, ps[1..], s)
  }

  /** `for i, p in enumerate(parameters): p.set_value(self, x[i])`, in order.
      Under the accessor laws, parameters outside the list keep their values. */
  function SetAll(terms: Terms, s: Snapshot, ps: seq<Parameter>, x: seq<real>): (r: Snapshot)
    requires |ps| <= |x|
    ensures Lawful(terms) ==> forall q :: q !in ps ==> terms.getValue(q, r) == terms.getValue(q, s)
    decreases |ps|
  {
    if ps == [] then s
    else
      assert forall q :: q !in ps ==> q != ps[0] && q !in ps[1..];
      LawfulIndependent(terms, ps[0], s, x[0]);
      SetAll(terms, terms.setValue(ps[0], s, x[0]), ps[1..], x[1..])
  }

  /** The accessor laws a well-behaved parameter set obeys: reading what was
      written, writing what was read changes nothing, and writing one
      parameter does not disturb another. */
  ghost predicate Lawful(terms: Terms)
  {
    && (forall p, s, v :: terms.getValue(p, terms.setValue(p, s, v)) == v)
    && (forall p, s :: terms.setValue(p, s, terms.getValue(p, s)) == s)
    && (forall p, q, s, v :: p != q ==> terms.getValue(q, terms.setValue(p, s, v)) == terms.getValue(q, s))
  }

  lemma LawfulIndependent(terms: Terms, p: Parameter, s: Snapshot, v: real)
    ensures Lawful(terms) ==>
              forall q :: q != p ==> terms.getValue(q, terms.setValue(p, s, v)) == terms.getValue(q, s)
  {
  }

  predicate Distinct(ps: seq<Parameter>)
  {
    forall i, j :: 0 <= i < j < |ps| ==> ps[i] != ps[j]
  }

  /** Writing a vector and reading the parameters back gives the vector. */
  lemma {:induction false} WriteThenRead(terms: Terms, s: Snapshot, ps: seq<Parameter>, x: seq<real>)
    requires Lawful(terms) && Distinct(ps) && |ps| <= |x|
    ensures Values(terms, ps, SetAll(terms, s, ps, x)) == x[..|ps|]
    decreases |ps|
  {
    if ps != [] {
      var s1 := terms.setValue(ps[0], s, x[0]);
      WriteThenRead(terms, s1, ps[1..], x[1..]);
      assert ps[0] !in ps[1..];
      var r := Values(terms, ps, SetAll(terms, s, ps, x));
      forall i | 0 <= i < |ps|
        ensures r[i] == x[i]
      {
        if i > 0 {
          assert r[i] == Values(terms, ps[1..], SetAll(terms, s1, ps[1..], x[1..]))[i - 1];
        }
      }
    }
  }

  /** Writing back the values just read leaves the system as it was. */
  lemma {:induction false} WriteBackInitial(terms: Terms, s: Snapshot, ps: seq<Parameter>)
    requires Lawful(terms)
    ensures SetAll(terms, s, ps, Values(terms, ps, s)) == s
  {
    if ps != [] {
      var x := Values(terms, ps, s);
      assert terms.setValue(ps[0], s, x[0]) == s;
      assert x[1..] == Values(terms, ps[1..], s);
      WriteBackInitial(terms, s, ps[1..]);
    }
  }

  // ---------------------------------------------------------------------
  // Constraints

  /** `[c for c in constraints if c.equality]`. */
  function Equalities(terms: Terms, cs: seq<Constraint>): (r: seq<Constraint>)
    ensures |r| <= |cs|
  {
    if cs == [] then []
    else (if terms.equality(cs[0]) then [cs[0]] else []) + Equalities(terms, cs[1..])
  }

  /** `[c for c in constraints if not c.equality]`. */
  function Inequalities(terms: Terms, cs: seq<Constraint>): (r: seq<Constraint>)
    ensures |r| <= |cs|
  {
    if cs == [] then []
    else (if terms.equality(cs[0]) then [] else [cs[0]]) + Inequalities(terms, cs[1..])
  }

  /** Both groups keep the order of the constraints: filtering a
      concatenation filters each part. */
  lemma {:induction false} PartitionKeepsOrder(terms: Terms, a: seq<Constraint>, b: seq<Constraint>)
    ensures Equalities(terms, a + b) == Equalities(terms, a) + Equalities(terms, b)
    ensures Inequalities(terms, a + b) == Inequalities(terms, a) + Inequalities(terms, b)
  {
    if a == [] {
      assert a + b == b;
    } else {
      var t := a[1..];
      assert (a + b)[0] == a[0] && (a + b)[1..] == t + b;
      PartitionKeepsOrder(terms, t, b);
      var e: seq<Constraint> := if terms.equality(a[0]) then [a[0]] else [];
      var q: seq<Constraint> := if terms.equality(a[0]) then [] else [a[0]];
      assert Equalities(terms, a + b) == e + (Equalities(terms, t) + Equalities(terms, b));
      assert Inequalities(terms, a + b) == q + (Inequalities(terms, t) + Inequalities(terms, b));
    }
  }

  /** Every constraint in a group comes from the list and carries that
      group's flag. */
  lemma {:induction false} PartitionFlags(terms: Terms, cs: seq<Constraint>)
    ensures forall c :: c in Equalities(terms, cs) ==> c in cs && terms.equality(c)
    ensures forall c :: c in Inequalities(terms, cs) ==> c in cs && !terms.equality(c)
  {
    if cs != [] {
      PartitionFlags(terms, cs[1..]);
    }
  }

  /** The two groups together hold every constraint exactly once. */
  lemma {:induction false} PartitionExact(terms: Terms, cs: seq<Constraint>)
    ensures multiset(Equalities(terms, cs)) + multiset(Inequalities(terms, cs)) == multiset(cs)
    ensures |Equalities(terms, cs)| + |Inequalities(terms, cs)| == |cs|
  {
    if cs != [] {
      var c, rest := cs[0], cs[1..];
      var e, q := Equalities(terms, rest), Inequalities(terms, rest);
      PartitionExact(terms, rest);
      assert cs == [c] + rest;
      assert multiset(cs) == multiset{c} + multiset(rest);
      if terms.equality(c) {
        assert Equalities(terms, cs) == [c] + e && Inequalities(terms, cs) == q;
        assert multiset([c] + e) == multiset{c} + multiset(e);
      } else {
        assert Equalities(terms, cs) == e && Inequalities(terms, cs) == [c] + q;
        assert multiset([c] + q) == multiset{c} + multiset(q);
      }
    }
  }

  /** A group is empty exactly when no constraint carries its flag. */
  lemma {:induction false} EmptyGroups(terms: Terms, cs: seq<Constraint>)
    ensures Equalities(terms, cs) == [] <==> forall i :: 0 <= i < |cs| ==> !terms.equality(cs[i])
    ensures Inequalities(terms, cs) == [] <==> forall i :: 0 <= i < |cs| ==> terms.equality(cs[i])
  {
    if cs != [] {
      EmptyGroups(terms, cs[1..]);
      assert forall i :: 1 <= i < |cs| ==> cs[i] == cs[1..][i - 1];
    }
  }

  // ---------------------------------------------------------------------
  // Concatenated output vectors

  function TotalLength(vs: seq<seq<real>>): nat
  {
    if vs == [] then 0 else |vs[0]| + TotalLength(vs[1..])
  }

  /** `np.concatenate(vs)` for a non-empty list. */
  function Flatten(vs: seq<seq<real>>): (r: seq<real>)
    ensures |r| == TotalLength(vs)
  {
    if vs == [] then [] else vs[0] + Flatten(vs[1..])
  }

  lemma {:induction false} TotalLengthPrefix(vs: seq<seq<real>>, i: nat)
    requires i < |vs|
    ensures TotalLength(vs[..i + 1]) == TotalLength(vs[..i]) + |vs[i]|
    ensures TotalLength(vs[..i]) + |vs[i]| <= TotalLength(vs)
  {
    if i > 0 {
      TotalLengthPrefix(vs[1..], i - 1);
      assert vs[..i + 1][1..] == vs[1..][..i];
      assert vs[..i][1..] == vs[1..][..i - 1];
    }
  }

  /** Entry j of part i sits at the total length of the parts before it. */
  lemma {:induction false} FlattenAt(vs: seq<seq<real>>, i: nat, j: nat)
    requires i < |vs| && j < |vs[i]|
    ensures TotalLength(vs[..i]) + j < |Flatten(vs)|
    ensures Flatten(vs)[TotalLength(vs[..i]) + j] == vs[i][j]
  {
    TotalLengthPrefix(vs, i);
    if i > 0 {
      FlattenAt(vs[1..], i - 1, j);
      assert vs[..i][1..] == vs[1..][..i - 1];
    }
  }

  /** The outputs of a constraint group, in group order. */
  function ConstraintOutputs(terms: Terms, group: seq<Constraint>, s: Snapshot): (vs: seq<seq<real>>)
    ensures |vs| == |group|
    ensures forall i :: 0 <= i < |group| ==> vs[i] == terms.constraint(group[i], s)
  {
    if group == [] then [] else [terms.constraint(group[0], s)] + ConstraintOutputs(terms, group[1..], s)
  }

  /** `equality_constraints` / `inequality_constraints`: they ignore the
      vector and read the system. */
  function ConstraintVector(terms: Terms, group: seq<Constraint>, s: Snapshot): seq<real>
  {
    Flatten(ConstraintOutputs(terms, group, s))
  }

  /** `ineqs and inequality_constraints or None`: an empty group is passed
      as no function at all; a non-empty one becomes the function that lays
      its members' outputs end to end. */
  function Grouped(terms: Terms, group: seq<Constraint>): (r: Option<Snapshot -> seq<real>>)
    ensures r.None? <==> group == []
    ensures r.Some? ==> forall s :: r.value(s) == Flatten(ConstraintOutputs(terms, group, s))
  {
    if group == [] then None else Some((s: Snapshot) => ConstraintVector(terms, group, s))
  }

  /** Entry j of constraint i's output sits in the group's constraint
      vector right after the outputs of the constraints before it. */
  lemma ConstraintLayout(terms: Terms, group: seq<Constraint>, s: Snapshot, i: nat, j: nat)
    requires i < |group| && j < |terms.constraint(group[i], s)|
    ensures var vs := ConstraintOutputs(terms, group, s);
            var r := Grouped(terms, group);
            && r.Some? && |r.value(s)| == TotalLength(vs)
            && TotalLength(vs[..i]) + j < |r.value(s)|
            && r.value(s)[TotalLength(vs[..i]) + j] == terms.constraint(group[i], s)[j]
  {
    FlattenAt(ConstraintOutputs(terms, group, s), i, j);
  }

  // ---------------------------------------------------------------------
  // The objective

  function Scale(v: seq<real>, w: real): (r: seq<real>)
    ensures |r| == |v|
    ensures forall i :: 0 <= i < |v| ==> r[i] == v[i] * w
  {
    if v == [] then [] else [v[0] * w] + Scale(v[1..], w)
  }

  /** `[de(self, p, r) * de.weight for de in demerits]`. */
  function DemeritOutputs(terms: Terms, ds: seq<Demerit>, s: Snapshot, t: Trace, rs: seq<Rays>): (vs: seq<seq<real>>)
    ensures |vs| == |ds|
    ensures forall i :: 0 <= i < |ds| ==> vs[i] == Scale(terms.demerit(ds[i], s, t, rs), terms.weight(ds[i]))
  {
    if ds == [] then []
    else [Scale(terms.demerit(ds[0], s, t, rs), terms.weight(ds[0]))] + DemeritOutputs(terms, ds[1..], s, t, rs)
  }

  /** The concatenated demerit vector; `np.concatenate([])` raises. */
  function Objective(terms: Terms, ds: seq<Demerit>, s: Snapshot, t: Trace, rs: seq<Rays>): (r: Result<seq<real>>)
    ensures r.Err? <==> ds == []
    ensures r.Err? ==> r.error == ValueError
  {
    if ds == [] then Err(ValueError) else Ok(Flatten(DemeritOutputs(terms, ds, s, t, rs)))
  }

  /** The objective is the weighted outputs of the demerits laid end to end,
      in demerit order; its length is the sum of theirs. */
  lemma ObjectiveLayout(terms: Terms, ds: seq<Demerit>, s: Snapshot, t: Trace, rs: seq<Rays>, i: nat, j: nat)
    requires i < |ds| && j < |terms.demerit(ds[i], s, t, rs)|
    ensures var vs := DemeritOutputs(terms, ds, s, t, rs);
            var r := Objective(terms, ds, s, t, rs);
            && r.Ok? && |r.value| == TotalLength(vs)
            && TotalLength(vs[..i]) + j < |r.value|
            && r.value[TotalLength(vs[..i]) + j] == terms.demerit(ds[i], s, t, rs)[j] * terms.weight(ds[i])
  {
    FlattenAt(DemeritOutputs(terms, ds, s, t, rs), i, j);
  }

  /** `[self.propagate_through(ir) for ir in rays]`. */
  function TraceAll(layer: Layer, s: Snapshot, rays: seq<Rays>): (rs: seq<Rays>)
    ensures |rs| == |rays|
    ensures forall i :: 0 <= i < |rays| ==> rs[i] == After(layer, s.elements + [s.image], rays[i])
  {
    if rays == [] then []
    else
      [PropagateThrough(layer, s, rays[0])] + TraceAll(layer, s, rays[1..])
  }

  /** The objective the solver is given, evaluated from system state `s`:
      write the vector in, take the paraxial trace, trace every bundle,
      concatenate the weighted demerits. A vector shorter than the
      parameter list fails on its first missing entry. */
  function ObjectiveFunction(terms: Terms, layer: Layer, s: Snapshot, ps: seq<Parameter>,
                             ds: seq<Demerit>, rays: seq<Rays>, x: seq<real>): (r: Result<seq<real>>)
    ensures r.Err? <==> |x| < |ps| || ds == []
    ensures r.Err? ==> r.error == if |x| < |ps| then IndexError else ValueError
  {
    if |x| < |ps| then Err(IndexError)
    else
      var s' := SetAll(terms, s, ps, x);
      Objective(terms, ds, s', terms.paraxialTrace(s'), TraceAll(layer, s', rays))
  }

  // ---------------------------------------------------------------------
  // The problem handed to the solver

  datatype Problem = Problem(
    x0: seq<real>,
    objective: seq<real> -> Result<seq<real>>,
    ineq: Option<Snapshot -> seq<real>>,
    eq: Option<Snapshot -> seq<real>>,
    lb: seq<real>,
    ub: seq<real>,
    diffInt: seq<real>)

  /** The solver's answer: the optimal vector and the objective value there. */
  datatype Solution = Solution(x: seq<real>, f: real)

  function Lower(terms: Terms, ps: seq<Parameter>): (r: seq<real>)
    ensures |r| == |ps|
    ensures forall i :: 0 <= i < |ps| ==> r[i] == terms.bounds(ps[i]).0
  {
    if ps == [] then [] else [terms.bounds(ps[0]).0] + Lower(terms, ps[1..])
  }

  function Upper(terms: Terms, ps: seq<Parameter>): (r: seq<real>)
    ensures |r| == |ps|
    ensures forall i :: 0 <= i < |ps| ==> r[i] == terms.bounds(ps[i]).1
  {
    if ps == [] then [] else [terms.bounds(ps[0]).1] + Upper(terms, ps[1..])
  }

  /** `[p.scale * 1e-2 for p in parameters]`. */
  function DiffSteps(terms: Terms, ps: seq<Parameter>): (r: seq<real>)
    ensures |r| == |ps|
    ensures forall i :: 0 <= i < |ps| ==> r[i] * 100.0 == terms.scale(ps[i])
  {
    if ps == [] then [] else [terms.scale(ps[0]) / 100.0] + DiffSteps(terms, ps[1..])
  }

  /** The problem `optimize` builds from the system state `s`. */
  function BuildProblem(terms: Terms, layer: Layer, s: Snapshot, ps: seq<Parameter>,
                        ds: seq<Demerit>, cs: seq<Constraint>, rays: seq<Rays>): (pr: Problem)
    ensures |pr.x0| == |pr.lb| == |pr.ub| == |pr.diffInt| == |ps|
    ensures pr.x0 == Values(terms, ps, s)
    ensures forall x :: pr.objective(x) == ObjectiveFunction(terms, layer, s, ps, ds, rays, x)
    ensures pr.eq == Grouped(terms, Equalities(terms, cs))
    ensures pr.ineq == Grouped(terms, Inequalities(terms, cs))
  {
    Problem(Values(terms, ps, s),
            x => ObjectiveFunction(terms, layer, s, ps, ds, rays, x),
            Grouped(terms, Inequalities(terms, cs)),
            Grouped(terms, Equalities(terms, cs)),
            Lower(terms, ps), Upper(terms, ps), DiffSteps(terms, ps))
  }

  /** The problem passes a constraint function only for a non-empty group,
      and its
      objective at the starting vector is the objective of the system as it
      stands (when the parameters obey the accessor laws). */
  lemma ProblemShape(terms: Terms, layer: Layer, s: Snapshot, ps: seq<Parameter>,
                     ds: seq<Demerit>, cs: seq<Constraint>, rays: seq<Rays>)
    ensures var pr := BuildProblem(terms, layer, s, ps, ds, cs, rays);
            && (pr.eq.None? <==> forall i :: 0 <= i < |cs| ==> !terms.equality(cs[i]))
            && (pr.ineq.None? <==> forall i :: 0 <= i < |cs| ==> terms.equality(cs[i]))
    ensures Lawful(terms) ==>
              BuildProblem(terms, layer, s, ps, ds, cs, rays).objective(Values(terms, ps, s))
                == Objective(terms, ds, s, terms.paraxialTrace(s), TraceAll(layer, s, rays))
  {
    EmptyGroups(terms, cs);
    if Lawful(terms) {
      WriteBackInitial(terms, s, ps);
    }
  }
}
