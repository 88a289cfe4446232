/** The `System` object: its fields, and the operations that change them in
    place. Each method is proved against the function that describes its
    effect on the state (`Reversal.Reverted`, `Merit.SetAll`, ...). */
module Systems {
  import opened Optics
  import opened Reversal
  import opened Merit

  /** `System.__add__` on states: the other system's elements are appended. */
  function Concatenated(s: Snapshot, other: Snapshot): (r: Snapshot)
    ensures |r.elements| == |s.elements| + |other.elements|
    ensures r.elements[..|s.elements|] == s.elements && r.elements[|s.elements|..] == other.elements
    ensures r.(elements := s.elements) == s
  {
    s.(elements := s.elements + other.elements)
  }

  /** Repeated concatenation is associative in element order. */
  lemma ConcatenationAssociative(a: Snapshot, b: Snapshot, c: Snapshot)
    ensures Concatenated(Concatenated(a, b), c).elements == Concatenated(a, Concatenated(b, c)).elements
  {
    assert (a.elements + b.elements) + c.elements == a.elements + (b.elements + c.elements);
  }

  /** The first loop of `revert`: `m, e.material = e.material, m` over the
      elements, starting with `m0`; `done` collects each element as the
      loop leaves it. */
  method PassMaterials(es: seq<Element>, m0: Material) returns (done: seq<Element>)
    ensures done == Shift(es, m0)
  {
    done := [];
    var m := m0;
    var i := 0;
    while i < |es|
      invariant 0 <= i <= |es| && |done| == i
      invariant Shift(es, m0) == done + Shift(es[i..], m)
    {
      ShiftStep(es, i, m);
      ghost var handed := m;
      var e := es[i];
      if e.material.Some? {
        e, m := e.(material := Some(m)), e.material.value;
      }
      assert e == Received(es[i], handed) && m == Passed(es[i], handed);
      assert done + [e] + Shift(es[i + 1..], m) == done + ([e] + Shift(es[i + 1..], m));
      done := done + [e];
      i := i + 1;
    }
    assert es[i..] == [];
  }

  /** The last loop of `revert`: `e.revert(); d, e.origin = e.origin, d`
      over the elements, starting with `d0`. */
  method PassOrigins(fs: seq<Element>, d0: Vec3, flip: Face -> Face) returns (done: seq<Element>)
    ensures done == Rotate(fs, d0, flip)
  {
    done := [];
    var d := d0;
    var i := 0;
    while i < |fs|
      invariant 0 <= i <= |fs| && |done| == i
      invariant Rotate(fs, d0, flip) == done + Rotate(fs[i..], d, flip)
    {
      RotateStep(fs, i, d, flip);
      var e := fs[i];
      var moved := e.(face := flip(e.face), origin := d);
      assert done + [moved] + Rotate(fs[i + 1..], e.origin, flip)
          == done + ([moved] + Rotate(fs[i + 1..], e.origin, flip));
      done := done + [moved];
      d := e.origin;
      i := i + 1;
    }
    assert fs[i..] == [];
  }

  class System {
    var name: string
    var wavelengths: seq<real>
    var heights: seq<(real, real)>
    var temperature: real
    var scale: real
    var obj: Element
    var elements: seq<Element>
    var image: Element

    /** The whole state as a value. */
    function State(): Snapshot
      reads this
    {
      Snapshot(name, wavelengths, heights, temperature, scale, obj, elements, image)
    }

    constructor (s: Snapshot)
      ensures State() == s
    {
      name, wavelengths, heights, temperature, scale := s.name, s.wavelengths, s.heights, s.temperature, s.scale;
      obj, elements, image := s.obj, s.elements, s.image;
    }

    /** Takes over a state produced by a collaborator (`set_value`). */
    method Load(s: Snapshot)
      modifies this
      ensures State() == s
    {
      name, wavelengths, heights, temperature, scale := s.name, s.wavelengths, s.heights, s.temperature, s.scale;
      obj, elements, image := s.obj, s.elements, s.image;
    }

    /** `System.revert`, with `flip` standing for each element's own
        `revert()`. On an error nothing has changed. */
    method Revert(flip: Face -> Face) returns (err: Option<Error>)
      modifies this
      ensures Reverted(old(State()), flip).Err? ==>
                err == Some(Reverted(old(State()), flip).error) && State() == old(State())
      ensures Reverted(old(State()), flip).Ok? ==>
                err == None && State() == Reverted(old(State()), flip).value
    {
      if obj.material.None? {
        return Some(AttributeError);
      }
      if |elements| == 0 {
        return Some(IndexError);
      }
      if elements[|elements| - 1].material.None? {
        return Some(AttributeError);
      }
      ghost var s0 := State();
      var m := obj.material.value;
      obj := obj.(material := elements[|elements| - 1].material);
      elements := PassMaterials(elements, m);
      ShiftOnlyMaterials(s0.elements, m, 0);
      var d := image.origin;
      image := image.(origin := elements[0].origin);
      elements := Reverse(elements);
      elements := PassOrigins(elements, d, flip);
      return None;
    }

    /** `System.__add__`: extends this system's elements in place and
        returns this system. */
    method Add(other: System) returns (r: System)
      modifies this
      ensures r == this
      ensures State() == Concatenated(old(State()), old(other.State()))
    {
      elements := elements + other.elements;
      return this;
    }

    /** The `set_value` loop of `optimize`, in parameter order. */
    method WriteParameters(terms: Terms, ps: seq<Parameter>, x: seq<real>)
      requires |ps| <= |x|
      modifies this
      ensures State() == SetAll(terms, old(State()), ps, x)
    {
      var i := 0;
      while i < |ps|
        invariant 0 <= i <= |ps|
        invariant SetAll(terms, State(), ps[i..], x[i..]) == SetAll(terms, old(State()), ps, x)
      {
        assert ps[i..][1..] == ps[i + 1..] && x[i..][1..] == x[i + 1..];
        Load(terms.setValue(ps[i], State(), x[i]));
        i := i + 1;
      }
    }

    /** The objective function `optimize` hands to the solver, as it runs on
        this system: the vector is written into the parameters first. */
    method EvaluateObjective(terms: Terms, layer: Layer, ps: seq<Parameter>, ds: seq<Demerit>,
                             rays: seq<Rays>, x: seq<real>) returns (d: Result<seq<real>>)
      requires |ps| <= |x|
      modifies this
      ensures State() == SetAll(terms, old(State()), ps, x)
      ensures d == ObjectiveFunction(terms, layer, old(State()), ps, ds, rays, x)
    {
      WriteParameters(terms, ps, x);
      var s := State();
      d := Objective(terms, ds, s, terms.paraxialTrace(s), TraceAll(layer, s, rays));
    }

    /** `System.optimize` around an opaque solver: read the starting
        vector, split the constraints, solve, and write the optimum back.
        The solver is trusted to return a vector as long as the one it was
        given. */
    method Optimize(terms: Terms, layer: Layer, rays: seq<Rays>, ps: seq<Parameter>,
                    ds: seq<Demerit>, cs: seq<Constraint>, methodName: string,
                    solve: (Problem, string) -> Solution)
      returns (x0: seq<real>, x: seq<real>, f: real)
      requires forall pr, m :: |solve(pr, m).x| == |pr.x0|
      modifies this
      ensures x0 == Values(terms, ps, old(State()))
      ensures Solution(x, f) == solve(BuildProblem(terms, layer, old(State()), ps, ds, cs, rays), methodName)
      ensures |x| == |ps|
      ensures State() == SetAll(terms, old(State()), ps, x)
    {
      x0 := Values(terms, ps, State());
      var problem := BuildProblem(terms, layer, State(), ps, ds, cs, rays);
      var res := solve(problem, methodName);
      x, f := res.x, res.f;
      WriteParameters(terms, ps, x);
    }
  }

  /** After `optimize`, reading the parameters gives the solver's optimum,
      when the parameters obey the accessor laws and are distinct. */
  method OptimizeThenRead(sys: System, terms: Terms, layer: Layer, rays: seq<Rays>, ps: seq<Parameter>,
                          ds: seq<Demerit>, cs: seq<Constraint>, solve: (Problem, string) -> Solution)
    returns (x: seq<real>, now: seq<real>)
    requires forall pr, m :: |solve(pr, m).x| == |pr.x0|
    requires Lawful(terms) && Distinct(ps)
    modifies sys
    ensures now == x
  {
    var x0, f;
    x0, x, f := sys.Optimize(terms, layer, rays, ps, ds, cs, "ralg", solve);
    now := Values(terms, ps, sys.State());
    WriteThenRead(terms, old(sys.State()), ps, x);
  }
}
