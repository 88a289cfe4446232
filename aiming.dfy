/** The bookkeeping of `System.chief_and_marginal`: the precondition that
    exactly one element is an aperture stop, and the construction of the
    paraxial marginal launch coordinates symmetrically about the chief ray.
    The root finding that produces the chief coordinate and the marginal
    step is not part of this model; they are inputs here. */
module Aiming {
  import opened Optics
  import opened Propagation

  /** The number of stops among `es`: the generator sum of the assertion. */
  function ApertureCount(es: seq<Element>): (n: nat)
    ensures n <= |es|
    ensures n == 0 <==> forall j :: 0 <= j < |es| ==> !es[j].IsStop()
  {
    if es == [] then 0 else (if es[0].IsStop() then 1 else 0) + ApertureCount(es[1..])
  }

  /** Exactly one stop: the first stop is the only one. */
  lemma {:induction false} SingleStop(es: seq<Element>)
    ensures ApertureCount(es) == 1 <==>
              FirstStop(es).Some? && forall j :: 0 <= j < |es| && j != FirstStop(es).value ==> !es[j].IsStop()
  {
    if es != [] {
      var rest := es[1..];
      SingleStop(rest);
      NoStop(rest);
      if es[0].IsStop() {
        if forall j :: 0 <= j < |es| && j != 0 ==> !es[j].IsStop() {
          assert forall j :: 0 <= j < |rest| ==> !rest[j].IsStop();
        }
      } else if FirstStop(rest).Some? {
        var k := FirstStop(rest).value;
        assert FirstStop(es) == Some(k + 1);
        if forall j :: 0 <= j < |es| && j != k + 1 ==> !es[j].IsStop() {
          assert forall j :: 0 <= j < |rest| && j != k ==> !rest[j].IsStop();
        }
      }
    }
  }

  lemma {:induction false} NoStop(es: seq<Element>)
    ensures ApertureCount(es) == 0 <==> FirstStop(es).None?
  {
    if es != [] {
      NoStop(es[1..]);
    }
  }

  datatype Vec2 = Vec2(x: real, y: real)

  /** The chief launch coordinate and the four marginal ones along +x, -x,
      +y and -y. */
  datatype Aim = Aim(chief: Vec2, px: real, nx: real, py: real, ny: real)

  /** `chief_and_marginal` with both paraxial strategies: fails with the
      assertion unless exactly one element is a stop; otherwise the
      marginals are `chief + dmarg` and `chief - dmarg`, component by
      component. */
  function ChiefAndMarginal(es: seq<Element>, chief: Vec2, dmarg: Vec2): (r: Result<Aim>)
    ensures r.Err? <==> ApertureCount(es) != 1
    ensures r.Err? ==> r.error == AssertionError
    ensures r.Ok? ==> r.value.chief == chief
    ensures r.Ok? ==> r.value.px - chief.x == chief.x - r.value.nx == dmarg.x
    ensures r.Ok? ==> r.value.py - chief.y == chief.y - r.value.ny == dmarg.y
  {
    if ApertureCount(es) != 1 then Err(AssertionError)
    else Ok(Aim(chief, chief.x + dmarg.x, chief.x - dmarg.x, chief.y + dmarg.y, chief.y - dmarg.y))
  }

  /** Whenever the assertion of `chief_and_marginal` passes and the object
      is not itself a stop, `stop_for_pos` is defined: the exact search finds
      the one stop of the elements, and the paraxial search finds the same
      element. */
  lemma AimingFindsTheStop(layer: Layer, s: Snapshot, rays: Rays, t: Trace)
    requires ApertureCount(s.elements) == 1
    requires !s.obj.IsStop() && !s.image.IsStop()
    ensures HeightAtAperture(layer, s, rays).Some?
    ensures HeightAtApertureParaxial(layer, s, t).0.Some?
    ensures FirstStop(s.Chain()).Some? && FirstStop(s.elements).Some?
    ensures s.Chain()[FirstStop(s.Chain()).value] == s.elements[FirstStop(s.elements).value]
  {
    SingleStop(s.elements);
    StopAgreement(s);
    HeightAtApertureAtFirstStop(layer, s, rays);
    HeightAtApertureParaxialAtFirstStop(layer, s, t);
  }

  // ---------------------------------------------------------------------
  // As written: `Aperture` is used at three places but never imported, so
  // the first `isinstance(e, Aperture)` that runs raises `NameError`.

  /** The loop of `height_at_aperture` as written, over any yielded pairs:
      the first pair already reaches the `isinstance` check, which raises.
      Where it does not raise it agrees with the corrected search. */
  function StopPupilAsWritten(pairs: seq<(Element, Rays)>): (r: Result<Option<Pupil>>)
    ensures r.Err? <==> pairs != []
    ensures r.Ok? ==> forall layer :: r.value == StopPupil(layer, pairs)
  {
    if pairs == [] then Ok(None) else Err(NameError)
  }

  /** `height_at_aperture` as written: since `propagate` always yields the
      object, it raises on every system. */
  function HeightAtApertureAsWritten(layer: Layer, s: Snapshot, rays: Rays): (r: Result<Option<Pupil>>)
    ensures r == Err(NameError)
  {
    StopPupilAsWritten(Propagate(layer, s, rays))
  }

  /** `height_at_aperture_paraxial` as written: the check runs on the first
      element, so only a system without elements gets through, with nothing
      found, as the corrected search finds nothing there either. */
  function HeightAtApertureParaxialAsWritten(layer: Layer, s: Snapshot, t: Trace): (r: Result<Option<Height>>)
    ensures r.Err? <==> s.elements != []
    ensures r.Err? ==> r.error == NameError
    ensures r.Ok? ==> r.value.None? && r.value == HeightAtApertureParaxial(layer, s, t).0
  {
    if s.elements == [] then Ok(None) else Err(NameError)
  }

  /** `chief_and_marginal` as written: the generator checks every element;
      without elements the sum is 0 and the assertion fails, exactly as in
      the corrected version. */
  function ChiefAndMarginalAsWritten(es: seq<Element>, chief: Vec2, dmarg: Vec2): (r: Result<Aim>)
    ensures r.Err?
    ensures r.error == if es == [] then AssertionError else NameError
    ensures es == [] ==> r == ChiefAndMarginal(es, chief, dmarg)
  {
    if es == [] then Err(AssertionError) else Err(NameError)
  }

  /** As written, `height_at_aperture` never answers, not even for a chain
      whose stop the corrected search finds. */
  lemma HeightAtApertureAsWrittenFails(layer: Layer, s: Snapshot, rays: Rays)
    ensures HeightAtApertureAsWritten(layer, s, rays) == Err(NameError)
    ensures FirstStop(s.Chain()).Some? ==> HeightAtAperture(layer, s, rays).Some?
  {
  }

  /** As written, the paraxial search fails on every system with elements,
      including those with a stop that the corrected search finds. */
  lemma HeightAtApertureParaxialAsWrittenFails(layer: Layer, s: Snapshot, t: Trace)
    ensures s.elements != [] ==> HeightAtApertureParaxialAsWritten(layer, s, t) == Err(NameError)
    ensures FirstStop(s.elements).Some? ==> HeightAtApertureParaxial(layer, s, t).0.Some?
  {
  }

  /** As written, `chief_and_marginal` fails for every system, including
      those with exactly one stop, which the corrected version accepts. */
  lemma ChiefAndMarginalAsWrittenFails(es: seq<Element>, chief: Vec2, dmarg: Vec2)
    ensures ChiefAndMarginalAsWritten(es, chief, dmarg).Err?
    ensures ApertureCount(es) == 1 ==> ChiefAndMarginal(es, chief, dmarg).Ok?
  {
  }
}
