/** The sequential walks of `System`: exact propagation through the chain
    object, elements, image (`propagate`, `propagate_through`), the search
    for the aperture stop (`height_at_aperture`), and the paraxial pass
    (`propagate_paraxial`, `height_at_aperture_paraxial`). The element-level
    capabilities come from a `Layer`. */
module Propagation {
  import opened Optics

  // ---------------------------------------------------------------------
  // Exact propagation

  /** The pairs yielded by `propagate` for the chain `c`: for each
      neighbouring pair `(a, b)` the element `b` propagates the current rays
      and yields `(a, rays at a)`; the last element is yielded with the rays
      after it. */
  function Walk(layer: Layer, c: seq<Element>, rays: Rays): (pairs: seq<(Element, Rays)>)
    requires |c| >= 1
    ensures |pairs| == |c|
    ensures forall k :: 0 <= k < |c| ==> pairs[k].0 == c[k]
    decreases |c|
  {
    if |c| == 1 then [(c[0], rays)]
    else
      var (atPrevious, after) := layer.propagate(c[1], rays);
      [(c[0], atPrevious)] + Walk(layer, c[1..], after)
  }

  /** The rays after threading `rays` through `es` in order, each element
      taking the rays the previous one produced. */
  function After(layer: Layer, es: seq<Element>, rays: Rays): Rays
  {
    if es == [] then rays else After(layer, es[1..], layer.propagate(es[0], rays).1)
  }

  /** `System.propagate`. */
  function Propagate(layer: Layer, s: Snapshot, rays: Rays): (pairs: seq<(Element, Rays)>)
    ensures |pairs| == |s.elements| + 2
    ensures pairs[0].0 == s.obj && pairs[|pairs| - 1].0 == s.image
    ensures forall i :: 0 <= i < |s.elements| ==> pairs[i + 1].0 == s.elements[i]
  {
    Walk(layer, s.Chain(), rays)
  }

  /** `System.propagate_through`: the rays of the last pair, which are the
      fold of element propagation over the elements and the image. */
  function PropagateThrough(layer: Layer, s: Snapshot, rays: Rays): (r: Rays)
    ensures r == After(layer, s.elements + [s.image], rays)
  {
    var c := s.Chain();
    WalkAt(layer, c, rays, |c| - 1);
    assert c[1..] == s.elements + [s.image];
    var pairs := Propagate(layer, s, rays);
    pairs[|pairs| - 1].1
  }

  /** The k-th pair carries the rays that the next element reports at the
      k-th one, after the rays have been threaded through everything between;
      the last pair carries the rays threaded through the whole chain. */
  lemma {:induction false} WalkAt(layer: Layer, c: seq<Element>, rays: Rays, k: nat)
    requires k < |c|
    ensures Walk(layer, c, rays)[k].1
              == if k + 1 < |c| then layer.propagate(c[k + 1], After(layer, c[1..k + 1], rays)).0
                 else After(layer, c[1..], rays)
    decreases |c|
  {
    if |c| == 1 {
      assert c[1..] == [];
    } else if k == 0 {
      assert c[1..1] == [];
    } else {
      WalkAt(layer, c[1..], layer.propagate(c[1], rays).1, k - 1);
      assert c[1..][1..k] == c[1..k + 1][1..];
      if k + 1 == |c| {
        assert c[1..][1..] == c[2..];
      }
    }
  }

  // ---------------------------------------------------------------------
  // The aperture stop

  /** The index of the first stop in `es`, if any. */
  function FirstStop(es: seq<Element>): (r: Option<nat>)
    ensures r.Some? ==> r.value < |es| && es[r.value].IsStop()
                        && forall j :: 0 <= j < r.value ==> !es[j].IsStop()
    ensures r.None? ==> forall j :: 0 <= j < |es| ==> !es[j].IsStop()
  {
    if es == [] then None
    else if es[0].IsStop() then Some(0)
    else match FirstStop(es[1..])
      case None => None
      case Some(k) => Some(k + 1)
  }

  /** The loop of `height_at_aperture` over the yielded pairs. */
  function StopPupil(layer: Layer, pairs: seq<(Element, Rays)>): Option<Pupil>
  {
    if pairs == [] then None
    else if pairs[0].0.IsStop() then Some(layer.pupil(pairs[0].1, pairs[0].0.radius))
    else StopPupil(layer, pairs[1..])
  }

  /** `System.height_at_aperture`: the normalised stop coordinates of the
      first stop in chain order, or nothing when the chain has no stop. */
  function HeightAtAperture(layer: Layer, s: Snapshot, rays: Rays): (r: Option<Pupil>)
    ensures r.None? <==> FirstStop(s.Chain()).None?
  {
    StopPupilAtFirstStop(layer, Propagate(layer, s, rays), s.Chain());
    StopPupil(layer, Propagate(layer, s, rays))
  }

  lemma {:induction false} StopPupilAtFirstStop(layer: Layer, pairs: seq<(Element, Rays)>, es: seq<Element>)
    requires |pairs| == |es| && forall k :: 0 <= k < |es| ==> pairs[k].0 == es[k]
    ensures StopPupil(layer, pairs)
              == match FirstStop(es)
                 case None => None
                 case Some(k) => Some(layer.pupil(pairs[k].1, es[k].radius))
  {
    if es != [] && !es[0].IsStop() {
      StopPupilAtFirstStop(layer, pairs[1..], es[1..]);
    }
  }

  /** `height_at_aperture` answers at the first stop of the chain, with the
      rays that the element after the stop reports there. */
  lemma HeightAtApertureAtFirstStop(layer: Layer, s: Snapshot, rays: Rays)
    ensures FirstStop(s.Chain()).Some? ==>
              var c, k := s.Chain(), FirstStop(s.Chain()).value;
              HeightAtAperture(layer, s, rays)
                == Some(layer.pupil(if k + 1 < |c|
                                    then layer.propagate(c[k + 1], After(layer, c[1..k + 1], rays)).0
                                    else After(layer, c[1..], rays),
                                    c[k].radius))
  {
    var c := s.Chain();
    StopPupilAtFirstStop(layer, Propagate(layer, s, rays), c);
    if FirstStop(c).Some? {
      WalkAt(layer, c, rays, FirstStop(c).value);
    }
  }

  // ---------------------------------------------------------------------
  // Paraxial propagation

  /** One element-level call of the paraxial pass. */
  datatype Call = ParaxialCall(e: Element, index: nat) | AberrationCall(e: Element, index: nat)

  /** Carrying out `calls` in order on a trace. */
  function Apply(layer: Layer, calls: seq<Call>, t: Trace): Trace
  {
    if calls == [] then t
    else
      var t' := match calls[0]
        case ParaxialCall(e, i) => layer.propagateParaxial(e, i, t)
        case AberrationCall(e, i) => layer.aberration3(e, i, t);
      Apply(layer, calls[1..], t')
  }

  /** The loop of `propagate_paraxial` over `es`, numbering from `i`. */
  function Steps(layer: Layer, es: seq<Element>, i: nat, t: Trace): Trace
  {
    if es == [] then t
    else Steps(layer, es[1..], i + 1, layer.aberration3(es[0], i, layer.propagateParaxial(es[0], i, t)))
  }

  /** The calls that loop makes, in order. */
  function StepCalls(es: seq<Element>, i: nat): (calls: seq<Call>)
    ensures |calls| == 2 * |es|
    ensures forall j :: 0 <= j < |es| ==>
              calls[2 * j] == ParaxialCall(es[j], i + j) && calls[2 * j + 1] == AberrationCall(es[j], i + j)
  {
    if es == [] then []
    else [ParaxialCall(es[0], i), AberrationCall(es[0], i)] + StepCalls(es[1..], i + 1)
  }

  /** `System.propagate_paraxial`: each element in turn with its 1-based
      index, then the image with the index after the last element. With no
      elements the image call reads the loop variable, which was never
      bound; otherwise the trace undergoes exactly the calls of `CallLog`,
      in order. */
  function PropagateParaxial(layer: Layer, s: Snapshot, t: Trace): (r: Result<Trace>)
    ensures r.Err? <==> |s.elements| == 0
    ensures r.Err? ==> r.error == UnboundLocalError
    ensures r.Ok? ==> r.value == Apply(layer, CallLog(s), t)
  {
    if |s.elements| == 0 then Err(UnboundLocalError)
    else
      var last := ParaxialCall(s.image, |s.elements| + 1);
      var t' := Steps(layer, s.elements, 1, t);
      StepsFollowCalls(layer, s.elements, 1, t, [last]);
      assert Apply(layer, [last], t') == Apply(layer, [], layer.propagateParaxial(s.image, |s.elements| + 1, t'));
      Ok(layer.propagateParaxial(s.image, |s.elements| + 1, t'))
  }

  /** The element-level calls `propagate_paraxial` makes: `propagate_paraxial`
      then `aberration3` on element i with index i + 1, for increasing i, and
      last `propagate_paraxial` on the image with index n + 1. */
  function CallLog(s: Snapshot): (log: seq<Call>)
    ensures |log| == 2 * |s.elements| + 1
    ensures forall i :: 0 <= i < |s.elements| ==>
              log[2 * i] == ParaxialCall(s.elements[i], i + 1)
              && log[2 * i + 1] == AberrationCall(s.elements[i], i + 1)
    ensures log[2 * |s.elements|] == ParaxialCall(s.image, |s.elements| + 1)
  {
    StepCalls(s.elements, 1) + [ParaxialCall(s.image, |s.elements| + 1)]
  }

  lemma {:induction false} StepsFollowCalls(layer: Layer, es: seq<Element>, i: nat, t: Trace, rest: seq<Call>)
    ensures Apply(layer, StepCalls(es, i) + rest, t) == Apply(layer, rest, Steps(layer, es, i, t))
  {
    if es != [] {
      var t1 := layer.propagateParaxial(es[0], i, t);
      var t2 := layer.aberration3(es[0], i, t1);
      var calls := StepCalls(es, i) + rest;
      assert calls[1..][1..] == StepCalls(es[1..], i + 1) + rest;
      assert Apply(layer, calls, t) == Apply(layer, calls[1..], t1);
      assert Apply(layer, calls[1..], t1) == Apply(layer, calls[1..][1..], t2);
      StepsFollowCalls(layer, es[1..], i + 1, t2, rest);
    } else {
      assert StepCalls(es, i) + rest == rest;
    }
  }

  /** The loop of `height_at_aperture_paraxial`, numbering from `i`: the
      height at the first stop and the trace as the loop leaves it. */
  function ParaxialSearch(layer: Layer, es: seq<Element>, i: nat, t: Trace): (Option<Height>, Trace)
  {
    if es == [] then (None, t)
    else
      var t' := layer.propagateParaxial(es[0], i, t);
      if es[0].IsStop() then (Some(layer.heights(t', i)), t')
      else ParaxialSearch(layer, es[1..], i + 1, t')
  }

  /** Paraxial propagation alone (no `aberration3`) through `es`, from index `i`. */
  function ParaxialOnly(layer: Layer, es: seq<Element>, i: nat, t: Trace): Trace
  {
    if es == [] then t else ParaxialOnly(layer, es[1..], i + 1, layer.propagateParaxial(es[0], i, t))
  }

  /** `System.height_at_aperture_paraxial`: searches the elements only. */
  function HeightAtApertureParaxial(layer: Layer, s: Snapshot, t: Trace): (r: (Option<Height>, Trace))
    ensures r.0.None? <==> FirstStop(s.elements).None?
  {
    ParaxialSearchAtFirstStop(layer, s.elements, 1, t);
    ParaxialSearch(layer, s.elements, 1, t)
  }

  lemma {:induction false} ParaxialSearchAtFirstStop(layer: Layer, es: seq<Element>, i: nat, t: Trace)
    ensures ParaxialSearch(layer, es, i, t)
              == match FirstStop(es)
                 case None => (None, ParaxialOnly(layer, es, i, t))
                 case Some(k) =>
                   var t' := ParaxialOnly(layer, es[..k + 1], i, t);
                   (Some(layer.heights(t', i + k)), t')
  {
    if es != [] {
      var t1 := layer.propagateParaxial(es[0], i, t);
      assert es[..1][1..] == [];
      if !es[0].IsStop() {
        ParaxialSearchAtFirstStop(layer, es[1..], i + 1, t1);
        match FirstStop(es[1..])
        case None =>
        case Some(k) =>
          assert es[..k + 2][1..] == es[1..][..k + 1];
      }
    }
  }

  /** `height_at_aperture_paraxial` reads the heights with index k + 1 at
      the first stop k of the elements, after paraxial propagation through
      elements 0..k. */
  lemma HeightAtApertureParaxialAtFirstStop(layer: Layer, s: Snapshot, t: Trace)
    ensures FirstStop(s.elements).Some? ==>
              var k := FirstStop(s.elements).value;
              HeightAtApertureParaxial(layer, s, t).0
                == Some(layer.heights(ParaxialOnly(layer, s.elements[..k + 1], 1, t), k + 1))
  {
    ParaxialSearchAtFirstStop(layer, s.elements, 1, t);
  }

  /** An element that is not a stop, appended at the end, does not change
      the first stop. */
  lemma {:induction false} FirstStopIgnoresLast(es: seq<Element>, e: Element)
    requires !e.IsStop()
    ensures FirstStop(es + [e]) == FirstStop(es)
  {
    if es != [] {
      assert (es + [e])[1..] == es[1..] + [e];
      FirstStopIgnoresLast(es[1..], e);
    }
  }

  /** Both searches find the same stop element: when neither the object nor
      the image is a stop, the first stop of the chain is the first stop of
      the elements, one place further on. */
  lemma StopAgreement(s: Snapshot)
    requires !s.obj.IsStop() && !s.image.IsStop()
    ensures FirstStop(s.Chain())
              == match FirstStop(s.elements)
                 case None => None
                 case Some(k) => Some(k + 1)
  {
    var c := s.Chain();
    assert c[1..] == s.elements + [s.image];
    FirstStopIgnoresLast(s.elements, s.image);
  }
}
