/** Shared vocabulary of the optical-system model: the element chain, the
    opaque values owned by the element layer, and the error kinds that the
    system operations raise. */
module Optics {

  /** A batch of rays (positions, angles, wavelength, end positions); only
      the element layer looks inside. */
  type Rays(!new)

  /** The paraxial trace that `propagate_paraxial` and `aberration3` fill in. */
  type Trace(!new)

  /** Whatever an element's own `revert()` changes (curvature and the like). */
  type Face(==, !new)

  /** A material description; the system only moves it between elements. */
  type Material(==, !new)

  /** The normalised stop coordinates returned by `height_at_aperture`. */
  type Pupil(!new)

  /** A row of `heights` of a paraxial trace. */
  type Height(!new)

  datatype Option<T> = None | Some(value: T)

  /** The Python exceptions raised by the modelled code paths. */
  datatype Error =
    | IndexError        // indexing an empty element list
    | AttributeError    // reading `material` from an element that has none
    | NameError         // evaluating the unimported name `Aperture`
    | AssertionError    // the aperture-count assertion of `chief_and_marginal`
    | UnboundLocalError // reading the loop variable of a loop that never ran
    | ValueError        // `np.concatenate` of an empty list

  datatype Result<T> = Ok(value: T) | Err(error: Error)

  datatype Vec3 = Vec3(x: real, y: real, z: real)

  /** The element variants the system distinguishes. */
  datatype Kind = ObjectKind | SurfaceKind | ApertureKind | ImageKind

  /** One element of the chain. `origin` is the offset from the previous
      element; `material` is `None` when the element has no `material`
      attribute at all. A `material` attribute holding Python's `None` is
      an ordinary `Some` value of the abstract `Material` type. */
  datatype Element = Element(kind: Kind, origin: Vec3, material: Option<Material>,
                             radius: real, face: Face)
  {
    predicate IsStop() { kind == ApertureKind }
  }

  /** The state of a `System`: its descriptive fields and its chain. */
  datatype Snapshot = Snapshot(
    name: string,
    wavelengths: seq<real>,
    heights: seq<(real, real)>,
    temperature: real,
    scale: real,
    obj: Element,
    elements: seq<Element>,
    image: Element)
  {
    /** Object, elements and image, front to back. */
    function Chain(): (c: seq<Element>)
      ensures |c| == |elements| + 2
      ensures c[0] == obj && c[|c| - 1] == image
      ensures forall i :: 0 <= i < |elements| ==> c[i + 1] == elements[i]
    {
      [obj] + elements + [image]
    }
  }

  /** The capabilities of the element layer that the system calls but does
      not define. */
  datatype Layer = Layer(
    // `b.propagate(rays)`: the rays at the preceding element and the rays after `b`
    propagate: (Element, Rays) -> (Rays, Rays),
    // `e.propagate_paraxial(i, trace)` and `e.aberration3(i, trace)`
    propagateParaxial: (Element, nat, Trace) -> Trace,
    aberration3: (Element, nat, Trace) -> Trace,
    // `trace.heights[i]`
    heights: (Trace, nat) -> Height,
    // `rays.end_positions[..., (0, 1)] / radius`
    pupil: (Rays, real) -> Pupil,
    // `e.revert()`
    revert: Face -> Face)
}
