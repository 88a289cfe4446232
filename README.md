# rayopt `System`: a verified model of the chain logic

This project models the structural logic of `System` in rayopt, a ray tracer
for optical imaging systems. A `System` is a chain: an object, a list of
elements (surfaces and aperture stops), and an image. Each element carries a
relative origin (its offset from the element before it), an optional
material and a radius. The model covers five operations:

- `revert`: turns the chain around in place.
- `__add__`: appends another system's elements.
- Sequential walks along the chain: exact propagation (`propagate`,
  `propagate_through`), the search for the aperture stop
  (`height_at_aperture`), and the paraxial pass (`propagate_paraxial`,
  `height_at_aperture_paraxial`).
- The bookkeeping of `chief_and_marginal`: the one-stop precondition and
  the symmetric marginal coordinates.
- The bookkeeping of `optimize` around its external solver.

The files:

- `optics.dfy` (module `Optics`): element kinds, elements, and the system
  state as a value (`Snapshot`). Also the `Layer`, which holds the
  element-level capabilities the system calls but does not define:
  `propagate`, `propagate_paraxial`, `aberration3`, trace heights, the
  pupil coordinate, and an element's own `revert`. Rays, traces, faces
  and materials are abstract types.
- `reversal.dfy` (module `Reversal`):
  - `revert` as a function of the old state, built from three passes:
    - the material pass: each material-bearing element takes the material
      handed on by the one before it;
    - the list reversal;
    - the origin pass: each element is reverted and takes the origin of
      the one before it.
  - The proof that reverting twice restores the system.
- `propagation.dfy` (module `Propagation`):
  - `propagate` as the list of yielded pairs, and `propagate_through` as a
    fold;
  - the stop searches (exact and paraxial), and the call sequence of the
    paraxial pass.
- `aiming.dfy` (module `Aiming`): the precondition and marginal symmetry of
  `chief_and_marginal`, and the members behind the findings below.
- `merit.dfy` (module `Merit`):
  - reading and writing parameters, and the accessor laws under which
    they round-trip;
  - splitting the constraints by their `equality` flag;
  - concatenating the weighted demerits;
  - the problem handed to the solver.
- `system.dfy` (module `Systems`): the `System` class.
  - Its fields are the fields of the Python class.
  - `Revert`, `Add`, `WriteParameters`, `EvaluateObjective` and `Optimize`
    change them in place. Each is proved against the function that
    describes its effect on the state.
  - The two loops of `revert` are the methods `PassMaterials` and
    `PassOrigins`, over the element list.

Parameters supplied by the caller:

- Element-level behaviour comes in a `Layer`.
- Parameter, demerit and constraint objects come in a `Terms` record. Their
  accessors are functions of the system state.
- The solver is a function from the problem and the method name to a
  `Solution`.

An element without a `material` attribute is modelled with `material ==
None`. A `material` attribute that holds Python's `None` is an ordinary
value of the abstract type `Material`, so it is swapped like any other
material.

## Model

| member | source | states |
|---|---|---|
| Reversal.Reverted | rayopt/system.py:37-48 | revert succeeds exactly when the object has a material, the element list is non-empty and its last element has a material; otherwise it raises AttributeError (object), IndexError (empty list) or AttributeError (last element), in that order; only the object, the elements and the image change, and the number of elements is kept |
| Reversal.ReverseAt | rayopt/system.py:45 | after `reverse()` position k holds the element from position n-1-k |
| Reversal.ShiftAt | rayopt/system.py:40-42 | the material pass gives element i the material handed on by all elements before it |
| Reversal.ShiftOnlyMaterials | rayopt/system.py:40-42 | the material pass changes only materials, and an element has a material afterwards exactly when it had one before |
| Reversal.CarryLastMaterial | rayopt/system.py:40-42 | the material left in `m` after the pass is that of the last material-bearing element |
| Reversal.ShiftReceivesPrevious | rayopt/system.py:38-42 | an element without a material is left untouched; the first material-bearing element receives the object's original material; every later one receives the material of the previous material-bearing element |
| Reversal.CarryAppend | rayopt/system.py:40-42 | the material carried through two consecutive stretches is the one carried through the first and then through the second |
| Reversal.ShiftAppend | rayopt/system.py:40-42 | the material pass over a concatenation is the pass over the first part followed by the pass over the second, started with what the first hands on |
| Reversal.CarryBack | rayopt/system.py:40-42 | passing the left-over material back through the reversed shifted chain leaves the material first passed in |
| Reversal.ShiftReverseShift | rayopt/system.py:38-45 | a second material pass over the reversed chain, started with the left-over material, restores every original material in reversed order |
| Reversal.Shift | rayopt/system.py:40-42 | the material pass keeps one element per element; its contents are stated by `ShiftAt` and `ShiftOnlyMaterials` |
| Reversal.Rotate | rayopt/system.py:46-48 | the origin pass keeps one element per element; its contents are stated by `RotateAt` |
| Reversal.RotateAt | rayopt/system.py:47-48 | the origin pass reverts element k's face and gives it the origin of element k-1, the first one the incoming origin `d` |
| Reversal.ShiftRotate | rayopt/system.py:40-48 | the material pass and the origin pass commute |
| Reversal.RotateReverseTwice | rayopt/system.py:43-48 | with an involutive element `revert`, reversing and rotating twice through the image origins restores every element, face and origin |
| Reversal.RevertedShape | rayopt/system.py:37-48 | after one revert: element k comes from old element n-1-k with its face reverted; the new first element has the old image origin, each later one the old origin of the element before it in the new order; the image has the old first origin; the object has the old last material |
| Reversal.RevertAgainDefined | rayopt/system.py:37-48 | a reverted system can be reverted again exactly when the old first element has a material |
| Reversal.RevertInvolution | rayopt/system.py:37-48 | with an involutive element `revert`, reverting twice restores the whole system: element order, every origin, every material, the image origin and the object's material |
| Systems.PassMaterials | rayopt/system.py:40-42 | the swap loop with the carried temporary `m` computes the material pass |
| Systems.PassOrigins | rayopt/system.py:46-48 | the loop with `e.revert()` and the carried temporary `d` computes the origin pass |
| Systems.System.Revert | rayopt/system.py:37-48 | the in-place revert leaves the state `Reverted` describes, or reports its error with the state unchanged |
| Systems.Concatenated | rayopt/system.py:50-52 | the combined element list is this system's elements followed by the other's, with the lengths added, and nothing else changes |
| Systems.ConcatenationAssociative | rayopt/system.py:50-52 | repeated concatenation is associative in element order |
| Systems.System.Add | rayopt/system.py:50-52 | `__add__` returns this same system, and its state is the concatenation of the two old states |
| Optics.Snapshot.Chain | rayopt/system.py:127-128 | the chain has the object first, the elements in order, the image last |
| Propagation.Walk | rayopt/system.py:126-131 | one pair per chain member, with the members in chain order |
| Propagation.Propagate | rayopt/system.py:126-131 | `propagate` yields exactly n+2 pairs: object, e1..en, image |
| Propagation.WalkAt | rayopt/system.py:126-131 | pair k holds the rays the next element reports at member k, once the rays have been threaded through every member up to k; the last pair holds the rays threaded through the whole chain |
| Propagation.PropagateThrough | rayopt/system.py:133-136 | `propagate_through` returns the rays of the last pair, which are the fold of element propagation over the elements and the image |
| Propagation.FirstStop | rayopt/system.py:138-141 | the index found is a stop with no stop before it; with no index found there is no stop at all |
| Propagation.StopPupilAtFirstStop | rayopt/system.py:138-141 | the search over the yielded pairs answers at the first stop, with the rays of that pair scaled by the stop radius, and answers nothing when there is no stop |
| Propagation.HeightAtAperture | rayopt/system.py:138-141 | `height_at_aperture` runs the stop search over the yielded pairs; it returns None exactly when the chain has no stop |
| Propagation.HeightAtApertureAtFirstStop | rayopt/system.py:138-141 | `height_at_aperture` returns the pupil coordinate at the first stop of the chain, from the rays threaded up to it |
| Propagation.StepCalls | rayopt/system.py:115-117 | the loop makes two calls per element: `propagate_paraxial` then `aberration3`, with increasing indices |
| Propagation.CallLog | rayopt/system.py:114-118 | the calls are `propagate_paraxial` and `aberration3` on element i with index i+1, for increasing i, then `propagate_paraxial` on the image with index n+1 |
| Propagation.StepsFollowCalls | rayopt/system.py:115-117 | the loop's effect on the trace is that of its call sequence, in order |
| Propagation.PropagateParaxial | rayopt/system.py:114-118 | `propagate_paraxial` fails with UnboundLocalError exactly when there are no elements, because the loop variable is then unbound; otherwise it carries out exactly the calls of the call log, in order |
| Propagation.ParaxialSearchAtFirstStop | rayopt/system.py:121-124 | the paraxial search stops at the first stop, after propagating through it, and reads the heights at its index; with no stop it propagates through everything and yields nothing |
| Propagation.HeightAtApertureParaxial | rayopt/system.py:120-124 | `height_at_aperture_paraxial` searches the elements only; it yields None exactly when the elements hold no stop |
| Propagation.HeightAtApertureParaxialAtFirstStop | rayopt/system.py:120-124 | at the first stop k of the elements, `height_at_aperture_paraxial` reads the heights with index k+1, after paraxial propagation through elements 0..k |
| Propagation.FirstStopIgnoresLast | rayopt/system.py:127-128 | appending an element that is not a stop does not change the first stop |
| Propagation.StopAgreement | rayopt/system.py:120-141 | when neither the object nor the image is a stop, the chain's first stop is the elements' first stop, one place further on |
| Aiming.ApertureCount | rayopt/system.py:146-147 | the generator sum counts at most one per element, and it is zero exactly when no element is a stop |
| Aiming.SingleStop | rayopt/system.py:146-147 | exactly one stop means that a first stop exists and no other element is a stop |
| Aiming.NoStop | rayopt/system.py:146-147 | the stop count is zero exactly when there is no stop |
| Aiming.ChiefAndMarginal | rayopt/system.py:146-168 | fails with an assertion error exactly when the number of stops among the elements is not one; otherwise the marginals are `chief + dmarg` and `chief - dmarg`, component by component |
| Aiming.AimingFindsTheStop | rayopt/system.py:146-154 | once the assertion passes, both stop searches answer, and they answer at the same element |
| Aiming.StopPupilAsWritten | rayopt/system.py:139-140 | the loop as written raises NameError exactly when some pair is yielded, since the first pair reaches the unimported name; where it does not raise it agrees with the corrected search |
| Aiming.HeightAtApertureAsWritten | rayopt/system.py:138-141 | as written, `height_at_aperture` raises NameError on every system, since `propagate` always yields the object |
| Aiming.HeightAtApertureParaxialAsWritten | rayopt/system.py:120-124 | as written, the paraxial search raises NameError exactly when there are elements, and otherwise finds nothing, as the corrected search does |
| Aiming.ChiefAndMarginalAsWritten | rayopt/system.py:146-147 | as written, `chief_and_marginal` always fails: AssertionError without elements, as the corrected version does, and NameError with any |
| Aiming.HeightAtApertureAsWrittenFails | rayopt/system.py:138-141 | as written, `height_at_aperture` raises NameError on every system, even where the corrected search answers |
| Aiming.HeightAtApertureParaxialAsWrittenFails | rayopt/system.py:120-124 | as written, the paraxial search raises NameError on every system with elements, even where the corrected search answers |
| Aiming.ChiefAndMarginalAsWrittenFails | rayopt/system.py:146-147 | as written, `chief_and_marginal` fails on every system, even where exactly one element is a stop |
| Merit.Values | rayopt/system.py:204 | `x0` has one entry per parameter, and entry i is `parameters[i].get_value` |
| Merit.SetAll | rayopt/system.py:197-198 | the `set_value` loop writes `x[i]` into parameter i in order; under the accessor laws, every parameter outside the list keeps its value |
| Merit.WriteThenRead | rayopt/system.py:232-233 | under the accessor laws, for distinct parameters, reading after writing `x` gives back `x` (its first n entries) |
| Merit.WriteBackInitial | rayopt/system.py:197-204 | under the accessor laws, writing back the values just read leaves the system unchanged |
| Merit.Equalities | rayopt/system.py:210 | `[c for c in constraints if c.equality]`, never longer than the input; its partner lemmas are below |
| Merit.Inequalities | rayopt/system.py:211 | `[c for c in constraints if not c.equality]`, never longer than the input; its partner lemmas are below |
| Merit.PartitionKeepsOrder | rayopt/system.py:210-211 | both constraint groups keep input order: filtering a concatenation filters each part |
| Merit.PartitionFlags | rayopt/system.py:210-211 | every constraint in a group comes from the input and carries that group's flag |
| Merit.PartitionExact | rayopt/system.py:210-211 | the two groups together hold every constraint exactly once (as multisets, and by length) |
| Merit.EmptyGroups | rayopt/system.py:210-221 | a group is empty exactly when no constraint carries its flag |
| Merit.Flatten | rayopt/system.py:202 | the concatenation is as long as all parts together |
| Merit.TotalLengthPrefix | rayopt/system.py:202 | the lengths of the parts before i, plus part i, never exceed the total |
| Merit.FlattenAt | rayopt/system.py:202 | entry j of part i sits at the total length of the parts before it |
| Merit.ConstraintOutputs | rayopt/system.py:214-216 | one output vector per constraint, in group order |
| Merit.Grouped | rayopt/system.py:213-221 | an empty group is passed to the solver as no function at all; a non-empty one as the function concatenating its members' outputs, in group order |
| Merit.ConstraintLayout | rayopt/system.py:213-216 | entry j of constraint i's output sits in the group's constraint vector right after the outputs of the constraints before it, and the vector's length is the sum of theirs |
| Merit.Scale | rayopt/system.py:201 | each weighted entry is the entry times the weight |
| Merit.DemeritOutputs | rayopt/system.py:201 | one weighted output per demerit, in demerit order |
| Merit.Objective | rayopt/system.py:201-202 | the objective fails with ValueError exactly when there are no demerits |
| Merit.ObjectiveLayout | rayopt/system.py:201-202 | the objective is the weighted demerit outputs laid end to end in demerit order, with length the sum of theirs |
| Merit.TraceAll | rayopt/system.py:200 | one traced bundle per input bundle, each the fold of propagation through elements and image |
| Merit.Lower | rayopt/system.py:222 | one lower bound per parameter, taken from its bounds |
| Merit.Upper | rayopt/system.py:223 | one upper bound per parameter, taken from its bounds |
| Merit.DiffSteps | rayopt/system.py:225 | the finite-difference step of each parameter is its scale divided by 100 |
| Merit.ObjectiveFunction | rayopt/system.py:196-202 | the objective handed to the solver fails with IndexError when the vector is shorter than the parameter list, otherwise with ValueError exactly when there are no demerits |
| Merit.BuildProblem | rayopt/system.py:204-228 | the problem starts from the parameters' current values, has one entry per parameter in `x0`, `lb`, `ub` and `diffInt`, its objective is the objective function at every vector, `h` is the function of the equality group and `c` that of the inequality group |
| Merit.ProblemShape | rayopt/system.py:210-228 | the problem passes an equality or inequality function exactly when that group is non-empty; under the accessor laws its objective at `x0` is the objective of the system as it stands |
| Systems.System.WriteParameters | rayopt/system.py:232-233 | the `set_value` loop leaves the state obtained by writing each `x[i]` into parameter i, in order |
| Systems.System.EvaluateObjective | rayopt/system.py:196-202 | the objective function writes the vector into the system and returns the objective of the resulting state |
| Systems.System.Optimize | rayopt/system.py:193-234 | `optimize` returns the parameters' starting values as `x0` and the solver's `(x, f)` for the problem built from the old state; it leaves the system with `x` written into the parameters |
| Systems.OptimizeThenRead | rayopt/system.py:193-234 | under the accessor laws, for distinct parameters, reading the parameters after `optimize` gives the solver's optimum |

## Left out

- The root finding in `chief_and_marginal` (rayopt/system.py:149-163, 169-177): the probe step, the secant extrapolation, `fsolve` and `newton`. This is floating-point numerics through SciPy. The chief coordinate and the marginal step are inputs to `Aiming.ChiefAndMarginal`.
- The solver (rayopt/system.py:218-229): openopt's `NLP` and `problem.solve` are a foreign library. The solver is a function parameter of `Systems.System.Optimize`. The tolerances, `maxCPUTime`, `maxNonSuccess`, `maxFunEvals`, `iprint` and `plot` are solver settings and are not carried in `Merit.Problem`.
- `print res` (rayopt/system.py:230): console output.
- The solver's own calls of the objective function change the system in the source. The model leaves them out: `Optimize` treats the solver as a pure function of the problem. `EvaluateObjective` models a single call together with its effect on the state.
- Systems.System.Optimize: requires the solver to return a vector as long as `x0`. A shorter vector would make the final `set_value` loop raise IndexError part-way through.
- Floating point: weights, the `1e-2` scale factor and `element.radius` divisions are exact `real`s, or opaque functions of the layer. `reshape((-1,))` is left out: each demerit already returns a flat vector.
- `__str__`, `surfaces`, `get_ray_bundle`, `paraxial_trace` and `solve` (rayopt/system.py:54-112, 181-191): these are report formatting, plotting geometry, printing, a one-line wrapper and a stub.
- The element classes, `Rays` and `ParaxialTrace`: rayopt/elements.py and rayopt/raytrace.py are not part of this model. Element-level propagation, `aberration3`, trace heights and end positions are uninterpreted functions in `Optics.Layer`.
- Element-level `revert()` is modelled as a function on the element's opaque face data. The model assumes it does not touch the origin, the material, the kind or the radius. The involution lemmas require it to be its own inverse.
- Aliasing: elements are values here. After `__add__` the two systems in the source share element objects, so a later in-place change to one (for example `revert`) shows up in the other. The model does not capture this sharing. The same holds within one system: `s + s` puts each element object into the list twice, so a later `revert` swaps materials on that object twice and calls its `revert()` twice, whereas `Systems.System.Add(this)` followed by `Systems.System.Revert` treats the two positions as independent values.
- The in-place mutation of element objects inside `revert`'s loops is modelled as computing the new element list and storing it. The loops collect the updated elements in order, and nothing reads the list in between.
- Each of the three errors `Reversal.Reverted` models is raised before any mutation in the source as well, so no partial state arises from them.
- The object and the image are always present in `Optics.Snapshot`. In the source they are traits that may be `None`, which `__str__` allows for (rayopt/system.py:65, 80). Without an image, `revert` raises AttributeError at line 43 after lines 39-42 have already moved the materials, leaving the system half reverted. `propagate` and `propagate_paraxial` raise at the image step, after the element steps have run. The model does not capture any of these failures.
- Systems.System.WriteParameters: requires the vector to cover every parameter. In the source a shorter vector raises IndexError after the writes before it. `Merit.ObjectiveFunction` returns that IndexError but leaves out the partial writes.
- The paraxial trace that `propagate_paraxial` and `height_at_aperture_paraxial` mutate is threaded through as a value.
- `setup.py`: build configuration.

## Findings

| source | as written | input that shows it | evidently intended | confidence | as-written member | corrected member |
|---|---|---|---|---|---|---|
| rayopt/system.py:140 | `isinstance(element, Aperture)` with `Aperture` never imported (the import on line 24 brings only `Element, Object, Image`) | any system: the first yielded pair (the object) reaches the test and raises NameError | return the pupil coordinate at the first aperture stop of the chain, None without one | high (not executed) | Aiming.HeightAtApertureAsWrittenFails | Propagation.HeightAtApertureAtFirstStop |
| rayopt/system.py:123 | the same unimported name in `height_at_aperture_paraxial` | any system with at least one element | read the paraxial heights at the first stop among the elements | high (not executed) | Aiming.HeightAtApertureParaxialAsWrittenFails | Propagation.HeightAtApertureParaxialAtFirstStop |
| rayopt/system.py:146-147 | the same unimported name in the one-stop assertion of `chief_and_marginal` | any system with at least one element (an empty one fails the assertion anyway) | accept exactly the systems with one aperture stop among the elements | high (not executed) | Aiming.ChiefAndMarginalAsWrittenFails | Aiming.ChiefAndMarginal |
