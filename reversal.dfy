/** `System.revert`: turn an optical chain around. The element list is
    reversed, every material-bearing element takes over the material of the
    material-bearing element before it (the object's material enters at the
    front), and the relative origins move one place through the image plane.
    This module gives the result as a function of the old state; the
    in-place method `Systems.System.Revert` is proved against it. */
module Reversal {
  import opened Optics

  function Reverse<T>(s: seq<T>): (r: seq<T>)
    ensures |r| == |s|
  {
    if s == [] then [] else Reverse(s[1..]) + [s[0]]
  }

  lemma {:induction false} ReverseAt<T>(s: seq<T>, k: nat)
    requires k < |s|
    ensures Reverse(s)[k] == s[|s| - 1 - k]
  {
    if k < |s| - 1 {
      ReverseAt(s[1..], k);
    }
  }

  // ---------------------------------------------------------------------
  // The material pass: `m, e.material = e.material, m` over the elements

  /** What element `e` hands on when `m` is handed to it. */
  function Passed(e: Element, m: Material): Material
  {
    if e.material.Some? then e.material.value else m
  }

  /** Element `e` after the swap with `m`. */
  function Received(e: Element, m: Material): Element
  {
    if e.material.Some? then e.(material := Some(m)) else e
  }

  /** The material left in the loop variable after passing `m` through `es`. */
  function Carry(es: seq<Element>, m: Material): Material
  {
    if es == [] then m else Carry(es[1..], Passed(es[0], m))
  }

  /** The elements after the material pass that starts with `m`. */
  function Shift(es: seq<Element>, m: Material): (r: seq<Element>)
    ensures |r| == |es|
  {
    if es == [] then [] else [Received(es[0], m)] + Shift(es[1..], Passed(es[0], m))
  }

  /** One step of the material pass, from position `i` on. */
  lemma ShiftStep(es: seq<Element>, i: nat, m: Material)
    requires i < |es|
    ensures Shift(es[i..], m) == [Received(es[i], m)] + Shift(es[i + 1..], Passed(es[i], m))
  {
    assert es[i..][1..] == es[i + 1..];
  }

  // ---------------------------------------------------------------------
  // The origin pass: `e.revert(); d, e.origin = e.origin, d` over the
  // reversed elements

  /** The elements after the origin pass that starts with `d`: each element
      is reverted by `flip` and takes the origin of the one before it. */
  function Rotate(fs: seq<Element>, d: Vec3, flip: Face -> Face): (r: seq<Element>)
    ensures |r| == |fs|
  {
    if fs == [] then []
    else [fs[0].(face := flip(fs[0].face), origin := d)] + Rotate(fs[1..], fs[0].origin, flip)
  }

  /** `System.revert` as a function of the old state. The checks come in the
      order in which the source would raise: the object's material, the last
      element, the last element's material. Nothing changes on an error. */
  function Reverted(s: Snapshot, flip: Face -> Face): (r: Result<Snapshot>)
    ensures r.Ok? <==> s.obj.material.Some? && |s.elements| > 0
                       && s.elements[|s.elements| - 1].material.Some?
    ensures r.Err? && s.obj.material.Some? ==>
              r.error == if |s.elements| == 0 then IndexError else AttributeError
    ensures r.Err? && s.obj.material.None? ==> r.error == AttributeError
    ensures r.Ok? ==> r.value.(obj := s.obj, elements := s.elements, image := s.image) == s
    ensures r.Ok? ==> |r.value.elements| == |s.elements|
  {
    if s.obj.material.None? then Err(AttributeError)
    else if |s.elements| == 0 then Err(IndexError)
    else
      var last := s.elements[|s.elements| - 1];
      if last.material.None? then Err(AttributeError)
      else
        Ok(s.(obj := s.obj.(material := last.material),
              elements := Rotate(Reverse(Shift(s.elements, s.obj.material.value)),
                                 s.image.origin, flip),
              image := s.image.(origin := s.elements[0].origin)))
  }

  // ---------------------------------------------------------------------
  // Pointwise descriptions

  lemma {:induction false} ShiftAt(es: seq<Element>, m: Material, i: nat)
    requires i < |es|
    ensures Shift(es, m)[i] == Received(es[i], Carry(es[..i], m))
  {
    if i > 0 {
      ShiftAt(es[1..], Passed(es[0], m), i - 1);
      assert es[..i][1..] == es[1..][..i - 1];
    }
  }

  /** One step of the origin pass, from position `i` on. */
  lemma RotateStep(fs: seq<Element>, i: nat, d: Vec3, flip: Face -> Face)
    requires i < |fs|
    ensures Rotate(fs[i..], d, flip) == [fs[i].(face := flip(fs[i].face), origin := d)] + Rotate(fs[i + 1..], fs[i].origin, flip)
  {
    assert fs[i..][1..] == fs[i + 1..];
  }

  /** The material pass changes only materials, and only where an element
      has one. */
  lemma ShiftOnlyMaterials(es: seq<Element>, m: Material, i: nat)
    requires i < |es|
    ensures Shift(es, m)[i].(material := es[i].material) == es[i]
    ensures Shift(es, m)[i].material.Some? <==> es[i].material.Some?
  {
    ShiftAt(es, m, i);
  }

  lemma {:induction false} RotateAt(fs: seq<Element>, d: Vec3, flip: Face -> Face, k: nat)
    requires k < |fs|
    ensures Rotate(fs, d, flip)[k]
              == fs[k].(face := flip(fs[k].face), origin := if k == 0 then d else fs[k - 1].origin)
  {
    if k > 0 {
      RotateAt(fs[1..], fs[0].origin, flip, k - 1);
    }
  }

  lemma {:induction false} CarryAppend(a: seq<Element>, b: seq<Element>, m: Material)
    ensures Carry(a + b, m) == Carry(b, Carry(a, m))
  {
    if a != [] {
      assert (a + b)[1..] == a[1..] + b;
      CarryAppend(a[1..], b, Passed(a[0], m));
    } else {
      assert a + b == b;
    }
  }

  lemma {:induction false} CarryNoMaterial(es: seq<Element>, m: Material)
    requires forall k :: 0 <= k < |es| ==> es[k].material.None?
    ensures Carry(es, m) == m
  {
    if es != [] {
      CarryNoMaterial(es[1..], m);
    }
  }

  /** The material left over is that of the last material-bearing element. */
  lemma CarryLastMaterial(es: seq<Element>, m: Material, j: nat)
    requires j < |es| && es[j].material.Some?
    requires forall k :: j < k < |es| ==> es[k].material.None?
    ensures Carry(es, m) == es[j].material.value
  {
    assert es == es[..j] + ([es[j]] + es[j + 1..]);
    CarryAppend(es[..j], [es[j]] + es[j + 1..], m);
    CarryNoMaterial(es[j + 1..], es[j].material.value);
  }

  /** Each material-bearing element receives the material of the previous
      material-bearing element, the first one receives `m`, and elements
      without a material are left alone. */
  lemma ShiftReceivesPrevious(es: seq<Element>, m: Material, i: nat)
    requires i < |es|
    ensures es[i].material.None? ==> Shift(es, m)[i] == es[i]
    ensures ((forall k :: 0 <= k < i ==> es[k].material.None?) && es[i].material.Some?)
              ==> Shift(es, m)[i] == es[i].(material := Some(m))
    ensures forall j :: 0 <= j < i && es[j].material.Some?
                        && (forall k :: j < k < i ==> es[k].material.None?)
              ==> Shift(es, m)[i].material == if es[i].material.Some? then es[j].material else None
  {
    ShiftAt(es, m, i);
    if forall k :: 0 <= k < i ==> es[k].material.None? {
      CarryNoMaterial(es[..i], m);
    }
    forall j | 0 <= j < i && es[j].material.Some? && (forall k :: j < k < i ==> es[k].material.None?)
      ensures Carry(es[..i], m) == es[j].material.value
    {
      CarryLastMaterial(es[..i], m, j);
    }
  }

  // ---------------------------------------------------------------------
  // The two passes undo themselves

  lemma {:induction false} ShiftAppend(a: seq<Element>, b: seq<Element>, m: Material)
    ensures Shift(a + b, m) == Shift(a, m) + Shift(b, Carry(a, m))
  {
    if a != [] {
      assert (a + b)[1..] == a[1..] + b;
      ShiftAppend(a[1..], b, Passed(a[0], m));
    } else {
      assert a + b == b;
    }
  }

  /** Passing the left-over material back through the reversed, shifted
      chain leaves the material that was first passed in. */
  lemma {:induction false} CarryBack(es: seq<Element>, m: Material)
    ensures Carry(Reverse(Shift(es, m)), Carry(es, m)) == m
  {
    if es != [] {
      var e, rest := es[0], es[1..];
      var front := Reverse(Shift(rest, Passed(e, m)));
      assert Shift(es, m)[1..] == Shift(rest, Passed(e, m));
      assert Reverse(Shift(es, m)) == front + [Received(e, m)];
      CarryAppend(front, [Received(e, m)], Carry(rest, Passed(e, m)));
      if e.material.None? {
        CarryBack(rest, m);
      }
    }
  }

  lemma {:induction false} ShiftReverseShift(es: seq<Element>, m: Material)
    ensures Shift(Reverse(Shift(es, m)), Carry(es, m)) == Reverse(es)
  {
    if es != [] {
      var e, rest := es[0], es[1..];
      var m1 := Passed(e, m);
      var front := Reverse(Shift(rest, m1));
      assert Shift(es, m)[1..] == Shift(rest, m1);
      assert Reverse(Shift(es, m)) == front + [Received(e, m)];
      ShiftAppend(front, [Received(e, m)], Carry(rest, m1));
      ShiftReverseShift(rest, m1);
      CarryBack(rest, m1);
      assert Shift([Received(e, m)], m1) == [e];
    }
  }

  lemma {:induction false} ShiftRotate(fs: seq<Element>, d: Vec3, flip: Face -> Face, m: Material)
    ensures Shift(Rotate(fs, d, flip), m) == Rotate(Shift(fs, m), d, flip)
  {
    if fs != [] {
      ShiftRotate(fs[1..], fs[0].origin, flip, Passed(fs[0], m));
      assert Shift(fs, m)[1..] == Shift(fs[1..], Passed(fs[0], m));
    }
  }

  lemma RotateReverseTwice(es: seq<Element>, d: Vec3, flip: Face -> Face)
    requires forall f :: flip(flip(f)) == f
    requires |es| > 0
    ensures Rotate(Reverse(Rotate(Reverse(es), d, flip)), es[0].origin, flip) == es
  {
    var n := |es|;
    var f := Reverse(es);
    var g := Rotate(f, d, flip);
    var h := Reverse(g);
    var r := Rotate(h, es[0].origin, flip);
    forall k | 0 <= k < n
      ensures r[k] == es[k]
    {
      RotateAt(h, es[0].origin, flip, k);
      ReverseAt(g, k);
      RotateAt(f, d, flip, n - 1 - k);
      ReverseAt(es, n - 1 - k);
      if k > 0 {
        ReverseAt(g, k - 1);
        RotateAt(f, d, flip, n - k);
        ReverseAt(es, n - k - 1);
      }
    }
  }

  // ---------------------------------------------------------------------
  // The properties of `revert`

  /** One `revert`: the elements come back in reverse order with their
      shapes reverted; the new first element gets the old image origin and
      each later one the old origin of the element before it in the new
      order; the image gets the old first origin; the object gets the old
      last material; the materials are those of the material pass. */
  lemma RevertedShape(s: Snapshot, flip: Face -> Face)
    requires Reverted(s, flip).Ok?
    ensures var t, n := Reverted(s, flip).value, |s.elements|;
      && t.image == s.image.(origin := s.elements[0].origin)
      && t.obj == s.obj.(material := s.elements[n - 1].material)
      && t.elements[0].origin == s.image.origin
      && (forall k :: 1 <= k < n ==> t.elements[k].origin == s.elements[n - k].origin)
      && (forall k :: 0 <= k < n ==>
            && t.elements[k].kind == s.elements[n - 1 - k].kind
            && t.elements[k].radius == s.elements[n - 1 - k].radius
            && t.elements[k].face == flip(s.elements[n - 1 - k].face)
            && t.elements[k].material
                 == Shift(s.elements, s.obj.material.value)[n - 1 - k].material)
  {
    var n := |s.elements|;
    var t := Reverted(s, flip).value;
    var sh := Shift(s.elements, s.obj.material.value);
    var f := Reverse(sh);
    forall k | 0 <= k < n
      ensures t.elements[k].kind == s.elements[n - 1 - k].kind
      ensures t.elements[k].radius == s.elements[n - 1 - k].radius
      ensures t.elements[k].face == flip(s.elements[n - 1 - k].face)
      ensures t.elements[k].material == sh[n - 1 - k].material
      ensures t.elements[k].origin == if k == 0 then s.image.origin else s.elements[n - k].origin
    {
      RotateAt(f, s.image.origin, flip, k);
      ReverseAt(sh, k);
      ShiftOnlyMaterials(s.elements, s.obj.material.value, n - 1 - k);
      if k > 0 {
        ReverseAt(sh, k - 1);
        ShiftOnlyMaterials(s.elements, s.obj.material.value, n - k);
      }
    }
  }

  /** A reverted chain can be reverted again exactly when the old first
      element has a material (it is the new last one). */
  lemma RevertAgainDefined(s: Snapshot, flip: Face -> Face)
    requires Reverted(s, flip).Ok?
    ensures Reverted(Reverted(s, flip).value, flip).Ok? <==> s.elements[0].material.Some?
  {
    var n := |s.elements|;
    var sh := Shift(s.elements, s.obj.material.value);
    RotateAt(Reverse(sh), s.image.origin, flip, n - 1);
    ReverseAt(sh, n - 1);
  }

  /** Reverting twice restores the system: element order, every origin, the
      image origin, the object's material and every material. */
  lemma RevertInvolution(s: Snapshot, flip: Face -> Face)
    requires forall f :: flip(flip(f)) == f
    requires Reverted(s, flip).Ok?
    requires Reverted(Reverted(s, flip).value, flip).Ok?
    ensures Reverted(Reverted(s, flip).value, flip).value == s
  {
    var n := |s.elements|;
    var es := s.elements;
    var m0 := s.obj.material.value;
    var mn := es[n - 1].material.value;
    var t := Reverted(s, flip).value;
    var sh := Shift(es, m0);
    RevertAgainDefined(s, flip);
    // the carried-out material is that of the last element
    CarryLastMaterial(es, m0, n - 1);
    // materials: the second pass undoes the first
    ShiftRotate(Reverse(sh), s.image.origin, flip, mn);
    ShiftReverseShift(es, m0);
    assert Shift(t.elements, mn) == Rotate(Reverse(es), s.image.origin, flip);
    // origins and shapes: the second rotation undoes the first
    RotateReverseTwice(es, s.image.origin, flip);
    // the object's material and the image origin come back
    RotateAt(Reverse(sh), s.image.origin, flip, n - 1);
    ReverseAt(sh, n - 1);
    ShiftAt(es, m0, 0);
    RotateAt(Reverse(sh), s.image.origin, flip, 0);
  }
}
