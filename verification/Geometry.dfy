/** Damage rectangles, [x1, x2) x [y1, y2). */
module Geometry {
  import opened Common

  datatype Rect = Rect(x1: int, y1: int, x2: int, y2: int) {
    predicate Has(x: int, y: int) { x1 <= x < x2 && y1 <= y < y2 }
    predicate Inside(width: nat, height: nat) { 0 <= x1 < x2 <= width && 0 <= y1 < y2 <= height }
  }

  predicate Touch(a: Rect, b: Rect) {
    a.x1 <= b.x2 && b.x1 <= a.x2 && a.y1 <= b.y2 && b.y1 <= a.y2
  }

  predicate Contains(a: Rect, b: Rect) {
    a.x1 <= b.x1 && a.y1 <= b.y1 && b.x2 <= a.x2 && b.y2 <= a.y2
  }

  /** Two rects touch when a pixel of one is a pixel of the other or next to
      it, corners included. */
  lemma TouchMeaning(a: Rect, b: Rect)
    requires a.x1 < a.x2 && a.y1 < a.y2 && b.x1 < b.x2 && b.y1 < b.y2
    ensures Touch(a, b) <==>
            exists x, y, v, w | a.Has(x, y) && b.Has(v, w) :: -1 <= x - v <= 1 && -1 <= y - w <= 1
  {
    if Touch(a, b) {
      var x, v := if b.x1 < a.x2 then Max(a.x1, b.x1) else a.x2 - 1, if a.x1 < b.x2 then Max(a.x1, b.x1) else b.x2 - 1;
      var y, w := if b.y1 < a.y2 then Max(a.y1, b.y1) else a.y2 - 1, if a.y1 < b.y2 then Max(a.y1, b.y1) else b.y2 - 1;
      assert a.Has(x, y) && b.Has(v, w);
    }
  }

  /** Parts of rects that do not touch do not touch. */
  lemma TouchOfParts(a: Rect, b: Rect, a': Rect, b': Rect)
    requires Contains(a, a') && Contains(b, b') && Touch(a', b')
    ensures Touch(a, b)
  {}

  /** No rect of rs from number i on touches one of ds, nor another of rs. */
  ghost predicate Apart(ds: seq<Rect>, rs: seq<Rect>, i: nat) {
    && (forall k, j | 0 <= k < |ds| && i <= j < |rs| :: !Touch(ds[k], rs[j]))
    && (forall j, l | i <= j < l < |rs| :: !Touch(rs[j], rs[l]))
  }

  /** One more waiting rect, part of the one in turn. */
  lemma ApartNext(ds: seq<Rect>, rs: seq<Rect>, i: nat, d: Rect)
    requires Apart(ds, rs, i) && i < |rs| && Contains(rs[i], d)
    ensures Apart(ds, rs, i + 1) && Apart(ds + [d], rs, i + 1)
    ensures forall k | 0 <= k < |ds| :: !Touch(ds[k], d)
  {
    forall k | 0 <= k < |ds|
      ensures !Touch(ds[k], d)
    {
      if Touch(ds[k], d) {
        TouchOfParts(ds[k], rs[i], ds[k], d);
      }
    }
    forall j | i < j < |rs|
      ensures !Touch(d, rs[j])
    {
      if Touch(d, rs[j]) {
        TouchOfParts(rs[i], rs[j], d, rs[j]);
      }
    }
  }

  /** The smallest rect containing both. */
  function Union(a: Rect, b: Rect): (u: Rect)
    ensures Contains(u, a) && Contains(u, b)
    ensures forall v | Contains(v, a) && Contains(v, b) :: Contains(v, u)
  {
    Rect(Min(a.x1, b.x1), Min(a.y1, b.y1), Max(a.x2, b.x2), Max(a.y2, b.y2))
  }

  ghost predicate Holds(es: seq<Rect>, d: Rect) {
    exists j | 0 <= j < |es| :: Contains(es[j], d)
  }

  /** Every rect of ds lies in some rect of es. */
  ghost predicate Swallows(es: seq<Rect>, ds: seq<Rect>) {
    forall k | 0 <= k < |ds| :: Holds(es, ds[k])
  }

  lemma SwallowsPointwise(es: seq<Rect>, ds: seq<Rect>)
    requires |ds| <= |es| && forall k | 0 <= k < |ds| :: Contains(es[k], ds[k])
    ensures Swallows(es, ds)
  {
    forall k | 0 <= k < |ds|
      ensures Holds(es, ds[k])
    {
      assert Contains(es[k], ds[k]);
    }
  }

  lemma SwallowsOne(es: seq<Rect>, j: nat, r: Rect)
    requires j < |es| && Contains(es[j], r)
    ensures Swallows(es, [r])
  {}

  ghost function Area(r: Rect): iset<(int, int)> { iset p: (int, int) | r.Has(p.0, p.1) }

  /** The points of the first n rects. */
  ghost function Areas(rects: seq<Rect>, n: nat): (area: iset<(int, int)>)
    requires n <= |rects|
    ensures n == 0 ==> area == iset{}
  {
    if n == 0 then iset{} else Areas(rects, n - 1) + Area(rects[n - 1])
  }

  lemma {:induction false} AreasMeaning(rects: seq<Rect>, n: nat, x: int, y: int)
    requires n <= |rects|
    ensures (x, y) in Areas(rects, n) <==> exists i | 0 <= i < n :: rects[i].Has(x, y)
  {
    if n > 0 {
      AreasMeaning(rects, n - 1, x, y);
    }
  }

  lemma AreasStep(rects: seq<Rect>, n: nat)
    requires n < |rects|
    ensures forall x, y :: (x, y) in Areas(rects, n + 1) <==> (x, y) in Areas(rects, n) || rects[n].Has(x, y)
  {}

  ghost predicate Covered(bs: seq<Rect>, x: int, y: int) { exists i | 0 <= i < |bs| :: bs[i].Has(x, y) }

  /** What `after` covers and `before` did not lies in the area. */
  ghost predicate GrowsIn(before: seq<Rect>, after: seq<Rect>, area: iset<(int, int)>) {
    forall x, y | Covered(after, x, y) && (x, y) !in area :: Covered(before, x, y)
  }

  lemma GrowsNot(ds: seq<Rect>, area: iset<(int, int)>)
    ensures GrowsIn(ds, ds, area)
  {}

  /** One more rect, part of the one in turn, or none. */
  lemma GrowsNext(before: seq<Rect>, ds: seq<Rect>, rs: seq<Rect>, i: nat, d: Rect)
    requires i < |rs| && GrowsIn(before, ds, Areas(rs, i)) && Contains(rs[i], d)
    ensures GrowsIn(before, ds, Areas(rs, i + 1)) && GrowsIn(before, ds + [d], Areas(rs, i + 1))
  {
    forall x, y | Covered(ds + [d], x, y) && (x, y) !in Areas(rs, i + 1)
      ensures Covered(before, x, y)
    {
      AreasStep(rs, i);
      assert !d.Has(x, y);
      assert Covered(ds, x, y);
    }
  }

  ghost predicate AllInside(ds: seq<Rect>, width: nat, height: nat) {
    forall i | 0 <= i < |ds| :: ds[i].Inside(width, height)
  }

  /** The smallest rect that contains all of rs. */
  ghost predicate Tight(box: Rect, rs: seq<Rect>) {
    && (forall i | 0 <= i < |rs| :: Contains(box, rs[i]))
    && forall v | forall i | 0 <= i < |rs| :: Contains(v, rs[i]) :: Contains(v, box)
  }

  lemma TightOne(r: Rect)
    ensures Tight(r, [r])
  {
    forall v | forall i | 0 <= i < |[r]| :: Contains(v, [r][i])
      ensures Contains(v, r)
    {
      assert Contains(v, [r][0]);
    }
  }

  lemma TightSnoc(box: Rect, rs: seq<Rect>, r: Rect)
    requires Tight(box, rs)
    ensures Tight(Union(box, r), rs + [r])
  {
    forall v | forall i | 0 <= i < |rs + [r]| :: Contains(v, (rs + [r])[i])
      ensures Contains(v, Union(box, r))
    {
      forall i | 0 <= i < |rs|
        ensures Contains(v, rs[i])
      {
        assert Contains(v, (rs + [r])[i]);
      }
      assert Contains(v, (rs + [r])[|rs|]);
    }
  }

  ghost predicate FirstTouch(rects: seq<Rect>, r: Rect, i: nat)
    requires i < |rects|
  {
    Touch(rects[i], r) && forall k | 0 <= k < i :: !Touch(rects[k], r)
  }

  /** Adds r to a list of at most `max` rects: into the first rect it
      touches, as a new rect, or by collapsing everything into one bounding
      box. */
  method AddRect(rects: seq<Rect>, r: Rect, max: nat, ghost width: nat, ghost height: nat) returns (d: seq<Rect>)
    requires |rects| <= max && max > 0 && AllInside(rects, width, height) && r.Inside(width, height)
    ensures |d| <= max && AllInside(d, width, height)
    ensures Swallows(d, rects) && Swallows(d, [r]) && d != []
    ensures forall i: nat | i < |rects| && FirstTouch(rects, r, i) :: d == rects[i := Union(rects[i], r)]
    ensures (forall i | 0 <= i < |rects| :: !Touch(rects[i], r)) ==>
              if |rects| < max then d == rects + [r] else |d| == 1 && Tight(d[0], rects + [r])
  {
    d := rects;
    var i := 0;
    while i < |d|
      invariant 0 <= i <= |d| && d == rects
      invariant forall k | 0 <= k < i :: !Touch(d[k], r)
    {
      if Touch(d[i], r) {
        d := d[i := Union(d[i], r)];
        SwallowsPointwise(d, rects);
        SwallowsOne(d, i, r);
        return;
      }
      i := i + 1;
    }
    if |d| < max {
      d := d + [r];
      SwallowsPointwise(d, rects);
      SwallowsOne(d, |d| - 1, r);
      return;
    }
    var box := BoundingBox(rects, width, height);
    d := [Union(box, r)];
    TightSnoc(box, rects, r);
    assert forall k | 0 <= k < |rects| :: Contains(d[0], rects[k]);
    SwallowsOne(d, 0, r);
  }

  /** All rects of the list collapsed into the first. */
  method BoundingBox(rects: seq<Rect>, ghost width: nat, ghost height: nat) returns (box: Rect)
    requires rects != [] && AllInside(rects, width, height)
    ensures Tight(box, rects) && box.Inside(width, height)
  {
    hide Union, Contains;
    box := rects[0];
    TightOne(box);
    assert rects[..1] == [rects[0]];
    var i := 1;
    while i < |rects|
      invariant 1 <= i <= |rects| && box.Inside(width, height) && Tight(box, rects[..i])
    {
      TightSnoc(box, rects[..i], rects[i]);
      assert rects[..i] + [rects[i]] == rects[..i + 1];
      UnionInside(box, rects[i], width, height);
      box := Union(box, rects[i]);
      i := i + 1;
    }
    assert rects[..|rects|] == rects;
  }

  lemma UnionInside(a: Rect, b: Rect, width: nat, height: nat)
    requires a.Inside(width, height) && b.Inside(width, height)
    ensures Union(a, b).Inside(width, height)
  {}
}
