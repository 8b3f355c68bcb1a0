/** The header of the undivided Object File Format export of a cell mesh:
    the number of distinct vertices and the total number of facets over the
    markup boxes, the cell shapes and the nucleus hulls. Points are opaque
    values of type P; polyhedra are known by their points and facet count,
    which the geometry kernel computes. */
module OffExport {

  /** A convex polyhedron as the export sees it: the points it is made of and
      the number of facets the kernel reports for it. */
  datatype Polyhedron<P> = Polyhedron(points: seq<P>, facets: nat)

  /** What the export reads of one cell: its shape and its nuclei's hulls. */
  datatype CellSnapshot<P> = CellSnapshot(shape: Polyhedron<P>, nuclei: seq<Polyhedron<P>>)

  /** The counts line of an OFF file: vertices, faces, edges. */
  datatype OffHeader = OffHeader(vertices: nat, faces: nat, edges: nat)

  function Elements<P>(s: seq<P>): set<P> {
    set x | x in s
  }

  /** The distinct points of a list of polyhedra. */
  function PointSet<P>(ps: seq<Polyhedron<P>>): set<P>
    decreases |ps|
  {
    if |ps| == 0 then {} else PointSet(ps[..|ps| - 1]) + Elements(ps[|ps| - 1].points)
  }

  /** The facets of a list of polyhedra, added up. */
  function FacetTotal<P>(ps: seq<Polyhedron<P>>): nat
    decreases |ps|
  {
    if |ps| == 0 then 0 else FacetTotal(ps[..|ps| - 1]) + ps[|ps| - 1].facets
  }

  /** The points of a list of polyhedra, counted with repetition. */
  function PointCount<P>(ps: seq<Polyhedron<P>>): nat
    decreases |ps|
  {
    if |ps| == 0 then 0 else PointCount(ps[..|ps| - 1]) + |ps[|ps| - 1].points|
  }

  /** The polyhedra of the cells, cell by cell: each shape followed by its
      nuclei. */
  function CellParts<P>(cells: seq<CellSnapshot<P>>): seq<Polyhedron<P>>
    decreases |cells|
  {
    if |cells| == 0 then []
    else var c := cells[|cells| - 1]; CellParts(cells[..|cells| - 1]) + [c.shape] + c.nuclei
  }

  /** Everything the header counts: the markup boxes, then the cells. */
  function Parts<P>(boxes: seq<Polyhedron<P>>, cells: seq<CellSnapshot<P>>): seq<Polyhedron<P>> {
    boxes + CellParts(cells)
  }

  /** The header the export writes. */
  function HeaderOf<P(==)>(boxes: seq<Polyhedron<P>>, cells: seq<CellSnapshot<P>>): OffHeader {
    var ps := Parts(boxes, cells);
    OffHeader(|PointSet(ps)|, FacetTotal(ps), 0)
  }

  lemma PartsSnoc<P>(ps: seq<Polyhedron<P>>, q: Polyhedron<P>)
    ensures PointSet(ps + [q]) == PointSet(ps) + Elements(q.points)
    ensures FacetTotal(ps + [q]) == FacetTotal(ps) + q.facets
  {
    assert (ps + [q])[..|ps|] == ps;
  }

  /** Adds the points and facets of `ps` to running totals that already
      account for the polyhedra `counted`. */
  method AddPolyhedra<P(==)>(points: set<P>, nbFacets: nat, ghost counted: seq<Polyhedron<P>>,
                             ps: seq<Polyhedron<P>>)
    returns (points': set<P>, nbFacets': nat)
    requires points == PointSet(counted) && nbFacets == FacetTotal(counted)
    ensures points' == PointSet(counted + ps) && nbFacets' == FacetTotal(counted + ps)
  {
    points', nbFacets' := points, nbFacets;
    assert counted + ps[..0] == counted;
    for k := 0 to |ps|
      invariant points' == PointSet(counted + ps[..k]) && nbFacets' == FacetTotal(counted + ps[..k])
    {
      points' := points' + Elements(ps[k].points);
      nbFacets' := nbFacets' + ps[k].facets;
      PartsSnoc(counted + ps[..k], ps[k]);
      assert counted + ps[..k + 1] == counted + ps[..k] + [ps[k]];
    }
    assert ps[..|ps|] == ps;
  }

  /** Accumulates the distinct points and the facet total and returns the
      header and the result code of the export. `boxes` are the boxes built
      around the markup points, in the order of the markup map. */
  method ExportToFileOffUndivided<P(==)>(boxes: seq<Polyhedron<P>>, cells: seq<CellSnapshot<P>>)
    returns (header: OffHeader, code: int)
    ensures header == HeaderOf(boxes, cells)
    ensures code == 0
  {
    var points, nbFacets := AddPolyhedra({}, 0, [], boxes);
    assert [] + boxes == boxes + CellParts(cells[..0]);
    for i := 0 to |cells|
      invariant points == PointSet(boxes + CellParts(cells[..i]))
      invariant nbFacets == FacetTotal(boxes + CellParts(cells[..i]))
    {
      var cell := cells[i];
      ghost var before := boxes + CellParts(cells[..i]);
      points := points + Elements(cell.shape.points);
      nbFacets := nbFacets + cell.shape.facets;
      PartsSnoc(before, cell.shape);
      points, nbFacets := AddPolyhedra(points, nbFacets, before + [cell.shape], cell.nuclei);
      CellPartsSnoc(cells, i);
      assert boxes + CellParts(cells[..i + 1]) == before + [cell.shape] + cell.nuclei;
    }
    assert cells[..|cells|] == cells;
    header := OffHeader(|points|, nbFacets, 0);
    code := 0;
  }

  lemma CellPartsSnoc<P>(cells: seq<CellSnapshot<P>>, i: nat)
    requires i < |cells|
    ensures CellParts(cells[..i + 1]) == CellParts(cells[..i]) + [cells[i].shape] + cells[i].nuclei
  {
    assert cells[..i + 1][..i] == cells[..i];
  }

  /** A point is counted in the header exactly when some counted polyhedron
      has it. */
  lemma {:induction false} PointSetMember<P>(ps: seq<Polyhedron<P>>, p: P)
    ensures p in PointSet(ps) <==> exists i :: 0 <= i < |ps| && p in ps[i].points
    decreases |ps|
  {
    if |ps| > 0 {
      var init := ps[..|ps| - 1];
      PointSetMember(init, p);
      if p in PointSet(init) {
        var i :| 0 <= i < |init| && p in init[i].points;
        assert ps[i] == init[i];
      }
      if exists i :: 0 <= i < |ps| && p in ps[i].points {
        var i :| 0 <= i < |ps| && p in ps[i].points;
        if i < |init| {
          assert init[i] == ps[i];
        }
      }
    }
  }

  lemma {:induction false} ElementsBound<P>(s: seq<P>)
    ensures |Elements(s)| <= |s|
    decreases |s|
  {
    if |s| > 0 {
      var init := s[..|s| - 1];
      ElementsBound(init);
      assert Elements(s) == Elements(init) + {s[|s| - 1]};
    }
  }

  /** Deduplication never adds vertices: the vertex count is at most the
      number of points counted with repetition. */
  lemma {:induction false} PointSetBound<P>(ps: seq<Polyhedron<P>>)
    ensures |PointSet(ps)| <= PointCount(ps)
    decreases |ps|
  {
    if |ps| > 0 {
      var last := ps[|ps| - 1];
      PointSetBound(ps[..|ps| - 1]);
      ElementsBound(last.points);
    }
  }

  /** The facet total adds up over consecutive groups of polyhedra. */
  lemma {:induction false} FacetTotalAppend<P>(a: seq<Polyhedron<P>>, b: seq<Polyhedron<P>>)
    ensures FacetTotal(a + b) == FacetTotal(a) + FacetTotal(b)
    decreases |b|
  {
    if |b| > 0 {
      var init := b[..|b| - 1];
      FacetTotalAppend(a, init);
      assert (a + b)[..|a + b| - 1] == a + init;
      assert (a + b)[|a + b| - 1] == b[|b| - 1];
    } else {
      assert a + b == a;
    }
  }

  /** The header's vertex count lies between the largest number of distinct
      points of any one counted polyhedron and the number of points counted
      with repetition; its face count is the markup boxes' facets plus the
      cells' facets; its edge count is 0. */
  lemma HeaderCounts<P>(boxes: seq<Polyhedron<P>>, cells: seq<CellSnapshot<P>>, i: nat)
    requires i < |Parts(boxes, cells)|
    ensures |Elements(Parts(boxes, cells)[i].points)| <= HeaderOf(boxes, cells).vertices
    ensures HeaderOf(boxes, cells).vertices <= PointCount(Parts(boxes, cells))
    ensures HeaderOf(boxes, cells).faces == FacetTotal(boxes) + FacetTotal(CellParts(cells))
    ensures HeaderOf(boxes, cells).edges == 0
  {
    var ps := Parts(boxes, cells);
    forall p | p in Elements(ps[i].points) ensures p in PointSet(ps) {
      PointSetMember(ps, p);
    }
    var own := Elements(ps[i].points);
    assert PointSet(ps) == own + (PointSet(ps) - own);
    PointSetBound(ps);
    FacetTotalAppend(boxes, CellParts(cells));
  }
}
