/** The orchestration around mesh refinement in SpheroidalCellMesh: how many
    refinement workers are created, how the cells are dealt to them, what each
    cell goes through, and which result code an export request yields.
    The geometry kernel (conflict removal, extraction of the cell structure,
    the refinement step itself) is opaque: its results are inputs, and a
    refinement step is recorded as a term over the cell's previous shape. */
module Mesh {
  import opened RoundRobin

  /** What every refinement worker is built with: the facet limit, the
      minimal change for which refinement goes on, the snapshot of the
      neighbour map, and the maximal nucleus-to-cell ratio. The two reals
      are carried, never computed with. */
  datatype RefineParams = RefineParams(
    maxFacetsPerCell: nat,
    delta: real,
    neighbours: map<Cell, set<Cell>>,
    maxNucleusRatio: real)

  /** A cell's boundary shape, as far as the orchestration can tell: the shape
      the kernel built, or the result of one opaque refinement step applied to
      an earlier shape with the given parameters. */
  datatype Shape = Built(facets: nat) | Refined(from: Shape, params: RefineParams)

  /** Build-time constants of the mesher: whether refinement uses threads,
      the minimal number of cells per thread, the thread cap and the maximal
      nucleus-to-cell ratio. */
  datatype MeshSettings = MeshSettings(
    useThreads: bool,
    minCellsPerThread: nat,
    maxThreads: nat,
    maxNucleusRatio: real)

  /** The constants the mesher is built with are positive. */
  predicate ValidSettings(s: MeshSettings) {
    s.minCellsPerThread > 0 && s.maxThreads > 0
  }

  /** Number of refinement threads for `nbCells` cells: one more than the
      number of whole groups of `minPerThread` cells, capped at `maxThreads`. */
  function WorkerCount(nbCells: nat, minPerThread: nat, maxThreads: nat): (n: nat)
    requires minPerThread > 0
    ensures n <= maxThreads && n <= nbCells / minPerThread + 1
    ensures n == maxThreads || n == nbCells / minPerThread + 1
    ensures maxThreads >= 1 ==> n >= 1
  {
    var wanted := nbCells / minPerThread + 1;
    if wanted > maxThreads then maxThreads else wanted
  }

  /** Division rounded up, the worker count a design with a ceiling would use. */
  function CeilDiv(a: nat, m: nat): nat
    requires m > 0
  {
    (a + m - 1) / m
  }

  /** Before the cap, the thread count nbCells/minPerThread + 1 is the
      ceiling of nbCells/minPerThread, except when nbCells is an exact
      multiple of minPerThread (zero included), where it is one more. */
  lemma WorkerCountVersusCeiling(nbCells: nat, minPerThread: nat)
    requires minPerThread > 0
    ensures nbCells % minPerThread != 0 ==> nbCells / minPerThread + 1 == CeilDiv(nbCells, minPerThread)
    ensures nbCells % minPerThread == 0 ==> nbCells / minPerThread + 1 == CeilDiv(nbCells, minPerThread) + 1
  {
    var q, r := nbCells / minPerThread, nbCells % minPerThread;
    assert nbCells == q * minPerThread + r;
    if r == 0 {
      DivModUnique(nbCells + minPerThread - 1, minPerThread, q, minPerThread - 1);
    } else {
      assert nbCells + minPerThread - 1 == (q + 1) * minPerThread + (r - 1);
      DivModUnique(nbCells + minPerThread - 1, minPerThread, q + 1, r - 1);
    }
  }

  /** 1000 cells, at least 100 cells per thread and at most 4 threads: four
      threads of 250 cells each. */
  lemma ThousandCellsOnFourThreads<T>(cells: seq<T>)
    requires |cells| == 1000
    ensures WorkerCount(|cells|, 100, 4) == 4
    ensures forall w :: 0 <= w < 4 ==> |Dealt(cells, 4, w)| == 250
  {
    forall w | 0 <= w < 4 ensures |Dealt(cells, 4, w)| == 250 {
      DealtLength(cells, 4, w);
    }
  }

  /** A biological cell of the mesh, known by its identity; its shape is
      refined in place. */
  class Cell {
    var shape: Shape
  }

  /** A refinement worker: an identifier, the parameters it refines with,
      the cells dealt to it, and (ghost) the cells it has refined, in order. */
  class MeshSubThread {
    const id: nat
    const params: RefineParams
    var cells: seq<Cell>
    ghost var refined: seq<Cell>

    constructor (id: nat, params: RefineParams)
      ensures this.id == id && this.params == params
      ensures cells == [] && refined == []
    {
      this.id := id;
      this.params := params;
      cells := [];
      refined := [];
    }

    /** Hands one more cell to this worker. */
    method AddCell(c: Cell)
      modifies this`cells
      ensures cells == old(cells) + [c]
    {
      cells := cells + [c];
    }

    /** One refinement of one cell: an opaque step that changes the cell's
        shape and nothing else. */
    method RefineCell(c: Cell)
      modifies c, this`refined
      ensures c.shape == Refined(old(c.shape), params)
      ensures refined == old(refined) + [c]
    {
      c.shape := Refined(c.shape, params);
      refined := refined + [c];
    }

    /** The body of the thread: every cell dealt to it is refined once, in
        the order in which it was dealt. */
    method Run()
      requires Distinct(cells)
      modifies this`refined, cells
      ensures forall c :: c in cells ==> c.shape == Refined(old(c.shape), params)
      ensures refined == old(refined) + cells
    {
      for i := 0 to |cells|
        invariant forall j :: 0 <= j < |cells| ==>
          cells[j].shape == if j < i then Refined(old(cells[j].shape), params) else old(cells[j].shape)
        invariant refined == old(refined) + cells[..i]
      {
        RefineCell(cells[i]);
        assert cells[..i + 1] == cells[..i] + [cells[i]];
      }
      assert cells[..|cells|] == cells;
    }
  }

  /** Creates `n` workers with identifiers 0, 1, ..., n-1, all built with the
      same parameters and holding no cell yet. */
  method CreateThreads(n: nat, params: RefineParams) returns (threads: seq<MeshSubThread>)
    ensures |threads| == n && Distinct(threads)
    ensures forall w :: 0 <= w < n ==>
      fresh(threads[w]) && threads[w].id == w && threads[w].params == params &&
      threads[w].cells == [] && threads[w].refined == []
  {
    threads := [];
    var threadID: nat := 0;
    while |threads| < n
      invariant |threads| == threadID <= n && Distinct(threads)
      invariant forall w :: 0 <= w < |threads| ==>
        fresh(threads[w]) && threads[w].id == w && threads[w].params == params &&
        threads[w].cells == [] && threads[w].refined == []
    {
      var t := new MeshSubThread(threadID, params);
      threads := threads + [t];
      threadID := threadID + 1;
    }
  }

  /** Deals the cells round-robin: the cell at position i goes to worker
      i mod n. */
  method DealCells(cells: seq<Cell>, threads: seq<MeshSubThread>)
    requires |threads| > 0 && Distinct(threads)
    requires forall w :: 0 <= w < |threads| ==> threads[w].cells == []
    modifies threads`cells
    ensures forall w :: 0 <= w < |threads| ==> threads[w].cells == Dealt(cells, |threads|, w)
  {
    var n := |threads|;
    for iCell := 0 to |cells|
      invariant forall w :: 0 <= w < n ==> threads[w].cells == Dealt(cells[..iCell], n, w)
    {
      threads[iCell % n].AddCell(cells[iCell]);
      assert cells[..iCell + 1] == cells[..iCell] + [cells[iCell]];
      forall w | 0 <= w < n
        ensures threads[w].cells == Dealt(cells[..iCell + 1], n, w)
      {
        DealtSnoc(cells[..iCell], cells[iCell], n, w);
      }
    }
    assert cells[..|cells|] == cells;
  }

  /** Runs worker `w` of `n`, which holds the cells at the positions
      congruent to `w` modulo `n`: those cells are refined once, every other
      cell is left alone. */
  method RunThread(cells: seq<Cell>, t: MeshSubThread, n: nat, w: nat)
    requires w < n && Distinct(cells) && t.cells == Dealt(cells, n, w)
    modifies t`refined, cells
    ensures forall j :: 0 <= j < |cells| && j % n == w ==> cells[j].shape == Refined(old(cells[j].shape), t.params)
    ensures forall j :: 0 <= j < |cells| && j % n != w ==> cells[j].shape == old(cells[j].shape)
    ensures t.refined == old(t.refined) + t.cells
  {
    DealtDistinct(cells, n, w);
    DealtOwnership(cells, n, w);
    assert forall i :: 0 <= i < |t.cells| ==> t.cells[i] in cells;
    t.Run();
  }

  /** Runs every worker. The threads run concurrently in the mesher. Their
      lists are disjoint, and a refinement step is taken to depend only on
      the cell it refines and the parameters; under that assumption, running
      them one after the other has the same effect. */
  method RunThreads(cells: seq<Cell>, threads: seq<MeshSubThread>, params: RefineParams)
    requires |threads| > 0 && Distinct(threads) && Distinct(cells)
    requires forall w :: 0 <= w < |threads| ==>
      threads[w].cells == Dealt(cells, |threads|, w) && threads[w].params == params
    modifies threads`refined, cells
    ensures forall j :: 0 <= j < |cells| ==> cells[j].shape == Refined(old(cells[j].shape), params)
    ensures forall w :: 0 <= w < |threads| ==> threads[w].refined == old(threads[w].refined) + threads[w].cells
  {
    var n := |threads|;
    for w := 0 to n
      invariant forall j :: 0 <= j < |cells| ==>
        cells[j].shape == if j % n < w then Refined(old(cells[j].shape), params) else old(cells[j].shape)
      invariant forall v :: 0 <= v < n ==>
        threads[v].refined == old(threads[v].refined) + (if v < w then threads[v].cells else [])
    {
      RunThread(cells, threads[w], n, w);
    }
  }

  /** Refines the cells one after the other with a single worker of
      identifier 0, in input order. */
  method RefineSequentially(cells: seq<Cell>, params: RefineParams) returns (worker: MeshSubThread)
    requires Distinct(cells)
    modifies cells
    ensures fresh(worker) && worker.id == 0 && worker.params == params
    ensures forall j :: 0 <= j < |cells| ==> cells[j].shape == Refined(old(cells[j].shape), params)
    ensures worker.refined == cells
  {
    worker := new MeshSubThread(0, params);
    for i := 0 to |cells|
      invariant forall j :: 0 <= j < |cells| ==>
        cells[j].shape == if j < i then Refined(old(cells[j].shape), params) else old(cells[j].shape)
      invariant worker.refined == cells[..i]
    {
      worker.RefineCell(cells[i]);
      assert cells[..i + 1] == cells[..i] + [cells[i]];
    }
    assert cells[..|cells|] == cells;
  }

  /** The mesher: the refinement limits it was configured with and the
      neighbour map of its cells. */
  class SpheroidalCellMesh {
    const maxNbFacetPerCell: nat
    const deltaWin: real
    const settings: MeshSettings
    var neighboursCell: map<Cell, set<Cell>>

    constructor (maxNbFacetPerCell: nat, deltaWin: real, settings: MeshSettings)
      ensures this.maxNbFacetPerCell == maxNbFacetPerCell && this.deltaWin == deltaWin
      ensures this.settings == settings && neighboursCell == map[]
    {
      this.maxNbFacetPerCell := maxNbFacetPerCell;
      this.deltaWin := deltaWin;
      this.settings := settings;
      neighboursCell := map[];
    }

    /** The parameters every worker is built with, given the neighbour-map snapshot. */
    function ParamsFor(snapshot: map<Cell, set<Cell>>): RefineParams {
      RefineParams(maxNbFacetPerCell, deltaWin, snapshot, settings.maxNucleusRatio)
    }

    /** Generates the mesh. `structure` is the cell vector that conflict
        removal and the extraction of the cell structure produce, and
        `neighbours` the neighbour map they leave behind; both come from the
        geometry kernel. Every cell is refined exactly once, with the same
        parameters and the same snapshot of the neighbour map; the cells come
        back in the order of `structure`. The ghost `threads` are the workers
        that did the refinement. */
    method GenerateMesh(structure: seq<Cell>, neighbours: map<Cell, set<Cell>>)
      returns (cells: seq<Cell>, ghost threads: seq<MeshSubThread>)
      requires ValidSettings(settings) && Distinct(structure)
      modifies this`neighboursCell, structure
      ensures cells == structure && neighboursCell == neighbours
      ensures forall i :: 0 <= i < |cells| ==>
        cells[i].shape == Refined(old(cells[i].shape), ParamsFor(neighbours))
      ensures forall w :: 0 <= w < |threads| ==>
        fresh(threads[w]) && threads[w].id == w && threads[w].params == ParamsFor(neighbours)
      ensures !settings.useThreads ==> |threads| == 1 && threads[0].refined == structure
      ensures settings.useThreads ==>
        |threads| == WorkerCount(|structure|, settings.minCellsPerThread, settings.maxThreads) &&
        forall w :: 0 <= w < |threads| ==>
          threads[w].cells == Dealt(structure, |threads|, w) && threads[w].refined == threads[w].cells
    {
      neighboursCell := neighbours;
      cells := structure;
      var snapshot := neighboursCell;
      var params := ParamsFor(snapshot);
      if !settings.useThreads {
        var reffinement := RefineSequentially(cells, params);
        threads := [reffinement];
      } else {
        var nbThreadToCreate := WorkerCount(|cells|, settings.minCellsPerThread, settings.maxThreads);
        var reffinementThreads := CreateThreads(nbThreadToCreate, params);
        DealCells(cells, reffinementThreads);
        RunThreads(cells, reffinementThreads, params);
        threads := reffinementThreads;
      }
    }

    /** The compiled-in GDML export of `cells`. An empty vector is exported
        as nothing. Otherwise the conversion to the simulation world
        generates the mesh once more: the kernel extracts the same cells and
        neighbour map again, and every cell goes through a second
        refinement. The conversion and the file writing themselves are not
        part of this model; the export reports success in every case. */
    method ExportToFileGdml(cells: seq<Cell>, neighbours: map<Cell, set<Cell>>) returns (code: int)
      requires ValidSettings(settings) && Distinct(cells)
      modifies this`neighboursCell, cells
      ensures code == 0
      ensures |cells| == 0 ==> neighboursCell == old(neighboursCell)
      ensures |cells| > 0 ==> neighboursCell == neighbours
      ensures |cells| > 0 ==>
        forall i :: 0 <= i < |cells| ==> cells[i].shape == Refined(old(cells[i].shape), ParamsFor(neighbours))
    {
      if |cells| < 1 {
        return 0;
      }
      var regenerated, _ := GenerateMesh(cells, neighbours);
      code := 0;
    }

    /** Exports the mesh. An unknown format is refused with code 3 before any
        mesh is generated; otherwise the mesh is generated and the format
        dispatched. `exporters` holds the build flag of the GDML exporter and
        the code the OFF exporter, which is not part of this model, reports.
        With the GDML exporter compiled in, a non-empty mesh is generated,
        and so refined, twice. */
    method ExportToFile(format: OutputFormat, exporters: Exporters,
                        structure: seq<Cell>, neighbours: map<Cell, set<Cell>>)
      returns (code: int)
      requires ValidSettings(settings) && Distinct(structure)
      modifies this`neighboursCell, structure
      ensures code == ExportCode(format, exporters)
      ensures IsUnknown(format) ==>
        neighboursCell == old(neighboursCell) &&
        forall i :: 0 <= i < |structure| ==> structure[i].shape == old(structure[i].shape)
      ensures !IsUnknown(format) ==> neighboursCell == neighbours
      ensures !IsUnknown(format) && !(format == GDML && exporters.withGdmlExport && |structure| > 0) ==>
        forall i :: 0 <= i < |structure| ==>
          structure[i].shape == Refined(old(structure[i].shape), ParamsFor(neighbours))
      ensures format == GDML && exporters.withGdmlExport && |structure| > 0 ==>
        forall i :: 0 <= i < |structure| ==>
          structure[i].shape == Refined(Refined(old(structure[i].shape), ParamsFor(neighbours)), ParamsFor(neighbours))
    {
      if IsUnknown(format) {
        return 3;
      }
      var cells, _ := GenerateMesh(structure, neighbours);
      if format == GDML && exporters.withGdmlExport {
        code := ExportToFileGdml(cells, neighbours);
      } else {
        code := ExportCode(format, exporters);
      }
    }
  }

  /** The output formats, by their place in the format enumeration: the two
      the mesher handles, any other enumerator before `Unknow`, and `Unknow`
      itself or any value past it. */
  datatype OutputFormat = GDML | OFF | OtherFormat(ordinal: nat) | AtOrPastUnknow(ordinal: nat)

  predicate IsUnknown(f: OutputFormat) {
    f.AtOrPastUnknow?
  }

  /** Whether the GDML exporter is compiled in, and the code the OFF exporter
      returns: 0 success, 1 not implemented, 2 failed. */
  datatype Exporters = Exporters(withGdmlExport: bool, offResult: int)

  predicate ExporterCodes(ex: Exporters) {
    0 <= ex.offResult <= 2
  }

  /** The code an export request returns: 0 success, 1 not implemented,
      2 failed during export, 3 unknown format. The compiled-in GDML
      exporter always reports success. */
  function ExportCode(format: OutputFormat, ex: Exporters): (code: int)
    ensures IsUnknown(format) ==> code == 3
    ensures ExporterCodes(ex) ==> 0 <= code <= 3 && (code == 3 ==> IsUnknown(format))
    ensures format == OFF ==> code == ex.offResult
    ensures format == GDML ==> (code == 0 <==> ex.withGdmlExport) && (!ex.withGdmlExport ==> code == 1)
    ensures format.OtherFormat? ==> code == 1
    ensures code == 0 ==> (format == OFF && ex.offResult == 0) || (format == GDML && ex.withGdmlExport)
  {
    if IsUnknown(format) then 3
    else match format
      case GDML => if ex.withGdmlExport then 0 else 1
      case OFF => ex.offResult
      case _ => 1
  }
}
