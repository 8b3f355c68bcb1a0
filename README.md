# Spheroidal cell mesh: refinement scheduling and export bookkeeping

This project models, in Dafny, the orchestration around mesh refinement in
`SpheroidalCellMesh` of the cpop cell-population modeller:

- how `generateMesh` hands the cells of a Voronoi-style mesh to refinement
  workers: the number of threads, their identifiers, the round-robin dealing
  of cells (`iCell % nbThreadToCreate`), the sequential alternative, and the
  vector it returns;
- which integer code `exportToFile` returns for each output format;
- the vertex and facet counts that `exportToFileOff_undivided` writes in the
  header line `nV nF 0` of an Object File Format (OFF) file.

Files:

- `round_robin.dfy`, module `RoundRobin`: dealing a sequence to `n`
  workers, as values. `Dealt(s, n, w)` is the list worker `w` receives. The
  lemmas say which worker gets which cell, that each list keeps input order,
  that the lists are disjoint and together a permutation of the input, and
  that their lengths differ by at most one.
- `mesh.dfy`, module `Mesh`: the classes `Cell`, `MeshSubThread` (the
  refinement thread `SpheroidalCellMeshSubThread`) and `SpheroidalCellMesh`.
  The thread count is `WorkerCount`. The loops of `generateMesh` are the
  methods `CreateThreads`, `DealCells`, `RunThreads` and
  `RefineSequentially`. `GenerateMesh` composes them, and `ExportToFile` and
  `ExportCode` model the format dispatch.
- `off_export.dfy`, module `OffExport`: the point-set and facet-count
  accumulation of the undivided OFF export.

A cell is an object. Its shape is a `Shape` term. One refinement step turns
shape `s` into `Refined(s, params)`, where `params` holds the facet limit,
the delta, the neighbour-map snapshot and the nucleus ratio the worker was
built with. "Refined exactly once with the same parameters" is therefore the
postcondition `cells[i].shape == Refined(old(cells[i].shape), params)`.

The threads run concurrently in the mesher. They hold disjoint cell lists.
The model runs them one after the other, and `RunThreads` proves the
combined effect, under the assumption, stated under "Left out", that one
refinement step reads no other cell's shape.

A ceiling, `ceil(cellCount / MIN_NB_CELL_PER_THREAD)`, would be the natural
number of threads. The code computes `cellCount / MIN_NB_CELL_PER_THREAD + 1`
before the cap, and the model follows the code.
`WorkerCountVersusCeiling` proves the two agree except
when the cell count is an exact multiple of the minimum, zero included.
There the code creates one thread more; for example, 200 cells with a
minimum of 100 give 3 threads.

## Model

| member | source | states |
|---|---|---|
| `Mesh.WorkerCount` | source/Modeler/Geometry/Mesh/src/SpheroidalCellMesh.cc:180-186 | the thread count is the smaller of `cells/MIN_NB_CELL_PER_THREAD + 1` and `INITIAL_MAX_THREAD` (bounded by both, equal to one of them); it is at least 1 whenever the cap is at least 1, so `iCell % nbThreadToCreate` never divides by zero |
| `Mesh.WorkerCountVersusCeiling` | source/Modeler/Geometry/Mesh/src/SpheroidalCellMesh.cc:180 | floor + 1 equals the ceiling of cells/minimum unless the cell count is a multiple of the minimum, where it is one more |
| `Mesh.ThousandCellsOnFourThreads` | source/Modeler/Geometry/Mesh/src/SpheroidalCellMesh.cc:180-217 | 1000 cells, minimum 100, cap 4: four threads of 250 cells each |
| `Mesh.MeshSubThread.constructor` | source/Modeler/Geometry/Mesh/src/SpheroidalCellMesh.cc:197-203 | a new thread has the given identifier and refinement parameters and holds no cell |
| `Mesh.MeshSubThread.AddCell` | source/Modeler/Geometry/Mesh/src/SpheroidalCellMesh.cc:215 | `addCell` appends the cell to the thread's list and changes nothing else |
| `Mesh.MeshSubThread.RefineCell` | source/Modeler/Geometry/Mesh/src/SpheroidalCellMesh.cc:174 | `reffineCell` applies one refinement step, with the thread's parameters, to that cell only |
| `Mesh.MeshSubThread.Run` | source/Modeler/Geometry/Mesh/src/SpheroidalCellMesh.cc:220-231 | a started thread refines every cell of its list once, in list order, and no other cell |
| `Mesh.CreateThreads` | source/Modeler/Geometry/Mesh/src/SpheroidalCellMesh.cc:188-205 | the creation loop ends with exactly `nbThreadToCreate` distinct new threads, identifiers 0 to n-1 in order, all with the same parameters and empty lists |
| `Mesh.DealCells` | source/Modeler/Geometry/Mesh/src/SpheroidalCellMesh.cc:208-218 | after the dealing loop, thread w holds `Dealt(cells, n, w)`: the cells at positions congruent to w modulo n, in input order |
| `Mesh.RunThread` | source/Modeler/Geometry/Mesh/src/SpheroidalCellMesh.cc:220-231 | running thread w refines exactly the cells at positions congruent to w modulo n and leaves every other cell unchanged |
| `Mesh.RunThreads` | source/Modeler/Geometry/Mesh/src/SpheroidalCellMesh.cc:220-238 | once all threads have run, every cell has been refined exactly once with the shared parameters, and each thread refined its own list in order |
| `Mesh.RefineSequentially` | source/Modeler/Geometry/Mesh/src/SpheroidalCellMesh.cc:163-175 | without threads, one worker of identifier 0 refines each cell once, in input order |
| `Mesh.SpheroidalCellMesh.constructor` | source/Modeler/Geometry/Mesh/src/SpheroidalCellMesh.cc:64-71 | the mesh keeps its facet limit and delta, with an empty neighbour map |
| `Mesh.SpheroidalCellMesh.GenerateMesh` | source/Modeler/Geometry/Mesh/src/SpheroidalCellMesh.cc:149-243 | returns the very vector the cell structure gave, in its order; every cell is refined exactly once with the same facet limit, delta, nucleus ratio and neighbour-map snapshot, in both modes; with threads, they are `WorkerCount` many, numbered from 0, and each holds and refines its round-robin list; without threads, one worker refines the whole vector in order |
| `Mesh.SpheroidalCellMesh.ExportToFileGdml` | source/Modeler/Geometry/Mesh/src/SpheroidalCellMesh.cc:500-522 | the compiled-in GDML export always returns 0; an empty vector changes nothing; otherwise the conversion generates the mesh again, so every cell is refined once more with the same parameters |
| `Mesh.SpheroidalCellMesh.ExportToFile` | source/Modeler/Geometry/Mesh/src/SpheroidalCellMesh.cc:99-144 | an unknown format returns 3 before any mesh is generated and leaves all cells and the neighbour map untouched; any other format generates the mesh and returns `ExportCode`; each cell is then refined once, except with the compiled-in GDML exporter and at least one cell, where each cell is refined twice |
| `Mesh.ExportCode` | source/Modeler/Geometry/Mesh/src/SpheroidalCellMesh.cc:103-143 | 3 for every format at or past `Unknow`; OFF returns the OFF exporter's code; GDML returns 0 with the build flag and 1 without; every other format returns 1; with an OFF exporter code in 0 to 2, the code is in 0 to 3 and is 3 only for an unknown format; 0 only for a successful OFF export or the compiled-in GDML export |
| `RoundRobin.DealtSnoc` | source/Modeler/Geometry/Mesh/src/SpheroidalCellMesh.cc:215 | dealing one more cell extends only the list of the thread whose turn it is |
| `RoundRobin.DealtLength` | source/Modeler/Geometry/Mesh/src/SpheroidalCellMesh.cc:210-217 | thread w of n receives `len/n` cells, plus one if w < `len mod n` |
| `RoundRobin.DealtAt` | source/Modeler/Geometry/Mesh/src/SpheroidalCellMesh.cc:210-217 | position k of thread w's list is input position w + k·n, so each list keeps the relative input order |
| `RoundRobin.DealtMember` | source/Modeler/Geometry/Mesh/src/SpheroidalCellMesh.cc:215 | a cell is in thread w's list if and only if it occurs at an input position congruent to w modulo n |
| `RoundRobin.DealtCovers` | source/Modeler/Geometry/Mesh/src/SpheroidalCellMesh.cc:215 | the cell at position i is dealt to thread i mod n |
| `RoundRobin.DealtDisjoint` | source/Modeler/Geometry/Mesh/src/SpheroidalCellMesh.cc:212-217 | with distinct cells, no cell is in the lists of two different threads |
| `RoundRobin.DealtOwnership` | source/Modeler/Geometry/Mesh/src/SpheroidalCellMesh.cc:212-217 | with distinct cells, thread w holds the cell at position j exactly when j mod n is w, and holds nothing else |
| `RoundRobin.DealtDistinct` | source/Modeler/Geometry/Mesh/src/SpheroidalCellMesh.cc:212-217 | a thread's list of distinct cells has no repetition |
| `RoundRobin.DealIsPermutation` | source/Modeler/Geometry/Mesh/src/SpheroidalCellMesh.cc:208-218 | the threads' lists taken together are a permutation of the input: every cell is dealt, and dealt once |
| `RoundRobin.DealBalanced` | source/Modeler/Geometry/Mesh/src/SpheroidalCellMesh.cc:212-216 | any two lists differ in length by at most one, and a lower-numbered thread never holds fewer cells than a higher-numbered one |
| `OffExport.AddPolyhedra` | source/Modeler/Geometry/Mesh/src/SpheroidalCellMesh.cc:268-298 | inserting a run of polyhedra (the markup boxes, or one cell's nuclei) into the point set and the facet total extends both running totals by exactly those polyhedra |
| `OffExport.ExportToFileOffUndivided` | source/Modeler/Geometry/Mesh/src/SpheroidalCellMesh.cc:254-322 | the loops over markup boxes, cell shapes and nuclei end with the header `OffHeader(distinct points, facet total, 0)` of all those polyhedra, and the function returns 0 |
| `OffExport.PointSetMember` | source/Modeler/Geometry/Mesh/src/SpheroidalCellMesh.cc:257-301 | a point is counted among the header's vertices if and only if some markup box, cell shape or nucleus has it |
| `OffExport.PointSetBound` | source/Modeler/Geometry/Mesh/src/SpheroidalCellMesh.cc:283-301 | deduplication in the point set never adds vertices: at most the number of points counted with repetition |
| `OffExport.FacetTotalAppend` | source/Modeler/Geometry/Mesh/src/SpheroidalCellMesh.cc:256-299 | the facet total is additive over consecutive groups of polyhedra |
| `OffExport.HeaderCounts` | source/Modeler/Geometry/Mesh/src/SpheroidalCellMesh.cc:301 | the header's vertex count is at least the distinct points of any one counted polyhedron and at most all points with repetition; its face count is the boxes' facets plus the cells' facets; its last field is 0 |

## Left out

- The geometry kernel is not modelled. This covers `removeConflicts`, `getCellsStructure`, the building of `neighboursCell`, `delaunay.is_valid()`, `Utils::myCGAL::convertPointToBox`, `CGAL::convex_hull_3` and `getNumberOfFacets`. Their results are inputs: the cell vector `structure`, the neighbour map `neighbours`, and the points and facet count of each polyhedron. The validity assertions on the triangulation are left out.
- The body of `reffineCell` and of the thread's `run` are not part of this model. One refinement is one opaque step on one cell. A thread's run is taken to refine its list in order.
- Thread `start` with `MESHING_THREAD_PRIORITY`, `wait` and `delete` are concurrency plumbing. The threads are run one after the other.
- Mesh.RunThreads: running the threads one after the other equals running them concurrently only if a refinement step reads no other cell's shape. Every worker receives the neighbour map, whose entries point to cells that other workers refine at the same time; whether `reffineCell` reads a neighbour's shape through them is not visible here. The model's step `Refined(old shape, params)` assumes it does not, and no interleaving is modelled.
- Debug and user messages (`InformationSystemManager`, the `mess` strings) are logging only.
- `exportToFileOff` is not part of this model. `ExportToFile` takes its result code, and the `WITH_GDML_EXPORT` build flag, as the `Exporters` parameter. The output path and `pDivided` only reach the exporters and are dropped.
- Mesh.SpheroidalCellMesh.ExportToFile: with the GDML exporter compiled in, `convertToG4Logical` calls `generateMesh` again, which clears the neighbour map, removes conflicts and extracts the cell structure anew. The model assumes that this second extraction yields the same cells and the same neighbour map; a cell set that changed in between is not captured.
- `exportToFileOff_undivided` only counts here. It does not model the `.off` suffix, the `ofstream`, the calls to `IO::OFF::*` that write vertices, cells and boxes, or the `indexes` map.
- The markup points map is given as the list of boxes built around its points, in map order.
- Points are compared with Dafny equality, standing for `comparePoint_3`.
- `nbFacets` (`unsigned long`) and the thread count (`unsigned int`) are unbounded integers. Wrap-around is not modelled.
- The build constants `MIN_NB_CELL_PER_THREAD`, `INITIAL_MAX_THREAD`, `MAX_RATIO_NUCLEUS_TO_CELL` and `USE_THREAD_FOR_MESH_SUBDVN` are defined in headers that are not part of this model. They are the fields of `MeshSettings`. `GenerateMesh` requires the first two to be positive; a zero minimum would divide by zero at line 180.
- `GenerateMesh` requires the cell vector to hold each cell once, as the cell structure of a mesh does. A cell listed twice would be refined twice.
- The enumeration `MeshOutFormats::outputFormat` is not part of this model. Formats are modelled by where they stand relative to `Unknow`: GDML, OFF, another format before `Unknow`, or `Unknow` and beyond.
- The constructor's cell set, `clean`, the destructor, `getG4BoundingLogicalVolume`, and in `convertToG4World`, `convertToG4Logical` and `exportToFileGDML` everything except the second mesh generation and the return code, are left out. They are Geant4/GDML foreign calls, file writing and floating-point bounding-box arithmetic.
- `RandLandau` (floating-point numerics over a random engine) and the Geant4 UI messengers (`SourceMessenger`, `HomogeneousSourceMessenger`) are outside the modelled core.
