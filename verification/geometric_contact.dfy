/**
 * The persistent state of the geometric contact engine: the facet maps and
 * per-master-facet cell metadata that the contact pipeline fills in, and the
 * two size helpers for the swept prism of a facet.
 */
module Contact {

  /** 2^64: one more than the largest std::size_t on a 64-bit target. */
  const WORD: int := 0x1_0000_0000_0000_0000

  /** An unsigned machine word (std::size_t). */
  type Word = x: int | 0 <= x < WORD

  /** Number of vertices of a facet of a simplex mesh of topological dimension tdim. */
  function FacetVertices(tdim: nat): nat { tdim }

  /**
   * Number of (tdim-1)-simplices bounding the prism swept by a facet: two
   * copies of the facet (before and after the displacement) and one side
   * wall per (tdim-2)-face of the facet, each wall split into tdim-1 simplices.
   */
  function PrismBoundarySimplices(tdim: nat): nat { 2 + tdim * (tdim - 1) }

  /**
   * Number of cells of the projected prism of a facet. The subtraction
   * happens in unsigned arithmetic, so tdim == 0 wraps around.
   */
  function CellsPerFacet(tdim: Word): (r: Word)
    ensures 1 <= tdim <= WORD / 4 ==> r == 4 * (tdim - 1)
    ensures tdim == 0 ==> r == WORD - 4
    ensures tdim == 2 ==> r == 4
    ensures tdim == 3 ==> r == 8
  {
    ((tdim - 1) * 4) % WORD
  }

  /** Number of vertices of the projected prism of a facet (unsigned product). */
  function VerticesPerFacet(tdim: Word): (r: Word)
    ensures tdim < WORD / 2 ==> r == 2 * tdim
    ensures tdim == 2 ==> r == 4
    ensures tdim == 3 ==> r == 6
  {
    (tdim * 2) % WORD
  }

  /**
   * In 2D and 3D the two helpers count the swept prism: every facet vertex
   * appears once undisplaced and once displaced, and the cells are the
   * boundary simplices of the prism (4 edges of a quadrilateral, or the
   * 2 + 3 * 2 triangles of a triangular prism).
   */
  lemma PrismCounts(tdim: Word)
    requires tdim == 2 || tdim == 3
    ensures VerticesPerFacet(tdim) == 2 * FacetVertices(tdim)
    ensures CellsPerFacet(tdim) == PrismBoundarySimplices(tdim)
  {
  }

  /**
   * What one detected collision records about the contacted cell: the slave
   * facet (global and process-local index) and the cell's dof coordinates,
   * global dof indices and dof coefficients. Never changed once built.
   */
  datatype CellMetaData = CellMetaData(
    slaveFacetIdx: nat,
    slaveFacetLocalIdx: nat,
    dofCoords: seq<real>,
    cellDofs: seq<nat>,
    dofCoeffs: seq<real>)
  {
    function GetDofCoords(): seq<real> { dofCoords }
    function GetDofCoeffs(): seq<real> { dofCoeffs }
    function GetCellDofs(): seq<nat> { cellDofs }
  }

  /** A record built from its five inputs gives each of them back unchanged. */
  lemma CellMetaDataKeepsInputs(sf: nat, sfl: nat, coords: seq<real>, dofs: seq<nat>, coeffs: seq<real>)
    ensures var c := CellMetaData(sf, sfl, coords, dofs, coeffs);
      && c.slaveFacetIdx == sf && c.slaveFacetLocalIdx == sfl
      && c.GetDofCoords() == coords && c.GetCellDofs() == dofs && c.GetDofCoeffs() == coeffs
  {
  }

  /** The value operator[] yields: the stored list, or a default (empty) one. */
  function Lookup<V>(m: map<nat, seq<V>>, k: nat): seq<V>
  {
    if k in m then m[k] else []
  }

  /** The map after operator[]: a missing key is inserted with an empty list. */
  function Touch<V>(m: map<nat, seq<V>>, k: nat): (r: map<nat, seq<V>>)
    ensures r.Keys == m.Keys + {k}
    ensures forall j :: j in m ==> r[j] == m[j]
    ensures r[k] == Lookup(m, k)
  {
    if k in m then m else m[k := []]
  }

  /**
   * A second lookup of the same key sees the same list as the first, and
   * leaves the map as the first left it.
   */
  lemma TouchIdempotent<V>(m: map<nat, seq<V>>, k: nat)
    ensures Touch(Touch(m, k), k) == Touch(m, k)
    ensures Lookup(Touch(m, k), k) == Lookup(m, k)
  {
  }

  /** The contact engine's state: facet pairings and contacted-cell data. */
  class GeometricContact {
    var masterToSlave: map<nat, seq<nat>>
    var slaveToMaster: map<nat, seq<nat>>
    var localCellToContactDofs: map<nat, seq<nat>>
    var localCellToOffProcContactDofs: map<nat, seq<nat>>
    var masterFacetToContactedCells: map<nat, seq<CellMetaData>>

    /** A new engine has detected nothing yet. */
    constructor ()
      ensures masterToSlave == map[] && slaveToMaster == map[]
      ensures localCellToContactDofs == map[] && localCellToOffProcContactDofs == map[]
      ensures masterFacetToContactedCells == map[]
    {
      masterToSlave := map[];
      slaveToMaster := map[];
      localCellToContactDofs := map[];
      localCellToOffProcContactDofs := map[];
      masterFacetToContactedCells := map[];
    }

    /** The const getters: each hands back its stored map and changes nothing. */
    function MasterToSlave(): (r: map<nat, seq<nat>>)
      reads this
      ensures r == masterToSlave
    {
      masterToSlave
    }

    function SlaveToMaster(): (r: map<nat, seq<nat>>)
      reads this
      ensures r == slaveToMaster
    {
      slaveToMaster
    }

    function LocalCellsToContactDofs(): (r: map<nat, seq<nat>>)
      reads this
      ensures r == localCellToContactDofs
    {
      localCellToContactDofs
    }

    function LocalCellToOffProcContactDofs(): (r: map<nat, seq<nat>>)
      reads this
      ensures r == localCellToOffProcContactDofs
    {
      localCellToOffProcContactDofs
    }

    /**
     * The contacted-cell metadata recorded for master facet mIdx, empty if
     * none. Like std::map::operator[], it inserts an empty entry for a
     * facet it has not seen; nothing else changes.
     */
    method GetCellMetaData(mIdx: nat) returns (cells: seq<CellMetaData>)
      modifies this`masterFacetToContactedCells
      ensures mIdx in old(masterFacetToContactedCells) ==> cells == old(masterFacetToContactedCells)[mIdx]
      ensures mIdx !in old(masterFacetToContactedCells) ==> cells == []
      ensures masterFacetToContactedCells == Touch(old(masterFacetToContactedCells), mIdx)
      ensures MasterToSlave() == old(MasterToSlave()) && SlaveToMaster() == old(SlaveToMaster())
      ensures LocalCellsToContactDofs() == old(LocalCellsToContactDofs())
      ensures LocalCellToOffProcContactDofs() == old(LocalCellToOffProcContactDofs())
    {
      if mIdx !in masterFacetToContactedCells {
        masterFacetToContactedCells := masterFacetToContactedCells[mIdx := []];
      }
      cells := masterFacetToContactedCells[mIdx];
    }
  }

  /** Two lookups of the same facet return the same list. */
  method LookupTwice(gc: GeometricContact, mIdx: nat) returns (first: seq<CellMetaData>, second: seq<CellMetaData>)
    modifies gc`masterFacetToContactedCells
    ensures first == second == Lookup(old(gc.masterFacetToContactedCells), mIdx)
    ensures gc.masterFacetToContactedCells == Touch(old(gc.masterFacetToContactedCells), mIdx)
  {
    first := gc.GetCellMetaData(mIdx);
    second := gc.GetCellMetaData(mIdx);
    TouchIdempotent(old(gc.masterFacetToContactedCells), mIdx);
  }
}
