/**
 * A distributed vector of reals as one process sees it. The process owns
 * the contiguous global range [lo, hi); its entries live in one local array
 * (the ghosted vector) whose slot k holds global index ghostMap[k]. The
 * first hi - lo slots are the owned view. A vector is initialised at most
 * once; before that it has no entries at all.
 */
module Tpetra {
  import opened Wrappers
  import opened TpetraIndexing
  import opened TpetraLayout

  /** The errors the vector raises. */
  datatype Error =
    | AlreadyInitialised   // a second initialisation
    | NotDenseRankOne      // a layout that is not dense and of rank 1
    | RowNotValid(row: int) // a row outside the ghosted map
    | SizeMismatch         // a value array whose length is not the local size
    | LengthMismatch       // assignment between vectors of different global size
    | LayoutMismatch       // assignment between vectors of different local range

  /**
   * What initialisation reads from a tensor layout and its index map: the
   * rank, whether it carries a sparsity pattern, the owned, global and
   * unowned (ghost) scalar counts, the block size, the first owned global
   * index, and the ghost blocks.
   */
  datatype TensorLayout = TensorLayout(
    rank: nat,
    sparse: bool,
    ownedSize: nat,
    globalSize: nat,
    unownedSize: nat,
    blockSize: nat,
    rangeStart: nat,
    unownedBlocks: seq<nat>)
  {
    /** The index map's own consistency: u counts the scalars of the ghost blocks. */
    predicate BlocksMatch()
    {
      blockSize >= 1 && blockSize * |unownedBlocks| == unownedSize
    }
  }

  /** A local-to-global map that is absent or lists the n owned indices from lo first. */
  predicate StartsWithOwned(localToGlobal: seq<nat>, lo: nat, n: nat)
  {
    localToGlobal == [] || (n <= |localToGlobal| && localToGlobal[..n] == OwnedRange(lo, n))
  }

  /**
   * The loop of set and set_local over the local array a, whose slots carry
   * the global indices ghosts: it writes rows in order until one names no
   * slot, and returns how many it wrote.
   */
  method WriteSlots(a: array<real>, ghosts: seq<nat>, mode: Addressing, block: seq<real>, rows: seq<int>)
    returns (k: nat)
    requires a.Length == |ghosts| && |block| == |rows|
    modifies a
    ensures k == ValidCount(ghosts, mode, rows)
    ensures a[..] == Assign(old(a[..]), SlotsOf(ghosts, mode, rows[..k]), block[..k])
  {
    k := 0;
    while k < |rows|
      invariant k <= |rows| && k <= ValidCount(ghosts, mode, rows)
      invariant AllValid(ghosts, mode, rows[..k])
      invariant a[..] == Assign(old(a[..]), SlotsOf(ghosts, mode, rows[..k]), block[..k])
    {
      var s := Slot(ghosts, mode, rows[k]);
      if s.None? {
        return;
      }
      AssignStep(old(a[..]), ghosts, mode, rows, block, k);
      ghost var before := a[..];
      a[s.value] := block[k];
      assert a[..] == before[s.value := block[k]];
      k := k + 1;
    }
  }

  /** The loop of add and add_local: the same walk, accumulating instead of writing. */
  method AddSlots(a: array<real>, ghosts: seq<nat>, mode: Addressing, block: seq<real>, rows: seq<int>)
    returns (k: nat)
    requires a.Length == |ghosts| && |block| == |rows|
    modifies a
    ensures k == ValidCount(ghosts, mode, rows)
    ensures a[..] == Accumulate(old(a[..]), SlotsOf(ghosts, mode, rows[..k]), block[..k])
  {
    k := 0;
    while k < |rows|
      invariant k <= |rows| && k <= ValidCount(ghosts, mode, rows)
      invariant AllValid(ghosts, mode, rows[..k])
      invariant a[..] == Accumulate(old(a[..]), SlotsOf(ghosts, mode, rows[..k]), block[..k])
    {
      var s := Slot(ghosts, mode, rows[k]);
      if s.None? {
        return;
      }
      AccumulateStep(old(a[..]), ghosts, mode, rows, block, k);
      ghost var before := a[..];
      a[s.value] := a[s.value] + block[k];
      assert a[..] == AddAt(before, s.value, block[k]);
      k := k + 1;
    }
  }

  class TpetraVector {
    var initialized: bool
    var globalSize: nat
    var lo: nat
    var hi: nat
    var ghostMap: seq<nat>
    var data: array<real>

    ghost predicate Valid()
      reads this
    {
      initialized ==> lo <= hi && hi - lo <= |ghostMap| && data.Length == |ghostMap|
    }

    /** The ghosted map starts with the owned range, as a layout builds it. */
    ghost predicate OwnedFirst()
      reads this
      requires Valid()
    {
      initialized ==> ghostMap[..hi - lo] == OwnedRange(lo, hi - lo)
    }

    /** The state right after a successful initialisation. */
    ghost predicate HasLayout(range: (nat, nat), ghosts: seq<nat>, total: nat)
      reads this, data
    {
      && initialized && lo == range.0 && hi == range.1
      && ghostMap == ghosts && globalSize == total
      && data[..] == seq(|ghosts|, _ => 0.0)
    }

    /** A vector with no entries, waiting for initialisation. */
    constructor ()
      ensures Valid() && !initialized
      ensures Size() == 0 && LocalSize() == 0 && Empty()
    {
      initialized := false;
      globalSize, lo, hi := 0, 0, 0;
      ghostMap := [];
      data := new real[0];
    }

    /**
     * A vector of global size n whose process owns `range` (the share of
     * [0, n) the process gets), with no ghosts and all entries zero.
     */
    constructor WithSize(n: nat, range: (nat, nat))
      requires range.0 <= range.1
      ensures Valid() && OwnedFirst() && fresh(data)
      ensures HasLayout(range, OwnedRange(range.0, range.1 - range.0), n)
    {
      initialized := true;
      globalSize := n;
      lo, hi := range.0, range.1;
      ghostMap := OwnedRange(range.0, range.1 - range.0);
      data := new real[range.1 - range.0](_ => 0.0);
    }

    /** A copy with the same maps and its own array holding the same entries. */
    constructor Copy(v: TpetraVector)
      requires v.Valid()
      ensures Valid() && fresh(data)
      ensures initialized == v.initialized
      ensures initialized ==> && globalSize == v.globalSize && lo == v.lo && hi == v.hi
                              && ghostMap == v.ghostMap && data[..] == v.data[..]
      ensures !initialized ==> Size() == 0 && LocalSize() == 0
    {
      if !v.initialized {
        initialized := false;
        globalSize, lo, hi := 0, 0, 0;
        ghostMap := [];
        data := new real[0];
      } else {
        initialized := true;
        globalSize, lo, hi := v.globalSize, v.lo, v.hi;
        ghostMap := v.ghostMap;
        data := new real[v.data.Length](i reads v, v.data => if 0 <= i < v.data.Length then v.data[i] else 0.0);
      }
    }

    /** Global length: zero until initialised, the global size afterwards. */
    function Size(): (r: nat)
      reads this
      ensures !initialized ==> r == 0
      ensures initialized ==> r == globalSize
    {
      if initialized then globalSize else 0
    }

    /** Number of owned entries: zero until initialised; they fit in the local array. */
    function LocalSize(): (r: nat)
      reads this
      requires Valid()
      ensures !initialized ==> r == 0
      ensures initialized ==> r == hi - lo && r <= |ghostMap| && r <= data.Length
    {
      if initialized then hi - lo else 0
    }

    /** A vector is empty exactly when its global size is zero. */
    function Empty(): (r: bool)
      reads this
      ensures r <==> Size() == 0
      ensures !initialized ==> r
    {
      Size() == 0
    }

    /** The owned global range, half open; its width is the local size. */
    function LocalRange(): (r: (nat, nat))
      reads this
      requires initialized
      ensures r.0 == lo
      ensures Valid() ==> r.0 <= r.1 && r.1 - r.0 == LocalSize()
    {
      (lo, hi)
    }

    /** Whether global index i lies in the owned range; an owned index has a local slot. */
    function OwnsIndex(i: nat): (r: bool)
      reads this
      requires initialized
      ensures r <==> lo <= i < hi
      ensures r && Valid() ==> i - lo < LocalSize() <= |ghostMap|
    {
      var range := LocalRange();
      i >= range.0 && i < range.1
    }

    /** Every entry, owned and ghost, becomes zero. */
    method Zero()
      requires Valid() && initialized
      modifies data
      ensures data[..] == seq(data.Length, _ => 0.0)
    {
      forall i | 0 <= i < data.Length {
        data[i] := 0.0;
      }
    }

    /**
     * Initialise from an owned range and an optional local-to-global map.
     * `total` is the sum of the local sizes over all processes. Without a
     * map, the ghosted vector has exactly the owned slots.
     */
    method InitFromRange(range: (nat, nat), localToGlobal: seq<nat>, total: nat) returns (r: Outcome<Error>)
      requires Valid()
      requires !initialized ==> range.0 <= range.1
      requires !initialized && localToGlobal != [] ==> range.1 - range.0 <= |localToGlobal|
      modifies this
      ensures Valid()
      ensures old(initialized) ==> r == Fail(AlreadyInitialised) && unchanged(this)
      ensures !old(initialized) ==> (
        && r == Pass && fresh(data)
        && HasLayout(range, if localToGlobal != [] then localToGlobal
                            else OwnedRange(range.0, range.1 - range.0), total))
      ensures !old(initialized) && StartsWithOwned(localToGlobal, range.0, range.1 - range.0) ==> OwnedFirst()
    {
      if initialized {
        return Fail(AlreadyInitialised);
      }
      var nLocal := range.1 - range.0;
      globalSize := total;
      lo, hi := range.0, range.1;
      ghostMap := if |localToGlobal| != 0 then localToGlobal else OwnedRange(range.0, nLocal);
      data := new real[|ghostMap|](_ => 0.0);
      initialized := true;
      return Pass;
    }

    /** Initialise from a global size, given the range this process gets of it. */
    method InitWithSize(n: nat, range: (nat, nat)) returns (r: Outcome<Error>)
      requires Valid()
      requires !initialized ==> range.0 <= range.1
      modifies this
      ensures Valid()
      ensures old(initialized) ==> r == Fail(AlreadyInitialised) && unchanged(this)
      ensures !old(initialized) ==> (
        && r == Pass && fresh(data) && OwnedFirst()
        && HasLayout(range, OwnedRange(range.0, range.1 - range.0), n))
    {
      r := InitFromRange(range, [], n);
    }

    /** Initialise from an owned range, without ghosts. */
    method InitWithRange(range: (nat, nat), total: nat) returns (r: Outcome<Error>)
      requires Valid()
      requires !initialized ==> range.0 <= range.1
      modifies this
      ensures Valid()
      ensures old(initialized) ==> r == Fail(AlreadyInitialised) && unchanged(this)
      ensures !old(initialized) ==> (
        && r == Pass && fresh(data) && OwnedFirst()
        && HasLayout(range, OwnedRange(range.0, range.1 - range.0), total))
    {
      r := InitFromRange(range, [], total);
    }

    /**
     * Initialise from an owned range and a local-to-global map; the list of
     * ghost indices is accepted and not used.
     */
    method InitWithMap(range: (nat, nat), localToGlobal: seq<nat>, ghostIndices: seq<int>, total: nat)
      returns (r: Outcome<Error>)
      requires Valid()
      requires !initialized ==> range.0 <= range.1
      requires !initialized && localToGlobal != [] ==> range.1 - range.0 <= |localToGlobal|
      modifies this
      ensures Valid()
      ensures old(initialized) ==> r == Fail(AlreadyInitialised) && unchanged(this)
      ensures !old(initialized) ==> (
        && r == Pass && fresh(data)
        && HasLayout(range, if localToGlobal != [] then localToGlobal
                            else OwnedRange(range.0, range.1 - range.0), total))
    {
      r := InitFromRange(range, localToGlobal, total);
    }

    /**
     * Initialise from a dense rank-1 layout: the owned range starts at the
     * layout's first owned index, and the ghosted map is the owned range
     * followed by every scalar of every ghost block.
     */
    method InitFromLayout(layout: TensorLayout) returns (r: Outcome<Error>)
      requires Valid()
      requires !initialized && layout.rank == 1 && !layout.sparse ==> layout.BlocksMatch()
      modifies this
      ensures Valid()
      ensures old(initialized) ==> r == Fail(AlreadyInitialised) && unchanged(this)
      ensures !old(initialized) && (layout.rank != 1 || layout.sparse) ==>
        r == Fail(NotDenseRankOne) && unchanged(this)
      ensures !old(initialized) && layout.rank == 1 && !layout.sparse ==>
        && r == Pass && fresh(data) && OwnedFirst()
        && HasLayout((layout.rangeStart, layout.rangeStart + layout.ownedSize),
                     LocalToGlobal(layout.rangeStart, layout.ownedSize, layout.blockSize, layout.unownedBlocks),
                     layout.globalSize)
    {
      if initialized {
        return Fail(AlreadyInitialised);
      }
      if layout.rank != 1 || layout.sparse {
        return Fail(NotDenseRankOne);
      }
      var n := layout.ownedSize;
      var r0 := layout.rangeStart;
      var a := FillLocalToGlobal(r0, n, layout.blockSize, layout.unownedBlocks, layout.unownedSize);
      var localToGlobal := a[..];
      assert localToGlobal[..n] == OwnedRange(r0, n);
      assert localToGlobal == [] ==> OwnedRange(r0, n) == [];
      r := InitFromRange((r0, r0 + n), localToGlobal, layout.globalSize);
    }

    /** Read the entries the rows name; stop with an error at the first row that names none. */
    method ReadRows(mode: Addressing, rows: seq<int>) returns (r: Result<seq<real>, Error>)
      requires Valid() && initialized
      ensures var k := ValidCount(ghostMap, mode, rows);
        r == if k == |rows| then Success(Gathered(data[..], SlotsOf(ghostMap, mode, rows)))
             else Failure(RowNotValid(rows[k]))
    {
      var block: seq<real> := [];
      var i := 0;
      while i < |rows|
        invariant i <= |rows| && i <= ValidCount(ghostMap, mode, rows)
        invariant AllValid(ghostMap, mode, rows[..i])
        invariant block == Gathered(data[..], SlotsOf(ghostMap, mode, rows[..i]))
      {
        var s := Slot(ghostMap, mode, rows[i]);
        if s.None? {
          return Failure(RowNotValid(rows[i]));
        }
        SlotsOfSnoc(ghostMap, mode, rows, i);
        block := block + [data[s.value]];
        i := i + 1;
      }
      assert rows[..i] == rows;
      return Success(block);
    }

    /** get: the entries at the given global rows. */
    method Get(rows: seq<int>) returns (r: Result<seq<real>, Error>)
      requires Valid() && initialized
      ensures var k := ValidCount(ghostMap, ByGlobal, rows);
        r == if k == |rows| then Success(Gathered(data[..], SlotsOf(ghostMap, ByGlobal, rows)))
             else Failure(RowNotValid(rows[k]))
    {
      r := ReadRows(ByGlobal, rows);
    }

    /** get_local: the entries at the given local slots. */
    method GetLocal(rows: seq<int>) returns (r: Result<seq<real>, Error>)
      requires Valid() && initialized
      ensures var k := ValidCount(ghostMap, ByLocal, rows);
        r == if k == |rows| then Success(Gathered(data[..], SlotsOf(ghostMap, ByLocal, rows)))
             else Failure(RowNotValid(rows[k]))
    {
      r := ReadRows(ByLocal, rows);
    }

    /** set: replace the entries at the given global rows. */
    method Set(block: seq<real>, rows: seq<int>) returns (r: Outcome<Error>)
      requires Valid() && initialized && |block| == |rows|
      modifies data
      ensures var k := ValidCount(ghostMap, ByGlobal, rows);
        && r == (if k == |rows| then Pass else Fail(RowNotValid(rows[k])))
        && data[..] == Assign(old(data[..]), SlotsOf(ghostMap, ByGlobal, rows[..k]), block[..k])
    {
      var k := WriteSlots(data, ghostMap, ByGlobal, block, rows);
      r := if k == |rows| then Pass else Fail(RowNotValid(rows[k]));
    }

    /** set_local with rows: replace the entries at the given local slots. */
    method SetLocal(block: seq<real>, rows: seq<int>) returns (r: Outcome<Error>)
      requires Valid() && initialized && |block| == |rows|
      modifies data
      ensures var k := ValidCount(ghostMap, ByLocal, rows);
        && r == (if k == |rows| then Pass else Fail(RowNotValid(rows[k])))
        && data[..] == Assign(old(data[..]), SlotsOf(ghostMap, ByLocal, rows[..k]), block[..k])
    {
      var k := WriteSlots(data, ghostMap, ByLocal, block, rows);
      r := if k == |rows| then Pass else Fail(RowNotValid(rows[k]));
    }

    /** add: add into the entries at the given global rows. */
    method Add(block: seq<real>, rows: seq<int>) returns (r: Outcome<Error>)
      requires Valid() && initialized && |block| == |rows|
      modifies data
      ensures var k := ValidCount(ghostMap, ByGlobal, rows);
        && r == (if k == |rows| then Pass else Fail(RowNotValid(rows[k])))
        && data[..] == Accumulate(old(data[..]), SlotsOf(ghostMap, ByGlobal, rows[..k]), block[..k])
    {
      var k := AddSlots(data, ghostMap, ByGlobal, block, rows);
      r := if k == |rows| then Pass else Fail(RowNotValid(rows[k]));
    }

    /** add_local with rows: add into the entries at the given local slots. */
    method AddLocal(block: seq<real>, rows: seq<int>) returns (r: Outcome<Error>)
      requires Valid() && initialized && |block| == |rows|
      modifies data
      ensures var k := ValidCount(ghostMap, ByLocal, rows);
        && r == (if k == |rows| then Pass else Fail(RowNotValid(rows[k])))
        && data[..] == Accumulate(old(data[..]), SlotsOf(ghostMap, ByLocal, rows[..k]), block[..k])
    {
      var k := AddSlots(data, ghostMap, ByLocal, block, rows);
      r := if k == |rows| then Pass else Fail(RowNotValid(rows[k]));
    }

    /** get_local into an array: the owned entries, in local order. */
    method GetLocalValues() returns (values: seq<real>)
      requires Valid() && initialized
      ensures |values| == LocalSize()
      ensures forall i :: 0 <= i < |values| ==> values[i] == data[i]
    {
      values := data[..hi - lo];
    }

    /** set_local from an array: overwrite every owned entry. */
    method SetLocalValues(values: seq<real>) returns (r: Outcome<Error>)
      requires Valid() && initialized
      modifies data
      ensures r == (if |values| == LocalSize() then Pass else Fail(SizeMismatch))
      ensures r.Pass? ==> data[..] == values + old(data[..])[|values|..]
      ensures r.Fail? ==> data[..] == old(data[..])
      ensures values == [] ==> data[..] == old(data[..])
    {
      var numValues := LocalSize();
      if |values| != numValues {
        return Fail(SizeMismatch);
      }
      if numValues == 0 {
        return Pass;
      }
      forall i | 0 <= i < numValues {
        data[i] := values[i];
      }
      return Pass;
    }

    /** add_local from an array: add values[i] into owned entry i. */
    method AddLocalValues(values: seq<real>) returns (r: Outcome<Error>)
      requires Valid() && initialized
      modifies data
      ensures r == (if |values| == LocalSize() then Pass else Fail(SizeMismatch))
      ensures r.Pass? ==> |values| <= data.Length && data[..] == AddedTo(old(data[..]), values)
      ensures r.Fail? ==> data[..] == old(data[..])
    {
      var numValues := LocalSize();
      if |values| != numValues {
        return Fail(SizeMismatch);
      }
      for i := 0 to numValues
        invariant forall k :: 0 <= k < data.Length ==>
          data[k] == if k < i then old(data[k]) + values[k] else old(data[k])
      {
        data[i] := data[i] + values[i];
      }
      return Pass;
    }

    /** operator+= with a scalar: add a to every owned entry. */
    method AddScalar(a: real)
      requires Valid() && initialized
      modifies data
      ensures data[..] == Shifted(old(data[..]), LocalSize(), a)
    {
      var numValues := LocalSize();
      for i := 0 to numValues
        invariant forall k :: 0 <= k < data.Length ==>
          data[k] == if k < i then old(data[k]) + a else old(data[k])
      {
        data[i] := data[i] + a;
      }
    }

    /** operator-= with a scalar: operator+= with its negation. */
    method SubtractScalar(a: real)
      requires Valid() && initialized
      modifies data
      ensures data[..] == Shifted(old(data[..]), LocalSize(), -a)
    {
      AddScalar(-a);
    }

    /** operator= with a scalar: every owned entry becomes a. */
    method AssignScalar(a: real)
      requires Valid() && initialized
      modifies data
      ensures data[..] == seq(LocalSize(), _ => a) + old(data[..])[LocalSize()..]
    {
      forall i | 0 <= i < hi - lo {
        data[i] := a;
      }
    }

    /**
     * operator= with a vector: copy v's owned entries, provided both
     * vectors have the same global size and the same owned range.
     */
    method AssignFrom(v: TpetraVector) returns (r: Outcome<Error>)
      requires Valid() && v.Valid()
      requires Size() == v.Size() ==> initialized && v.initialized
      modifies data
      ensures r == if Size() != v.Size() then Fail(LengthMismatch)
                   else if LocalRange() != v.LocalRange() then Fail(LayoutMismatch)
                   else Pass
      ensures r.Pass? ==> data[..] == old(v.data[..])[..LocalSize()] + old(data[..])[LocalSize()..]
      ensures r.Fail? ==> data[..] == old(data[..])
      ensures v == this ==> data[..] == old(data[..])
    {
      if Size() != v.Size() {
        return Fail(LengthMismatch);
      }
      if LocalRange() != v.LocalRange() {
        return Fail(LayoutMismatch);
      }
      if this != v {
        forall i | 0 <= i < hi - lo {
          data[i] := v.data[i];
        }
      }
      return Pass;
    }
  }

  /** An uninitialised vector is empty and owns nothing. */
  lemma UninitialisedIsEmpty(v: TpetraVector)
    requires v.Valid() && !v.initialized
    ensures v.Size() == 0 && v.LocalSize() == 0 && v.Empty()
  {
  }

  /** The global indices lo, ..., hi - 1, as a set. */
  ghost function IndexSet(lo: nat, hi: nat): (r: set<nat>)
    ensures forall i :: i in r <==> lo <= i < hi
    ensures lo <= hi ==> |r| == hi - lo
    decreases hi
  {
    if hi <= lo then {} else IndexSet(lo, hi - 1) + {hi - 1}
  }

  /** The indices a process owns number exactly its local size. */
  lemma OwnedIndexCount(v: TpetraVector)
    requires v.Valid() && v.initialized
    ensures |set i: nat | i < v.hi && v.OwnsIndex(i)| == v.LocalSize()
  {
    assert (set i: nat | i < v.hi && v.OwnsIndex(i)) == IndexSet(v.lo, v.hi);
  }

  /**
   * When the ghosted map starts with the owned range, an owned global row
   * names the slot of its offset in that range: set and add by global row
   * reach the same entry as the owned-array operations.
   */
  lemma OwnedRowSlot(v: TpetraVector, g: nat)
    requires v.Valid() && v.initialized && v.OwnedFirst() && v.OwnsIndex(g)
    ensures Slot(v.ghostMap, ByGlobal, g) == Some(g - v.lo)
    ensures Slot(v.ghostMap, ByLocal, g - v.lo) == Some(g - v.lo)
  {
    OwnedRowsResolve(v.ghostMap, v.lo, v.hi - v.lo, g);
  }
}
