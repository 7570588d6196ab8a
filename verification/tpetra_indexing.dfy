/**
 * Index bookkeeping of a distributed vector whose entries live in one local
 * array (the "ghosted" vector): the owned entries first, then copies of
 * entries owned by other processes. The map of that array is a sequence
 * giving the global index of every local slot.
 *
 * This module holds the pure specification of how rows are resolved to
 * slots and of what writing, accumulating into and reading slots does.
 */
module TpetraIndexing {
  import opened Wrappers

  /** How a row number names an entry: by global index, or by local slot. */
  datatype Addressing = ByGlobal | ByLocal

  /**
   * The local slot holding global index g (Tpetra's getLocalElement on the
   * ghosted map), None when g is not in the map. If the map lists g more
   * than once, the first slot is the one resolved.
   */
  function GlobalSlot(ghosts: seq<nat>, g: int): (r: Option<nat>)
    ensures r.Some? <==> exists k :: 0 <= k < |ghosts| && ghosts[k] == g
    ensures r.Some? ==> r.value < |ghosts| && ghosts[r.value] == g
    ensures r.Some? ==> forall k :: 0 <= k < r.value ==> ghosts[k] != g
  {
    if ghosts == [] then None
    else if ghosts[0] == g then Some(0)
    else match GlobalSlot(ghosts[1..], g)
      case None =>
        assert forall k :: 1 <= k < |ghosts| ==> ghosts[k] == ghosts[1..][k - 1];
        None
      case Some(k) => Some(k + 1)
  }

  /** Local slot l, if the ghosted map has that many slots (isNodeLocalElement). */
  function LocalSlot(ghosts: seq<nat>, l: int): Option<nat>
  {
    if 0 <= l < |ghosts| then Some(l) else None
  }

  /** The slot a row names under the given addressing. */
  function Slot(ghosts: seq<nat>, mode: Addressing, row: int): (r: Option<nat>)
    ensures r.Some? ==> r.value < |ghosts|
  {
    match mode
    case ByGlobal => GlobalSlot(ghosts, row)
    case ByLocal => LocalSlot(ghosts, row)
  }

  /**
   * How many leading rows resolve to a slot: a loop over rows that stops
   * with an error at the first unresolved row processes exactly these.
   */
  function ValidCount(ghosts: seq<nat>, mode: Addressing, rows: seq<int>): (k: nat)
    ensures k <= |rows|
    ensures forall j :: 0 <= j < k ==> Slot(ghosts, mode, rows[j]).Some?
    ensures k < |rows| ==> Slot(ghosts, mode, rows[k]).None?
  {
    if rows == [] || Slot(ghosts, mode, rows[0]).None? then 0
    else 1 + ValidCount(ghosts, mode, rows[1..])
  }

  predicate AllValid(ghosts: seq<nat>, mode: Addressing, rows: seq<int>)
  {
    forall j :: 0 <= j < |rows| ==> Slot(ghosts, mode, rows[j]).Some?
  }

  /** The slots named by rows that all resolve. */
  function SlotsOf(ghosts: seq<nat>, mode: Addressing, rows: seq<int>): (r: seq<nat>)
    requires AllValid(ghosts, mode, rows)
    ensures |r| == |rows|
    ensures forall j :: 0 <= j < |rows| ==> r[j] < |ghosts|
  {
    seq(|rows|, j requires 0 <= j < |rows| => Slot(ghosts, mode, rows[j]).value)
  }

  /** Resolving one more row appends its slot. */
  lemma SlotsOfSnoc(ghosts: seq<nat>, mode: Addressing, rows: seq<int>, i: nat)
    requires i < |rows| && AllValid(ghosts, mode, rows[..i + 1])
    ensures AllValid(ghosts, mode, rows[..i])
    ensures SlotsOf(ghosts, mode, rows[..i + 1])
      == SlotsOf(ghosts, mode, rows[..i]) + [Slot(ghosts, mode, rows[i]).value]
  {
    assert rows[..i + 1][..i] == rows[..i];
  }

  predicate InBounds(slots: seq<nat>, n: nat)
  {
    forall j :: 0 <= j < |slots| ==> slots[j] < n
  }

  /** s after block[j] is written to slot slots[j], for j in order. */
  function Assign(s: seq<real>, slots: seq<nat>, block: seq<real>): (r: seq<real>)
    requires |block| == |slots| && InBounds(slots, |s|)
    ensures |r| == |s|
    decreases |slots|
  {
    if slots == [] then s
    else
      var k := |slots| - 1;
      Assign(s, slots[..k], block[..k])[slots[k] := block[k]]
  }

  /** t with v added into slot p. */
  function AddAt(t: seq<real>, p: nat, v: real): (r: seq<real>)
    requires p < |t|
  {
    t[p := t[p] + v]
  }

  /** s after block[j] is added into slot slots[j], for j in order. */
  function Accumulate(s: seq<real>, slots: seq<nat>, block: seq<real>): (r: seq<real>)
    requires |block| == |slots| && InBounds(slots, |s|)
    ensures |r| == |s|
    decreases |slots|
  {
    if slots == [] then s
    else
      var k := |slots| - 1;
      AddAt(Accumulate(s, slots[..k], block[..k]), slots[k], block[k])
  }

  /** The values found in the given slots, in order. */
  function Gathered(s: seq<real>, slots: seq<nat>): (r: seq<real>)
    requires InBounds(slots, |s|)
  {
    seq(|slots|, j requires 0 <= j < |slots| => s[slots[j]])
  }

  /** Writing one more row is one more sequence update. */
  lemma AssignSnoc(s: seq<real>, slots: seq<nat>, block: seq<real>, p: nat, v: real)
    requires |block| == |slots| && InBounds(slots, |s|) && p < |s|
    ensures InBounds(slots + [p], |s|)
    ensures Assign(s, slots + [p], block + [v]) == Assign(s, slots, block)[p := v]
  {
    assert (slots + [p])[..|slots|] == slots;
    assert (block + [v])[..|block|] == block;
  }

  /** Accumulating one more row adds its value into one more slot. */
  lemma AccumulateSnoc(s: seq<real>, slots: seq<nat>, block: seq<real>, p: nat, v: real)
    requires |block| == |slots| && InBounds(slots, |s|) && p < |s|
    ensures InBounds(slots + [p], |s|)
    ensures Accumulate(s, slots + [p], block + [v]) == AddAt(Accumulate(s, slots, block), p, v)
  {
    assert (slots + [p])[..|slots|] == slots;
    assert (block + [v])[..|block|] == block;
  }

  /** One more resolved row: the rows written so far grow by that row's slot and value. */
  lemma AssignStep(s0: seq<real>, ghosts: seq<nat>, mode: Addressing, rows: seq<int>, block: seq<real>, k: nat)
    requires |block| == |rows| && k < |rows| && |s0| == |ghosts|
    requires AllValid(ghosts, mode, rows[..k]) && Slot(ghosts, mode, rows[k]).Some?
    ensures AllValid(ghosts, mode, rows[..k + 1])
    ensures Assign(s0, SlotsOf(ghosts, mode, rows[..k + 1]), block[..k + 1])
      == Assign(s0, SlotsOf(ghosts, mode, rows[..k]), block[..k])[Slot(ghosts, mode, rows[k]).value := block[k]]
  {
    assert rows[..k + 1][..k] == rows[..k];
    SlotsOfSnoc(ghosts, mode, rows, k);
    assert block[..k + 1] == block[..k] + [block[k]];
    AssignSnoc(s0, SlotsOf(ghosts, mode, rows[..k]), block[..k], Slot(ghosts, mode, rows[k]).value, block[k]);
  }

  /** One more resolved row: its value is added into its slot. */
  lemma AccumulateStep(s0: seq<real>, ghosts: seq<nat>, mode: Addressing, rows: seq<int>, block: seq<real>, k: nat)
    requires |block| == |rows| && k < |rows| && |s0| == |ghosts|
    requires AllValid(ghosts, mode, rows[..k]) && Slot(ghosts, mode, rows[k]).Some?
    ensures AllValid(ghosts, mode, rows[..k + 1])
    ensures Accumulate(s0, SlotsOf(ghosts, mode, rows[..k + 1]), block[..k + 1])
      == AddAt(Accumulate(s0, SlotsOf(ghosts, mode, rows[..k]), block[..k]), Slot(ghosts, mode, rows[k]).value, block[k])
  {
    var p := Slot(ghosts, mode, rows[k]).value;
    var slots := SlotsOf(ghosts, mode, rows[..k]);
    assert AllValid(ghosts, mode, rows[..k + 1]) by {
      assert rows[..k + 1] == rows[..k] + [rows[k]];
    }
    assert SlotsOf(ghosts, mode, rows[..k + 1]) == slots + [p] by {
      SlotsOfSnoc(ghosts, mode, rows, k);
    }
    assert block[..k + 1] == block[..k] + [block[k]];
    assert Accumulate(s0, SlotsOf(ghosts, mode, rows[..k + 1]), block[..k + 1])
      == Accumulate(s0, slots + [p], block[..k] + [block[k]]);
    AccumulateSnoc(s0, slots, block[..k], p, block[k]);
  }

  /** Sum of the block values aimed at slot p. */
  function Contribution(slots: seq<nat>, block: seq<real>, p: nat): real
    requires |block| == |slots|
    decreases |slots|
  {
    if slots == [] then 0.0
    else
      var k := |slots| - 1;
      Contribution(slots[..k], block[..k], p) + (if slots[k] == p then block[k] else 0.0)
  }

  /** Writing never touches a slot that no row names. */
  lemma {:induction false} AssignUntouched(s: seq<real>, slots: seq<nat>, block: seq<real>, p: nat)
    requires |block| == |slots| && InBounds(slots, |s|) && p < |s|
    requires forall j :: 0 <= j < |slots| ==> slots[j] != p
    ensures Assign(s, slots, block)[p] == s[p]
    decreases |slots|
  {
    if slots != [] {
      var k := |slots| - 1;
      AssignUntouched(s, slots[..k], block[..k], p);
    }
  }

  /** A slot named by several rows ends up with the value of the last of them. */
  lemma {:induction false} AssignLastWins(s: seq<real>, slots: seq<nat>, block: seq<real>, j: nat)
    requires |block| == |slots| && InBounds(slots, |s|) && j < |slots|
    requires forall i :: j < i < |slots| ==> slots[i] != slots[j]
    ensures Assign(s, slots, block)[slots[j]] == block[j]
    decreases |slots|
  {
    var k := |slots| - 1;
    if j < k {
      AssignLastWins(s, slots[..k], block[..k], j);
    }
  }

  /** Accumulating adds into slot p exactly the block values aimed at p. */
  lemma {:induction false} AccumulateAt(s: seq<real>, slots: seq<nat>, block: seq<real>, p: nat)
    requires |block| == |slots| && InBounds(slots, |s|) && p < |s|
    ensures Accumulate(s, slots, block)[p] == s[p] + Contribution(slots, block, p)
    decreases |slots|
  {
    if slots != [] {
      var k := |slots| - 1;
      AccumulateAt(s, slots[..k], block[..k], p);
    }
  }

  /** A slot no row names receives nothing. */
  lemma {:induction false} ContributionUntouched(slots: seq<nat>, block: seq<real>, p: nat)
    requires |block| == |slots|
    requires forall j :: 0 <= j < |slots| ==> slots[j] != p
    ensures Contribution(slots, block, p) == 0.0
    decreases |slots|
  {
    if slots != [] {
      var k := |slots| - 1;
      ContributionUntouched(slots[..k], block[..k], p);
    }
  }

  predicate Distinct(slots: seq<nat>)
  {
    forall i, j :: 0 <= i < j < |slots| ==> slots[i] != slots[j]
  }

  /** Reading back the slots just written with distinct rows gives the block. */
  lemma GetAfterSet(s: seq<real>, slots: seq<nat>, block: seq<real>)
    requires |block| == |slots| && InBounds(slots, |s|) && Distinct(slots)
    ensures Gathered(Assign(s, slots, block), slots) == block
  {
    forall j | 0 <= j < |slots|
      ensures Gathered(Assign(s, slots, block), slots)[j] == block[j]
    {
      AssignLastWins(s, slots, block, j);
    }
  }

  /** s with values[i] added to entry i for every i < |values|. */
  function AddedTo(s: seq<real>, values: seq<real>): (r: seq<real>)
    requires |values| <= |s|
  {
    seq(|s|, i requires 0 <= i < |s| => if i < |values| then s[i] + values[i] else s[i])
  }

  /** s with a added to each of its first n entries. */
  function Shifted(s: seq<real>, n: nat, a: real): (r: seq<real>)
    requires n <= |s|
  {
    seq(|s|, i requires 0 <= i < |s| => if i < n then s[i] + a else s[i])
  }

  /** Copying values over the first slots is writing them row by row to slots 0, 1, ... */
  lemma {:induction false} AssignFirstSlots(s: seq<real>, values: seq<real>)
    requires |values| <= |s|
    ensures InBounds(OwnedRange(0, |values|), |s|)
    ensures Assign(s, OwnedRange(0, |values|), values) == values + s[|values|..]
    decreases |values|
  {
    if values != [] {
      var k := |values| - 1;
      assert OwnedRange(0, |values|)[..k] == OwnedRange(0, k);
      AssignFirstSlots(s, values[..k]);
    }
  }

  /** Adding values entry-wise is accumulating them row by row into slots 0, 1, ... */
  lemma {:induction false} AccumulateFirstSlots(s: seq<real>, values: seq<real>)
    requires |values| <= |s|
    ensures InBounds(OwnedRange(0, |values|), |s|)
    ensures Accumulate(s, OwnedRange(0, |values|), values) == AddedTo(s, values)
    decreases |values|
  {
    if values != [] {
      var k := |values| - 1;
      assert OwnedRange(0, |values|)[..k] == OwnedRange(0, k);
      AccumulateFirstSlots(s, values[..k]);
    }
  }

  /** Adding a scalar to the owned entries is adding the constant sequence a, ..., a. */
  lemma ShiftIsAddedConstant(s: seq<real>, n: nat, a: real)
    requires n <= |s|
    ensures Shifted(s, n, a) == AddedTo(s, seq(n, _ => a))
  {
  }

  /** Subtracting a scalar undoes adding it. */
  lemma ShiftInverse(s: seq<real>, n: nat, a: real)
    requires n <= |s|
    ensures Shifted(Shifted(s, n, a), n, -a) == s
  {
  }

  /** The global indices lo, lo + 1, ..., lo + n - 1. */
  function OwnedRange(lo: nat, n: nat): (r: seq<nat>)
  {
    seq(n, i requires 0 <= i < n => lo + i)
  }

  /**
   * When the map starts with the owned range, every owned global index
   * resolves to its offset in that range, so writes by global index and by
   * local slot reach the same entry.
   */
  lemma OwnedRowsResolve(ghosts: seq<nat>, lo: nat, n: nat, g: int)
    requires n <= |ghosts| && ghosts[..n] == OwnedRange(lo, n)
    requires lo <= g < lo + n
    ensures GlobalSlot(ghosts, g) == Some(g - lo)
  {
    var k := g - lo;
    assert ghosts[k] == ghosts[..n][k] == g;
  }
}
