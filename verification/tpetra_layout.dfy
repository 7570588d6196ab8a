/**
 * The local-to-global index array that initialising a vector from a dense
 * rank-1 tensor layout builds for its ghosted map: the n owned indices
 * r0, ..., r0 + n - 1, then the u = bs * |unowned| ghost indices, where
 * `unowned` lists the ghost blocks and bs is the block size.
 */
module TpetraLayout {
  import opened TpetraIndexing

  /** The first scalar index of each block. */
  function ScaledBlocks(bs: nat, blocks: seq<nat>): (r: seq<nat>)
  {
    seq(|blocks|, i requires 0 <= i < |blocks| => bs * blocks[i])
  }

  /** k zero indices: what value-initialised slots hold. */
  function ZeroIndices(k: nat): (r: seq<nat>)
  {
    seq(k, _ => 0)
  }

  /**
   * The array as the two fill loops write it: one entry per ghost BLOCK,
   * so for bs > 1 the last u - |unowned| slots keep their initial zero.
   */
  function LocalToGlobalAsWritten(r0: nat, n: nat, bs: nat, unowned: seq<nat>, u: nat): (r: seq<nat>)
    requires bs >= 1 && bs * |unowned| == u
  {
    OwnedRange(r0, n) + ScaledBlocks(bs, unowned) + ZeroIndices(u - |unowned|)
  }

  /** The entries of the array as written, one by one. */
  lemma LocalToGlobalAsWrittenEntries(r0: nat, n: nat, bs: nat, unowned: seq<nat>, u: nat)
    requires bs >= 1 && bs * |unowned| == u
    ensures var r := LocalToGlobalAsWritten(r0, n, bs, unowned, u);
      && |r| == n + u
      && (forall i :: 0 <= i < n ==> r[i] == r0 + i)
      && (forall i :: 0 <= i < |unowned| ==> r[n + i] == bs * unowned[i])
      && (forall k :: n + |unowned| <= k < n + u ==> r[k] == 0)
  {
  }

  /** The first fill loop: slots 0, ..., n - 1 get the owned indices r0, ..., r0 + n - 1. */
  method FillOwned(a: array<nat>, r0: nat, n: nat)
    requires n <= a.Length
    modifies a
    ensures a[..n] == OwnedRange(r0, n)
    ensures a[n..] == old(a[n..])
  {
    for i := 0 to n
      invariant forall k :: 0 <= k < i ==> a[k] == r0 + k
      invariant forall k :: n <= k < a.Length ==> a[k] == old(a[k])
    {
      a[i] := i + r0;
    }
  }

  /** The second fill loop as written: slot n + i gets the first scalar of ghost block i. */
  method FillBlockStarts(a: array<nat>, n: nat, bs: nat, unowned: seq<nat>)
    requires n + |unowned| <= a.Length
    modifies a
    ensures a[..n] == old(a[..n])
    ensures a[n..n + |unowned|] == ScaledBlocks(bs, unowned)
    ensures a[n + |unowned|..] == old(a[n + |unowned|..])
  {
    for i := 0 to |unowned|
      invariant forall k :: 0 <= k < n ==> a[k] == old(a[k])
      invariant forall k :: 0 <= k < i ==> a[n + k] == bs * unowned[k]
      invariant forall k :: n + i <= k < a.Length ==> a[k] == old(a[k])
    {
      a[i + n] := bs * unowned[i];
    }
  }

  /** The two fill loops, with the entries value-initialised to zero first. */
  method FillLocalToGlobalAsWritten(r0: nat, n: nat, bs: nat, unowned: seq<nat>, u: nat)
    returns (a: array<nat>)
    requires bs >= 1 && bs * |unowned| == u
    ensures a[..] == LocalToGlobalAsWritten(r0, n, bs, unowned, u)
  {
    var m := |unowned|;
    assert m <= u by {
      MulMono(m, 1, bs);
    }
    a := new nat[n + u](_ => 0);
    assert a[n..] == ZeroIndices(u);
    FillOwned(a, r0, n);
    FillBlockStarts(a, n, bs, unowned);
    assert a[n + m..] == ZeroIndices(u)[m..] == ZeroIndices(u - m);
    assert a[..] == a[..n] + a[n..n + m] + a[n + m..];
  }

  /** Multiplying by a block size keeps order. */
  lemma {:induction false} MulMono(bs: nat, x: nat, y: nat)
    requires x <= y
    ensures bs * x <= bs * y
    decreases y - x
  {
    if x < y {
      MulMono(bs, x, y - 1);
      assert bs * y == bs * (y - 1) + bs;
    }
  }

  /** The bs scalar indices of block b. */
  function BlockScalars(bs: nat, b: nat): (r: seq<nat>)
  {
    seq(bs, c requires 0 <= c < bs => bs * b + c)
  }

  /** Every ghost block expanded into its bs scalar indices, in order. */
  function ExpandedBlocks(bs: nat, blocks: seq<nat>): (r: seq<nat>)
    ensures |r| == bs * |blocks|
  {
    if blocks == [] then []
    else
      var k := |blocks| - 1;
      assert bs * |blocks| == bs * k + bs;
      ExpandedBlocks(bs, blocks[..k]) + BlockScalars(bs, blocks[k])
  }

  /** Scalar c of ghost block j sits at offset bs * j + c of the expansion. */
  lemma {:induction false} ExpandedBlocksAt(bs: nat, blocks: seq<nat>, j: nat, c: nat)
    requires j < |blocks| && c < bs
    ensures bs * j + c < bs * |blocks|
    ensures ExpandedBlocks(bs, blocks)[bs * j + c] == bs * blocks[j] + c
    decreases |blocks|
  {
    var k := |blocks| - 1;
    assert bs * |blocks| == bs * k + bs;
    if j < k {
      MulMono(bs, j + 1, k);
      assert bs * (j + 1) == bs * j + bs;
      ExpandedBlocksAt(bs, blocks[..k], j, c);
    }
  }

  /** The array the ghosted map needs: owned indices, then every ghost scalar. */
  function LocalToGlobal(r0: nat, n: nat, bs: nat, unowned: seq<nat>): (r: seq<nat>)
  {
    OwnedRange(r0, n) + ExpandedBlocks(bs, unowned)
  }

  /**
   * The corrected array lists the owned range first and then, for ghost
   * block j, the scalars bs * unowned[j] + c for c = 0, ..., bs - 1.
   */
  lemma LocalToGlobalEntries(r0: nat, n: nat, bs: nat, unowned: seq<nat>, j: nat, c: nat)
    requires j < |unowned| && c < bs
    ensures var r := LocalToGlobal(r0, n, bs, unowned);
      && |r| == n + bs * |unowned|
      && r[..n] == OwnedRange(r0, n)
      && bs * j + c < bs * |unowned|
      && r[n + bs * j + c] == bs * unowned[j] + c
  {
    ExpandedBlocksAt(bs, unowned, j, c);
  }

  /** With unit blocks the code as written and the corrected fill agree. */
  lemma UnitBlocksAgree(r0: nat, n: nat, unowned: seq<nat>)
    ensures LocalToGlobalAsWritten(r0, n, 1, unowned, |unowned|) == LocalToGlobal(r0, n, 1, unowned)
  {
    forall j | 0 <= j < |unowned|
      ensures ExpandedBlocks(1, unowned)[j] == ScaledBlocks(1, unowned)[j]
    {
      ExpandedBlocksAt(1, unowned, j, 0);
    }
    assert ScaledBlocks(1, unowned) == ExpandedBlocks(1, unowned);
    assert ZeroIndices(0) == [];
  }

  /**
   * With blocks of two or more and at least one ghost block, the last
   * ghost slot as written is global index 0, while the corrected array
   * holds the last scalar of the last ghost block there.
   */
  lemma AsWrittenDropsGhostScalars(r0: nat, n: nat, bs: nat, unowned: seq<nat>)
    requires bs >= 2 && |unowned| >= 1
    ensures var u := bs * |unowned|;
      && LocalToGlobalAsWritten(r0, n, bs, unowned, u)[n + u - 1] == 0
      && LocalToGlobal(r0, n, bs, unowned)[n + u - 1] == bs * unowned[|unowned| - 1] + bs - 1 >= 1
  {
    var m := |unowned|;
    var last := m - 1;
    var u := bs * m;
    assert u == bs * last + bs;
    assert m < u by {
      MulMono(m, 2, bs);
    }
    var r := LocalToGlobalAsWritten(r0, n, bs, unowned, u);
    assert r[n + u - 1] == ZeroIndices(u - m)[u - 1 - m];
    LocalToGlobalEntries(r0, n, bs, unowned, last, bs - 1);
  }

  /** Two owned entries at 0 and one ghost block {10, 11}: the ghost 11 is lost. */
  lemma AsWrittenExample()
    ensures LocalToGlobalAsWritten(0, 2, 2, [5], 2) == [0, 1, 10, 0]
    ensures LocalToGlobal(0, 2, 2, [5]) == [0, 1, 10, 11]
  {
    assert OwnedRange(0, 2) == [0, 1];
    assert ScaledBlocks(2, [5]) == [10];
    assert ZeroIndices(1) == [0];
    assert [5][..0] == [];
    assert ExpandedBlocks(2, [5]) == BlockScalars(2, 5) == [10, 11];
  }

  /** Writes the bs scalars of ghost block b into slots base, ..., base + bs - 1. */
  method FillBlock(a: array<nat>, base: nat, bs: nat, b: nat)
    requires base + bs <= a.Length
    modifies a
    ensures a[base..base + bs] == BlockScalars(bs, b)
    ensures forall k :: 0 <= k < a.Length && !(base <= k < base + bs) ==> a[k] == old(a[k])
  {
    for c := 0 to bs
      invariant forall k :: base <= k < base + c ==> a[k] == bs * b + (k - base)
      invariant forall k :: 0 <= k < a.Length && !(base <= k < base + bs) ==> a[k] == old(a[k])
    {
      a[base + c] := bs * b + c;
    }
  }

  /** Expanding one more ghost block appends its scalars. */
  lemma ExpandedBlocksSnoc(bs: nat, unowned: seq<nat>, j: nat)
    requires j < |unowned|
    ensures ExpandedBlocks(bs, unowned[..j + 1]) == ExpandedBlocks(bs, unowned[..j]) + BlockScalars(bs, unowned[j])
  {
    assert unowned[..j + 1][..j] == unowned[..j];
  }

  /** The corrected second loop: every scalar of every ghost block, from slot n on. */
  method FillExpandedBlocks(a: array<nat>, n: nat, bs: nat, unowned: seq<nat>)
    requires n + bs * |unowned| <= a.Length
    modifies a
    ensures a[..n] == old(a[..n])
    ensures a[n..n + bs * |unowned|] == ExpandedBlocks(bs, unowned)
    ensures a[n + bs * |unowned|..] == old(a[n + bs * |unowned|..])
  {
    var end := n + bs * |unowned|;
    var base := n;
    for j := 0 to |unowned|
      invariant base == n + bs * j && base <= end
      invariant a[..n] == old(a[..n])
      invariant a[n..base] == ExpandedBlocks(bs, unowned[..j])
      invariant a[end..] == old(a[end..])
    {
      MulMono(bs, j + 1, |unowned|);
      assert bs * (j + 1) == bs * j + bs;
      ghost var prev := a[..];
      FillBlock(a, base, bs, unowned[j]);
      assert a[..n] == prev[..n];
      assert a[n..base] == prev[n..base];
      assert a[end..] == prev[end..];
      assert a[n..base + bs] == a[n..base] + a[base..base + bs];
      ExpandedBlocksSnoc(bs, unowned, j);
      base := base + bs;
    }
    assert unowned[..|unowned|] == unowned;
  }

  /**
   * The fill that the assertion bs * |unowned| == u calls for: every
   * scalar of every ghost block gets its own slot.
   */
  method FillLocalToGlobal(r0: nat, n: nat, bs: nat, unowned: seq<nat>, u: nat)
    returns (a: array<nat>)
    requires bs >= 1 && bs * |unowned| == u
    ensures a[..] == LocalToGlobal(r0, n, bs, unowned)
  {
    a := new nat[n + u](_ => 0);
    FillOwned(a, r0, n);
    FillExpandedBlocks(a, n, bs, unowned);
    assert a[..] == a[..n] + a[n..n + u];
  }
}
