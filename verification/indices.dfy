/**
 * The index container: an append-only list of 16-bit vertex indices that is
 * uploaded to the GPU as one element buffer.
 */
module Indices {

  /** Indices are `GLushort`. */
  const INDEX_RANGE: nat := 0x1_0000

  /** `sizeof(GLushort)`. */
  const INDEX_BYTES: nat := 2

  type Index = x: nat | x < INDEX_RANGE

  /**
   * The stored indices, and the largest number the container was asked to
   * reserve room for.  Reserving only sizes the allocation.
   */
  datatype IndexContainer = IndexContainer(indices: seq<Index>, reserved: nat)

  const Empty: IndexContainer := IndexContainer([], 0)

  /** The `getNumberOfIndices` the circle drawer relies on: how many indices are stored. */
  function NumberOfIndices(c: IndexContainer): (r: nat)
    ensures r == 0 <==> c == IndexContainer([], c.reserved)
  {
    |c.indices|
  }

  /** `reserve`: room for at least `n` indices; the stored indices stay as they are. */
  function Reserve(c: IndexContainer, n: nat): (r: IndexContainer)
    ensures r.indices == c.indices
    ensures r.reserved >= n && r.reserved >= c.reserved
    ensures r.reserved == n || r.reserved == c.reserved
  {
    if n > c.reserved then c.(reserved := n) else c
  }

  /** `add`: the given indices pushed one by one onto the end, in the given order. */
  method Add(c: IndexContainer, xs: seq<Index>) returns (r: IndexContainer)
    ensures r.indices == c.indices + xs
    ensures r.reserved == c.reserved
  {
    r := c;
    var k := 0;
    while k < |xs|
      invariant 0 <= k <= |xs|
      invariant r.indices == c.indices + xs[..k]
      invariant r.reserved == c.reserved
    {
      r := r.(indices := r.indices + [xs[k]]);
      k := k + 1;
    }
    assert xs[..k] == xs;
  }

  /** The size in bytes of the buffer `sendIndicesToGPU` hands to the GPU. */
  function UploadBytes(c: IndexContainer): (r: nat)
    ensures r % INDEX_BYTES == 0 && r / INDEX_BYTES == NumberOfIndices(c)
  {
    NumberOfIndices(c) * INDEX_BYTES
  }

  /**
   * Adding keeps what was stored, puts the new indices after it, and grows
   * the upload by two bytes per index; adding nothing changes nothing.
   */
  lemma AddFacts(c: IndexContainer, xs: seq<Index>, r: IndexContainer)
    requires r.indices == c.indices + xs && r.reserved == c.reserved
    ensures r.indices[..NumberOfIndices(c)] == c.indices
    ensures r.indices[NumberOfIndices(c)..] == xs
    ensures NumberOfIndices(r) == NumberOfIndices(c) + |xs|
    ensures UploadBytes(r) == UploadBytes(c) + INDEX_BYTES * |xs|
    ensures xs == [] ==> r == c
  {
    assert r.indices[..|c.indices|] == c.indices;
    assert r.indices[|c.indices|..] == xs;
  }

  /** Reserving never changes what is uploaded. */
  lemma ReserveKeepsUpload(c: IndexContainer, n: nat)
    ensures UploadBytes(Reserve(c, n)) == UploadBytes(c)
    ensures NumberOfIndices(Reserve(c, n)) == NumberOfIndices(c)
  {
  }
}
