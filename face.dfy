/** A triangle: three vertex indices whose order gives the winding. */
module Faces {

  /** The value of a face: its indices in order. */
  datatype Triple = Triple(a: nat, b: nat, c: nat) {

    /** The indices as a multiset. */
    function Corners(): multiset<nat> { multiset{a, b, c} }

    /** The three indices in order, as `indices()` returns them. */
    function AsSeq(): seq<nat> { [a, b, c] }

    /** The winding reversed: the first and third index exchanged. */
    function Inverted(): (t: Triple)
      ensures t.AsSeq()[0] == AsSeq()[2] && t.AsSeq()[1] == AsSeq()[1] && t.AsSeq()[2] == AsSeq()[0]
      ensures t.Corners() == Corners()
    {
      Triple(c, b, a)
    }

    /** Every index is below `n`. */
    predicate Below(n: nat) { a < n && b < n && c < n }
  }

  /** Inverting twice gives the original face back. */
  lemma InvertedTwice(t: Triple)
    ensures t.Inverted().Inverted() == t
  {
  }

  class Face {
    /** `m_indices`, the fixed three-slot buffer. */
    const indices: array<nat>

    ghost predicate Valid()
    {
      indices.Length == 3
    }

    /** `face(v1, v2, v3)`: the three indices in the given order. */
    constructor (v1: nat, v2: nat, v3: nat)
      ensures Valid() && fresh(indices)
      ensures Indices() == Triple(v1, v2, v3)
    {
      var buffer := new nat[3];
      buffer[0], buffer[1], buffer[2] := v1, v2, v3;
      indices := buffer;
    }

    /** `indices()`. */
    function Indices(): Triple
      requires Valid()
      reads indices
    {
      Triple(indices[0], indices[1], indices[2])
    }

    /** `invert()`: swaps the first and the third slot. */
    method Invert()
      requires Valid()
      modifies indices
      ensures Indices() == old(Indices()).Inverted()
    {
      indices[0], indices[2] := indices[2], indices[0];
    }
  }
}
