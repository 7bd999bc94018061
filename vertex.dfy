/** A mesh vertex: a position and the list of indices of the vertices it is
    joined to, kept free of duplicates and in insertion order. */
module Vertices {

  /** Three coordinates: positions, offsets and scale results. Coordinates
      are exact reals; single-precision rounding is not modelled. */
  datatype Vec3 = Vec3(x: real, y: real, z: real) {
    function Plus(o: Vec3): Vec3 { Vec3(x + o.x, y + o.y, z + o.z) }
    function Minus(o: Vec3): Vec3 { Vec3(x - o.x, y - o.y, z - o.z) }
    function Negated(): Vec3 { Vec3(-x, -y, -z) }
    function Times(f: real): Vec3 { Vec3(x * f, y * f, z * f) }
  }

  /** The value of a vertex object: what its accessors return. */
  datatype VertexValue = VertexValue(pos: Vec3, neighbors: seq<nat>)

  /** No index occurs twice. */
  predicate NoDuplicates(s: seq<nat>)
  {
    forall i, j :: 0 <= i < j < |s| ==> s[i] != s[j]
  }

  /** What `add_neighbor(i)` does to the neighbour list: append `i` unless it is
      already there. */
  function AddNeighborTo(ns: seq<nat>, i: nat): (r: seq<nat>)
    ensures i in r
    ensures |ns| <= |r| <= |ns| + 1 && r[..|ns|] == ns
    ensures forall j :: j in r <==> j in ns || j == i
  {
    if i in ns then ns else ns + [i]
  }

  /** The list stays duplicate-free. */
  lemma AddNeighborKeepsNoDuplicates(ns: seq<nat>, i: nat)
    requires NoDuplicates(ns)
    ensures NoDuplicates(AddNeighborTo(ns, i))
  {
  }

  /** A repeated call is a no-op. */
  lemma AddNeighborIdempotent(ns: seq<nat>, i: nat)
    ensures AddNeighborTo(AddNeighborTo(ns, i), i) == AddNeighborTo(ns, i)
  {
  }

  /** The list grows exactly when the index is new. */
  lemma AddNeighborGrowsIffNew(ns: seq<nat>, i: nat)
    ensures |AddNeighborTo(ns, i)| == |ns| + 1 <==> i !in ns
  {
  }

  /** `std::ranges::find`: the first position holding `i`, or `|ns|` (the end
      iterator) when there is none. */
  method Find(ns: seq<nat>, i: nat) returns (k: nat)
    ensures k <= |ns|
    ensures k < |ns| ==> ns[k] == i
    ensures forall j :: 0 <= j < k ==> ns[j] != i
  {
    k := 0;
    while k < |ns| && ns[k] != i
      invariant k <= |ns|
      invariant forall j :: 0 <= j < k ==> ns[j] != i
    {
      k := k + 1;
    }
  }

  class Vertex {
    var x: real
    var y: real
    var z: real
    var neighbors: seq<nat>

    /** `vertex(x, y, z)`: the given coordinates and no neighbours. */
    constructor (x: real, y: real, z: real)
      ensures this.x == x && this.y == y && this.z == z
      ensures neighbors == []
    {
      this.x, this.y, this.z := x, y, z;
      neighbors := [];
    }

    function Position(): Vec3
      reads this
    {
      Vec3(x, y, z)
    }

    function Value(): VertexValue
      reads this
    {
      VertexValue(Position(), neighbors)
    }

    /** `neighbors()`. */
    function Neighbors(): seq<nat>
      reads this
    {
      neighbors
    }

    /** `add_neighbor(index)`: a linear search, then an append when the index
        was not found. */
    method AddNeighbor(index: nat)
      modifies this
      ensures neighbors == AddNeighborTo(old(neighbors), index)
      ensures Position() == old(Position())
    {
      var k := Find(neighbors, index);
      if k == |neighbors| {
        neighbors := neighbors + [index];
      }
    }

    /** `translate(offset)`: adds the offset, keeps the neighbours, and returns
        the vertex itself for chaining. */
    method Translate(offset: Vec3) returns (self: Vertex)
      modifies this
      ensures self == this
      ensures Position() == old(Position()).Plus(offset)
      ensures neighbors == old(neighbors)
    {
      x := x + offset.x;
      y := y + offset.y;
      z := z + offset.z;
      self := this;
    }

    /** `scale(factor)`: multiplies every coordinate, keeps the neighbours. */
    method Scale(factor: real) returns (self: Vertex)
      modifies this
      ensures self == this
      ensures Position() == old(Position()).Times(factor)
      ensures neighbors == old(neighbors)
    {
      x := x * factor;
      y := y * factor;
      z := z * factor;
      self := this;
    }
  }
}
