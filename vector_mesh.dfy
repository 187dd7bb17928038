/**
 * `CoredVectorMeshData` (Geometry.h): the in-memory backend. Out-of-core
 * points live in `oocPoints`, polygons in `polygons` in their packed
 * `vector<int>` form, and `oocPointIndex` / `polygonIndex` are the read
 * cursors. Every method is proved to act on `Abstract()` exactly as the
 * corresponding function of `MeshContract`.
 */
module VectorMesh {
  import opened Wrappers
  import opened CoredIndex
  import MeshContract

  /** The polygons as `nextPolygon` hands them out. */
  function DecodeAll(es: seq<seq<int>>): (ps: seq<Polygon>)
    requires forall k :: 0 <= k < |es| ==> IsIntPolygon(es[k])
    ensures |ps| == |es|
    ensures forall k :: 0 <= k < |es| ==> ps[k] == DecodePolygon(es[k])
  {
    seq(|es|, k requires 0 <= k < |es| => DecodePolygon(es[k]))
  }

  class CoredVectorMeshData<V(0)> {
    var inCorePoints: seq<V>
    var oocPoints: seq<V>
    var polygons: seq<seq<int>>
    var polygonIndex: int
    var oocPointIndex: int

    ghost predicate Valid()
      reads this
    {
      && 0 <= oocPointIndex <= |oocPoints|
      && 0 <= polygonIndex <= |polygons|
      && forall k :: 0 <= k < |polygons| ==> IsIntPolygon(polygons[k])
    }

    /** The store as the `CoredMeshData` contract sees it. */
    ghost function Abstract(): (m: MeshContract.Mesh<V>)
      reads this
      requires Valid()
      ensures MeshContract.Valid(m)
    {
      MeshContract.Mesh(inCorePoints,
                        MeshContract.Stream(oocPoints, oocPointIndex),
                        MeshContract.Stream(DecodeAll(polygons), polygonIndex))
    }

    constructor ()
      ensures Valid() && Abstract() == MeshContract.Empty([])
    {
      inCorePoints := [];
      oocPoints := [];
      polygons := [];
      polygonIndex := 0;
      oocPointIndex := 0;
    }

    method ResetIterator()
      requires Valid()
      modifies this
      ensures Valid() && Abstract() == MeshContract.ResetIterator(old(Abstract()))
    {
      oocPointIndex := 0;
      polygonIndex := 0;
    }

    /** Appends `p`; returns its out-of-core index, the count before the call. */
    method AddOutOfCorePoint(p: V) returns (index: int)
      requires Valid()
      modifies this
      ensures index == MeshContract.OutOfCorePointCount(old(Abstract()))
      ensures Valid() && Abstract() == MeshContract.AddOutOfCorePoint(old(Abstract()), p)
    {
      oocPoints := oocPoints + [p];
      index := |oocPoints| - 1;
    }

    /** The synchronised entry point; single-threaded it is `AddOutOfCorePoint`. */
    method AddOutOfCorePointS(p: V) returns (index: int)
      requires Valid()
      modifies this
      ensures index == MeshContract.OutOfCorePointCount(old(Abstract()))
      ensures Valid() && Abstract() == MeshContract.AddOutOfCorePoint(old(Abstract()), p)
    {
      index := AddOutOfCorePoint(p);
    }

    /** Stores `vertices` in packed form; returns its polygon index. */
    method AddPolygonS(vertices: Polygon) returns (index: int)
      requires Valid()
      requires ValidPolygon(vertices)
      modifies this
      ensures index == MeshContract.PolygonCount(old(Abstract()))
      ensures Valid() && Abstract() == MeshContract.AddPolygon(old(Abstract()), vertices)
    {
      var packed := EncodePolygon(vertices);
      DecodeEncodePolygon(vertices);
      polygons := polygons + [packed];
      index := |polygons| - 1;
      assert DecodeAll(polygons) == DecodeAll(old(polygons)) + [vertices];
    }

    /** The `vector<int>` overload: every entry names an out-of-core point. */
    method AddPolygonIndicesS(vertices: seq<int>) returns (index: int)
      requires Valid()
      requires forall k :: 0 <= k < |vertices| ==> 0 <= vertices[k] <= IntMax
      modifies this
      ensures index == MeshContract.PolygonCount(old(Abstract()))
      ensures Valid() && Abstract() == MeshContract.AddPolygon(old(Abstract()), WrapOutOfCore(vertices))
    {
      index := AddPolygonS(WrapOutOfCore(vertices));
    }

    /** Delivers the point under the cursor and advances it; `false` once exhausted. */
    method NextOutOfCorePoint() returns (more: bool, p: V)
      requires Valid()
      modifies this
      ensures Valid() && Abstract() == MeshContract.NextOutOfCorePoint(old(Abstract())).0
      ensures (if more then Some(p) else None) == MeshContract.NextOutOfCorePoint(old(Abstract())).1
    {
      if oocPointIndex < |oocPoints| {
        p := oocPoints[oocPointIndex];
        oocPointIndex := oocPointIndex + 1;
        more := true;
      } else {
        p := *;
        more := false;
      }
    }

    /** Unpacks the polygon under the cursor and advances it; `false` once exhausted. */
    method NextPolygon() returns (more: bool, vertices: Polygon)
      requires Valid()
      modifies this
      ensures Valid() && Abstract() == MeshContract.NextPolygon(old(Abstract())).0
      ensures (if more then Some(vertices) else None) == MeshContract.NextPolygon(old(Abstract())).1
    {
      if polygonIndex < |polygons| {
        vertices := DecodePolygon(polygons[polygonIndex]);
        polygonIndex := polygonIndex + 1;
        more := true;
      } else {
        vertices := [];
        more := false;
      }
    }

    method OutOfCorePointCount() returns (n: int)
      requires Valid()
      ensures n == MeshContract.OutOfCorePointCount(Abstract())
    {
      n := |oocPoints|;
    }

    method PolygonCount() returns (n: int)
      requires Valid()
      ensures n == MeshContract.PolygonCount(Abstract())
    {
      n := |polygons|;
    }
  }
}
