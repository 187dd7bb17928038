/**
 * `CoredFileMeshData` (Geometry.h): the disk backend. Out-of-core points
 * go, one record each, to `oocPointFile`; each polygon goes to
 * `polygonFile` as its vertex count followed by its packed vertices; the
 * counters `oocPoints` and `polygons` give the counts. The read cursors are
 * the files' own read positions. Every method is proved to act on
 * `Abstract()` exactly as the corresponding function of `MeshContract`,
 * so this backend keeps the same contract as `VectorMesh`.
 */
module FileMesh {
  import opened Wrappers
  import opened CoredIndex
  import opened BufferedFile
  import MeshContract

  predicate AllValid(ps: seq<Polygon>) { forall k :: 0 <= k < |ps| ==> ValidPolygon(ps[k]) }

  /** One polygon as written to the polygon file. */
  function Record(p: Polygon): (r: seq<int>)
    requires ValidPolygon(p)
    ensures |r| == |p| + 1 && r[0] == |p| && r[1..] == EncodePolygon(p)
  {
    [|p|] + EncodePolygon(p)
  }

  /** The polygon file after the given polygons were added, in order. */
  function Frame(ps: seq<Polygon>): (r: seq<int>)
    requires AllValid(ps)
    ensures r == [] <==> ps == []
    ensures |r| >= |ps|
    ensures ps != [] ==> r[0] == |ps[0]|
  {
    if ps == [] then [] else Record(ps[0]) + Frame(ps[1..])
  }

  lemma {:induction false} FrameConcat(a: seq<Polygon>, b: seq<Polygon>)
    requires AllValid(a) && AllValid(b)
    ensures AllValid(a + b) && Frame(a + b) == Frame(a) + Frame(b)
  {
    if a != [] {
      assert (a + b)[1..] == a[1..] + b;
      FrameConcat(a[1..], b);
    } else {
      assert a + b == b;
    }
  }

  lemma FrameSingle(p: Polygon)
    requires ValidPolygon(p)
    ensures Frame([p]) == Record(p)
  {
  }

  /** The prefix of the file up to polygon `k` ends with that polygon's record. */
  lemma FramePrefixStep(ps: seq<Polygon>, k: nat)
    requires AllValid(ps) && k < |ps|
    ensures Frame(ps[..k + 1]) == Frame(ps[..k]) + Record(ps[k])
  {
    var front, last := ps[..k], [ps[k]];
    assert AllValid(front) && AllValid(last);
    assert ps[..k + 1] == front + last;
    FrameConcat(front, last);
    FrameSingle(ps[k]);
  }

  /** The file is the records of the first `k` polygons followed by the rest. */
  lemma FrameSplit(ps: seq<Polygon>, k: nat)
    requires AllValid(ps) && k <= |ps|
    ensures Frame(ps) == Frame(ps[..k]) + Frame(ps[k..])
  {
    var front, back := ps[..k], ps[k..];
    assert AllValid(front) && AllValid(back);
    assert ps == front + back;
    FrameConcat(front, back);
  }

  /** A reference reader for the polygon file: counts followed by that many
      packed vertices, until the end. */
  function ParsePolygons(stream: seq<int>): (r: Option<seq<Polygon>>)
    ensures r.Some? ==> AllValid(r.value) && |r.value| <= |stream|
    ensures stream != [] && stream[0] < 0 ==> r.None?
    decreases |stream|
  {
    if stream == [] then Some([])
    else
      var n := stream[0];
      if n < 0 || |stream| < n + 1 || !IsIntPolygon(stream[1..n + 1]) then None
      else match ParsePolygons(stream[n + 1..])
        case None => None
        case Some(rest) => Some([DecodePolygon(stream[1..n + 1])] + rest)
  }

  /** The polygon file layout is lossless: it parses back to exactly the
      polygons added, flags and indices included. */
  lemma {:induction false} ParseFrame(ps: seq<Polygon>)
    requires AllValid(ps)
    ensures ParsePolygons(Frame(ps)) == Some(ps)
  {
    if ps != [] {
      var stream := Frame(ps);
      var n := |ps[0]|;
      assert stream == Record(ps[0]) + Frame(ps[1..]);
      assert stream[1..n + 1] == EncodePolygon(ps[0]);
      assert stream[n + 1..] == Frame(ps[1..]);
      DecodeEncodePolygon(ps[0]);
      ParseFrame(ps[1..]);
      assert [ps[0]] + ps[1..] == ps;
    }
  }

  class CoredFileMeshData<V(0)> {
    var inCorePoints: seq<V>
    const oocPointFile: BufferedReadWriteFile<V>
    const polygonFile: BufferedReadWriteFile<int>
    var oocPoints: int
    var polygons: int
    /** The polygons added so far and the number already read back. */
    ghost var stored: seq<Polygon>
    ghost var polygonCursor: nat

    ghost predicate Valid()
      reads this, oocPointFile, polygonFile
    {
      && (oocPointFile as object) != (polygonFile as object)
      && oocPointFile.Valid() && polygonFile.Valid()
      && oocPoints == |oocPointFile.contents|
      && polygons == |stored|
      && AllValid(stored)
      && polygonCursor <= |stored|
      && polygonFile.contents == Frame(stored)
      && polygonFile.position == |Frame(stored[..polygonCursor])|
    }

    /** The store as the `CoredMeshData` contract sees it. */
    ghost function Abstract(): (m: MeshContract.Mesh<V>)
      reads this, oocPointFile, polygonFile
      requires Valid()
      ensures MeshContract.Valid(m)
    {
      MeshContract.Mesh(inCorePoints,
                        MeshContract.Stream(oocPointFile.contents, oocPointFile.position),
                        MeshContract.Stream(stored, polygonCursor))
    }

    /** Both files are anonymous temporaries. */
    constructor ()
      ensures Valid() && Abstract() == MeshContract.Empty([])
      ensures fresh(oocPointFile) && fresh(polygonFile)
      ensures oocPointFile.tempFile && polygonFile.tempFile
    {
      inCorePoints := [];
      oocPointFile := new BufferedReadWriteFile(None);
      polygonFile := new BufferedReadWriteFile(None);
      oocPoints := 0;
      polygons := 0;
      stored := [];
      polygonCursor := 0;
    }

    method ResetIterator()
      requires Valid()
      modifies this, oocPointFile, polygonFile
      ensures Valid() && Abstract() == MeshContract.ResetIterator(old(Abstract()))
    {
      oocPointFile.Reset();
      polygonFile.Reset();
      polygonCursor := 0;
      assert stored[..0] == [];
    }

    /** Writes `p` to the point file; returns its index, the count before the call. */
    method AddOutOfCorePoint(p: V) returns (index: int)
      requires Valid()
      modifies this, oocPointFile
      ensures index == MeshContract.OutOfCorePointCount(old(Abstract()))
      ensures Valid() && Abstract() == MeshContract.AddOutOfCorePoint(old(Abstract()), p)
    {
      var ok := oocPointFile.Write([p]);
      index := oocPoints;
      oocPoints := oocPoints + 1;
    }

    /** The synchronised entry point; single-threaded it is `AddOutOfCorePoint`. */
    method AddOutOfCorePointS(p: V) returns (index: int)
      requires Valid()
      modifies this, oocPointFile
      ensures index == MeshContract.OutOfCorePointCount(old(Abstract()))
      ensures Valid() && Abstract() == MeshContract.AddOutOfCorePoint(old(Abstract()), p)
    {
      index := AddOutOfCorePoint(p);
    }

    /** Writes the vertex count, then the packed vertices; returns the polygon index. */
    method AddPolygonS(vertices: Polygon) returns (index: int)
      requires Valid()
      requires ValidPolygon(vertices)
      modifies this, polygonFile
      ensures index == MeshContract.PolygonCount(old(Abstract()))
      ensures Valid() && Abstract() == MeshContract.AddPolygon(old(Abstract()), vertices)
    {
      var ok := polygonFile.Write([|vertices|]);
      ok := polygonFile.Write(EncodePolygon(vertices));
      FrameConcat(stored, [vertices]);
      assert Frame([vertices]) == Record(vertices) + Frame([]);
      assert (stored + [vertices])[..polygonCursor] == stored[..polygonCursor];
      stored := stored + [vertices];
      index := polygons;
      polygons := polygons + 1;
    }

    /** The `vector<int>` overload: every entry names an out-of-core point. */
    method AddPolygonIndicesS(vertices: seq<int>) returns (index: int)
      requires Valid()
      requires forall k :: 0 <= k < |vertices| ==> 0 <= vertices[k] <= IntMax
      modifies this, polygonFile
      ensures index == MeshContract.PolygonCount(old(Abstract()))
      ensures Valid() && Abstract() == MeshContract.AddPolygon(old(Abstract()), WrapOutOfCore(vertices))
    {
      index := AddPolygonS(WrapOutOfCore(vertices));
    }

    /** Reads the next point record; `false` once the file is exhausted. */
    method NextOutOfCorePoint() returns (more: bool, p: V)
      requires Valid()
      modifies oocPointFile
      ensures Valid() && Abstract() == MeshContract.NextOutOfCorePoint(old(Abstract())).0
      ensures (if more then Some(p) else None) == MeshContract.NextOutOfCorePoint(old(Abstract())).1
    {
      var data;
      more, data := oocPointFile.Read(1);
      if more {
        p := data[0];
      } else {
        p := *;
      }
    }

    /** Reads the next vertex count and that many packed vertices; `false`
        once the file is exhausted. */
    method NextPolygon() returns (more: bool, vertices: Polygon)
      requires Valid()
      modifies this, polygonFile
      ensures Valid() && Abstract() == MeshContract.NextPolygon(old(Abstract())).0
      ensures (if more then Some(vertices) else None) == MeshContract.NextPolygon(old(Abstract())).1
    {
      ghost var k := polygonCursor;
      ghost var pos := polygonFile.position;
      if k < |stored| {
        FramePrefixStep(stored, k);
        FrameSplit(stored, k + 1);
      } else {
        assert stored[..k] == stored;
      }
      var ok, header := polygonFile.Read(1);
      if !ok {
        vertices := [];
        more := false;
        return;
      }
      assert header[0] == Frame(stored)[pos] == |stored[k]|;
      var n := header[0];
      var body;
      more, body := polygonFile.Read(n);
      assert body == Record(stored[k])[1..];
      DecodeEncodePolygon(stored[k]);
      vertices := DecodePolygon(body);
      polygonCursor := polygonCursor + 1;
    }

    method OutOfCorePointCount() returns (n: int)
      requires Valid()
      ensures n == MeshContract.OutOfCorePointCount(Abstract())
    {
      n := oocPoints;
    }

    method PolygonCount() returns (n: int)
      requires Valid()
      ensures n == MeshContract.PolygonCount(Abstract())
    {
      n := polygons;
    }
  }
}
