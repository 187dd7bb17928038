/**
 * The polymorphic `CoredMeshData` (Geometry.h): a store is one of the two
 * backends, chosen when it is created, and every virtual call dispatches
 * to that backend. Callers see only `MeshContract`.
 */
module MeshStore {
  import opened Wrappers
  import opened CoredIndex
  import MeshContract
  import VectorMesh
  import FileMesh

  datatype Backend<V(0)> =
    | InMemory(vec: VectorMesh.CoredVectorMeshData<V>)
    | OnDisk(disk: FileMesh.CoredFileMeshData<V>)

  /** The objects a store's state lives in. */
  ghost function Repr<V(0)>(s: Backend<V>): set<object>
  {
    match s
    case InMemory(v) => {v}
    case OnDisk(d) => {d, d.oocPointFile, d.polygonFile}
  }

  ghost predicate Valid<V(0)>(s: Backend<V>)
    reads Repr(s)
  {
    match s
    case InMemory(v) => v.Valid()
    case OnDisk(d) => d.Valid()
  }

  ghost function Abstract<V(0)>(s: Backend<V>): (m: MeshContract.Mesh<V>)
    reads Repr(s)
    requires Valid(s)
    ensures MeshContract.Valid(m)
  {
    match s
    case InMemory(v) => v.Abstract()
    case OnDisk(d) => d.Abstract()
  }

  /** A new, empty store on the chosen backend. */
  method NewStore<V(0)>(onDisk: bool) returns (s: Backend<V>)
    ensures Valid(s) && fresh(Repr(s)) && s.OnDisk? == onDisk
    ensures Abstract(s) == MeshContract.Empty([])
  {
    if onDisk {
      var d := new FileMesh.CoredFileMeshData<V>();
      s := OnDisk(d);
    } else {
      var v := new VectorMesh.CoredVectorMeshData<V>();
      s := InMemory(v);
    }
  }

  method ResetIterator<V(0)>(s: Backend<V>)
    requires Valid(s)
    modifies Repr(s)
    ensures Valid(s) && Abstract(s) == MeshContract.ResetIterator(old(Abstract(s)))
  {
    match s
    case InMemory(v) => v.ResetIterator();
    case OnDisk(d) => d.ResetIterator();
  }

  method AddOutOfCorePoint<V(0)>(s: Backend<V>, p: V) returns (index: int)
    requires Valid(s)
    modifies Repr(s)
    ensures index == MeshContract.OutOfCorePointCount(old(Abstract(s)))
    ensures Valid(s) && Abstract(s) == MeshContract.AddOutOfCorePoint(old(Abstract(s)), p)
  {
    match s
    case InMemory(v) => index := v.AddOutOfCorePoint(p);
    case OnDisk(d) => index := d.AddOutOfCorePoint(p);
  }

  method AddPolygon<V(0)>(s: Backend<V>, vertices: Polygon) returns (index: int)
    requires Valid(s) && ValidPolygon(vertices)
    modifies Repr(s)
    ensures index == MeshContract.PolygonCount(old(Abstract(s)))
    ensures Valid(s) && Abstract(s) == MeshContract.AddPolygon(old(Abstract(s)), vertices)
  {
    match s
    case InMemory(v) => index := v.AddPolygonS(vertices);
    case OnDisk(d) => index := d.AddPolygonS(vertices);
  }

  /** The synchronised `addOutOfCorePoint_s`. */
  method AddOutOfCorePointS<V(0)>(s: Backend<V>, p: V) returns (index: int)
    requires Valid(s)
    modifies Repr(s)
    ensures index == MeshContract.OutOfCorePointCount(old(Abstract(s)))
    ensures Valid(s) && Abstract(s) == MeshContract.AddOutOfCorePoint(old(Abstract(s)), p)
  {
    match s
    case InMemory(v) => index := v.AddOutOfCorePointS(p);
    case OnDisk(d) => index := d.AddOutOfCorePointS(p);
  }

  /** The `vector<int>` overload of `addPolygon_s`: a polygon of out-of-core
      point indices. */
  method AddPolygonIndicesS<V(0)>(s: Backend<V>, vertices: seq<int>) returns (index: int)
    requires Valid(s)
    requires forall k :: 0 <= k < |vertices| ==> 0 <= vertices[k] <= IntMax
    modifies Repr(s)
    ensures index == MeshContract.PolygonCount(old(Abstract(s)))
    ensures Valid(s) && Abstract(s) == MeshContract.AddPolygon(old(Abstract(s)), WrapOutOfCore(vertices))
  {
    match s
    case InMemory(v) => index := v.AddPolygonIndicesS(vertices);
    case OnDisk(d) => index := d.AddPolygonIndicesS(vertices);
  }

  method NextOutOfCorePoint<V(0)>(s: Backend<V>) returns (more: bool, p: V)
    requires Valid(s)
    modifies Repr(s)
    ensures Valid(s) && Abstract(s) == MeshContract.NextOutOfCorePoint(old(Abstract(s))).0
    ensures (if more then Some(p) else None) == MeshContract.NextOutOfCorePoint(old(Abstract(s))).1
  {
    match s
    case InMemory(v) => more, p := v.NextOutOfCorePoint();
    case OnDisk(d) => more, p := d.NextOutOfCorePoint();
  }

  method NextPolygon<V(0)>(s: Backend<V>) returns (more: bool, vertices: Polygon)
    requires Valid(s)
    modifies Repr(s)
    ensures Valid(s) && Abstract(s) == MeshContract.NextPolygon(old(Abstract(s))).0
    ensures (if more then Some(vertices) else None) == MeshContract.NextPolygon(old(Abstract(s))).1
  {
    match s
    case InMemory(v) => more, vertices := v.NextPolygon();
    case OnDisk(d) => more, vertices := d.NextPolygon();
  }

  method OutOfCorePointCount<V(0)>(s: Backend<V>) returns (n: int)
    requires Valid(s)
    ensures n == MeshContract.OutOfCorePointCount(Abstract(s))
  {
    match s
    case InMemory(v) => n := v.OutOfCorePointCount();
    case OnDisk(d) => n := d.OutOfCorePointCount();
  }

  method PolygonCount<V(0)>(s: Backend<V>) returns (n: int)
    requires Valid(s)
    ensures n == MeshContract.PolygonCount(Abstract(s))
  {
    match s
    case InMemory(v) => n := v.PolygonCount();
    case OnDisk(d) => n := d.PolygonCount();
  }

  /** What a producer and an exporter can rely on, whichever backend is
      used: points come back in insertion order and the end is reported. */
  method PointsRoundTrip<V(0)>(onDisk: bool, a: V, b: V)
  {
    var s := NewStore<V>(onDisk);
    var i := AddOutOfCorePoint(s, a);
    var j := AddOutOfCorePoint(s, b);
    assert i == 0 && j == 1;
    ResetIterator(s);
    var more, p := NextOutOfCorePoint(s);
    assert more && p == a;
    more, p := NextOutOfCorePoint(s);
    assert more && p == b;
    more, p := NextOutOfCorePoint(s);
    assert !more;
  }

  /** A polygon mixing in-core and out-of-core references with the same
      numbers comes back intact, followed by the end of the polygons. */
  method PolygonRoundTrip<V(0)>(onDisk: bool)
  {
    var s := NewStore<V>(onDisk);
    var tri := [CoredVertexIndex(0, true), CoredVertexIndex(1, true), CoredVertexIndex(0, false)];
    var k := AddPolygon(s, tri);
    assert k == 0;
    ResetIterator(s);
    var more, poly := NextPolygon(s);
    assert more && poly == tri;
    more, poly := NextPolygon(s);
    assert !more;
  }
}
