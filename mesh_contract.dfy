/**
 * The contract of `CoredMeshData` (Geometry.h): what every mesh store does,
 * independently of where it keeps its data. A store is the caller's
 * `inCorePoints` plus two append-only streams, one of out-of-core points
 * and one of polygons, each with its own read cursor. Both backends
 * (`VectorMesh`, `FileMesh`) are proved to behave as the functions here.
 */
module MeshContract {
  import opened Wrappers
  import opened CoredIndex

  /** An append-only sequence with a read cursor. */
  datatype Stream<T> = Stream(items: seq<T>, cursor: nat)

  /** The cursor never passes the end. */
  predicate StreamValid<T>(s: Stream<T>) { s.cursor <= |s.items| }

  function Append<T>(s: Stream<T>, x: T): Stream<T> { s.(items := s.items + [x]) }

  function Rewind<T>(s: Stream<T>): Stream<T> { s.(cursor := 0) }

  /** One read: the item under the cursor, or `None` once exhausted. */
  function Next<T>(s: Stream<T>): (r: (Stream<T>, Option<T>))
    ensures r.1.Some? <==> s.cursor < |s.items|
    ensures r.1.Some? ==> r.1.value == s.items[s.cursor] && r.0.cursor == s.cursor + 1
    ensures r.1.None? ==> r.0 == s
    ensures r.0.items == s.items
    ensures StreamValid(s) ==> StreamValid(r.0)
  {
    if s.cursor < |s.items| then (s.(cursor := s.cursor + 1), Some(s.items[s.cursor]))
    else (s, None)
  }

  /** `k` successive reads, with the items they deliver. */
  function ReadMany<T>(s: Stream<T>, k: nat): (r: (Stream<T>, seq<T>))
    ensures r.0.items == s.items
    ensures |r.1| <= k
    ensures StreamValid(s) ==> StreamValid(r.0)
    decreases k
  {
    if k == 0 then (s, [])
    else
      var step := Next(s);
      var rest := ReadMany(step.0, k - 1);
      (rest.0, (if step.1.Some? then [step.1.value] else []) + rest.1)
  }

  /** Successive appends. */
  function AppendAll<T>(s: Stream<T>, xs: seq<T>): Stream<T>
    decreases xs
  {
    if xs == [] then s else AppendAll(Append(s, xs[0]), xs[1..])
  }

  function Min(a: int, b: int): int { if a <= b then a else b }

  /** `k` reads deliver the next `k` items in order, or all that are left;
      the cursor advances by one per delivered item and stops at the end. */
  lemma {:induction false} ReadManyDelivers<T>(s: Stream<T>, k: nat)
    requires StreamValid(s)
    decreases k
    ensures var stop := Min(s.cursor + k, |s.items|);
      ReadMany(s, k) == (s.(cursor := stop), s.items[s.cursor..stop])
  {
    var stop := Min(s.cursor + k, |s.items|);
    if k == 0 {
      assert s.(cursor := stop) == s;
    } else if s.cursor < |s.items| {
      var s1 := s.(cursor := s.cursor + 1);
      assert Next(s) == (s1, Some(s.items[s.cursor]));
      ReadManyDelivers(s1, k - 1);
      assert s.items[s.cursor..stop] == [s.items[s.cursor]] + s.items[s.cursor + 1..stop];
    } else {
      assert Next(s) == (s, None);
      ReadManyDelivers(s, k - 1);
      assert Min(s.cursor + k - 1, |s.items|) == stop == s.cursor;
      assert ReadMany(s, k - 1) == (s, []);
      assert ReadMany(s, k).1 == [] + ReadMany(s, k - 1).1;
      assert s.(cursor := stop) == s;
    }
  }

  /** Appends keep what was there and add the new items at the end, in order. */
  lemma {:induction false} AppendAllKeepsOrder<T>(s: Stream<T>, xs: seq<T>)
    decreases xs
    ensures AppendAll(s, xs) == s.(items := s.items + xs)
  {
    if xs != [] {
      AppendAllKeepsOrder(Append(s, xs[0]), xs[1..]);
      assert s.items + [xs[0]] + xs[1..] == s.items + xs;
    }
  }

  /** After a rewind, exactly `|items|` reads succeed, in insertion order,
      and the next read reports exhaustion. */
  lemma DrainAfterRewind<T>(s: Stream<T>)
    ensures ReadMany(Rewind(s), |s.items|) == (s.(cursor := |s.items|), s.items)
    ensures Next(ReadMany(Rewind(s), |s.items|).0) == (s.(cursor := |s.items|), None)
  {
    ReadManyDelivers(Rewind(s), |s.items|);
    assert s.items[0..|s.items|] == s.items;
  }

  /** Items appended one by one come back, after a rewind, in the same order. */
  lemma AppendThenDrain<T>(s: Stream<T>, xs: seq<T>)
    ensures var t := AppendAll(s, xs);
      ReadMany(Rewind(t), |t.items|).1 == s.items + xs
  {
    AppendAllKeepsOrder(s, xs);
    DrainAfterRewind(AppendAll(s, xs));
  }

  /** The observable state of a `CoredMeshData`. */
  datatype Mesh<V> = Mesh(inCorePoints: seq<V>, points: Stream<V>, polygons: Stream<Polygon>)

  predicate Valid<V>(m: Mesh<V>)
  {
    && StreamValid(m.points)
    && StreamValid(m.polygons)
    && forall k :: 0 <= k < |m.polygons.items| ==> ValidPolygon(m.polygons.items[k])
  }

  /** A store as constructed: no out-of-core points, no polygons. */
  function Empty<V>(inCorePoints: seq<V>): (m: Mesh<V>)
    ensures Valid(m)
  {
    Mesh(inCorePoints, Stream([], 0), Stream([], 0))
  }

  /** `outOfCorePointCount()`: in a valid store it bounds the point cursor. */
  function OutOfCorePointCount<V>(m: Mesh<V>): (n: int)
    ensures n >= 0
    ensures Valid(m) ==> m.points.cursor <= n
  {
    |m.points.items|
  }

  /** `polygonCount()`: in a valid store it bounds the polygon cursor. */
  function PolygonCount<V>(m: Mesh<V>): (n: int)
    ensures n >= 0
    ensures Valid(m) ==> m.polygons.cursor <= n
  {
    |m.polygons.items|
  }

  /** `addOutOfCorePoint`: one more point; a valid store stays valid. */
  function AddOutOfCorePoint<V>(m: Mesh<V>, p: V): (r: Mesh<V>)
    ensures OutOfCorePointCount(r) == OutOfCorePointCount(m) + 1
    ensures PolygonCount(r) == PolygonCount(m)
    ensures Valid(m) ==> Valid(r)
  {
    m.(points := Append(m.points, p))
  }

  /** `addPolygon_s`: one more polygon; a valid polygon keeps the store valid. */
  function AddPolygon<V>(m: Mesh<V>, p: Polygon): (r: Mesh<V>)
    ensures PolygonCount(r) == PolygonCount(m) + 1
    ensures OutOfCorePointCount(r) == OutOfCorePointCount(m)
    ensures Valid(m) && ValidPolygon(p) ==> Valid(r)
  {
    m.(polygons := Append(m.polygons, p))
  }

  /** `resetIterator`: both cursors back to the start, nothing stored changes. */
  function ResetIterator<V>(m: Mesh<V>): (r: Mesh<V>)
    ensures r.points.cursor == 0 && r.polygons.cursor == 0
    ensures r.points.items == m.points.items && r.polygons.items == m.polygons.items
    ensures r.inCorePoints == m.inCorePoints
    ensures Valid(m) ==> Valid(r)
  {
    m.(points := Rewind(m.points), polygons := Rewind(m.polygons))
  }

  /** `nextOutOfCorePoint`: succeeds exactly while points remain, delivers
      the point under the cursor, and moves nothing but that cursor. */
  function NextOutOfCorePoint<V>(m: Mesh<V>): (r: (Mesh<V>, Option<V>))
    ensures r.1.Some? <==> m.points.cursor < OutOfCorePointCount(m)
    ensures r.1.Some? ==> r.1.value == m.points.items[m.points.cursor]
    ensures r.0.points.items == m.points.items
    ensures r.0.polygons == m.polygons && r.0.inCorePoints == m.inCorePoints
    ensures Valid(m) ==> Valid(r.0)
  {
    var (s, o) := Next(m.points);
    (m.(points := s), o)
  }

  /** `nextPolygon`: succeeds exactly while polygons remain, delivers the
      polygon under the cursor, and moves nothing but that cursor. */
  function NextPolygon<V>(m: Mesh<V>): (r: (Mesh<V>, Option<Polygon>))
    ensures r.1.Some? <==> m.polygons.cursor < PolygonCount(m)
    ensures r.1.Some? ==> r.1.value == m.polygons.items[m.polygons.cursor]
    ensures r.0.polygons.items == m.polygons.items
    ensures r.0.points == m.points && r.0.inCorePoints == m.inCorePoints
    ensures Valid(m) ==> Valid(r.0)
  {
    var (s, o) := Next(m.polygons);
    (m.(polygons := s), o)
  }

  /** Adding returns the count before the call as the new item's index; the
      count grows by one, the item sits at that index, and nothing else changes. */
  lemma AddOutOfCorePointIndex<V>(m: Mesh<V>, p: V)
    ensures var m' := AddOutOfCorePoint(m, p); var i := OutOfCorePointCount(m);
      && OutOfCorePointCount(m') == i + 1 && m'.points.items[i] == p
      && m'.points.items[..i] == m.points.items
      && m'.points.cursor == m.points.cursor
      && m'.polygons == m.polygons && m'.inCorePoints == m.inCorePoints
  {
  }

  lemma AddPolygonIndex<V>(m: Mesh<V>, p: Polygon)
    ensures var m' := AddPolygon(m, p); var i := PolygonCount(m);
      && PolygonCount(m') == i + 1 && m'.polygons.items[i] == p
      && m'.polygons.items[..i] == m.polygons.items
      && m'.polygons.cursor == m.polygons.cursor
      && m'.points == m.points && m'.inCorePoints == m.inCorePoints
  {
  }

  /** The calls a producer or an exporter can make. */
  datatype Op<V> = AddOutOfCorePointOp(p: V) | AddPolygonOp(poly: Polygon)
                 | ResetIteratorOp | NextOutOfCorePointOp | NextPolygonOp

  predicate ValidOp<V>(op: Op<V>) { op.AddPolygonOp? ==> ValidPolygon(op.poly) }

  /** The calls that only read. */
  predicate IsRead<V>(op: Op<V>) { op.ResetIteratorOp? || op.NextOutOfCorePointOp? || op.NextPolygonOp? }

  /** One call; every call keeps the store valid. */
  function Step<V>(m: Mesh<V>, op: Op<V>): (r: Mesh<V>)
    requires Valid(m) && ValidOp(op)
    ensures Valid(r)
  {
    match op
    case AddOutOfCorePointOp(p) => AddOutOfCorePoint(m, p)
    case AddPolygonOp(poly) => AddPolygon(m, poly)
    case ResetIteratorOp => ResetIterator(m)
    case NextOutOfCorePointOp => NextOutOfCorePoint(m).0
    case NextPolygonOp => NextPolygon(m).0
  }

  /** Any sequence of calls keeps the store valid: no cursor ever passes
      its count. */
  function Run<V>(m: Mesh<V>, ops: seq<Op<V>>): (r: Mesh<V>)
    requires Valid(m)
    requires forall k :: 0 <= k < |ops| ==> ValidOp(ops[k])
    ensures Valid(r)
    ensures r.points.cursor <= OutOfCorePointCount(r) && r.polygons.cursor <= PolygonCount(r)
    decreases ops
  {
    if ops == [] then m else Run(Step(m, ops[0]), ops[1..])
  }

  /** Resetting and reading leave the counts, the stored points and
      polygons, and the in-core points unchanged. */
  lemma {:induction false} ReadingKeepsContents<V>(m: Mesh<V>, ops: seq<Op<V>>)
    requires Valid(m)
    requires forall k :: 0 <= k < |ops| ==> ValidOp(ops[k]) && IsRead(ops[k])
    ensures var r := Run(m, ops);
      && r.points.items == m.points.items && r.polygons.items == m.polygons.items
      && r.inCorePoints == m.inCorePoints
      && OutOfCorePointCount(r) == OutOfCorePointCount(m) && PolygonCount(r) == PolygonCount(m)
    decreases ops
  {
    if ops != [] {
      ReadingKeepsContents(Step(m, ops[0]), ops[1..]);
    }
  }

  /** No call loses data: what was stored stays stored, at the same index,
      and counts never decrease. */
  lemma {:induction false} RunKeepsStoredItems<V>(m: Mesh<V>, ops: seq<Op<V>>)
    requires Valid(m)
    requires forall k :: 0 <= k < |ops| ==> ValidOp(ops[k])
    ensures var r := Run(m, ops);
      && m.points.items <= r.points.items && m.polygons.items <= r.polygons.items
      && r.inCorePoints == m.inCorePoints
    decreases ops
  {
    if ops != [] {
      RunKeepsStoredItems(Step(m, ops[0]), ops[1..]);
    }
  }

  /** The exporter's pass: after `resetIterator`, `outOfCorePointCount()`
      calls of `nextOutOfCorePoint` deliver every stored point in insertion
      order and the next one reports failure; the same for polygons. */
  lemma ExportPass<V>(m: Mesh<V>)
    requires Valid(m)
    ensures var r := ResetIterator(m);
      && ReadMany(r.points, OutOfCorePointCount(m)).1 == m.points.items
      && Next(ReadMany(r.points, OutOfCorePointCount(m)).0).1 == None
      && ReadMany(r.polygons, PolygonCount(m)).1 == m.polygons.items
      && Next(ReadMany(r.polygons, PolygonCount(m)).0).1 == None
  {
    DrainAfterRewind(m.points);
    DrainAfterRewind(m.polygons);
  }
}
