/**
 * Vertex references of the out-of-core mesh store (Geometry.h):
 * `CoredPointIndex` with its comparison operators, `CoredVertexIndex`,
 * and the packing of a `CoredVertexIndex` polygon into the `vector<int>`
 * in which the in-memory store keeps it.
 */
module CoredIndex {

  /** The range of a C++ `int` (32 bits, two's complement). */
  const IntMin: int := -0x8000_0000
  const IntMax: int := 0x7fff_ffff

  predicate IsInt(n: int) { IntMin <= n <= IntMax }

  /** A C++ `char`: eight bits. */
  type Char8 = c: int | -128 <= c < 128

  /** `CoredPointIndex`: an index with a `char` in-core flag. */
  datatype CoredPointIndex = CoredPointIndex(index: int, inCore: Char8)

  /** `operator ==`: both the index and the flag agree. */
  function Equal(a: CoredPointIndex, b: CoredPointIndex): (r: bool)
    ensures r <==> a == b
  {
    a.index == b.index && a.inCore == b.inCore
  }

  /** `operator !=`: the index or the flag differs. */
  function NotEqual(a: CoredPointIndex, b: CoredPointIndex): (r: bool)
    ensures r <==> !Equal(a, b)
    ensures r <==> a != b
  {
    a.index != b.index || a.inCore != b.inCore
  }

  /** In-core and out-of-core references have independent numbering:
      the same number with a different flag is a different reference. */
  lemma FlagSeparatesReferences(a: CoredPointIndex, b: CoredPointIndex)
    requires a.index == b.index && a.inCore != b.inCore
    ensures !Equal(a, b) && NotEqual(a, b)
  {
  }

  /** The flag is compared as a raw `char`: two non-zero ("true") flags that
      differ still make references to the same index unequal. */
  lemma RawFlagComparison(a: CoredPointIndex, b: CoredPointIndex)
    requires a.index == b.index
    requires a.inCore != 0 && b.inCore != 0 && a.inCore != b.inCore
    ensures NotEqual(a, b) && !Equal(a, b)
  {
  }

  /** `CoredVertexIndex`: either an index into the caller's `inCorePoints`
      (`inCore`) or into the store's own out-of-core points. */
  datatype CoredVertexIndex = CoredVertexIndex(idx: int, inCore: bool)

  /** An index that denotes an array position and fits into an `int`. */
  predicate ValidIndex(v: CoredVertexIndex) { 0 <= v.idx <= IntMax }

  type Polygon = seq<CoredVertexIndex>

  predicate ValidPolygon(p: Polygon) { forall k :: 0 <= k < |p| ==> ValidIndex(p[k]) }

  /** Packing of one reference into an `int`: in-core indices are kept,
      out-of-core index `i` becomes the negative number `-i-1`. */
  function Encode(v: CoredVertexIndex): (n: int)
    requires ValidIndex(v)
    ensures IsInt(n)
    ensures n < 0 <==> !v.inCore
  {
    if v.inCore then v.idx else -v.idx - 1
  }

  /** Unpacking: the sign carries the flag. */
  function Decode(n: int): (v: CoredVertexIndex)
    requires IsInt(n)
    ensures ValidIndex(v)
    ensures v.inCore <==> 0 <= n
  {
    if n < 0 then CoredVertexIndex(-n - 1, false) else CoredVertexIndex(n, true)
  }

  /** Decoding undoes encoding: both `idx` and `inCore` survive. */
  lemma DecodeEncode(v: CoredVertexIndex)
    requires ValidIndex(v)
    ensures Decode(Encode(v)) == v
  {
  }

  /** Every `int` is the code of exactly one valid reference. */
  lemma EncodeDecode(n: int)
    requires IsInt(n)
    ensures Encode(Decode(n)) == n
  {
  }

  /** The packing is injective on valid references. */
  lemma EncodeInjective(v: CoredVertexIndex, w: CoredVertexIndex)
    requires ValidIndex(v) && ValidIndex(w)
    ensures Encode(v) == Encode(w) <==> v == w
  {
  }

  predicate IsIntPolygon(e: seq<int>) { forall k :: 0 <= k < |e| ==> IsInt(e[k]) }

  /** The `vector<int>` form of a polygon. */
  function EncodePolygon(p: Polygon): (e: seq<int>)
    requires ValidPolygon(p)
    ensures |e| == |p| && IsIntPolygon(e)
  {
    if p == [] then [] else [Encode(p[0])] + EncodePolygon(p[1..])
  }

  /** The `vector<CoredVertexIndex>` form read back from a `vector<int>`. */
  function DecodePolygon(e: seq<int>): (p: Polygon)
    requires IsIntPolygon(e)
    ensures |p| == |e| && ValidPolygon(p)
  {
    if e == [] then [] else [Decode(e[0])] + DecodePolygon(e[1..])
  }

  /** Element-wise view of the packing. */
  lemma {:induction false} EncodePolygonAt(p: Polygon, k: nat)
    requires ValidPolygon(p) && k < |p|
    ensures EncodePolygon(p)[k] == Encode(p[k])
  {
    if k > 0 {
      EncodePolygonAt(p[1..], k - 1);
    }
  }

  /** A polygon read back equals the polygon added. */
  lemma {:induction false} DecodeEncodePolygon(p: Polygon)
    requires ValidPolygon(p)
    ensures DecodePolygon(EncodePolygon(p)) == p
  {
    if p != [] {
      DecodeEncode(p[0]);
      DecodeEncodePolygon(p[1..]);
    }
  }

  /** Every stored `vector<int>` is the packing of the polygon read back. */
  lemma {:induction false} EncodeDecodePolygon(e: seq<int>)
    requires IsIntPolygon(e)
    ensures EncodePolygon(DecodePolygon(e)) == e
  {
    if e != [] {
      EncodeDecode(e[0]);
      EncodeDecodePolygon(e[1..]);
    }
  }

  /** The plain `vector<int>` overload of `addPolygon_s`: every entry is an
      out-of-core point index. */
  function WrapOutOfCore(vs: seq<int>): (p: Polygon)
    requires forall k :: 0 <= k < |vs| ==> 0 <= vs[k] <= IntMax
    ensures |p| == |vs| && ValidPolygon(p)
    ensures forall k :: 0 <= k < |vs| ==> p[k].idx == vs[k] && !p[k].inCore
  {
    seq(|vs|, k requires 0 <= k < |vs| => CoredVertexIndex(vs[k], false))
  }
}
