/**
 * The conversions between `PlyColorVertex` / `PlyColorAndValueVertex`
 * (Geometry.h), whose colour is three `unsigned char`s, and their
 * `Wrapper` structs `_PlyColorVertex` / `_PlyColorAndValueVertex`, whose
 * colour is a real-valued `Point3D` used for interpolation.
 */
module PlyColor {

  /** An `unsigned char`. */
  type Byte = b: int | 0 <= b < 256

  datatype Point3D = Point3D(x: real, y: real, z: real)

  /** `unsigned char color[3]`. */
  datatype Color = Color(r: Byte, g: Byte, b: Byte)

  datatype PlyColorVertex = PlyColorVertex(point: Point3D, color: Color)
  datatype PlyColorVertexWrapper = PlyColorVertexWrapper(point: Point3D, color: Point3D)

  datatype PlyColorAndValueVertex = PlyColorAndValueVertex(point: Point3D, color: Color, value: real)
  datatype PlyColorAndValueVertexWrapper = PlyColorAndValueVertexWrapper(point: Point3D, color: Point3D, value: real)

  /** The C++ cast `(int)x`: truncation toward zero. */
  function TruncateToInt(x: real): (n: int)
    ensures 0.0 <= x ==> n as real <= x < n as real + 1.0
    ensures x < 0.0 ==> n as real - 1.0 < x <= n as real
  {
    if 0.0 <= x then x.Floor else -((-x).Floor)
  }

  /** `(unsigned char)std::max(0, std::min(255, (int)(c + 0.5)))`: the
      nearest integer (halves rounded up) clamped into [0, 255]. */
  function Channel(c: real): (b: Byte)
    ensures c >= 254.5 ==> b == 255
    ensures c < 0.5 ==> b == 0
    ensures -0.5 <= c < 255.5 ==> b == (c + 0.5).Floor
  {
    var n := TruncateToInt(c + 0.5);
    if n < 0 then 0 else if n > 255 then 255 else n
  }

  /** The channel is rounded half up, then clamped, so it is monotone. */
  lemma ChannelMonotone(c: real, d: real)
    requires c <= d
    ensures Channel(c) <= Channel(d)
  {
  }

  /** A byte colour converted to real and back is unchanged. */
  lemma ChannelOfByte(b: Byte)
    ensures Channel(b as real) == b
  {
  }

  function ColorToPoint(c: Color): Point3D
  {
    Point3D(c.r as real, c.g as real, c.b as real)
  }

  /** `operator PlyColorVertex`: the point is copied, every channel clamped into [0, 255]. */
  function ToPlyColorVertex(w: PlyColorVertexWrapper): (v: PlyColorVertex)
    ensures v.point == w.point
    ensures v.color == Color(Channel(w.color.x), Channel(w.color.y), Channel(w.color.z))
  {
    PlyColorVertex(w.point, Color(Channel(w.color.x), Channel(w.color.y), Channel(w.color.z)))
  }

  /** `_PlyColorVertex(PlyColorVertex p)`: the point is copied, the channels widened. */
  function FromPlyColorVertex(v: PlyColorVertex): (w: PlyColorVertexWrapper)
    ensures w.point == v.point
    ensures w.color == Point3D(v.color.r as real, v.color.g as real, v.color.b as real)
  {
    PlyColorVertexWrapper(v.point, ColorToPoint(v.color))
  }

  /** Widening to the wrapper and converting back loses nothing. */
  lemma PlyColorVertexRoundTrip(v: PlyColorVertex)
    ensures ToPlyColorVertex(FromPlyColorVertex(v)) == v
  {
  }

  /** `operator PlyColorAndValueVertex`: point and value copied, channels clamped. */
  function ToPlyColorAndValueVertex(w: PlyColorAndValueVertexWrapper): (v: PlyColorAndValueVertex)
    ensures v.point == w.point && v.value == w.value
    ensures v.color == Color(Channel(w.color.x), Channel(w.color.y), Channel(w.color.z))
  {
    PlyColorAndValueVertex(w.point, Color(Channel(w.color.x), Channel(w.color.y), Channel(w.color.z)), w.value)
  }

  /** `_PlyColorAndValueVertex(PlyColorAndValueVertex p)`: point and value
      copied, the channels widened. */
  function FromPlyColorAndValueVertex(v: PlyColorAndValueVertex): (w: PlyColorAndValueVertexWrapper)
    ensures w.point == v.point && w.value == v.value
    ensures w.color == Point3D(v.color.r as real, v.color.g as real, v.color.b as real)
  {
    PlyColorAndValueVertexWrapper(v.point, ColorToPoint(v.color), v.value)
  }

  lemma PlyColorAndValueVertexRoundTrip(v: PlyColorAndValueVertex)
    ensures ToPlyColorAndValueVertex(FromPlyColorAndValueVertex(v)) == v
  {
  }
}
