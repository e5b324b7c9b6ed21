/**
 * The domain values shared by every layer: the integer widths of the Java
 * fields, an optional value standing for a nullable reference, and the
 * inferred `Point` and `Blueprint` types of edu.eci.arsw.blueprints.model.
 */
module Model {

  /** Java `int`. */
  newtype int32 = x: int | -0x8000_0000 <= x < 0x8000_0000

  /** Java `long`. */
  newtype int64 = x: int | -0x8000_0000_0000_0000 <= x < 0x8000_0000_0000_0000

  /** A Java reference that may be null. */
  datatype Option<T> = None | Some(value: T)

  /** An immutable coordinate pair, compared by value. */
  datatype Point = Point(x: int32, y: int32)

  /** An authored, named, ordered sequence of points. */
  datatype Blueprint = Blueprint(author: string, name: string, points: seq<Point>)
}
