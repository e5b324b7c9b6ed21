/**
 * The JPA mapping of a blueprint: a BlueprintEntity row in table
 * "blueprints" whose points are PointEmbeddable values stored, in list
 * order, in table "blueprint_points". Both classes are mutable; their
 * getters are plain field reads and are used as such.
 */
module PersistenceEntity {
  import opened Model

  /** One (x, y) pair of a stored blueprint. */
  class PointEmbeddable {
    var x: int32
    var y: int32

    /** The no-argument constructor JPA uses: both coordinates start at 0. */
    constructor Default()
      ensures x == 0 && y == 0
    {
      x, y := 0, 0;
    }

    constructor (x: int32, y: int32)
      ensures this.x == x && this.y == y
    {
      this.x, this.y := x, y;
    }

    method SetX(x: int32)
      modifies this
      ensures this.x == x && y == old(y)
    {
      this.x := x;
    }

    method SetY(y: int32)
      modifies this
      ensures this.y == y && x == old(x)
    {
      this.y := y;
    }
  }

  /** A stored blueprint. `id` is null until the database assigns one. */
  class BlueprintEntity {
    var id: Option<int64>
    var author: string
    var name: string
    var points: seq<PointEmbeddable>

    /**
     * Stores author and name as given and copies the given points (none
     * when the list is null) into the entity's own list, in order.
     */
    constructor (author: string, name: string, points: Option<seq<PointEmbeddable>>)
      ensures id == None && this.author == author && this.name == name
      ensures points.None? ==> this.points == []
      ensures points.Some? ==> this.points == points.value
    {
      id := None;
      this.author, this.name := author, name;
      this.points := [];
      if points.Some? {
        this.points := this.points + points.value;
      }
    }

    method SetId(id: Option<int64>)
      modifies this
      ensures this.id == id
      ensures author == old(author) && name == old(name) && points == old(points)
    {
      this.id := id;
    }

    method SetAuthor(author: string)
      modifies this
      ensures this.author == author
      ensures id == old(id) && name == old(name) && points == old(points)
    {
      this.author := author;
    }

    method SetName(name: string)
      modifies this
      ensures this.name == name
      ensures id == old(id) && author == old(author) && points == old(points)
    {
      this.name := name;
    }

    method SetPoints(points: seq<PointEmbeddable>)
      modifies this
      ensures this.points == points
      ensures id == old(id) && author == old(author) && name == old(name)
    {
      this.points := points;
    }
  }

  /** The coordinates held by a list of embeddable points, in list order. */
  function Coordinates(ps: seq<PointEmbeddable>): (r: seq<Point>)
    reads ps
    ensures |r| == |ps|
    ensures forall i :: 0 <= i < |ps| ==> r[i] == Point(ps[i].x, ps[i].y)
    decreases |ps|
  {
    if ps == [] then [] else [Point(ps[0].x, ps[0].y)] + Coordinates(ps[1..])
  }
}
