/**
 * PostgresBlueprintPersistence: the relational implementation of the
 * persistence contract. The Spring Data repository behind it is modelled as
 * the sequence of BlueprintEntity rows it holds, and its generated queries as
 * the functions below. The ghost field Contents is the abstract table of the
 * contract; Valid() ties it to the rows and carries the uniqueness of
 * (author, name).
 */
module PersistenceImpl {
  import opened Model
  import opened PersistenceEntity
  import P = Persistence

  // ---------------------------------------------------------------------
  // Domain <-> entity conversion
  // ---------------------------------------------------------------------

  /** toDomain: a blueprint with the entity's author, name and coordinates, in list order. */
  function ToDomain(e: BlueprintEntity): (b: Blueprint)
    reads e, e.points
    ensures b.author == e.author && b.name == e.name
    ensures |b.points| == |e.points|
    ensures forall i :: 0 <= i < |e.points| ==> b.points[i] == Point(e.points[i].x, e.points[i].y)
  {
    Blueprint(e.author, e.name, Coordinates(e.points))
  }

  /**
   * toEntity: a new entity with one new embeddable point per point of `bp`,
   * in the same order; converting it back gives `bp`.
   */
  method ToEntity(bp: Blueprint) returns (e: BlueprintEntity)
    ensures fresh(e) && e.id == None
    ensures forall j :: 0 <= j < |e.points| ==> fresh(e.points[j])
    ensures ToDomain(e) == bp
  {
    var pts: seq<PointEmbeddable> := [];
    var i := 0;
    while i < |bp.points|
      invariant 0 <= i <= |bp.points| && |pts| == i
      invariant forall j :: 0 <= j < i ==> fresh(pts[j])
      invariant forall j :: 0 <= j < i ==> pts[j].x == bp.points[j].x && pts[j].y == bp.points[j].y
    {
      var p := new PointEmbeddable(bp.points[i].x, bp.points[i].y);
      pts := pts + [p];
      i := i + 1;
    }
    e := new BlueprintEntity(bp.author, bp.name, Some(pts));
  }

  // ---------------------------------------------------------------------
  // The queries Spring Data generates for BlueprintJpaRepository
  // ---------------------------------------------------------------------

  /** existsByAuthorAndName: some row has that key, exactly when findByAuthorAndName finds one. */
  predicate ExistsByAuthorAndName(es: seq<BlueprintEntity>, author: string, name: string)
    reads es
    ensures ExistsByAuthorAndName(es, author, name) <==> FindByAuthorAndName(es, author, name).Some?
  {
    exists i :: 0 <= i < |es| && es[i].author == author && es[i].name == name
  }

  /** findByAuthorAndName: a row with that key, if there is one. */
  function FindByAuthorAndName(es: seq<BlueprintEntity>, author: string, name: string): (r: Option<BlueprintEntity>)
    reads es
    ensures r.None? <==> forall i :: 0 <= i < |es| ==> !(es[i].author == author && es[i].name == name)
    ensures r.Some? ==> r.value in es && r.value.author == author && r.value.name == name
    decreases |es|
  {
    if es == [] then None
    else if es[0].author == author && es[0].name == name then Some(es[0])
    else FindByAuthorAndName(es[1..], author, name)
  }

  /** findByAuthor: the rows with that author, in table order. */
  function FindByAuthor(es: seq<BlueprintEntity>, author: string): (r: seq<BlueprintEntity>)
    reads es
    ensures forall i :: 0 <= i < |r| ==> r[i] in es && r[i].author == author
    ensures forall i :: 0 <= i < |es| && es[i].author == author ==> es[i] in r
    decreases |es|
  {
    if es == [] then []
    else if es[0].author == author then [es[0]] + FindByAuthor(es[1..], author)
    else FindByAuthor(es[1..], author)
  }

  // ---------------------------------------------------------------------
  // The persistence class
  // ---------------------------------------------------------------------

  /** Every point of every row is in the footprint. */
  ghost predicate OwnsPoints(repr: set<object>, rows: seq<BlueprintEntity>)
    reads rows
  {
    forall i, j :: 0 <= i < |rows| && 0 <= j < |rows[i].points| ==> rows[i].points[j] in repr
  }

  /** No entity is stored in two rows. */
  ghost predicate Distinct(rows: seq<BlueprintEntity>)
  {
    forall i, j :: 0 <= i < j < |rows| ==> rows[i] != rows[j]
  }

  /** Row by row, the entities convert to the blueprints of the abstract table. */
  ghost predicate Abstracts(rows: seq<BlueprintEntity>, t: seq<Blueprint>)
    reads rows, set i, j | 0 <= i < |rows| && 0 <= j < |rows[i].points| :: rows[i].points[j]
  {
    |rows| == |t| && forall i :: 0 <= i < |rows| ==> t[i] == ToDomain(rows[i])
  }

  /** The blueprints the rows convert to, row by row. */
  ghost function Domains(rows: seq<BlueprintEntity>): (t: seq<Blueprint>)
    reads rows, set i, j | 0 <= i < |rows| && 0 <= j < |rows[i].points| :: rows[i].points[j]
    ensures Abstracts(rows, t)
    decreases |rows|
  {
    if rows == [] then [] else [ToDomain(rows[0])] + Domains(rows[1..])
  }

  /** The objects the rows own: the entities and their embeddable points. */
  ghost function Footprint(rows: seq<BlueprintEntity>): (r: set<object>)
    reads rows
    ensures forall i :: 0 <= i < |rows| ==> rows[i] in r
    ensures OwnsPoints(r, rows)
  {
    (set i | 0 <= i < |rows| :: rows[i])
      + (set i, j | 0 <= i < |rows| && 0 <= j < |rows[i].points| :: rows[i].points[j])
  }

  /** Re-converting one row, the others unchanged, updates that row of the abstraction. */
  lemma AbstractsUpdate(rows: seq<BlueprintEntity>, t: seq<Blueprint>, k: nat)
    requires |rows| == |t| && k < |rows|
    requires forall j :: 0 <= j < |rows| && j != k ==> ToDomain(rows[j]) == t[j]
    ensures Abstracts(rows, t[k := ToDomain(rows[k])])
  {
  }

  class PostgresBlueprintPersistence {
    /** The rows of table "blueprints", in insertion order. */
    var table: seq<BlueprintEntity>

    ghost var Contents: seq<Blueprint>
    ghost var Repr: set<object>

    ghost predicate Valid()
      reads this, Repr
    {
      && this in Repr
      && |table| == |Contents|
      && (forall i :: 0 <= i < |table| ==> table[i] in Repr)
      && OwnsPoints(Repr, table)
      && Distinct(table)
      && Abstracts(table, Contents)
      && P.UniqueKeys(Contents)
    }

    /**
     * A persistence over the injected repository, which holds `rows`. The
     * database guarantees that no entity is stored twice and, by the unique
     * constraint, that no two rows share (author, name).
     */
    constructor (rows: seq<BlueprintEntity>)
      requires Distinct(rows)
      requires forall i, j :: 0 <= i < j < |rows| ==> !(rows[i].author == rows[j].author && rows[i].name == rows[j].name)
      ensures Valid() && table == rows
      ensures Repr == {this} + old(Footprint(rows))
      ensures |Contents| == |rows| && forall i :: 0 <= i < |rows| ==> Contents[i] == ToDomain(rows[i])
    {
      ghost var t := Domains(rows);
      assert P.UniqueKeys(t);
      table, Contents := rows, t;
      Repr := {this} + Footprint(rows);
      new;
      forall i | 0 <= i < |rows| ensures Contents[i] == ToDomain(rows[i]) {
        assert t[i] == old(ToDomain(rows[i]));
      }
      assert forall i :: 0 <= i < |rows| ==> rows[i] in Repr;
      assert OwnsPoints(Repr, table);
    }

    /** The rows and the abstract table agree on every key. */
    lemma KeysAgree(author: string, name: string)
      requires Valid()
      ensures ExistsByAuthorAndName(table, author, name) <==> P.IndexOf(Contents, author, name).Some?
      ensures forall i :: 0 <= i < |table| ==>
        (table[i].author == author && table[i].name == name <==> P.HasKey(Contents[i], author, name))
    {
    }

    /** saveBlueprint. */
    method SaveBlueprint(bp: Blueprint) returns (r: P.Result<()>)
      requires Valid()
      modifies this
      ensures Valid() && fresh(Repr - old(Repr))
      ensures r == P.Status(P.Save(old(Contents), bp))
      ensures Contents == P.After(old(Contents), P.Save(old(Contents), bp))
    {
      KeysAgree(bp.author, bp.name);
      if ExistsByAuthorAndName(table, bp.author, bp.name) {
        r := P.Err(P.AlreadyExists);
        return;
      }
      var e := ToEntity(bp);
      InsertRow(e, bp);
      r := P.Ok(());
    }

    /** jpaRepository.save of a new entity: one row is added at the end of the table. */
    method InsertRow(e: BlueprintEntity, ghost bp: Blueprint)
      requires Valid() && P.IndexOf(Contents, bp.author, bp.name).None?
      requires e !in Repr && (forall j :: 0 <= j < |e.points| ==> e.points[j] !in Repr)
      requires ToDomain(e) == bp
      modifies this
      ensures Valid() && Repr == old(Repr) + old(Footprint([e]))
      ensures Contents == old(Contents) + [bp]
    {
      P.SaveKeepsUnique(Contents, bp);
      ghost var owned := Footprint([e]);
      table, Contents, Repr := table + [e], Contents + [bp], Repr + owned;
      forall i | 0 <= i < |table| ensures Contents[i] == ToDomain(table[i]) {
        if i < |old(table)| {
          assert table[i] == old(table[i]) && Contents[i] == old(Contents[i]);
          assert old(ToDomain(table[i])) == Contents[i];
        }
      }
      forall i, j | 0 <= i < |table| && 0 <= j < |table[i].points| ensures table[i].points[j] in Repr {
        if i < |old(table)| {
          assert table[i] == old(table[i]) && old(table[i].points[j]) in old(Repr);
        } else {
          assert [e][0].points[j] in owned;
        }
      }
    }

    /** getBlueprint. */
    method GetBlueprint(author: string, name: string) returns (r: P.Result<Blueprint>)
      requires Valid()
      ensures r == P.Get(Contents, author, name)
    {
      KeysAgree(author, name);
      var found := FindByAuthorAndName(table, author, name);
      if found.None? {
        r := P.Err(P.NotFound);
      } else {
        ghost var i :| 0 <= i < |table| && table[i] == found.value;
        P.GetFindsTheRow(Contents, author, name);
        r := P.Ok(ToDomain(found.value));
      }
    }

    /** getBlueprintsByAuthor. */
    method GetBlueprintsByAuthor(author: string) returns (r: P.Result<set<Blueprint>>)
      requires Valid()
      ensures r == P.GetByAuthor(Contents, author)
    {
      var entities := FindByAuthor(table, author);
      ghost var expected := set b | b in Contents && b.author == author;
      if |entities| == 0 {
        forall b | b in Contents ensures b.author != author {
          var i :| 0 <= i < |Contents| && Contents[i] == b;
          assert table[i] !in entities;
        }
        assert expected == {};
        r := P.Err(P.NotFound);
      } else {
        var found := set e | e in entities :: ToDomain(e);
        forall b | b in found ensures b in expected {
          var e :| e in entities && b == ToDomain(e);
          var i :| 0 <= i < |table| && table[i] == e;
          assert Contents[i] == b;
        }
        forall b | b in expected ensures b in found {
          var i :| 0 <= i < |Contents| && Contents[i] == b;
          assert table[i] in entities;
        }
        assert ToDomain(entities[0]) in found;
        assert found == expected;
        r := P.Ok(found);
      }
    }

    /** getAllBlueprints. */
    method GetAllBlueprints() returns (r: set<Blueprint>)
      requires Valid()
      ensures r == P.GetAll(Contents)
    {
      var entities := table;
      r := set e | e in entities :: ToDomain(e);
      forall b | b in r ensures b in Contents {
        var e :| e in entities && b == ToDomain(e);
        var i :| 0 <= i < |table| && table[i] == e;
        assert Contents[i] == b;
      }
      forall b | b in Contents ensures b in r {
        var i :| 0 <= i < |Contents| && Contents[i] == b;
        assert table[i] in entities;
      }
    }

    /** addPoint. */
    method AddPoint(author: string, name: string, x: int32, y: int32) returns (r: P.Result<()>)
      requires Valid()
      modifies Repr
      ensures Valid() && fresh(Repr - old(Repr))
      ensures r == P.Status(P.AddPoint(old(Contents), author, name, Point(x, y)))
      ensures Contents == P.After(old(Contents), P.AddPoint(old(Contents), author, name, Point(x, y)))
    {
      KeysAgree(author, name);
      var found := FindByAuthorAndName(table, author, name);
      if found.None? {
        r := P.Err(P.NotFound);
        return;
      }
      var entity := found.value;
      ghost var k := P.IndexOf(Contents, author, name).value;
      assert table[k] == entity by {
        var i :| 0 <= i < |table| && table[i] == entity;
        P.GetFindsTheRow(Contents, author, name);
      }
      var p := new PointEmbeddable(x, y);
      AppendToRow(k, entity, p);
      P.AddPointKeepsUnique(old(Contents), author, name, Point(x, y));
      r := P.Ok(());
    }

    /**
     * entity.getPoints().add(p) on the entity of row `k`, followed by
     * jpaRepository.save of that entity, which is already a row of the table.
     */
    method AppendToRow(ghost k: nat, entity: BlueprintEntity, p: PointEmbeddable)
      requires Valid() && k < |table| && table[k] == entity && p !in Repr
      modifies Repr
      ensures table == old(table) && Repr == old(Repr) + {p}
      ensures Valid()
      ensures Contents == old(Contents[k := Contents[k].(points := Contents[k].points + [Point(p.x, p.y)])])
    {
      ghost var before := Contents[k];
      ghost var after := before.(points := before.points + [Point(p.x, p.y)]);
      ghost var points := entity.points;
      P.UpdatePointsKeepsUnique(Contents, k, after.points);
      Contents, Repr := Contents[k := after], Repr + {p};
      entity.points := entity.points + [p];
      assert ToDomain(entity) == after by {
        assert forall i :: 0 <= i < |before.points| ==> before.points[i] == ToDomain(entity).points[i];
      }
      forall j | 0 <= j < |table| && j != k
        ensures ToDomain(table[j]) == Contents[j] && table[j].points == old(table[j].points)
      {
        assert table[j] != entity;
      }
      AbstractsUpdate(table, Contents, k);
      forall i, j | 0 <= i < |table| && 0 <= j < |table[i].points|
        ensures table[i].points[j] in Repr
      {
        if i != k {
          assert old(table[i].points[j]) in old(Repr);
        } else if j < |points| {
          assert table[i].points[j] == points[j];
        }
      }
    }
  }
}
