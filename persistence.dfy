/**
 * The persistence contract that PostgresBlueprintPersistence implements,
 * stated on an abstract table: the sequence of stored blueprints in
 * insertion order. Every operation either succeeds or fails with one of two
 * error kinds, and a failed operation leaves the table as it was.
 */
module Persistence {
  import opened Model

  /** BlueprintPersistenceException and BlueprintNotFoundException. */
  datatype StoreError = AlreadyExists | NotFound

  datatype Result<T> = Ok(value: T) | Err(error: StoreError)

  /** The row key that the unique constraint on (author, name) protects. */
  predicate HasKey(bp: Blueprint, author: string, name: string)
  {
    bp.author == author && bp.name == name
  }

  /** No two stored blueprints share an (author, name) key. */
  predicate UniqueKeys(t: seq<Blueprint>)
    ensures UniqueKeys(t) <==>
      forall i, j :: 0 <= i < |t| && 0 <= j < |t| && HasKey(t[j], t[i].author, t[i].name) ==> i == j
  {
    forall i, j :: 0 <= i < j < |t| ==> !HasKey(t[j], t[i].author, t[i].name)
  }

  /** The position of the first blueprint with the given key, if any. */
  function IndexOf(t: seq<Blueprint>, author: string, name: string): (r: Option<nat>)
    ensures r.None? <==> forall i :: 0 <= i < |t| ==> !HasKey(t[i], author, name)
    ensures r.Some? ==> r.value < |t| && HasKey(t[r.value], author, name)
    ensures r.Some? ==> forall i :: 0 <= i < r.value ==> !HasKey(t[i], author, name)
    decreases |t|
  {
    if t == [] then None
    else if HasKey(t[0], author, name) then Some(0)
    else
      match IndexOf(t[1..], author, name)
      case None => None
      case Some(i) => Some(i + 1)
  }

  /** saveBlueprint: refuses a key that is already stored, otherwise appends. */
  function Save(t: seq<Blueprint>, bp: Blueprint): (r: Result<seq<Blueprint>>)
    ensures r.Ok? <==> forall i :: 0 <= i < |t| ==> !HasKey(t[i], bp.author, bp.name)
    ensures r.Err? ==> r.error == AlreadyExists
    ensures r.Ok? ==> |r.value| == |t| + 1 && r.value[|t|] == bp
    ensures r.Ok? ==> forall i :: 0 <= i < |t| ==> r.value[i] == t[i]
  {
    if IndexOf(t, bp.author, bp.name).Some? then Err(AlreadyExists) else Ok(t + [bp])
  }

  /** getBlueprint: the stored blueprint with that key. */
  function Get(t: seq<Blueprint>, author: string, name: string): (r: Result<Blueprint>)
    ensures r.Err? <==> forall i :: 0 <= i < |t| ==> !HasKey(t[i], author, name)
    ensures r.Err? ==> r.error == NotFound
    ensures r.Ok? ==> r.value in t && HasKey(r.value, author, name)
  {
    match IndexOf(t, author, name)
    case None => Err(NotFound)
    case Some(i) => Ok(t[i])
  }

  /** getBlueprintsByAuthor: every stored blueprint by the author, never an empty set. */
  function GetByAuthor(t: seq<Blueprint>, author: string): (r: Result<set<Blueprint>>)
    ensures r.Err? ==> r.error == NotFound && forall i :: 0 <= i < |t| ==> t[i].author != author
    ensures r.Ok? ==> r.value != {} && forall b :: b in r.value <==> b in t && b.author == author
  {
    var found := set b | b in t && b.author == author;
    if found == {} then
      assert forall i :: 0 <= i < |t| && t[i].author == author ==> t[i] in found;
      Err(NotFound)
    else Ok(found)
  }

  /** getAllBlueprints: every stored blueprint. */
  function GetAll(t: seq<Blueprint>): (r: set<Blueprint>)
    ensures forall i :: 0 <= i < |t| ==> t[i] in r
    ensures forall b :: b in r ==> b in t
  {
    set b | b in t
  }

  /** addPoint: appends `p` to the points of the blueprint with that key. */
  function AddPoint(t: seq<Blueprint>, author: string, name: string, p: Point): (r: Result<seq<Blueprint>>)
    ensures r.Err? <==> forall i :: 0 <= i < |t| ==> !HasKey(t[i], author, name)
    ensures r.Err? ==> r.error == NotFound
    ensures r.Ok? ==> |r.value| == |t|
  {
    match IndexOf(t, author, name)
    case None => Err(NotFound)
    case Some(i) => Ok(t[i := t[i].(points := t[i].points + [p])])
  }

  /** The table after an operation: the new one on success, the old one on failure. */
  function After(t: seq<Blueprint>, r: Result<seq<Blueprint>>): seq<Blueprint>
  {
    if r.Ok? then r.value else t
  }

  /** What a void operation reports: success, or the error it failed with. */
  function Status<T>(r: Result<T>): Result<()>
  {
    if r.Ok? then Ok(()) else Err(r.error)
  }

  // ---------------------------------------------------------------------
  // saveBlueprint
  // ---------------------------------------------------------------------

  /** A save that succeeded can be read back, points in the order given. */
  lemma SaveThenGet(t: seq<Blueprint>, bp: Blueprint)
    requires Save(t, bp).Ok?
    ensures Get(Save(t, bp).value, bp.author, bp.name) == Ok(bp)
  {
    var t' := t + [bp];
    assert IndexOf(t', bp.author, bp.name) == Some(|t|) by {
      assert forall i :: 0 <= i < |t| ==> t'[i] == t[i];
      assert HasKey(t'[|t|], bp.author, bp.name);
    }
  }

  /** Saving the same key a second time fails, whatever the points. */
  lemma SaveTwiceFails(t: seq<Blueprint>, bp: Blueprint, again: Blueprint)
    requires Save(t, bp).Ok?
    requires again.author == bp.author && again.name == bp.name
    ensures Save(Save(t, bp).value, again) == Err(AlreadyExists)
  {
    SaveThenGet(t, bp);
  }

  /** A successful save leaves every other key's lookup unchanged. */
  lemma SaveKeepsOthers(t: seq<Blueprint>, bp: Blueprint, author: string, name: string)
    requires Save(t, bp).Ok?
    requires !HasKey(bp, author, name)
    ensures Get(Save(t, bp).value, author, name) == Get(t, author, name)
  {
    var t' := t + [bp];
    assert forall i :: 0 <= i < |t| ==> t'[i] == t[i];
    var r, r' := IndexOf(t, author, name), IndexOf(t', author, name);
    if r.Some? {
      assert r' == r;
    } else {
      assert r'.None?;
    }
  }

  /** Saving keeps the keys unique. */
  lemma SaveKeepsUnique(t: seq<Blueprint>, bp: Blueprint)
    requires UniqueKeys(t)
    ensures UniqueKeys(After(t, Save(t, bp)))
  {
    if Save(t, bp).Ok? {
      var t' := t + [bp];
      forall i, j | 0 <= i < j < |t'|
        ensures !HasKey(t'[j], t'[i].author, t'[i].name)
      {
        if j == |t| {
          assert t'[i] == t[i];
        }
      }
    }
  }

  // ---------------------------------------------------------------------
  // getBlueprint, getBlueprintsByAuthor, getAllBlueprints
  // ---------------------------------------------------------------------

  /**
   * With unique keys, getBlueprint returns the one blueprint with that key,
   * and fails with NotFound exactly when there is none.
   */
  lemma GetFindsTheRow(t: seq<Blueprint>, author: string, name: string)
    requires UniqueKeys(t)
    ensures Get(t, author, name).Err? <==> forall i :: 0 <= i < |t| ==> !HasKey(t[i], author, name)
    ensures Get(t, author, name).Err? ==> Get(t, author, name).error == NotFound
    ensures forall i :: 0 <= i < |t| && HasKey(t[i], author, name) ==> Get(t, author, name) == Ok(t[i])
  {
  }

  /** On an empty table every lookup fails with NotFound. */
  lemma GetOnEmpty(author: string, name: string)
    ensures Get([], author, name) == Err(NotFound)
    ensures GetByAuthor([], author) == Err(NotFound)
    ensures GetAll([]) == {}
  {
  }

  /** getAllBlueprints yields exactly the stored blueprints; it has no error case. */
  lemma GetAllMembers(t: seq<Blueprint>)
    ensures forall b :: b in GetAll(t) <==> exists i :: 0 <= i < |t| && t[i] == b
    ensures GetAll(t) == {} <==> t == []
  {
    if t != [] {
      assert t[0] in GetAll(t);
    }
  }

  // ---------------------------------------------------------------------
  // addPoint
  // ---------------------------------------------------------------------

  /**
   * addPoint fails with NotFound and changes nothing on an absent key; on a
   * present key the point becomes the last point of that blueprint, which
   * keeps its author and name.
   */
  lemma AddPointThenGet(t: seq<Blueprint>, author: string, name: string, p: Point)
    ensures AddPoint(t, author, name, p).Err? <==> Get(t, author, name).Err?
    ensures AddPoint(t, author, name, p).Err? ==> AddPoint(t, author, name, p).error == NotFound
    ensures AddPoint(t, author, name, p).Ok? ==>
      var old_bp := Get(t, author, name).value;
      Get(AddPoint(t, author, name, p).value, author, name)
        == Ok(Blueprint(author, name, old_bp.points + [p]))
  {
    var r := IndexOf(t, author, name);
    if r.Some? {
      var t' := AddPoint(t, author, name, p).value;
      assert HasKey(t'[r.value], author, name);
      assert forall i :: 0 <= i < r.value ==> t'[i] == t[i];
      assert IndexOf(t', author, name) == r;
    }
  }

  /** addPoint leaves the size of the table and every other row unchanged. */
  lemma AddPointKeepsOthers(t: seq<Blueprint>, author: string, name: string, p: Point)
    requires AddPoint(t, author, name, p).Ok?
    ensures |AddPoint(t, author, name, p).value| == |t|
    ensures forall i :: 0 <= i < |t| && !HasKey(t[i], author, name) ==> AddPoint(t, author, name, p).value[i] == t[i]
  {
  }

  /** Replacing the points of one row keeps the keys unique. */
  lemma UpdatePointsKeepsUnique(t: seq<Blueprint>, k: nat, ps: seq<Point>)
    requires UniqueKeys(t) && k < |t|
    ensures UniqueKeys(t[k := t[k].(points := ps)])
  {
    var t' := t[k := t[k].(points := ps)];
    assert forall i :: 0 <= i < |t| ==> t'[i].author == t[i].author && t'[i].name == t[i].name;
  }

  /** addPoint keeps the keys unique. */
  lemma AddPointKeepsUnique(t: seq<Blueprint>, author: string, name: string, p: Point)
    requires UniqueKeys(t)
    ensures UniqueKeys(After(t, AddPoint(t, author, name, p)))
  {
    var r := IndexOf(t, author, name);
    if r.Some? {
      UpdatePointsKeepsUnique(t, r.value, t[r.value].points + [p]);
    }
  }

  // ---------------------------------------------------------------------
  // Sequences of writes
  // ---------------------------------------------------------------------

  /** A write request: saveBlueprint or addPoint. */
  datatype Command = SaveCommand(bp: Blueprint) | AddPointCommand(author: string, name: string, p: Point)

  /** The table after one command; a failed command leaves it as it was. */
  function Step(t: seq<Blueprint>, c: Command): seq<Blueprint>
  {
    match c
    case SaveCommand(bp) => After(t, Save(t, bp))
    case AddPointCommand(a, n, p) => After(t, AddPoint(t, a, n, p))
  }

  /** The table after the commands, in order. */
  function Run(t: seq<Blueprint>, cs: seq<Command>): seq<Blueprint>
    decreases |cs|
  {
    if cs == [] then t else Run(Step(t, cs[0]), cs[1..])
  }

  /** Uniqueness invariant: no sequence of writes makes two rows share a key. */
  lemma {:induction false} RunKeepsUnique(t: seq<Blueprint>, cs: seq<Command>)
    requires UniqueKeys(t)
    ensures UniqueKeys(Run(t, cs))
    decreases |cs|
  {
    if cs != [] {
      match cs[0] {
        case SaveCommand(bp) => SaveKeepsUnique(t, bp);
        case AddPointCommand(a, n, p) => AddPointKeepsUnique(t, a, n, p);
      }
      RunKeepsUnique(Step(t, cs[0]), cs[1..]);
    }
  }

  /** One addPoint command per point, all on the same key. */
  function AppendAll(author: string, name: string, ps: seq<Point>): (cs: seq<Command>)
    ensures |cs| == |ps|
    ensures forall k :: 0 <= k < |ps| ==> cs[k] == AddPointCommand(author, name, ps[k])
    decreases |ps|
  {
    if ps == [] then [] else [AddPointCommand(author, name, ps[0])] + AppendAll(author, name, ps[1..])
  }

  /** Running the appends of a non-empty point list is one addPoint followed by the rest. */
  lemma RunAppendAllHead(t: seq<Blueprint>, author: string, name: string, ps: seq<Point>)
    requires ps != []
    ensures Run(t, AppendAll(author, name, ps))
         == Run(After(t, AddPoint(t, author, name, ps[0])), AppendAll(author, name, ps[1..]))
  {
    var cs := AppendAll(author, name, ps);
    assert cs[0] == AddPointCommand(author, name, ps[0]);
    assert cs[1..] == AppendAll(author, name, ps[1..]);
  }

  /**
   * No append is lost: after appending the points one by one to a stored
   * blueprint, it holds its old points followed by all the new ones, in order.
   */
  lemma {:induction false} AppendsAreNotLost(t: seq<Blueprint>, bp: Blueprint, ps: seq<Point>)
    requires Get(t, bp.author, bp.name) == Ok(bp)
    ensures Get(Run(t, AppendAll(bp.author, bp.name, ps)), bp.author, bp.name)
         == Ok(bp.(points := bp.points + ps))
    decreases |ps|
  {
    if ps == [] {
      assert bp.points + ps == bp.points;
    } else {
      var bp1 := bp.(points := bp.points + [ps[0]]);
      var t1 := After(t, AddPoint(t, bp.author, bp.name, ps[0]));
      assert Get(t1, bp.author, bp.name) == Ok(bp1) by {
        AddPointThenGet(t, bp.author, bp.name, ps[0]);
      }
      assert bp1.(points := bp1.points + ps[1..]) == bp.(points := bp.points + ps) by {
        assert bp1.points + ps[1..] == bp.points + ps;
      }
      RunAppendAllHead(t, bp.author, bp.name, ps);
      AppendsAreNotLost(t1, bp1, ps[1..]);
    }
  }
}
