/**
 Genesis overrides: `findAndReplaceConfig` and `changeGenesisConfig` of orchestrator/src/chainSpec.ts.
 An update tree is laid over the configuration: objects are descended into, everything else replaces.
 */
module Overlay {
  import opened Wrappers

  /** A JSON tree. A scalar is null, a boolean, a number or a string. */
  datatype Json = Scalar(text: string) | Arr(items: seq<Json>) | Obj(fields: map<string, Json>)

  /** JavaScript refuses to set a property of a scalar. */
  datatype OverlayError = TypeError

  const EMPTY := Obj(map[])

  /** No scalar of the configuration stands where a non-empty object of the update goes. */
  predicate Applies(u: Json, c: Json)
    decreases u
  {
    && u.Obj?
    && match c
       case Scalar(_) => u == EMPTY
       case Arr(_) => true
       case Obj(fields) =>
         forall k :: k in u.fields && k in fields && u.fields[k].Obj? ==> Applies(u.fields[k], fields[k])
  }

  /**
   The configuration with the update laid over it. Properties set on an array are dropped when the
   specification is written out, so an array keeps its text.
   */
  function Laid(u: Json, c: Json): Json
    requires Applies(u, c)
    decreases u
  {
    if !c.Obj? then c
    else
      Obj(map k | k in u.fields.Keys + c.fields.Keys ::
            if k !in u.fields then c.fields[k]
            else if k in c.fields && u.fields[k].Obj? then Laid(u.fields[k], c.fields[k])
            else u.fields[k])
  }

  // ---- the source

  /** `findAndReplaceConfig`: the order in which the keys are visited does not matter. */
  method FindAndReplaceConfig(obj1: Json, obj2: Json) returns (r: Result<Json, OverlayError>)
    requires obj1.Obj?
    ensures r == if Applies(obj1, obj2) then Ok(Laid(obj1, obj2)) else Err(TypeError)
    decreases obj1
  {
    match obj2
    case Scalar(_) =>
      return if obj1.fields == map[] then Ok(obj2) else Err(TypeError);
    case Arr(_) =>
      return Ok(obj2);
    case Obj(present) =>
      var config := present;
      var keys := obj1.fields.Keys;
      while keys != {}
        invariant keys <= obj1.fields.Keys
        invariant config.Keys == present.Keys + (obj1.fields.Keys - keys)
        invariant forall k :: k in keys && k in present ==> config[k] == present[k]
        invariant forall k :: k in present && k !in obj1.fields ==> config[k] == present[k]
        invariant forall k :: k in obj1.fields && k !in keys && k in present && obj1.fields[k].Obj? ==>
                    Applies(obj1.fields[k], present[k])
        invariant forall k :: k in obj1.fields && k !in keys ==>
                    config[k] == if k in present && obj1.fields[k].Obj? then Laid(obj1.fields[k], present[k])
                                 else obj1.fields[k]
      {
        var key :| key in keys;
        keys := keys - {key};
        var v := obj1.fields[key];
        if key in present && v.Obj? {
          var below := FindAndReplaceConfig(v, config[key]);
          if below.Err? {
            return below;
          }
          config := config[key := below.value];
        } else {
          config := config[key := v];
        }
      }
      assert Applies(obj1, obj2);
      assert config == Laid(obj1, obj2).fields;
      return Ok(Obj(config));
  }

  /** The file of a chain specification, as far as its genesis goes. */
  class ChainSpecFile {
    var genesis: Option<Json>

    constructor (g: Option<Json>)
      ensures genesis == g
    {
      genesis := g;
    }

    /** `changeGenesisConfig`: the file is written only when the whole update went through. */
    method ChangeGenesisConfig(updates: Json) returns (r: Result<(), OverlayError>)
      requires updates.Obj?
      modifies this
      ensures old(genesis) == None ==> r == Ok(()) && genesis == None
      ensures old(genesis).Some? && Applies(updates, old(genesis).value) ==>
                r == Ok(()) && genesis == Some(Laid(updates, old(genesis).value))
      ensures old(genesis).Some? && !Applies(updates, old(genesis).value) ==>
                r == Err(TypeError) && genesis == old(genesis)
    {
      if genesis == None {
        return Ok(());
      }
      var changed := FindAndReplaceConfig(updates, genesis.value);
      if changed.Err? {
        return Err(changed.error);
      }
      genesis := Some(changed.value);
      return Ok(());
    }
  }

  // ---- reading along paths

  type Path = seq<string>

  function Get(j: Json, p: Path): Option<Json> {
    if p == [] then Some(j)
    else if j.Obj? && p[0] in j.fields then Get(j.fields[p[0]], p[1..])
    else None
  }

  /** The path steps out of the update at one of its objects. */
  predicate Leaves(u: Json, p: Path) {
    p != [] && u.Obj? && (p[0] !in u.fields || Leaves(u.fields[p[0]], p[1..]))
  }

  /** An array of the configuration lies on the way to `p`. */
  predicate ArrayOnTheWay(c: Json, p: Path) {
    p != [] && (c.Arr? || (c.Obj? && p[0] in c.fields && ArrayOnTheWay(c.fields[p[0]], p[1..])))
  }

  /** Paths outside the update read what they read before. */
  lemma {:induction false} OutsideIsKept(u: Json, c: Json, p: Path)
    requires Applies(u, c) && Leaves(u, p)
    ensures Get(Laid(u, c), p) == Get(c, p)
    decreases |p|
  {
    if c.Obj? && p[0] in u.fields {
      var v := u.fields[p[0]];
      if p[0] in c.fields {
        OutsideIsKept(v, c.fields[p[0]], p[1..]);
      } else {
        LeavesNothing(v, p[1..]);
      }
    }
  }

  lemma {:induction false} LeavesNothing(u: Json, p: Path)
    requires Leaves(u, p)
    ensures Get(u, p) == None
  {
    if p[0] in u.fields {
      LeavesNothing(u.fields[p[0]], p[1..]);
    }
  }

  /** A leaf of the update is read at its path, exactly when no array of the configuration is on the way. */
  lemma {:induction false} LeavesAreWritten(u: Json, c: Json, p: Path)
    requires Applies(u, c) && Get(u, p).Some? && !Get(u, p).value.Obj?
    ensures Get(Laid(u, c), p) == Get(u, p) <==> !ArrayOnTheWay(c, p)
    ensures ArrayOnTheWay(c, p) ==> Get(Laid(u, c), p) == None
    decreases |p|
  {
    var v := u.fields[p[0]];
    if c.Obj? && p[0] in c.fields {
      if v.Obj? {
        LeavesAreWritten(v, c.fields[p[0]], p[1..]);
      } else {
        assert p[1..] == [];
      }
    }
  }

  /**
   An object of the update leaves, at its path, itself where the configuration has nothing, and itself
   laid over what the configuration has there otherwise.
   */
  lemma {:induction false} ObjectsAreLaid(u: Json, c: Json, p: Path)
    requires Applies(u, c) && Get(u, p).Some? && Get(u, p).value.Obj? && !ArrayOnTheWay(c, p)
    ensures Get(c, p) == None ==> Get(Laid(u, c), p) == Get(u, p)
    ensures Get(c, p).Some? ==> Applies(Get(u, p).value, Get(c, p).value)
    ensures Get(c, p).Some? ==> Get(Laid(u, c), p) == Some(Laid(Get(u, p).value, Get(c, p).value))
    decreases |p|
  {
    if p != [] {
      var v := u.fields[p[0]];
      if c.Obj? && p[0] in c.fields {
        if v.Obj? {
          ObjectsAreLaid(v, c.fields[p[0]], p[1..]);
        }
      }
    }
  }

  // ---- when an update goes through

  /** At this path a non-empty object of the update meets a scalar of the configuration. */
  predicate Meets(u: Json, c: Json, p: Path) {
    && Get(u, p).Some? && Get(u, p).value.Obj? && Get(u, p).value.fields != map[]
    && Get(c, p).Some? && Get(c, p).value.Scalar?
  }

  /** An update of objects goes through exactly when it meets no scalar, at any path. */
  lemma AppliesIff(u: Json, c: Json)
    requires u.Obj?
    ensures Applies(u, c) <==> forall p: Path :: !Meets(u, c, p)
  {
    if Applies(u, c) {
      forall p: Path ensures !Meets(u, c, p) {
        MeetsNoScalar(u, c, p);
      }
    } else {
      var p := ScalarMet(u, c);
    }
  }

  lemma {:induction false} MeetsNoScalar(u: Json, c: Json, p: Path)
    requires Applies(u, c)
    ensures !Meets(u, c, p)
    decreases |p|
  {
    if p != [] && u.Obj? && c.Obj? && p[0] in u.fields && p[0] in c.fields {
      if u.fields[p[0]].Obj? {
        MeetsNoScalar(u.fields[p[0]], c.fields[p[0]], p[1..]);
      } else {
        assert !Meets(u.fields[p[0]], c.fields[p[0]], p[1..]);
      }
    }
  }

  lemma {:induction false} ScalarMet(u: Json, c: Json) returns (p: Path)
    requires u.Obj? && !Applies(u, c)
    ensures Meets(u, c, p)
    decreases u
  {
    if c.Scalar? {
      p := [];
      assert u.fields == map[] ==> u == EMPTY;
    } else {
      var k :| k in u.fields && k in c.fields && u.fields[k].Obj? && !Applies(u.fields[k], c.fields[k]);
      var below := ScalarMet(u.fields[k], c.fields[k]);
      p := [k] + below;
      assert p[1..] == below;
    }
  }

  /** An array, or a scalar under an empty object of the update, stays as it is. */
  lemma {:induction false} OthersStay(u: Json, c: Json, p: Path)
    requires Applies(u, c) && Get(u, p).Some? && Get(u, p).value.Obj?
    requires Get(c, p).Some? && !Get(c, p).value.Obj?
    ensures Get(Laid(u, c), p) == Get(c, p)
    decreases |p|
  {
    if p != [] {
      OthersStay(u.fields[p[0]], c.fields[p[0]], p[1..]);
    }
  }

  // ---- laws of laying over

  /** Laying the same update again changes nothing. */
  lemma {:induction false} TwiceIsOnce(u: Json, c: Json)
    requires Applies(u, c)
    ensures Applies(u, Laid(u, c)) && Laid(u, Laid(u, c)) == Laid(u, c)
    decreases u
  {
    if c.Obj? {
      var once := Laid(u, c);
      forall k | k in u.fields && u.fields[k].Obj?
        ensures Applies(u.fields[k], once.fields[k])
        ensures Laid(u.fields[k], once.fields[k]) == once.fields[k]
      {
        if k in c.fields {
          assert once.fields[k] == Laid(u.fields[k], c.fields[k]);
          TwiceIsOnce(u.fields[k], c.fields[k]);
        } else {
          assert once.fields[k] == u.fields[k];
          OverItself(u.fields[k]);
        }
      }
      assert Applies(u, once);
      assert Laid(u, once).fields == once.fields;
    }
  }

  lemma {:induction false} OverItself(u: Json)
    requires u.Obj?
    ensures Applies(u, u) && Laid(u, u) == u
  {
    forall k | k in u.fields && u.fields[k].Obj?
      ensures Applies(u.fields[k], u.fields[k]) && Laid(u.fields[k], u.fields[k]) == u.fields[k]
    {
      OverItself(u.fields[k]);
    }
    assert Applies(u, u);
    assert Laid(u, u).fields == u.fields;
  }

  /** Every leaf is an array. */
  predicate NoScalar(u: Json) {
    match u
    case Scalar(_) => false
    case Arr(_) => true
    case Obj(fields) => forall k :: k in fields ==> NoScalar(fields[k])
  }

  /** The update goes through, and no scalar of it gets lost at an array of the configuration. */
  predicate Fits(u: Json, c: Json)
    decreases u
  {
    && Applies(u, c)
    && match c
       case Scalar(_) => true
       case Arr(_) => NoScalar(u)
       case Obj(fields) =>
         forall k :: k in u.fields && k in fields && u.fields[k].Obj? ==> Fits(u.fields[k], fields[k])
  }

  /** Two updates one after the other are one update, the second laid over the first. */
  ghost predicate Composes(u2: Json, u1: Json, c: Json)
    requires u2.Obj? && Applies(u1, c)
  {
    if Applies(u2, Laid(u1, c))
    then Applies(u2, u1) && Applies(Laid(u2, u1), c) && Laid(u2, Laid(u1, c)) == Laid(Laid(u2, u1), c)
    else !(Applies(u2, u1) && Applies(Laid(u2, u1), c))
  }

  lemma {:induction false} FittingUpdatesCompose(u2: Json, u1: Json, c: Json)
    requires u2.Obj? && Fits(u1, c)
    ensures Composes(u2, u1, c)
    decreases u2
  {
    match c
    case Scalar(_) =>
      OverEmpty(u2);
    case Arr(_) =>
      NothingToHit(u2, u1);
    case Obj(fields) =>
      forall k | k in u2.fields && u2.fields[k].Obj? && k in u1.fields && u1.fields[k].Obj? && k in fields
        ensures Composes(u2.fields[k], u1.fields[k], fields[k])
      {
        FittingUpdatesCompose(u2.fields[k], u1.fields[k], fields[k]);
      }
      WholeComposes(u2, u1, c);
  }

  ghost predicate FieldsCompose(u2: Json, u1: Json, c: Json)
    requires u2.Obj? && c.Obj? && Applies(u1, c)
  {
    forall k :: k in u2.fields && u2.fields[k].Obj? && k in u1.fields && u1.fields[k].Obj? && k in c.fields ==>
      Composes(u2.fields[k], u1.fields[k], c.fields[k])
  }

  /** From the fields to the whole. */
  lemma WholeComposes(u2: Json, u1: Json, c: Json)
    requires u2.Obj? && c.Obj? && Applies(u1, c) && FieldsCompose(u2, u1, c)
    ensures Composes(u2, u1, c)
  {
    if Applies(u2, Laid(u1, c)) {
      BothApply(u2, u1, c);
      SameFields(u2, u1, c);
    } else if Applies(u2, u1) && Applies(Laid(u2, u1), c) {
      FirstApplies(u2, u1, c);
    }
  }

  lemma BothApply(u2: Json, u1: Json, c: Json)
    requires u2.Obj? && c.Obj? && Applies(u1, c) && FieldsCompose(u2, u1, c)
    requires Applies(u2, Laid(u1, c))
    ensures Applies(u2, u1) && Applies(Laid(u2, u1), c)
  {
    forall k | k in u2.fields && k in u1.fields && u2.fields[k].Obj? ensures Applies(u2.fields[k], u1.fields[k]) {
      assert Applies(u2.fields[k], Laid(u1, c).fields[k]);
    }
    var both := Laid(u2, u1);
    forall k | k in both.fields && k in c.fields && both.fields[k].Obj? ensures Applies(both.fields[k], c.fields[k]) {
      BothApplyAt(u2, u1, c, k, both.fields[k]);
    }
  }

  lemma BothApplyAt(u2: Json, u1: Json, c: Json, k: string, merged: Json)
    requires u2.Obj? && c.Obj? && Applies(u1, c) && FieldsCompose(u2, u1, c)
    requires Applies(u2, Laid(u1, c)) && Applies(u2, u1)
    requires k in c.fields && k in Laid(u2, u1).fields && merged == Laid(u2, u1).fields[k] && merged.Obj?
    ensures Applies(merged, c.fields[k])
  {
    FieldOfLaid(u2, u1, k);
    FieldOfLaid(u1, c, k);
    if k in u2.fields && u2.fields[k].Obj? {
      FieldOfLaid(u2, Laid(u1, c), k);
      if k in u1.fields && u1.fields[k].Obj? {
        assert Composes(u2.fields[k], u1.fields[k], c.fields[k]);
      }
    }
  }

  /** What laying over leaves at one key. */
  lemma FieldOfLaid(u: Json, c: Json, k: string)
    requires Applies(u, c) && c.Obj? && (k in u.fields || k in c.fields)
    ensures k in Laid(u, c).fields
    ensures k in u.fields && k in c.fields && u.fields[k].Obj? ==>
              && Applies(u.fields[k], c.fields[k])
              && Laid(u, c).fields[k] == Laid(u.fields[k], c.fields[k])
              && (!c.fields[k].Obj? ==> Laid(u, c).fields[k] == c.fields[k])
    ensures k in u.fields && !(k in c.fields && u.fields[k].Obj?) ==> Laid(u, c).fields[k] == u.fields[k]
    ensures k !in u.fields ==> Laid(u, c).fields[k] == c.fields[k]
  {
  }

  lemma FirstApplies(u2: Json, u1: Json, c: Json)
    requires u2.Obj? && c.Obj? && Applies(u1, c) && FieldsCompose(u2, u1, c)
    requires Applies(u2, u1) && Applies(Laid(u2, u1), c)
    ensures Applies(u2, Laid(u1, c))
  {
    var first, both := Laid(u1, c), Laid(u2, u1);
    forall k | k in u2.fields && k in first.fields && u2.fields[k].Obj?
      ensures Applies(u2.fields[k], first.fields[k])
    {
      if k in u1.fields {
        assert Applies(u2.fields[k], u1.fields[k]);
      }
      if k in c.fields {
        assert both.fields[k].Obj? ==> Applies(both.fields[k], c.fields[k]);
      }
    }
  }

  lemma SameFields(u2: Json, u1: Json, c: Json)
    requires u2.Obj? && c.Obj? && Applies(u1, c) && FieldsCompose(u2, u1, c)
    requires Applies(u2, Laid(u1, c)) && Applies(u2, u1) && Applies(Laid(u2, u1), c)
    ensures Laid(u2, Laid(u1, c)) == Laid(Laid(u2, u1), c)
  {
    var first, both := Laid(u1, c), Laid(u2, u1);
    var l, r := Laid(u2, first), Laid(both, c);
    forall k | k in l.fields ensures l.fields[k] == r.fields[k] {
      if k in u2.fields && u2.fields[k].Obj? && k in first.fields {
        assert Applies(u2.fields[k], first.fields[k]);
        assert l.fields[k] == Laid(u2.fields[k], first.fields[k]);
      }
    }
    assert l.fields == r.fields;
  }

  lemma OverEmpty(u: Json)
    requires u.Obj?
    ensures Applies(u, EMPTY) && Laid(u, EMPTY) == u
  {
    assert Laid(u, EMPTY).fields == u.fields;
  }

  /** An update meets no scalar in a tree that has none. */
  lemma {:induction false} NothingToHit(u: Json, c: Json)
    requires u.Obj? && NoScalar(c)
    ensures Applies(u, c)
    decreases u
  {
    if c.Obj? {
      forall k | k in u.fields && k in c.fields && u.fields[k].Obj? ensures Applies(u.fields[k], c.fields[k]) {
        NothingToHit(u.fields[k], c.fields[k]);
      }
    }
  }

  /** An update that hits a scalar of `u`. */
  lemma {:induction false} SomethingHits(u: Json) returns (hit: Json)
    requires !NoScalar(u)
    ensures hit.Obj? && !Applies(hit, u)
  {
    match u
    case Scalar(_) =>
      hit := Obj(map["key" := EMPTY]);
      assert "key" in hit.fields;
    case Obj(fields) =>
      var k :| k in fields && !NoScalar(fields[k]);
      var below := SomethingHits(fields[k]);
      hit := Obj(map[k := below]);
  }

  /** An update that tells the two sides of the law apart when the first update does not fit. */
  lemma {:induction false} MisfitShows(u1: Json, c: Json) returns (u2: Json)
    requires Applies(u1, c) && !Fits(u1, c)
    ensures u2.Obj? && Applies(u2, Laid(u1, c)) && !Applies(u2, u1)
  {
    if c.Arr? {
      u2 := SomethingHits(u1);
    } else {
      var k :| k in u1.fields && k in c.fields && u1.fields[k].Obj? && !Fits(u1.fields[k], c.fields[k]);
      var below := MisfitShows(u1.fields[k], c.fields[k]);
      u2 := Obj(map[k := below]);
    }
  }

  /** Two updates compose, whatever the second, exactly when the first one fits. */
  lemma ComposeIffFits(u1: Json, c: Json)
    requires Applies(u1, c)
    ensures (forall u2: Json :: u2.Obj? ==> Composes(u2, u1, c)) <==> Fits(u1, c)
  {
    if Fits(u1, c) {
      forall u2: Json | u2.Obj? ensures Composes(u2, u1, c) {
        FittingUpdatesCompose(u2, u1, c);
      }
    } else {
      var u2 := MisfitShows(u1, c);
      assert !Composes(u2, u1, c);
    }
  }
}
