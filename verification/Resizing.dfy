/** Giving an array within an object another size, in every element that holds it. */
module Resizing {
  import opened Basics
  import opened Schemas
  import opened Layouts
  import opened Correspondence

  /** The steps from an object to an array, without indices: a field name, or None for an element. */
  type Steps = seq<Option<string>>

  predicate Matches(step: Step, declared: Option<string>) {
    match declared
    case Some(name) => step == Name(name)
    case None => step.Index?
  }

  /** The path leads to the array the steps reach. */
  predicate Addresses(path: Path, steps: Steps) {
    if steps == [] then path == []
    else path != [] && Matches(path[0], steps[0]) && Addresses(path[1..], steps[1..])
  }

  /** The path leads into the array the steps reach. */
  predicate Through(path: Path, steps: Steps)
    ensures Through(path, steps) ==> |path| > |steps|
  {
    if steps == [] then path != []
    else path != [] && Matches(path[0], steps[0]) && Through(path[1..], steps[1..])
  }

  /** The path addresses a part of the object once the array the steps reach has the given size. */
  predicate ReachableAtSize(l: Layout, steps: Steps, size: nat, path: Path) {
    if Through(path, steps) then
      var holder := Follow(l, path[..|steps|]);
      && holder.Ok? && holder.value.layout.ArrayLayout?
      && path[|steps|].Index? && path[|steps|].index < size
      && Follow(holder.value.layout.element, path[|steps| + 1..]).Ok?
    else Follow(l, path).Ok?
  }

  /** Changes the count of one array, and on the way back the layouts and schemas it is nested in. */
  function Rebuild(l: Layout, steps: Steps, size: nat): (r: Result<Layout, Fault>)
    decreases steps
  {
    if steps == [] then
      if !l.ArrayLayout? || !l.schema.ArraySchema? then Err(WrongKind)
      else
        // RebuildSizes: the schema follows only if it stated a size
        var schema := if l.schema.size.Some? then ArraySchema(l.schema.element, Some(size)) else l.schema;
        Ok(MakeArray(schema, l.element, size))
    else if steps[0].None? then
      if !l.ArrayLayout? || !l.schema.ArraySchema? then Err(WrongKind)
      else match Rebuild(l.element, steps[1..], size)
        case Err(e) => Err(e)
        case Ok(element) => Ok(MakeArray(ArraySchema(element.schema, l.schema.size), element, l.count))
    else
      if !l.StructLayout? || !l.schema.StructSchema? then Err(WrongKind)
      else match FieldIndex(l.schema.fields, steps[0].value)
        case None => Err(UnknownField)
        case Some(k) =>
          if k >= |l.fields| then Err(WrongKind)
          else match Rebuild(l.fields[k].layout, steps[1..], size)
            case Err(e) => Err(e)
            case Ok(changed) =>
              var schema := StructSchema(l.schema.fields[k := Field(steps[0].value, changed.schema)]);
              Ok(MakeStruct(schema, LayoutsOf(l.fields)[k := changed]))
  }

  /** Rebuilding keeps the agreement of layout and schema, and changes no more than sizes. */
  lemma {:induction false} RebuildAgrees(l: Layout, steps: Steps, size: nat)
    requires Agrees(l) && Rebuild(l, steps, size).Ok?
    ensures Comparable(l, Rebuild(l, steps, size).value)
    decreases steps
  {
    hide Agrees;
    PartsAgree(l);
    if steps == [] {
      SameShapeReflexive(l.element.schema);
      MakeArrayAgrees(Rebuild(l, steps, size).value.schema, l.element, size);
    } else if steps[0].None? {
      RebuildAgrees(l.element, steps[1..], size);
      RebuiltArrayAgrees(l, Rebuild(l.element, steps[1..], size).value);
    } else {
      var k := FieldIndex(l.schema.fields, steps[0].value).value;
      RebuildAgrees(l.fields[k].layout, steps[1..], size);
      RebuiltStructAgrees(l, k, Rebuild(l.fields[k].layout, steps[1..], size).value);
    }
  }

  lemma RebuiltArrayAgrees(l: Layout, element: Layout)
    requires Agrees(l) && l.ArrayLayout? && Comparable(l.element, element)
    ensures Comparable(l, MakeArray(ArraySchema(element.schema, l.schema.size), element, l.count))
  {
  }

  lemma RebuiltStructAgrees(l: Layout, k: nat, changed: Layout)
    requires Agrees(l) && l.StructLayout? && k < |l.fields| && Comparable(l.fields[k].layout, changed)
    ensures Comparable(l, MakeStruct(StructSchema(l.schema.fields[k := Field(l.schema.fields[k].name, changed.schema)]),
                                     LayoutsOf(l.fields)[k := changed]))
  {
    hide Agrees;
    PartsAgree(l);
    var schema := StructSchema(l.schema.fields[k := Field(l.schema.fields[k].name, changed.schema)]);
    RebuiltStructShape(l.schema, k, changed.schema);
    hide SameShape;
    MakeStructAgrees(schema, LayoutsOf(l.fields)[k := changed]);
  }

  lemma RebuiltStructShape(schema: Schema, k: nat, changed: Schema)
    requires schema.StructSchema? && k < |schema.fields| && SameShape(schema.fields[k].schema, changed)
    ensures SameShape(schema, StructSchema(schema.fields[k := Field(schema.fields[k].name, changed)]))
  {
    forall j | 0 <= j < |schema.fields| ensures SameShape(schema.fields[j].schema, schema.fields[j].schema) {
      SameShapeReflexive(schema.fields[j].schema);
    }
  }

  lemma RebuiltField(l: Layout, steps: Steps, size: nat) returns (k: nat)
    requires Agrees(l) && Rebuild(l, steps, size).Ok? && steps != [] && steps[0].Some?
    ensures l.StructLayout? && k < |l.fields| && Rebuild(l.fields[k].layout, steps[1..], size).Ok?
    ensures l.schema.fields[k].name == steps[0].value
    ensures
      var r := Rebuild(l, steps, size).value;
      && r.StructLayout? && |r.fields| == |l.fields|
      && (forall name :: FieldIndex(r.schema.fields, name) == FieldIndex(l.schema.fields, name))
      && (forall j | 0 <= j < |l.fields| && j != k :: r.fields[j].layout == l.fields[j].layout
                                                     && r.schema.fields[j] == l.schema.fields[j])
      && r.fields[k].layout == Rebuild(l.fields[k].layout, steps[1..], size).value
  {
    hide SameShape;
    var r := Rebuild(l, steps, size).value;
    k := FieldIndex(l.schema.fields, steps[0].value).value;
    RebuildAgrees(l, steps, size);
    forall name ensures FieldIndex(r.schema.fields, name) == FieldIndex(l.schema.fields, name) {
      SameFields(l, r, name);
    }
    PlacedIsContiguous(LayoutsOf(l.fields)[k := Rebuild(l.fields[k].layout, steps[1..], size).value]);
  }

  lemma ReachableStep(l: Layout, steps: Steps, size: nat, path: Path, part: Layout)
    requires steps != [] && path != [] && Matches(path[0], steps[0])
    requires Enter(l, path[0]).Ok? && Enter(l, path[0]).value.layout == part
    ensures ReachableAtSize(l, steps, size, path) == ReachableAtSize(part, steps[1..], size, path[1..])
  {
    if Through(path, steps) {
      assert path[..|steps|][1..] == path[1..][..|steps| - 1];
      assert path[|steps| + 1..] == path[1..][|steps|..];
    }
  }

  /** Exactly the elements of the addressed array below its new size, and every other part, can be reached. */
  lemma {:induction false} RebuildReaches(l: Layout, steps: Steps, size: nat, path: Path)
    requires Agrees(l) && Rebuild(l, steps, size).Ok?
    ensures Follow(Rebuild(l, steps, size).value, path).Ok? <==> ReachableAtSize(l, steps, size, path)
    decreases steps
  {
    hide Agrees;
    PartsAgree(l);
    var r := Rebuild(l, steps, size).value;
    if path != [] && steps != [] {
      if steps[0].None? {
        if path[0].Index? && path[0].index < l.count {
          ReachableStep(l, steps, size, path, l.element);
          RebuildReaches(l.element, steps[1..], size, path[1..]);
        } else if Through(path, steps) {
          assert path[..|steps|][0] == path[0];
        }
      } else {
        var k := RebuiltField(l, steps, size);
        if path[0] == Name(steps[0].value) {
          ReachableStep(l, steps, size, path, l.fields[k].layout);
          RebuildReaches(l.fields[k].layout, steps[1..], size, path[1..]);
        }
      }
    } else if steps == [] && path != [] {
      assert path[..0] == [];
    }
  }

  /** Only the addressed array changes its size and, if it is fixed, the size its schema states. */
  lemma {:induction false} RebuildSizes(l: Layout, steps: Steps, size: nat, path: Path)
    requires Agrees(l) && Rebuild(l, steps, size).Ok?
    requires Follow(l, path).Ok? && Follow(Rebuild(l, steps, size).value, path).Ok?
    ensures
      var before, after := Follow(l, path).value.layout, Follow(Rebuild(l, steps, size).value, path).value.layout;
      && Comparable(before, after)
      && (after.ArrayLayout? ==>
            && after.count == (if Addresses(path, steps) then size else before.count)
            && after.schema.size
               == (if Addresses(path, steps) && before.schema.size.Some? then Some(size) else before.schema.size))
    decreases |path|
  {
    var r := Rebuild(l, steps, size).value;
    RebuildAgrees(l, steps, size);
    if path != [] {
      if steps == [] {
        UnchangedPart(l.element, path[1..]);
      } else if steps[0].None? {
        RebuildSizes(l.element, steps[1..], size, path[1..]);
      } else {
        var k := RebuiltField(l, steps, size);
        if path[0] == Name(steps[0].value) {
          RebuildSizes(l.fields[k].layout, steps[1..], size, path[1..]);
        } else {
          UnchangedPart(Enter(l, path[0]).value.layout, path[1..]);
        }
      }
    }
  }

  lemma UnchangedPart(l: Layout, path: Path)
    requires Agrees(l) && Follow(l, path).Ok?
    ensures Comparable(Follow(l, path).value.layout, Follow(l, path).value.layout)
  {
    FollowWithin(l, path);
    SameShapeReflexive(Follow(l, path).value.layout.schema);
  }

  /** Makes a vector of undefined values and performs the visits on it. */
  method CopyVisited(visits: seq<Visit>, source: seq<Value>, size: nat) returns (target: seq<Value>)
    requires forall v <- visits :: v.0 < |source| && v.1 < size
    requires forall v <- visits, w <- visits :: v.1 == w.1 ==> v == w
    ensures |target| == size
    ensures forall v <- visits :: target[v.1] == source[v.0]
    ensures forall t | 0 <= t < size :: (forall v <- visits :: v.1 != t) ==> target[t] == None
  {
    var values := new Value[size](_ => None);
    for k := 0 to |visits|
      invariant forall v <- visits[..k] :: values[v.1] == source[v.0]
      invariant forall t | 0 <= t < size :: (forall v <- visits[..k] :: v.1 != t) ==> values[t] == None
    {
      assert visits[k] in visits;
      values[visits[k].1] := source[visits[k].0];
      assert visits[..k + 1] == visits[..k] + [visits[k]];
    }
    assert visits[..|visits|] == visits;
    target := values[..];
  }

  /** Resizes one array of an object, wherever it occurs, into a new object. */
  method Resize(o: Object, steps: Steps, size: nat) returns (r: Result<Object, Fault>)
    requires o.Valid()
    ensures r.Err? <==> Rebuild(o.layout, steps, size).Err?
    ensures r.Err? ==> r.error == Rebuild(o.layout, steps, size).error
    ensures r.Ok? ==> r.value.layout == Rebuild(o.layout, steps, size).value && r.value.Valid() && KeepsValues(o, r.value)
  {
    var rebuilt := Rebuild(o.layout, steps, size);
    if rebuilt.Err? {
      return Err(rebuilt.error);
    }
    var layout := rebuilt.value;
    RebuildAgrees(o.layout, steps, size);
    ComparableIsConvertible(o.layout, layout);
    VisitsAreFunctional(o.layout, layout);
    var visits := Correspond(o.layout, 0, layout, 0);
    var values := CopyVisited(visits, o.values, layout.size);
    var resized := Object(layout, values);
    VisitsKeepValues(o, resized);
    return Ok(resized);
  }

  /**
   Resizing means: the parts of the result are those reached at the new size, the values common to both objects
   are kept, every added value is undefined, and only the addressed array changes its size.
   */
  lemma ResizeByPath(o: Object, steps: Steps, size: nat, r: Object, path: Path)
    requires o.Valid() && Rebuild(o.layout, steps, size) == Ok(r.layout) && r.Valid() && KeepsValues(o, r)
    ensures Follow(r.layout, path).Ok? <==> ReachableAtSize(o.layout, steps, size, path)
    ensures r.At(path) == if ReachableAtSize(o.layout, steps, size, path) then o.At(path) else None
    ensures Follow(r.layout, path).Ok? && Follow(o.layout, path).Ok? && Follow(o.layout, path).value.layout.ArrayLayout? ==>
      && Follow(r.layout, path).value.layout.ArrayLayout?
      && Follow(r.layout, path).value.layout.count
         == (if Addresses(path, steps) then size else Follow(o.layout, path).value.layout.count)
  {
    RebuildReaches(o.layout, steps, size, path);
    if Follow(r.layout, path).Ok? && Follow(o.layout, path).Ok? {
      RebuildSizes(o.layout, steps, size, path);
    }
    if Follow(r.layout, path).Ok? && !Leaf(r.layout, path) {
      RebuildAgrees(o.layout, steps, size);
      if Leaf(o.layout, path) {
        RebuildSizes(o.layout, steps, size, path);
      }
    }
  }
}
