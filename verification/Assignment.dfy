/** Converting an object to a schema, and assigning a whole object to an attribute. */
module Assignment {
  import opened Basics
  import opened Schemas
  import opened Layouts
  import opened Correspondence
  import opened Conversion

  /** A path not leaving the fields and the fixed sizes of a schema. */
  predicate Fits(s: Schema, path: Path)
    decreases path
  {
    if path == [] then true
    else match path[0]
      case Index(i) => s.ArraySchema? && (s.size.Some? ==> i < s.size.value) && Fits(s.element, path[1..])
      case Name(name) =>
        && s.StructSchema?
        && var k := FieldIndex(s.fields, name); k.Some? && Fits(s.fields[k.value].schema, path[1..])
  }

  /** Every defined value of the object is at a path of the schema. */
  ghost predicate AllFit(s: Schema, o: Object)
    requires o.Valid()
  {
    forall path: Path | o.At(path).Some? :: Fits(s, path)
  }

  /** Both objects mean the same: they hold the same values at the same paths. */
  ghost predicate SameValues(o: Object, r: Object)
    requires o.Valid() && r.Valid()
  {
    forall path: Path :: r.At(path) == o.At(path)
  }

  lemma DeterminedIsConvertible(schema: Schema, from: Layout)
    requires WellNamed(schema) && Agrees(from) && DetermineLayout(schema, Some(from)).Ok?
    ensures Convertible(from, DetermineLayout(schema, Some(from)).value)
  {
    LayoutIsDetermined(schema, Some(from));
  }

  /** A field of the determined layout is laid out for the field of the source of the same name. */
  lemma DeterminedField(schema: Schema, from: Layout, j: nat)
    requires WellNamed(schema) && schema.StructSchema? && Agrees(from) && from.StructLayout? && j < |schema.fields|
    requires DetermineLayout(schema, Some(from)).Ok?
    ensures
      var to := DetermineLayout(schema, Some(from)).value;
      && to.StructLayout? && |to.fields| == |schema.fields|
      && DetermineLayout(schema.fields[j].schema, SourceField(schema, Some(from), j)) == Ok(to.fields[j].layout)
  {
    hide Agrees;
    var layouts := DetermineFields(schema, Some(from), |schema.fields|).value;
    FieldsInTurn(schema, Some(from), |schema.fields|);
    MakeStructAgrees(schema, layouts);
  }

  /** A value of the source has a place in the determined layout exactly if its path fits the schema. */
  lemma {:induction false} LeafIsKept(schema: Schema, from: Layout, path: Path)
    requires WellNamed(schema) && Agrees(from) && DetermineLayout(schema, Some(from)).Ok? && Leaf(from, path)
    ensures Leaf(DetermineLayout(schema, Some(from)).value, path) <==> Fits(schema, path)
    decreases path, 1
  {
    hide Agrees, Castable;
    PartsAgree(from);
    DeterminedIsConvertible(schema, from);
    ConvertibleParts(from, DetermineLayout(schema, Some(from)).value);
    if from.ArrayLayout? {
      LeafIsKept(schema.element, from.element, path[1..]);
    } else if from.StructLayout? {
      FieldLeafIsKept(schema, from, path);
    }
  }

  lemma {:induction false} FieldLeafIsKept(schema: Schema, from: Layout, path: Path)
    requires WellNamed(schema) && Agrees(from) && DetermineLayout(schema, Some(from)).Ok? && Leaf(from, path)
    requires from.StructLayout? && schema.StructSchema?
    ensures Leaf(DetermineLayout(schema, Some(from)).value, path) <==> Fits(schema, path)
    decreases path, 0
  {
    hide Agrees, Castable;
    PartsAgree(from);
    var to := DetermineLayout(schema, Some(from)).value;
    DeterminedIsConvertible(schema, from);
    var k := FieldOfPath(from, path);
    var j := FieldOf(from, to, k);
    DeterminedField(schema, from, j);
    LeafIsKept(schema.fields[j].schema, from.fields[k].layout, path[1..]);
    FollowName(to, j, path[1..]);
    assert path == [path[0]] + path[1..];
  }

  /** Nothing defined is cut off exactly if every defined value fits the schema. */
  lemma FittingIsNotCutOff(schema: Schema, o: Object)
    requires WellNamed(schema) && o.Valid() && DetermineLayout(schema, Some(o.layout)).Ok?
    ensures NothingCutOff(o.layout, o.values, 0, DetermineLayout(schema, Some(o.layout)).value) <==> AllFit(schema, o)
  {
    hide Agrees, Castable, DetermineLayout, Fits;
    var to := DetermineLayout(schema, Some(o.layout)).value;
    forall path: Path | Leaf(o.layout, path)
      ensures Leaf(to, path) <==> Fits(schema, path)
      ensures Held(o.layout, o.values, 0, path) == o.At(path)
    {
      LeafIsKept(schema, o.layout, path);
      LeafWithin(o.layout, path);
    }
  }

  lemma {:induction false} WrittenHolds(target: seq<Value>, visits: seq<Visit>, source: seq<Value>)
    requires InRange(visits, |source|, |target|)
    requires forall v <- visits, w <- visits :: v.1 == w.1 ==> v == w
    ensures forall v <- visits :: Written(target, visits, source)[v.1] == source[v.0]
    ensures forall t | 0 <= t < |target| ::
              (forall v <- visits :: v.1 != t) ==> Written(target, visits, source)[t] == target[t]
  {
    if visits != [] {
      WrittenHolds(target, ButLast(visits), source);
      assert visits == ButLast(visits) + [Last(visits)];
    }
  }

  /**
   Converts an object to a schema. It succeeds exactly if the schemas can be cast and every defined value fits, and
   then nothing is lost: the result holds exactly the values of the source, at the same paths.
   */
  method Convert(schema: Schema, o: Object) returns (r: Result<Object, Rejection>)
    requires WellNamed(schema) && o.Valid()
    ensures r.Ok? <==> Castable(o.layout.schema, schema) && AllFit(schema, o)
    ensures r.Ok? ==> DetermineLayout(schema, Some(o.layout)) == Ok(r.value.layout)
    ensures r.Ok? ==> r.value.Valid() && r.value.layout.schema == schema && SameValues(o, r.value)
  {
    hide Agrees, Castable;
    LayoutIsDetermined(schema, Some(o.layout));
    var determined := DetermineLayout(schema, Some(o.layout));
    if determined.Err? {
      return Err(determined.error);
    }
    var layout := determined.value;
    DeterminedIsConvertible(schema, o.layout);
    FittingIsNotCutOff(schema, o);
    var values := new Value[layout.size](_ => None);
    ghost var blank := values[..];
    var copied := CopyInto(o.layout, o.values, 0, layout, values, 0);
    if !copied {
      return Err(ValuesCutOff);
    }
    var converted := Object(layout, values[..]);
    NothingIsLost(o, blank, converted);
    return Ok(converted);
  }

  lemma NothingIsLost(o: Object, blank: seq<Value>, r: Object)
    requires o.Valid() && r.Valid() && Convertible(o.layout, r.layout)
    requires NothingCutOff(o.layout, o.values, 0, r.layout)
    requires InRange(Visits(o.layout, 0, r.layout, 0), |o.values|, r.layout.size)
    requires |blank| == r.layout.size && forall t | 0 <= t < |blank| :: blank[t] == None
    requires r.values == Written(blank, Visits(o.layout, 0, r.layout, 0), o.values)
    ensures SameValues(o, r)
  {
    hide Agrees, Castable;
    VisitsAreFunctional(o.layout, r.layout);
    WrittenHolds(blank, Visits(o.layout, 0, r.layout, 0), o.values);
    VisitsKeepValues(o, r);
    forall path: Path ensures r.At(path) == o.At(path) {
      if Leaf(o.layout, path) && !Leaf(r.layout, path) {
        LeafWithin(o.layout, path);
        assert Held(o.layout, o.values, 0, path) == o.At(path);
      }
    }
  }

  // ---------- supported objects need no conversion ----------

  /** Both layouts have the same size and place the value of the path at the same position. */
  ghost predicate SamePlace(a: Layout, b: Layout, path: Path) {
    && a.size == b.size
    && (Leaf(a, path) <==> Leaf(b, path))
    && (Leaf(a, path) ==> OffsetOf(a, path) == OffsetOf(b, path))
  }

  lemma SupportsIsCastable(target: Schema, source: Schema)
    requires Supports(target, source) && WellNamed(target)
    ensures Castable(source, target)
  {
    if target.StructSchema? {
      forall k | 0 <= k < |source.fields| ensures FieldIndex(target.fields, source.fields[k].name) == Some(k) {
        FieldIndexOfDistinct(target.fields, k);
      }
    }
  }

  /** The determined layout of a supported source has the geometry of the source. */
  lemma {:induction false} SupportedGeometry(schema: Schema, from: Layout, path: Path)
    requires WellNamed(schema) && Agrees(from) && Supports(schema, from.schema)
    ensures DetermineLayout(schema, Some(from)).Ok?
    ensures SamePlace(from, DetermineLayout(schema, Some(from)).value, path)
    decreases schema, 1
  {
    hide Castable;
    SupportsIsCastable(schema, from.schema);
    LayoutIsDetermined(schema, Some(from));
    if schema.ArraySchema? {
      SupportedGeometry(schema.element, from.element, if path == [] then [] else path[1..]);
      SameElementSamePlace(from, DetermineLayout(schema, Some(from)).value, path);
    } else if schema.StructSchema? {
      SupportedStruct(schema, from, path);
    }
  }

  lemma SameElementSamePlace(from: Layout, to: Layout, path: Path)
    requires Agrees(from) && Agrees(to) && from.ArrayLayout? && to.ArrayLayout? && from.count == to.count
    requires SamePlace(from.element, to.element, if path == [] then [] else path[1..])
    ensures SamePlace(from, to, path)
  {
  }

  lemma {:induction false} SupportedStruct(schema: Schema, from: Layout, path: Path)
    requires WellNamed(schema) && Agrees(from) && Supports(schema, from.schema) && schema.StructSchema?
    requires DetermineLayout(schema, Some(from)).Ok?
    ensures SamePlace(from, DetermineLayout(schema, Some(from)).value, path)
    decreases schema, 0
  {
    hide Agrees, Castable, SamePlace;
    PartsAgree(from);
    var to := DetermineLayout(schema, Some(from)).value;
    PartsAgree(to);
    var rest := if path == [] then [] else path[1..];
    forall k | 0 <= k < |schema.fields| ensures SamePlace(from.fields[k].layout, to.fields[k].layout, rest) {
      FieldIndexOfDistinct(from.schema.fields, k);
      assert SourceField(schema, Some(from), k) == Some(from.fields[k].layout);
      DeterminedField(schema, from, k);
      SupportedGeometry(schema.fields[k].schema, from.fields[k].layout, rest);
    }
    SameFieldsSamePlace(from, to, path);
  }

  lemma SameFieldsSamePlace(from: Layout, to: Layout, path: Path)
    requires Agrees(from) && Agrees(to) && from.StructLayout? && to.StructLayout? && |from.fields| == |to.fields|
    requires forall k | 0 <= k < |from.fields| ::
               && from.schema.fields[k].name == to.schema.fields[k].name
               && SamePlace(from.fields[k].layout, to.fields[k].layout, if path == [] then [] else path[1..])
    ensures SamePlace(from, to, path)
  {
    SameEnds(from.fields, to.fields, |to.fields|);
    if Leaf(from, path) {
      var k := FieldOfPath(from, path);
      FieldOfSameName(from, to, path, k);
    } else if Leaf(to, path) {
      var k := FieldOfPath(to, path);
      FieldOfSameName(to, from, path, k);
    }
  }

  lemma FieldOfSameName(from: Layout, to: Layout, path: Path, k: nat)
    requires Agrees(from) && Agrees(to) && from.StructLayout? && to.StructLayout? && |from.fields| == |to.fields|
    requires forall j | 0 <= j < |from.fields| :: from.fields[j].layout.size == to.fields[j].layout.size
    requires k < |from.fields| && from.schema.fields[k].name == to.schema.fields[k].name
    requires path != [] && path[0] == Name(from.schema.fields[k].name)
    requires Leaf(from.fields[k].layout, path[1..]) && SamePlace(from.fields[k].layout, to.fields[k].layout, path[1..])
    ensures Leaf(from, path) && Leaf(to, path) && OffsetOf(from, path) == OffsetOf(to, path)
  {
    FieldSpan(from, k);
    FieldSpan(to, k);
    SameEnds(from.fields, to.fields, k);
    FollowName(from, k, path[1..]);
    FollowName(to, k, path[1..]);
    assert path == [path[0]] + path[1..];
  }

  lemma {:induction false} SameEnds(fs: seq<FieldLayout>, gs: seq<FieldLayout>, n: nat)
    requires n <= |fs| == |gs| && forall k | 0 <= k < n :: fs[k].layout.size == gs[k].layout.size
    ensures EndOf(fs, n) == EndOf(gs, n)
  {
    if n > 0 {
      SameEnds(fs, gs, n - 1);
    }
  }

  /** Where supports holds, conversion succeeds and is the identity on values, so that skipping it is sound. */
  lemma SupportedConversionIsIdentity(schema: Schema, o: Object, r: Object)
    requires WellNamed(schema) && o.Valid() && Supports(schema, o.layout.schema)
    ensures Castable(o.layout.schema, schema) && AllFit(schema, o)
    ensures DetermineLayout(schema, Some(o.layout)) == Ok(r.layout) && r.Valid() && SameValues(o, r) ==> r.values == o.values
  {
    hide Agrees, Castable, Supports;
    SupportsIsCastable(schema, o.layout.schema);
    SupportedGeometry(schema, o.layout, []);
    var to := DetermineLayout(schema, Some(o.layout)).value;
    forall path: Path | o.At(path).Some? ensures Fits(schema, path) {
      SupportedGeometry(schema, o.layout, path);
      LeafIsKept(schema, o.layout, path);
    }
    if to == r.layout && r.Valid() && SameValues(o, r) {
      forall t | 0 <= t < |o.values| ensures r.values[t] == o.values[t] {
        var path := PathAt(o.layout, t);
        PathAtIsLocated(o.layout, t);
        SupportedGeometry(schema, o.layout, path);
        assert r.At(path) == o.At(path);
      }
    }
  }

  // ---------- whole assignment ----------

  /** The schema an assigned value is converted to: sizes the effective schema fixes are taken from the current object. */
  function DetermineTargetSchema(effective: Schema, current: Layout): (target: Schema)
    requires Agrees(current) && SameShape(effective, current.schema)
    ensures SameShape(effective, target)
    decreases effective, 1
  {
    match effective
    case ArraySchema(element, size) =>
      ArraySchema(DetermineTargetSchema(element, current.element), if size.Some? then Some(current.count) else None)
    case ValueSchema(_) => effective
    case StructSchema(fields) => StructSchema(DetermineTargetFields(effective, current, |fields|))
  }

  function DetermineTargetFields(effective: Schema, current: Layout, n: nat): (fields: seq<Field>)
    requires Agrees(current) && SameShape(effective, current.schema) && effective.StructSchema? && n <= |effective.fields|
    ensures |fields| == n
    ensures forall k | 0 <= k < n ::
              && fields[k].name == effective.fields[k].name
              && fields[k].schema == DetermineTargetSchema(effective.fields[k].schema, current.fields[k].layout)
    decreases effective, 0, n
  {
    if n == 0 then []
    else
      DetermineTargetFields(effective, current, n - 1)
      + [Field(effective.fields[n - 1].name,
               DetermineTargetSchema(effective.fields[n - 1].schema, current.fields[n - 1].layout))]
  }

  /** A path not leaving the fields of the effective schema, nor the current object in arrays with a size. */
  ghost predicate WithinCurrent(effective: Schema, current: Layout, path: Path)
    requires Agrees(current) && SameShape(effective, current.schema)
    decreases path
  {
    path == []
    || match path[0]
       case Index(i) =>
         && effective.ArraySchema? && (effective.size.Some? ==> i < current.count)
         && WithinCurrent(effective.element, current.element, path[1..])
       case Name(name) =>
         && effective.StructSchema?
         && var k := FieldIndex(effective.fields, name);
            k.Some? && WithinCurrent(effective.fields[k.value].schema, current.fields[k.value].layout, path[1..])
  }

  /** The target fixes exactly the current sizes of the arrays that have a size. */
  lemma {:induction false} FitsTarget(effective: Schema, current: Layout, path: Path)
    requires Agrees(current) && SameShape(effective, current.schema)
    ensures Fits(DetermineTargetSchema(effective, current), path) <==> WithinCurrent(effective, current, path)
    decreases path
  {
    var target := DetermineTargetSchema(effective, current);
    if path != [] && path[0].Index? && effective.ArraySchema? {
      FitsTarget(effective.element, current.element, path[1..]);
    } else if path != [] && path[0].Name? && effective.StructSchema? {
      SameFieldIndex(effective.fields, target.fields, path[0].name);
      var k := FieldIndex(effective.fields, path[0].name);
      if k.Some? {
        FitsTarget(effective.fields[k.value].schema, current.fields[k.value].layout, path[1..]);
      }
    }
  }

  /** Along every path, an array with a size in the effective schema is as long as its counterpart in the current object. */
  ghost predicate KeepsFixedSizes(effective: Schema, current: Layout, l: Layout)
    requires Agrees(current) && Agrees(l)
    decreases effective
  {
    match effective
    case ValueSchema(_) => l.SingleLayout?
    case ArraySchema(element, size) =>
      && current.ArrayLayout? && l.ArrayLayout? && (size.Some? ==> l.count == current.count)
      && KeepsFixedSizes(element, current.element, l.element)
    case StructSchema(fields) =>
      && current.StructLayout? && l.StructLayout? && |l.fields| == |current.fields| == |fields|
      && forall k | 0 <= k < |fields| ::
           && l.schema.fields[k].name == fields[k].name
           && KeepsFixedSizes(fields[k].schema, current.fields[k].layout, l.fields[k].layout)
  }

  lemma SameShapeIsWellNamed(a: Schema, b: Schema)
    requires SameShape(a, b) && WellNamed(a)
    ensures WellNamed(b)
  {
  }

  /** An object whose schema the target supports keeps the fixed sizes. */
  lemma {:induction false} SupportedKeepsSizes(effective: Schema, current: Layout, l: Layout)
    requires Agrees(current) && SameShape(effective, current.schema) && Agrees(l)
    requires Supports(DetermineTargetSchema(effective, current), l.schema)
    ensures KeepsFixedSizes(effective, current, l)
    decreases effective
  {
    if effective.ArraySchema? {
      SupportedKeepsSizes(effective.element, current.element, l.element);
    } else if effective.StructSchema? {
      forall k | 0 <= k < |effective.fields|
        ensures KeepsFixedSizes(effective.fields[k].schema, current.fields[k].layout, l.fields[k].layout)
      {
        SupportedKeepsSizes(effective.fields[k].schema, current.fields[k].layout, l.fields[k].layout);
      }
    }
  }

  lemma SupportsReflexive(s: Schema)
    ensures Supports(s, s)
  {
  }

  lemma TargetIsExact(effective: Schema, current: Layout, value: Object)
    requires Agrees(current) && SameShape(effective, current.schema) && value.Valid()
    ensures
      var target := DetermineTargetSchema(effective, current);
      && (Castable(value.layout.schema, target) <==> Castable(value.layout.schema, effective))
      && (AllFit(target, value) <==> forall path: Path | value.At(path).Some? :: WithinCurrent(effective, current, path))
  {
    hide Agrees, Castable, Supports, Fits, WithinCurrent, SameShape;
    var target := DetermineTargetSchema(effective, current);
    SameShapeSymmetric(effective, target);
    if Castable(value.layout.schema, target) {
      CastableIgnoresSizes(value.layout.schema, target, effective);
    }
    if Castable(value.layout.schema, effective) {
      CastableIgnoresSizes(value.layout.schema, effective, target);
    }
    forall path: Path ensures Fits(target, path) <==> WithinCurrent(effective, current, path) {
      FitsTarget(effective, current, path);
    }
  }

  /**
   Replaces the current object of an attribute by a value. Where this succeeds, the new object means what the value
   means, and no array with a fixed size has become longer or shorter.
   */
  method Assigned(effective: Schema, current: Object, value: Object) returns (r: Result<Object, Rejection>)
    requires WellNamed(effective) && current.Valid() && value.Valid() && SameShape(effective, current.layout.schema)
    ensures r.Ok? <==>
      && Castable(value.layout.schema, effective)
      && forall path: Path | value.At(path).Some? :: WithinCurrent(effective, current.layout, path)
    ensures r.Ok? ==>
      && r.value.Valid() && SameValues(value, r.value)
      && KeepsFixedSizes(effective, current.layout, r.value.layout)
  {
    hide Agrees, Castable, Supports, Fits, WithinCurrent, SameShape;
    var target := DetermineTargetSchema(effective, current.layout);
    SameShapeIsWellNamed(effective, target);
    TargetIsExact(effective, current.layout, value);
    if Supports(target, value.layout.schema) {
      SupportedConversionIsIdentity(target, value, value);
      SupportedKeepsSizes(effective, current.layout, value.layout);
      return Ok(value);
    }
    r := Convert(target, value);
    if r.Ok? {
      SupportsReflexive(target);
      SupportedKeepsSizes(effective, current.layout, r.value.layout);
    }
  }
}
