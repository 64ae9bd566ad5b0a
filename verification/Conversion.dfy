/** Determining the layout of an object converted to a schema, and copying the values the schema has room for. */
module Conversion {
  import opened Basics
  import opened Schemas
  import opened Layouts
  import opened Correspondence

  datatype Rejection =
    | OtherDimensions
    | FieldsForValue
    | ValueForFields
    | OtherType
    | UnknownFieldOf(name: string)
    | ValuesCutOff

  /** How deep the arrays of a schema are nested. */
  function CountArrays(s: Schema): nat {
    if s.ArraySchema? then 1 + CountArrays(s.element) else 0
  }

  /** The first field of the source that is no field of the target. */
  function FirstUnknown(source: seq<Field>, target: seq<Field>): (unknown: Option<string>)
    ensures unknown.None? <==> forall f <- source :: FieldIndex(target, f.name).Some?
  {
    if source == [] then None
    else if FieldIndex(target, source[0].name).None? then Some(source[0].name)
    else FirstUnknown(source[1..], target)
  }

  /** The layout of a source converted to the schema, or of an undefined object if no source is given. */
  function DetermineLayout(schema: Schema, source: Option<Layout>): (r: Result<Layout, Rejection>)
    requires WellNamed(schema) && (source.Some? ==> Agrees(source.value))
    ensures r.Ok? ==> Agrees(r.value) && r.value.schema == schema
    decreases schema, 1, 0
  {
    if source.Some? && CountArrays(source.value.schema) != CountArrays(schema) then Err(OtherDimensions)
    else match schema
      case ArraySchema(elementSchema, fixed) =>
        (match DetermineLayout(elementSchema, if source.Some? then Some(source.value.element) else None)
         case Err(e) => Err(e)
         case Ok(element) =>
           // the count is the one of the target schema, of the source layout, or zero
           var size := if fixed.Some? then fixed.value else if source.Some? then source.value.count else 0;
           Ok(MakeArray(schema, element, size)))
      case ValueSchema(valueType) =>
        if source.Some? && !source.value.schema.ValueSchema? then Err(FieldsForValue)
        else if source.Some? && source.value.schema.valueType != valueType then Err(OtherType)
        else Ok(MakeSingle(schema))
      case StructSchema(fields) =>
        if source.Some? && source.value.schema.ValueSchema? then Err(ValueForFields)
        else
          var unknown := if source.Some? then FirstUnknown(source.value.schema.fields, fields) else None;
          if unknown.Some? then Err(UnknownFieldOf(unknown.value))
          else match DetermineFields(schema, source, |fields|)
            case Err(e) => Err(e)
            case Ok(layouts) =>
              MakeStructAgrees(schema, layouts);
              Ok(MakeStruct(schema, layouts))
  }

  /** The layout the source has for field k of the schema, if it has that field. */
  function SourceField(schema: Schema, source: Option<Layout>, k: nat): (r: Option<Layout>)
    requires schema.StructSchema? && k < |schema.fields|
    requires source.Some? ==> source.value.StructLayout? && Agrees(source.value)
    ensures r.Some? ==> Agrees(r.value)
  {
    if source.None? then None
    else match FieldIndex(source.value.schema.fields, schema.fields[k].name)
      case None => None
      case Some(j) => Some(source.value.fields[j].layout)
  }

  function DetermineFields(schema: Schema, source: Option<Layout>, n: nat): (r: Result<seq<Layout>, Rejection>)
    requires schema.StructSchema? && WellNamed(schema) && n <= |schema.fields|
    requires source.Some? ==> source.value.StructLayout? && Agrees(source.value)
    ensures r.Ok? ==> |r.value| == n
    ensures r.Ok? ==> forall k | 0 <= k < n :: Agrees(r.value[k]) && r.value[k].schema == schema.fields[k].schema
    decreases schema, 0, n
  {
    if n == 0 then Ok([])
    else match DetermineFields(schema, source, n - 1)
      case Err(e) => Err(e)
      case Ok(layouts) =>
        match DetermineLayout(schema.fields[n - 1].schema, SourceField(schema, source, n - 1))
        case Err(e) => Err(e)
        case Ok(layout) => Ok(layouts + [layout])
  }

  /** The layouts of the fields are determined one by one. */
  lemma {:induction false} FieldsInTurn(schema: Schema, source: Option<Layout>, n: nat)
    requires schema.StructSchema? && WellNamed(schema) && n <= |schema.fields|
    requires source.Some? ==> source.value.StructLayout? && Agrees(source.value)
    ensures
      var r := DetermineFields(schema, source, n);
      && (r.Ok? ==> forall k | 0 <= k < n :: DetermineLayout(schema.fields[k].schema, SourceField(schema, source, k)) == Ok(r.value[k]))
      && (r.Err? ==> exists k | 0 <= k < n :: DetermineLayout(schema.fields[k].schema, SourceField(schema, source, k)).Err?)
  {
    hide Agrees;
    if n > 0 {
      FieldsInTurn(schema, source, n - 1);
    }
  }

  lemma CastableCountsArrays(source: Schema, target: Schema)
    requires Castable(source, target)
    ensures CountArrays(source) == CountArrays(target)
  {
  }

  /** A layout is determined for a source exactly if its schema can be cast to the target schema. */
  lemma {:induction false} LayoutIsDetermined(schema: Schema, source: Option<Layout>)
    requires WellNamed(schema) && (source.Some? ==> Agrees(source.value))
    ensures DetermineLayout(schema, source).Ok? <==> source.None? || Castable(source.value.schema, schema)
    decreases schema, 1
  {
    if source.Some? && CountArrays(source.value.schema) != CountArrays(schema) {
      if Castable(source.value.schema, schema) {
        CastableCountsArrays(source.value.schema, schema);
      }
    } else if schema.ArraySchema? {
      LayoutIsDetermined(schema.element, if source.Some? then Some(source.value.element) else None);
    } else if schema.StructSchema? && (source.None? || source.value.StructLayout?) {
      StructIsDetermined(schema, source);
    }
  }

  lemma {:induction false} StructIsDetermined(schema: Schema, source: Option<Layout>)
    requires WellNamed(schema) && schema.StructSchema?
    requires source.Some? ==> Agrees(source.value) && source.value.StructLayout?
    ensures DetermineLayout(schema, source).Ok? <==> source.None? || Castable(source.value.schema, schema)
    decreases schema, 0
  {
    hide Agrees, Castable;
    if source.Some? {
      PartsAgree(source.value);
    }
    forall k | 0 <= k < |schema.fields|
      ensures DetermineLayout(schema.fields[k].schema, SourceField(schema, source, k)).Ok?
         <==> source.None? || SourceCastable(schema, source.value, k)
    {
      LayoutIsDetermined(schema.fields[k].schema, SourceField(schema, source, k));
    }
    FieldsInTurn(schema, source, |schema.fields|);
    if source.Some? {
      FieldsAreDetermined(schema, source.value);
    }
  }

  lemma MatchedFields(fs: seq<Field>, gs: seq<Field>, j: nat)
    requires DistinctNames(fs) && DistinctNames(gs) && j < |fs|
    ensures FieldIndex(gs, fs[j].name).Some? ==> FieldIndex(fs, gs[FieldIndex(gs, fs[j].name).value].name) == Some(j)
  {
    FieldIndexOfDistinct(fs, j);
  }

  lemma CastFields(schema: Schema, source: Layout)
    requires schema.StructSchema? && WellNamed(schema) && source.StructLayout? && Agrees(source)
    requires Castable(source.schema, schema)
    ensures FirstUnknown(source.schema.fields, schema.fields).None?
    ensures forall k | 0 <= k < |schema.fields| :: SourceCastable(schema, source, k)
  {
    hide Agrees;
    PartsAgree(source);
    var fs, gs := source.schema.fields, schema.fields;
    forall f <- fs ensures FieldIndex(gs, f.name).Some? {
      var j :| 0 <= j < |fs| && fs[j] == f;
    }
    forall k | 0 <= k < |gs| ensures SourceCastable(schema, source, k) {
      MatchedFields(gs, fs, k);
    }
  }

  lemma UncastField(schema: Schema, source: Layout, j: nat)
    requires schema.StructSchema? && WellNamed(schema) && source.StructLayout? && Agrees(source)
    requires source.schema.StructSchema? && j < |source.schema.fields|
    requires FirstUnknown(source.schema.fields, schema.fields).None?
    requires forall k | 0 <= k < |schema.fields| :: SourceCastable(schema, source, k)
    ensures
      var k := FieldIndex(schema.fields, source.schema.fields[j].name);
      k.Some? && Castable(source.schema.fields[j].schema, schema.fields[k.value].schema)
  {
    hide Agrees, Castable;
    PartsAgree(source);
    assert source.schema.fields[j] in source.schema.fields;
    MatchedFields(source.schema.fields, schema.fields, j);
    assert SourceCastable(schema, source, FieldIndex(schema.fields, source.schema.fields[j].name).value);
  }

  lemma UncastFields(schema: Schema, source: Layout)
    requires schema.StructSchema? && WellNamed(schema) && source.StructLayout? && Agrees(source)
    requires FirstUnknown(source.schema.fields, schema.fields).None?
    requires forall k | 0 <= k < |schema.fields| :: SourceCastable(schema, source, k)
    ensures Castable(source.schema, schema)
  {
    hide Agrees, SourceCastable;
    PartsAgree(source);
    forall j | 0 <= j < |source.schema.fields|
      ensures
        var k := FieldIndex(schema.fields, source.schema.fields[j].name);
        k.Some? && Castable(source.schema.fields[j].schema, schema.fields[k.value].schema)
    {
      UncastField(schema, source, j);
    }
  }

  /** Casting the fields of the source is casting the sources of the fields. */
  lemma FieldsAreDetermined(schema: Schema, source: Layout)
    requires schema.StructSchema? && WellNamed(schema) && source.StructLayout? && Agrees(source)
    ensures Castable(source.schema, schema) <==>
      && FirstUnknown(source.schema.fields, schema.fields).None?
      && forall k | 0 <= k < |schema.fields| :: SourceCastable(schema, source, k)
  {
    hide Agrees, Castable, SourceField;
    PartsAgree(source);
    if Castable(source.schema, schema) {
      CastFields(schema, source);
    } else if && FirstUnknown(source.schema.fields, schema.fields).None?
              && forall k | 0 <= k < |schema.fields| :: SourceCastable(schema, source, k) {
      UncastFields(schema, source);
    }
  }

  ghost predicate SourceCastable(schema: Schema, source: Layout, k: nat)
    requires schema.StructSchema? && k < |schema.fields| && source.StructLayout? && Agrees(source)
  {
    var field := SourceField(schema, Some(source), k);
    field.Some? ==> Castable(field.value.schema, schema.fields[k].schema)
  }

  // ---------- copying the values ----------

  predicate InRange(visits: seq<Visit>, sources: nat, targets: nat) {
    forall v <- visits :: v.0 < sources && v.1 < targets
  }

  /** The target after writing the visited values of the source into it, in the order of the visits. */
  function Written(target: seq<Value>, visits: seq<Visit>, source: seq<Value>): (result: seq<Value>)
    requires InRange(visits, |source|, |target|)
    ensures |result| == |target|
  {
    if visits == [] then target
    else Written(target, ButLast(visits), source)[Last(visits).1 := source[Last(visits).0]]
  }

  lemma {:induction false} WrittenInTurn(target: seq<Value>, first: seq<Visit>, second: seq<Visit>, source: seq<Value>)
    requires InRange(first + second, |source|, |target|)
    ensures InRange(first, |source|, |target|) && InRange(second, |source|, |target|)
    ensures Written(target, first + second, source) == Written(Written(target, first, source), second, source)
  {
    assert forall v <- first :: v in first + second;
    assert forall v <- second :: v in first + second;
    if second == [] {
      assert first + second == first;
    } else {
      assert ButLast(first + second) == first + ButLast(second);
      WrittenInTurn(target, first, ButLast(second), source);
    }
  }

  /** The value at a path of the part of the source beginning at the offset. */
  ghost function Held(from: Layout, source: seq<Value>, offset: nat, path: Path): Value
    requires Agrees(from) && Leaf(from, path) && offset + from.size <= |source|
  {
    LeafWithin(from, path);
    source[offset + OffsetOf(from, path)]
  }

  /** No defined value of the source is beyond the sizes of the target. */
  ghost predicate NothingCutOff(from: Layout, source: seq<Value>, offset: nat, to: Layout)
    requires Agrees(from) && offset + from.size <= |source|
  {
    forall path | Leaf(from, path) && !Leaf(to, path) :: Held(from, source, offset, path) == None
  }

  ghost predicate ElementNotCutOff(from: Layout, source: seq<Value>, offset: nat, to: Layout, i: nat)
    requires Convertible(from, to) && from.ArrayLayout? && i < from.count && offset + from.size <= |source|
  {
    ElementSpan(i, from.count, from.element.size);
    if i < to.count then NothingCutOff(from.element, source, offset + i * from.element.size, to.element)
    else Undefined(source, offset + i * from.element.size, from.element.size)
  }

  /** The given number of values from the given position on are undefined. */
  predicate Undefined(source: seq<Value>, offset: nat, length: nat)
    requires offset + length <= |source|
  {
    forall s | offset <= s < offset + length :: source[s] == None
  }

  lemma ElementCut(from: Layout, source: seq<Value>, offset: nat, to: Layout, i: nat)
    requires Convertible(from, to) && from.ArrayLayout? && i < from.count && offset + from.size <= |source|
    requires NothingCutOff(from, source, offset, to)
    ensures ElementNotCutOff(from, source, offset, to, i)
  {
    hide Agrees, Castable, NothingCutOff, Undefined;
    ConvertibleParts(from, to);
    ElementRange(from, offset, |source|, i);
    if i < to.count {
      ElementCutWithin(from, source, offset, to, i);
    } else {
      ElementCutBeyond(from, source, offset, to, i);
    }
  }

  /** An element both have is not cut off if nothing is. */
  lemma ElementCutWithin(from: Layout, source: seq<Value>, offset: nat, to: Layout, i: nat)
    requires Convertible(from, to) && from.ArrayLayout? && i < from.count && offset + from.size <= |source|
    requires NothingCutOff(from, source, offset, to) && i < to.count
    requires offset + i * from.element.size + from.element.size <= |source|
    ensures Agrees(from.element) && NothingCutOff(from.element, source, offset + i * from.element.size, to.element)
  {
    hide Agrees, Castable, Follow;
    ConvertibleParts(from, to);
    var base := offset + i * from.element.size;
    forall rest | Leaf(from.element, rest) && !Leaf(to.element, rest)
      ensures Held(from.element, source, base, rest) == None
    {
      LeafWithin(from.element, rest);
      UnderElement(from, i, rest);
      FollowIndex(to, i, rest);
      assert Held(from.element, source, base, rest) == Held(from, source, offset, [Index(i)] + rest);
    }
  }

  /** An element the target does not have is undefined if nothing is cut off. */
  lemma ElementCutBeyond(from: Layout, source: seq<Value>, offset: nat, to: Layout, i: nat)
    requires Convertible(from, to) && from.ArrayLayout? && i < from.count && offset + from.size <= |source|
    requires NothingCutOff(from, source, offset, to) && i >= to.count
    requires offset + i * from.element.size + from.element.size <= |source|
    ensures Undefined(source, offset + i * from.element.size, from.element.size)
  {
    hide Agrees, Castable, Follow;
    ConvertibleParts(from, to);
    var base := offset + i * from.element.size;
    forall s | base <= s < base + from.element.size ensures source[s] == None {
      var rest := PathAt(from.element, s - base);
      PathAtIsLocated(from.element, s - base);
      UnderElement(from, i, rest);
      FollowIndexOfPath(to, [Index(i)] + rest);
      assert source[s] == Held(from, source, offset, [Index(i)] + rest);
    }
  }

  lemma FollowIndexOfPath(to: Layout, path: Path)
    requires to.ArrayLayout? && path != [] && path[0].Index?
    ensures Leaf(to, path) <==> path[0].index < to.count && Leaf(to.element, path[1..])
  {
  }

  lemma ElementsCut(from: Layout, source: seq<Value>, offset: nat, to: Layout)
    requires Convertible(from, to) && from.ArrayLayout? && offset + from.size <= |source|
    requires forall i | 0 <= i < from.count :: ElementNotCutOff(from, source, offset, to, i)
    ensures NothingCutOff(from, source, offset, to)
  {
    hide Agrees, Castable, Follow;
    ConvertibleParts(from, to);
    forall path: Path | Leaf(from, path) && !Leaf(to, path)
      ensures Held(from, source, offset, path) == None
    {
      LeafWithin(from, path);
      var i := ElementOfPath(from, path);
      LeafWithin(from.element, path[1..]);
      assert ElementNotCutOff(from, source, offset, to, i);
      FollowIndexOfPath(to, path);
    }
  }

  ghost predicate FieldNotCutOff(from: Layout, source: seq<Value>, offset: nat, to: Layout, k: nat)
    requires Convertible(from, to) && from.StructLayout? && k < |from.fields| && offset + from.size <= |source|
  {
    FieldSpan(from, k);
    NothingCutOff(from.fields[k].layout, source, offset + from.fields[k].offset, to.fields[FieldOf(from, to, k)].layout)
  }

  lemma FieldCut(from: Layout, source: seq<Value>, offset: nat, to: Layout, k: nat)
    requires Convertible(from, to) && from.StructLayout? && k < |from.fields| && offset + from.size <= |source|
    requires NothingCutOff(from, source, offset, to)
    ensures FieldNotCutOff(from, source, offset, to, k)
  {
    hide Agrees, Castable, Follow;
    ConvertibleParts(from, to);
    FieldSpan(from, k);
    var j, part := FieldOf(from, to, k), from.fields[k];
    forall rest | Leaf(part.layout, rest) && !Leaf(to.fields[j].layout, rest)
      ensures Held(part.layout, source, offset + part.offset, rest) == None
    {
      LeafWithin(part.layout, rest);
      UnderField(from, k, rest);
      FollowName(to, j, rest);
      assert Held(from, source, offset, [Name(from.schema.fields[k].name)] + rest) == None;
    }
  }

  lemma FieldsCut(from: Layout, source: seq<Value>, offset: nat, to: Layout)
    requires Convertible(from, to) && from.StructLayout? && offset + from.size <= |source|
    requires forall k | 0 <= k < |from.fields| :: FieldNotCutOff(from, source, offset, to, k)
    ensures NothingCutOff(from, source, offset, to)
  {
    hide Agrees, Castable, Follow;
    ConvertibleParts(from, to);
    forall path: Path | Leaf(from, path) && !Leaf(to, path)
      ensures Held(from, source, offset, path) == None
    {
      LeafWithin(from, path);
      var k := FieldOfPath(from, path);
      FieldSpan(from, k);
      LeafWithin(from.fields[k].layout, path[1..]);
      assert FieldNotCutOff(from, source, offset, to, k);
      FollowName(to, FieldOf(from, to, k), path[1..]);
      assert path == [path[0]] + path[1..];
    }
  }

  lemma {:induction false} ElementVisitsInRange(from: Layout, fo: nat, to: Layout, too: nat, n: nat)
    requires Convertible(from, to) && from.ArrayLayout? && n <= from.count && n <= to.count
    ensures InRange(ElementVisits(from, fo, to, too, n), fo + from.size, too + to.size)
  {
    hide Agrees, Castable;
    ConvertibleParts(from, to);
    if n > 0 {
      ElementVisitsInRange(from, fo, to, too, n - 1);
      ElementSpan(n - 1, from.count, from.element.size);
      ElementSpan(n - 1, to.count, to.element.size);
      VisitsInRange(from.element, fo + (n - 1) * from.element.size, to.element, too + (n - 1) * to.element.size);
    }
  }

  lemma FieldVisitInRange(from: Layout, fo: nat, to: Layout, too: nat, k: nat)
    requires Convertible(from, to) && from.StructLayout? && k < |from.fields|
    ensures InRange(FieldVisit(from, fo, to, too, k), fo + from.size, too + to.size)
  {
    hide Agrees, Castable;
    var j := FieldOf(from, to, k);
    FieldSpan(from, k);
    FieldSpan(to, j);
    VisitsInRange(from.fields[k].layout, fo + from.fields[k].offset, to.fields[j].layout, too + to.fields[j].offset);
  }

  lemma {:induction false} FieldVisitsInRange(from: Layout, fo: nat, to: Layout, too: nat, n: nat)
    requires Convertible(from, to) && from.StructLayout? && n <= |from.fields|
    ensures InRange(FieldVisits(from, fo, to, too, n), fo + from.size, too + to.size)
  {
    hide Agrees, Castable;
    if n > 0 {
      FieldVisitsInRange(from, fo, to, too, n - 1);
      FieldVisitInRange(from, fo, to, too, n - 1);
    }
  }

  /** Copies a part of the source into a part of the target; refuses to cut off a defined value. */
  method CopyInto(from: Layout, source: seq<Value>, so: nat, to: Layout, target: array<Value>, too: nat) returns (ok: bool)
    requires Convertible(from, to) && so + from.size <= |source| && too + to.size <= target.Length
    modifies target
    ensures ok <==> NothingCutOff(from, source, so, to)
    ensures InRange(Visits(from, so, to, too), |source|, target.Length)
    ensures ok ==> target[..] == Written(old(target[..]), Visits(from, so, to, too), source)
    decreases from, 2
  {
    VisitsInRange(from, so, to, too);
    if from.ArrayLayout? {
      ok := CopyElements(from, source, so, to, target, too);
    } else if from.SingleLayout? {
      target[too] := source[so];
      assert Visits(from, so, to, too) == [(so, too)];
      assert ButLast([(so, too)]) == [];
      ok := true;
    } else {
      ok := CopyFields(from, source, so, to, target, too);
    }
  }

  /** The visits made for element i: none if the target has no such element. */
  function ElementCopies(from: Layout, so: nat, to: Layout, too: nat, i: nat): seq<Visit>
    requires Convertible(from, to) && from.ArrayLayout?
  {
    if i < to.count then ElementVisit(from, so, to, too, i) else []
  }

  lemma ElementRange(l: Layout, offset: nat, length: nat, i: nat)
    requires Agrees(l) && l.ArrayLayout? && i < l.count && offset + l.size <= length
    ensures offset + i * l.element.size + l.element.size <= length
  {
    ElementSpan(i, l.count, l.element.size);
  }

  lemma NothingWritten(target: seq<Value>, source: seq<Value>)
    ensures InRange([], |source|, |target|) && Written(target, [], source) == target
  {
  }

  method CopyElement(from: Layout, source: seq<Value>, so: nat, to: Layout, target: array<Value>, too: nat, i: nat)
    returns (ok: bool)
    requires Convertible(from, to) && from.ArrayLayout? && so + from.size <= |source| && too + to.size <= target.Length
    requires i < from.count
    modifies target
    ensures ok <==> ElementNotCutOff(from, source, so, to, i)
    ensures InRange(ElementCopies(from, so, to, too, i), |source|, target.Length)
    ensures ok ==> target[..] == Written(old(target[..]), ElementCopies(from, so, to, too, i), source)
    decreases from, 0
  {
    hide Convertible, Agrees, Castable, Visits, NothingCutOff, Undefined, Written, InRange, ElementNotCutOff, ElementVisit;
    ElementParts(from, so, |source|, to, too, target.Length, i);
    ElementIsCutOff(from, source, so, to, i);
    ElementVisitIs(from, so, to, too, i);
    if i < to.count {
      ok := CopyInto(from.element, source, so + i * from.element.size, to.element, target, too + i * to.element.size);
    } else {
      // the target has no such element, so that every value of it must be undefined
      ok := Undefined(source, so + i * from.element.size, from.element.size);
      NothingWritten(target[..], source);
    }
  }

  lemma ElementVisitIs(from: Layout, so: nat, to: Layout, too: nat, i: nat)
    requires Convertible(from, to) && from.ArrayLayout? && to.ArrayLayout? && Convertible(from.element, to.element)
    ensures ElementVisit(from, so, to, too, i)
         == Visits(from.element, so + i * from.element.size, to.element, too + i * to.element.size)
  {
    hide Convertible, Visits;
  }

  /** An element of either object lies within it. */
  lemma ElementParts(from: Layout, so: nat, sourceLength: nat, to: Layout, too: nat, targetLength: nat, i: nat)
    requires Convertible(from, to) && from.ArrayLayout? && so + from.size <= sourceLength && too + to.size <= targetLength
    requires i < from.count
    ensures to.ArrayLayout? && Convertible(from.element, to.element) && Agrees(from.element)
    ensures so + i * from.element.size + from.element.size <= sourceLength
    ensures i < to.count ==> too + i * to.element.size + to.element.size <= targetLength
  {
    hide Agrees, Castable;
    ConvertibleParts(from, to);
    ElementRange(from, so, sourceLength, i);
    if i < to.count {
      ElementRange(to, too, targetLength, i);
    }
  }

  lemma ElementIsCutOff(from: Layout, source: seq<Value>, so: nat, to: Layout, i: nat)
    requires Convertible(from, to) && from.ArrayLayout? && to.ArrayLayout? && i < from.count && so + from.size <= |source|
    requires so + i * from.element.size + from.element.size <= |source| && Agrees(from.element)
    ensures ElementNotCutOff(from, source, so, to, i) <==>
              if i < to.count then NothingCutOff(from.element, source, so + i * from.element.size, to.element)
              else Undefined(source, so + i * from.element.size, from.element.size)
  {
    hide Agrees, Castable, NothingCutOff, Undefined;
  }

  lemma ElementCopiesInRange(from: Layout, source: seq<Value>, so: nat, to: Layout, length: nat, too: nat, n: nat)
    requires Convertible(from, to) && from.ArrayLayout? && so + from.size <= |source| && too + to.size <= length
    requires n <= from.count && n <= to.count
    ensures InRange(ElementVisits(from, so, to, too, n), |source|, length)
  {
    ElementVisitsInRange(from, so, to, too, n);
  }

  lemma CopyOneMoreElement(from: Layout, source: seq<Value>, so: nat, to: Layout, target: seq<Value>, too: nat, i: nat)
    requires Convertible(from, to) && from.ArrayLayout? && so + from.size <= |source| && too + to.size <= |target|
    requires i < from.count
    ensures InRange(ElementVisits(from, so, to, too, Min(i, to.count)), |source|, |target|)
    ensures InRange(ElementVisits(from, so, to, too, Min(i + 1, to.count)), |source|, |target|)
    ensures InRange(ElementCopies(from, so, to, too, i), |source|, |target|)
    ensures Written(Written(target, ElementVisits(from, so, to, too, Min(i, to.count)), source),
                    ElementCopies(from, so, to, too, i), source)
         == Written(target, ElementVisits(from, so, to, too, Min(i + 1, to.count)), source)
  {
    hide Agrees, Castable, ElementVisits, ElementVisit, Written, InRange;
    ConvertibleParts(from, to);
    ElementCopiesInRange(from, source, so, to, |target|, too, Min(i, to.count));
    ElementCopiesInRange(from, source, so, to, |target|, too, Min(i + 1, to.count));
    if i < to.count {
      ElementVisitsStep(from, so, to, too, i);
      WrittenInTurn(target, ElementVisits(from, so, to, too, i), ElementVisit(from, so, to, too, i), source);
    } else {
      NothingWritten(target, source);
      NothingWritten(Written(target, ElementVisits(from, so, to, too, to.count), source), source);
    }
  }

  lemma ElementVisitsStep(from: Layout, so: nat, to: Layout, too: nat, i: nat)
    requires Convertible(from, to) && from.ArrayLayout?
    ensures ElementVisits(from, so, to, too, i + 1) == ElementVisits(from, so, to, too, i) + ElementVisit(from, so, to, too, i)
  {
    hide Agrees, Castable, Visits, ElementVisit;
  }

  method CopyElements(from: Layout, source: seq<Value>, so: nat, to: Layout, target: array<Value>, too: nat) returns (ok: bool)
    requires Convertible(from, to) && from.ArrayLayout? && so + from.size <= |source| && too + to.size <= target.Length
    modifies target
    ensures ok <==> NothingCutOff(from, source, so, to)
    ensures InRange(ElementVisits(from, so, to, too, Min(from.count, to.count)), |source|, target.Length)
    ensures ok ==> target[..] == Written(old(target[..]), ElementVisits(from, so, to, too, Min(from.count, to.count)), source)
    decreases from, 1
  {
    hide Agrees, Castable, Visits, NothingCutOff, ElementNotCutOff, InRange, Written;
    ConvertibleParts(from, to);
    ElementCopiesInRange(from, source, so, to, target.Length, too, 0);
    ElementCopiesInRange(from, source, so, to, target.Length, too, Min(from.count, to.count));
    NothingWritten(target[..], source);
    for i := 0 to from.count
      invariant InRange(ElementVisits(from, so, to, too, Min(i, to.count)), |source|, target.Length)
      invariant target[..] == Written(old(target[..]), ElementVisits(from, so, to, too, Min(i, to.count)), source)
      invariant forall j | 0 <= j < i :: ElementNotCutOff(from, source, so, to, j)
    {
      CopyOneMoreElement(from, source, so, to, old(target[..]), too, i);
      var copied := CopyElement(from, source, so, to, target, too, i);
      if !copied {
        if NothingCutOff(from, source, so, to) {
          ElementCut(from, source, so, to, i);
        }
        return false;
      }
    }
    ElementsCut(from, source, so, to);
    return true;
  }

  method CopyField(from: Layout, source: seq<Value>, so: nat, to: Layout, target: array<Value>, too: nat, k: nat)
    returns (ok: bool)
    requires Convertible(from, to) && from.StructLayout? && so + from.size <= |source| && too + to.size <= target.Length
    requires k < |from.fields|
    modifies target
    ensures ok <==> FieldNotCutOff(from, source, so, to, k)
    ensures InRange(FieldVisit(from, so, to, too, k), |source|, target.Length)
    ensures ok ==> target[..] == Written(old(target[..]), FieldVisit(from, so, to, too, k), source)
    decreases from, 0
  {
    hide Agrees, Castable, Written, Visits;
    var j := FieldOf(from, to, k);
    FieldSpan(from, k);
    FieldSpan(to, j);
    ok := CopyInto(from.fields[k].layout, source, so + from.fields[k].offset,
                   to.fields[j].layout, target, too + to.fields[j].offset);
  }

  lemma CopyOneMoreField(from: Layout, source: seq<Value>, so: nat, to: Layout, target: seq<Value>, too: nat, k: nat)
    requires Convertible(from, to) && from.StructLayout? && so + from.size <= |source| && too + to.size <= |target|
    requires k < |from.fields|
    ensures InRange(FieldVisits(from, so, to, too, k), |source|, |target|)
    ensures InRange(FieldVisits(from, so, to, too, k + 1), |source|, |target|)
    ensures InRange(FieldVisit(from, so, to, too, k), |source|, |target|)
    ensures Written(Written(target, FieldVisits(from, so, to, too, k), source), FieldVisit(from, so, to, too, k), source)
         == Written(target, FieldVisits(from, so, to, too, k + 1), source)
  {
    hide Agrees, Castable, Written;
    FieldVisitsInRange(from, so, to, too, k);
    FieldVisitInRange(from, so, to, too, k);
    var before, added := FieldVisits(from, so, to, too, k), FieldVisit(from, so, to, too, k);
    assert FieldVisits(from, so, to, too, k + 1) == before + added;
    WrittenInTurn(target, before, added, source);
  }

  method CopyFields(from: Layout, source: seq<Value>, so: nat, to: Layout, target: array<Value>, too: nat) returns (ok: bool)
    requires Convertible(from, to) && from.StructLayout? && so + from.size <= |source| && too + to.size <= target.Length
    modifies target
    ensures ok <==> NothingCutOff(from, source, so, to)
    ensures InRange(FieldVisits(from, so, to, too, |from.fields|), |source|, target.Length)
    ensures ok ==> target[..] == Written(old(target[..]), FieldVisits(from, so, to, too, |from.fields|), source)
    decreases from, 1
  {
    hide Agrees, Castable, Visits, NothingCutOff, FieldNotCutOff;
    ConvertibleParts(from, to);
    FieldVisitsInRange(from, so, to, too, |from.fields|);
    for k := 0 to |from.fields|
      invariant InRange(FieldVisits(from, so, to, too, k), |source|, target.Length)
      invariant target[..] == Written(old(target[..]), FieldVisits(from, so, to, too, k), source)
      invariant forall j | 0 <= j < k :: FieldNotCutOff(from, source, so, to, j)
    {
      CopyOneMoreField(from, source, so, to, old(target[..]), too, k);
      var copied := CopyField(from, source, so, to, target, too, k);
      if !copied {
        if NothingCutOff(from, source, so, to) {
          FieldCut(from, source, so, to, k);
        }
        return false;
      }
    }
    FieldsCut(from, source, so, to);
    return true;
  }
}
