/**
 Schemas as trees: single values, arrays whose size may be left out, and structs of named fields. Two schemas are equal
 if they are the same tree.
 */
module Schemas {
  import opened Basics

  datatype ValueType = BOOLEAN | INTEGER | DECIMAL | STRING

  datatype Field = Field(name: string, schema: Schema)

  datatype Schema =
    | ValueSchema(valueType: ValueType)
    | ArraySchema(element: Schema, size: Option<nat>)
    | StructSchema(fields: seq<Field>)

  ghost predicate DistinctNames(fields: seq<Field>) {
    forall i, j | 0 <= i < j < |fields| :: fields[i].name != fields[j].name
  }

  /** No struct names a field twice; the parser of schemas and the reader of literals both refuse that. */
  ghost predicate WellNamed(s: Schema) {
    match s
    case ValueSchema(_) => true
    case ArraySchema(element, _) => WellNamed(element)
    case StructSchema(fields) =>
      DistinctNames(fields) && forall k | 0 <= k < |fields| :: WellNamed(fields[k].schema)
  }

  /** The position of the first field with the given name. */
  function FieldIndex(fields: seq<Field>, name: string): (k: Option<nat>)
    ensures k.Some? ==> k.value < |fields| && fields[k.value].name == name
    ensures k.None? ==> forall j | 0 <= j < |fields| :: fields[j].name != name
  {
    if fields == [] then None
    else if fields[0].name == name then Some(0)
    else match FieldIndex(fields[1..], name)
      case None => None
      case Some(j) => Some(j + 1)
  }

  lemma FieldIndexOfDistinct(fields: seq<Field>, k: nat)
    requires k < |fields| && DistinctNames(fields)
    ensures FieldIndex(fields, fields[k].name) == Some(k)
  {
  }

  /** The schemas are equal once sizes are ignored. */
  predicate SameShape(a: Schema, b: Schema) {
    match (a, b)
    case (ValueSchema(v), ValueSchema(w)) => v == w
    case (ArraySchema(e, _), ArraySchema(f, _)) => SameShape(e, f)
    case (StructSchema(fs), StructSchema(gs)) =>
      |fs| == |gs| && forall k | 0 <= k < |fs| :: fs[k].name == gs[k].name && SameShape(fs[k].schema, gs[k].schema)
    case _ => false
  }

  lemma SameShapeSymmetric(a: Schema, b: Schema)
    requires SameShape(a, b)
    ensures SameShape(b, a)
  {
  }

  lemma SameShapeTransitive(a: Schema, b: Schema, c: Schema)
    requires SameShape(a, b) && SameShape(b, c)
    ensures SameShape(a, c)
  {
  }

  lemma SameShapeReflexive(s: Schema)
    ensures SameShape(s, s)
  {
  }

  /**
   A value of the schema source can be given the schema target: values of the same type, arrays of as many
   dimensions, and structs whose fields are all fields of the target.
   */
  predicate Castable(source: Schema, target: Schema)
    decreases source
  {
    match (source, target)
    case (ValueSchema(v), ValueSchema(w)) => v == w
    case (ArraySchema(e, _), ArraySchema(f, _)) => Castable(e, f)
    case (StructSchema(fs), StructSchema(gs)) =>
      forall k | 0 <= k < |fs| ::
        var j := FieldIndex(gs, fs[k].name);
        j.Some? && Castable(fs[k].schema, gs[j.value].schema)
    case _ => false
  }

  lemma SameShapeIsCastable(a: Schema, b: Schema)
    requires SameShape(a, b) && WellNamed(b)
    ensures Castable(a, b)
  {
    if a.StructSchema? {
      forall k | 0 <= k < |a.fields| ensures FieldIndex(b.fields, a.fields[k].name) == Some(k) {
        FieldIndexOfDistinct(b.fields, k);
      }
    }
  }

  /** Sizes make no difference to what can be cast. */
  lemma {:induction false} CastableIgnoresSizes(source: Schema, a: Schema, b: Schema)
    requires SameShape(a, b) && Castable(source, a)
    ensures Castable(source, b)
    decreases source
  {
    if source.ArraySchema? {
      CastableIgnoresSizes(source.element, a.element, b.element);
    } else if source.StructSchema? {
      forall k | 0 <= k < |source.fields|
        ensures
          var j := FieldIndex(b.fields, source.fields[k].name);
          j.Some? && Castable(source.fields[k].schema, b.fields[j.value].schema)
      {
        var j := FieldIndex(a.fields, source.fields[k].name).value;
        SameFieldIndex(a.fields, b.fields, source.fields[k].name);
        CastableIgnoresSizes(source.fields[k].schema, a.fields[j].schema, b.fields[j].schema);
      }
    }
  }

  lemma {:induction false} SameFieldIndex(a: seq<Field>, b: seq<Field>, name: string)
    requires |a| == |b| && forall k | 0 <= k < |a| :: a[k].name == b[k].name
    ensures FieldIndex(a, name) == FieldIndex(b, name)
  {
    if a != [] {
      SameFieldIndex(a[1..], b[1..], name);
    }
  }

  /** The target demands nothing that the source schema does not guarantee. */
  predicate Supports(target: Schema, source: Schema) {
    match (target, source)
    case (ValueSchema(v), ValueSchema(w)) => v == w
    case (ArraySchema(e, n), ArraySchema(f, m)) => (n.None? || n == m) && Supports(e, f)
    case (StructSchema(fs), StructSchema(gs)) =>
      |fs| == |gs| && forall k | 0 <= k < |fs| :: fs[k].name == gs[k].name && Supports(fs[k].schema, gs[k].schema)
    case _ => false
  }
}
