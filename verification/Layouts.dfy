/**
 The geometry of a nested value stored as one flat vector of values, and the paths that address its parts.
 An object means a partial map from paths to values; positions are only how it is stored.
 */
module Layouts {
  import opened Basics
  import opened Schemas

  /** Where a field begins within its struct, and how it is laid out. */
  datatype FieldLayout = FieldLayout(offset: nat, layout: Layout)

  /** How the values of a schema are stored; the size counts the positions taken. */
  datatype Layout =
    | SingleLayout(schema: Schema, size: nat)
    | ArrayLayout(schema: Schema, size: nat, element: Layout, count: nat)
    | StructLayout(schema: Schema, size: nat, fields: seq<FieldLayout>)

  datatype Step = Name(name: string) | Index(index: nat)

  type Path = seq<Step>

  datatype Fault = UnknownField | OutOfRange | WrongKind

  /** Where a path leads: to values laid out like this, beginning at the offset. */
  datatype Location = Location(layout: Layout, offset: nat)

  // ---------- construction ----------

  function MakeSingle(schema: Schema): Layout {
    SingleLayout(schema, 1)
  }

  function MakeArray(schema: Schema, element: Layout, count: nat): Layout {
    ArrayLayout(schema, count * element.size, element, count)
  }

  function MakeStruct(schema: Schema, layouts: seq<Layout>): Layout {
    StructLayout(schema, TotalSize(layouts), Placed(layouts))
  }

  function TotalSize(layouts: seq<Layout>): nat {
    if layouts == [] then 0 else TotalSize(ButLast(layouts)) + Last(layouts).size
  }

  /** The fields of a struct, each placed after the fields before it. */
  function Placed(layouts: seq<Layout>): (fields: seq<FieldLayout>)
    ensures |fields| == |layouts|
  {
    if layouts == [] then []
    else Placed(ButLast(layouts)) + [FieldLayout(TotalSize(ButLast(layouts)), Last(layouts))]
  }

  function LayoutsOf(fields: seq<FieldLayout>): (layouts: seq<Layout>)
    ensures |layouts| == |fields| && forall k | 0 <= k < |fields| :: layouts[k] == fields[k].layout
  {
    seq(|fields|, k requires 0 <= k < |fields| => fields[k].layout)
  }

  /** The constructor of a struct layout stores the fields one after the other. */
  method PlaceFields(layouts: seq<Layout>) returns (fields: seq<FieldLayout>, size: nat)
    ensures fields == Placed(layouts) && size == TotalSize(layouts)
  {
    fields, size := [], 0;
    for k := 0 to |layouts|
      invariant fields == Placed(layouts[..k])
      invariant size == TotalSize(layouts[..k])
    {
      fields := fields + [FieldLayout(size, layouts[k])];
      assert ButLast(layouts[..k + 1]) == layouts[..k];
      size := size + layouts[k].size;
    }
    assert layouts[..|layouts|] == layouts;
  }

  /** The number of positions the first n fields occupy. */
  function EndOf(fields: seq<FieldLayout>, n: nat): nat
    requires n <= |fields|
  {
    if n == 0 then 0 else EndOf(fields, n - 1) + fields[n - 1].layout.size
  }

  ghost predicate Contiguous(fields: seq<FieldLayout>, n: nat)
    requires n <= |fields|
  {
    n == 0 || (Contiguous(fields, n - 1) && fields[n - 1].offset == EndOf(fields, n - 1))
  }

  /**
   Layout and schema match at every level: kinds, field counts, and sizes where the schema gives them. Sizes and offsets
   are those of parts without gaps between them.
   */
  ghost predicate Agrees(l: Layout) {
    match l
    case SingleLayout(schema, size) =>
      schema.ValueSchema? && size == 1
    case ArrayLayout(schema, size, element, count) =>
      && schema.ArraySchema? && schema.element == element.schema
      && (schema.size.Some? ==> schema.size.value == count)
      && size == count * element.size
      && Agrees(element)
    case StructLayout(schema, size, fields) =>
      && schema.StructSchema? && DistinctNames(schema.fields) && |schema.fields| == |fields|
      && size == EndOf(fields, |fields|) && Contiguous(fields, |fields|)
      && forall k | 0 <= k < |fields| :: schema.fields[k].schema == fields[k].layout.schema && Agrees(fields[k].layout)
  }

  lemma PartsAgree(l: Layout)
    requires Agrees(l)
    ensures l.SingleLayout? ==> l.schema.ValueSchema? && l.size == 1
    ensures l.ArrayLayout? ==> l.schema.ArraySchema? && l.schema.element == l.element.schema && Agrees(l.element)
    ensures l.StructLayout? ==>
      && l.schema.StructSchema? && DistinctNames(l.schema.fields) && |l.schema.fields| == |l.fields|
      && forall k | 0 <= k < |l.fields| :: l.schema.fields[k].schema == l.fields[k].layout.schema && Agrees(l.fields[k].layout)
  {
  }

  lemma MakeArrayAgrees(schema: Schema, element: Layout, count: nat)
    requires schema.ArraySchema? && schema.element == element.schema && Agrees(element)
    requires schema.size.Some? ==> schema.size.value == count
    ensures Agrees(MakeArray(schema, element, count))
  {
  }

  lemma {:induction false} PrefixEnd(fields: seq<FieldLayout>, more: seq<FieldLayout>, n: nat)
    requires n <= |fields|
    ensures EndOf(fields + more, n) == EndOf(fields, n)
    ensures Contiguous(fields + more, n) == Contiguous(fields, n)
  {
    if n > 0 {
      PrefixEnd(fields, more, n - 1);
    }
  }

  lemma {:induction false} PlacedIsContiguous(layouts: seq<Layout>)
    ensures var fields := Placed(layouts);
            && (forall k | 0 <= k < |layouts| :: fields[k].layout == layouts[k])
            && EndOf(fields, |fields|) == TotalSize(layouts) && Contiguous(fields, |fields|)
  {
    if layouts != [] {
      var before := Placed(ButLast(layouts));
      PlacedIsContiguous(ButLast(layouts));
      PrefixEnd(before, [FieldLayout(TotalSize(ButLast(layouts)), Last(layouts))], |before|);
    }
  }

  lemma MakeStructAgrees(schema: Schema, layouts: seq<Layout>)
    requires schema.StructSchema? && DistinctNames(schema.fields) && |schema.fields| == |layouts|
    requires forall k | 0 <= k < |layouts| :: schema.fields[k].schema == layouts[k].schema && Agrees(layouts[k])
    ensures Agrees(MakeStruct(schema, layouts))
    ensures forall k | 0 <= k < |layouts| :: MakeStruct(schema, layouts).fields[k].layout == layouts[k]
  {
    PlacedIsContiguous(layouts);
  }

  lemma AgreesIsWellNamed(l: Layout)
    requires Agrees(l)
    ensures WellNamed(l.schema)
  {
  }

  lemma {:induction false} EndMonotone(fields: seq<FieldLayout>, k: nat, n: nat)
    requires k < n <= |fields|
    ensures EndOf(fields, k) + fields[k].layout.size <= EndOf(fields, n)
    ensures Contiguous(fields, n) ==> fields[k].offset == EndOf(fields, k)
    decreases n
  {
    if k < n - 1 {
      EndMonotone(fields, k, n - 1);
    }
  }

  /** A field lies within its struct, and before every later field. */
  lemma FieldSpan(l: Layout, k: nat)
    requires l.StructLayout? && Agrees(l) && k < |l.fields|
    ensures l.fields[k].offset == EndOf(l.fields, k)
    ensures l.fields[k].offset + l.fields[k].layout.size <= l.size
    ensures forall j | k < j < |l.fields| :: l.fields[k].offset + l.fields[k].layout.size <= l.fields[j].offset
  {
    EndMonotone(l.fields, k, |l.fields|);
    forall j | k < j < |l.fields| ensures l.fields[k].offset + l.fields[k].layout.size <= l.fields[j].offset {
      EndMonotone(l.fields, k, j);
      EndMonotone(l.fields, j, |l.fields|);
    }
  }

  /** The element following element i begins no later than the array ends. */
  lemma ElementSpan(i: nat, count: nat, span: nat)
    requires i < count
    ensures i * span + span <= count * span
    decreases count
  {
    if i < count - 1 {
      ElementSpan(i, count - 1, span);
    }
  }

  // ---------- paths ----------

  function Shift(r: Result<Location, Fault>, distance: nat): Result<Location, Fault> {
    match r
    case Ok(location) => Ok(Location(location.layout, distance + location.offset))
    case Err(e) => Err(e)
  }

  /** The part one step leads to. */
  function Enter(l: Layout, step: Step): Result<Location, Fault> {
    match step
    case Name(name) =>
      if !l.StructLayout? || !l.schema.StructSchema? then Err(WrongKind)
      else (match FieldIndex(l.schema.fields, name)
            case None => Err(UnknownField)
            case Some(k) =>
              if k >= |l.fields| then Err(WrongKind) else Ok(Location(l.fields[k].layout, l.fields[k].offset)))
    case Index(i) =>
      if !l.ArrayLayout? then Err(WrongKind)
      else if i >= l.count then Err(OutOfRange)
      else Ok(Location(l.element, i * l.element.size))
  }

  function Follow(l: Layout, path: Path): (r: Result<Location, Fault>)
    decreases path
  {
    if path == [] then Ok(Location(l, 0))
    else match Enter(l, path[0])
      case Err(e) => Err(e)
      case Ok(part) => Shift(Follow(part.layout, path[1..]), part.offset)
  }

  /** The path of field k begins with its name. */
  lemma FollowName(l: Layout, k: nat, rest: Path)
    requires Agrees(l) && l.StructLayout? && k < |l.fields|
    ensures Follow(l, [Name(l.schema.fields[k].name)] + rest)
         == Shift(Follow(l.fields[k].layout, rest), l.fields[k].offset)
  {
    FieldIndexOfDistinct(l.schema.fields, k);
    assert ([Name(l.schema.fields[k].name)] + rest)[1..] == rest;
  }

  lemma FollowIndex(l: Layout, i: nat, rest: Path)
    requires l.ArrayLayout? && i < l.count
    ensures Follow(l, [Index(i)] + rest) == Shift(Follow(l.element, rest), i * l.element.size)
  {
    assert ([Index(i)] + rest)[1..] == rest;
  }

  /** The part the steps reach; the elements of an array have one layout, so no indices are needed. */
  ghost function PartAlong(l: Layout, steps: seq<Option<string>>): Option<Layout>
    decreases steps
  {
    if steps == [] then Some(l)
    else if steps[0].None? then
      if l.ArrayLayout? then PartAlong(l.element, steps[1..]) else None
    else if !l.StructLayout? || !l.schema.StructSchema? then None
    else match FieldIndex(l.schema.fields, steps[0].value)
      case None => None
      case Some(k) => if k < |l.fields| then PartAlong(l.fields[k].layout, steps[1..]) else None
  }

  ghost function StepOf(step: Step): Option<string> {
    match step case Index(_) => None case Name(name) => Some(name)
  }

  /** The part at the end of a path is the one its steps reach. */
  lemma {:induction false} FollowsAlong(l: Layout, path: Path)
    requires Agrees(l) && Follow(l, path).Ok?
    ensures PartAlong(l, seq(|path|, i requires 0 <= i < |path| => StepOf(path[i]))) == Some(Follow(l, path).value.layout)
    decreases path
  {
    if path != [] {
      var steps := seq(|path|, i requires 0 <= i < |path| => StepOf(path[i]));
      var later := seq(|path| - 1, i requires 0 <= i < |path| - 1 => StepOf(path[1..][i]));
      assert steps[1..] == later;
      FollowsAlong(Enter(l, path[0]).value.layout, path[1..]);
    }
  }

  /** The path addresses a single value. */
  predicate Leaf(l: Layout, path: Path) {
    var r := Follow(l, path);
    r.Ok? && r.value.layout.SingleLayout?
  }

  function OffsetOf(l: Layout, path: Path): nat
    requires Follow(l, path).Ok?
  {
    Follow(l, path).value.offset
  }

  /** A part lies within the object. */
  lemma FollowWithin(l: Layout, path: Path)
    requires Agrees(l) && Follow(l, path).Ok?
    ensures Agrees(Follow(l, path).value.layout)
    ensures OffsetOf(l, path) + Follow(l, path).value.layout.size <= l.size
    decreases path
  {
    if path != [] {
      match path[0]
      case Name(name) =>
        var k := FieldIndex(l.schema.fields, name).value;
        FollowWithin(l.fields[k].layout, path[1..]);
        FieldSpan(l, k);
      case Index(i) =>
        FollowWithin(l.element, path[1..]);
        ElementSpan(i, l.count, l.element.size);
    }
  }

  lemma LeafWithin(l: Layout, path: Path)
    requires Agrees(l) && Leaf(l, path)
    ensures OffsetOf(l, path) < l.size
  {
    FollowWithin(l, path);
  }

  /** The field, among the first n of a struct, holding a position. */
  function FieldHolding(fields: seq<FieldLayout>, n: nat, position: nat): (k: nat)
    requires n <= |fields| && position < EndOf(fields, n)
    ensures k < n && EndOf(fields, k) <= position < EndOf(fields, k) + fields[k].layout.size
  {
    if EndOf(fields, n - 1) <= position then n - 1 else FieldHolding(fields, n - 1, position)
  }

  lemma DivisionInSpan(position: nat, count: nat, span: nat)
    requires position < count * span
    ensures span > 0 && position / span < count && position % span < span
    ensures (position / span) * span + position % span == position
  {
    if span > 0 && count < position / span {
      ElementSpan(count, position / span, span);
    }
  }

  /** The path of the single value stored at a position. */
  function PathAt(l: Layout, position: nat): Path
    requires Agrees(l) && position < l.size
    decreases l
  {
    match l
    case SingleLayout(_, _) => []
    case ArrayLayout(_, _, element, count) =>
      DivisionInSpan(position, count, element.size);
      [Index(position / element.size)] + PathAt(element, position % element.size)
    case StructLayout(schema, _, fields) =>
      var k := FieldHolding(fields, |fields|, position);
      FieldSpan(l, k);
      [Name(schema.fields[k].name)] + PathAt(fields[k].layout, position - fields[k].offset)
  }

  lemma ElementIsLocated(l: Layout, position: nat, i: nat, rest: nat)
    requires Agrees(l) && l.ArrayLayout? && i < l.count && rest < l.element.size
    requires i * l.element.size + rest == position
    requires Leaf(l.element, PathAt(l.element, rest)) && OffsetOf(l.element, PathAt(l.element, rest)) == rest
    ensures Leaf(l, [Index(i)] + PathAt(l.element, rest))
    ensures OffsetOf(l, [Index(i)] + PathAt(l.element, rest)) == position
  {
    FollowIndex(l, i, PathAt(l.element, rest));
  }

  lemma FieldIsLocated(l: Layout, position: nat, k: nat)
    requires Agrees(l) && l.StructLayout? && position < l.size && k == FieldHolding(l.fields, |l.fields|, position)
    requires l.fields[k].offset <= position < l.fields[k].offset + l.fields[k].layout.size
    requires var rest := position - l.fields[k].offset;
             && Leaf(l.fields[k].layout, PathAt(l.fields[k].layout, rest))
             && OffsetOf(l.fields[k].layout, PathAt(l.fields[k].layout, rest)) == rest
    ensures Leaf(l, PathAt(l, position)) && OffsetOf(l, PathAt(l, position)) == position
  {
    hide Agrees, FieldHolding, PathAt;
    var part := l.fields[k].layout;
    FieldAgrees(l, k);
    assert PathAt(l, position) == [Name(l.schema.fields[k].name)] + PathAt(part, position - l.fields[k].offset) by {
      PathInField(l, position, k);
    }
    FollowName(l, k, PathAt(part, position - l.fields[k].offset));
  }

  lemma FieldAgrees(l: Layout, k: nat)
    requires Agrees(l) && l.StructLayout? && k < |l.fields|
    ensures Agrees(l.fields[k].layout) && l.schema.StructSchema? && |l.schema.fields| == |l.fields|
  {
  }

  lemma PathInField(l: Layout, position: nat, k: nat)
    requires Agrees(l) && l.StructLayout? && position < l.size && k == FieldHolding(l.fields, |l.fields|, position)
    requires k < |l.fields| && l.fields[k].offset <= position < l.fields[k].offset + l.fields[k].layout.size
    requires Agrees(l.fields[k].layout)
    ensures PathAt(l, position)
         == [Name(l.schema.fields[k].name)] + PathAt(l.fields[k].layout, position - l.fields[k].offset)
  {
    hide FieldHolding;
  }

  /** Gap-free: every position is the position of the single value its path addresses. */
  lemma {:induction false} PathAtIsLocated(l: Layout, position: nat)
    requires Agrees(l) && position < l.size
    ensures Leaf(l, PathAt(l, position)) && OffsetOf(l, PathAt(l, position)) == position
    decreases l
  {
    if l.ArrayLayout? {
      DivisionInSpan(position, l.count, l.element.size);
      var i, rest := position / l.element.size, position % l.element.size;
      PathAtIsLocated(l.element, rest);
      ElementIsLocated(l, position, i, rest);
    } else if l.StructLayout? {
      var k := FieldHolding(l.fields, |l.fields|, position);
      FieldSpan(l, k);
      PathAtIsLocated(l.fields[k].layout, position - l.fields[k].offset);
      FieldIsLocated(l, position, k);
    }
  }

  lemma EqualQuotients(i: nat, x: nat, j: nat, y: nat, span: nat)
    requires x < span && y < span && i * span + x == j * span + y
    ensures i == j
  {
    if i < j { ElementSpan(i, j, span); }
    if j < i { ElementSpan(j, i, span); }
  }

  /** Disjoint: single values stored at the same position are addressed by the same path. */
  lemma {:induction false} PathsAreDisjoint(l: Layout, p: Path, q: Path)
    requires Agrees(l) && Leaf(l, p) && Leaf(l, q) && OffsetOf(l, p) == OffsetOf(l, q)
    ensures p == q
    decreases l
  {
    match l
    case SingleLayout(_, _) =>
      assert p == [] == q;
    case ArrayLayout(_, _, element, count) =>
      LeafWithin(element, p[1..]);
      LeafWithin(element, q[1..]);
      EqualQuotients(p[0].index, OffsetOf(element, p[1..]), q[0].index, OffsetOf(element, q[1..]), element.size);
      PathsAreDisjoint(element, p[1..], q[1..]);
      assert p == [p[0]] + p[1..] && q == [q[0]] + q[1..];
    case StructLayout(schema, _, fields) =>
      var j, k := FieldIndex(schema.fields, p[0].name).value, FieldIndex(schema.fields, q[0].name).value;
      LeafWithin(fields[j].layout, p[1..]);
      LeafWithin(fields[k].layout, q[1..]);
      FieldSpan(l, j);
      FieldSpan(l, k);
      assert j == k;
      PathsAreDisjoint(fields[j].layout, p[1..], q[1..]);
      assert p == [p[0]] + p[1..] && q == [q[0]] + q[1..];
  }

  // ---------- objects ----------

  /** An object: its layout and the values of its positions. */
  datatype Object = Object(layout: Layout, values: seq<Value>) {
    ghost predicate Valid() {
      Agrees(layout) && |values| == layout.size
    }

    /** The value a path addresses; a path addressing no single value holds none. */
    ghost function At(path: Path): Value
      requires Valid()
    {
      if Leaf(layout, path) then LeafWithin(layout, path); values[OffsetOf(layout, path)] else None
    }
  }

  /** Objects of one layout are equal exactly if they hold the same value at every path. */
  lemma ExtensionalEquality(a: Object, b: Object)
    requires a.Valid() && b.Valid() && a.layout == b.layout
    requires forall path | Leaf(a.layout, path) :: a.At(path) == b.At(path)
    ensures a == b
  {
    forall t | 0 <= t < a.layout.size ensures a.values[t] == b.values[t] {
      PathAtIsLocated(a.layout, t);
      assert a.At(PathAt(a.layout, t)) == b.At(PathAt(a.layout, t));
    }
  }

  /** Combines the steps of a declared path with the indices its element steps take. */
  function Join(steps: seq<Option<string>>, indices: seq<nat>): Option<Path> {
    if steps == [] then (if indices == [] then Some([]) else None)
    else if steps[0].Some? then
      match Join(steps[1..], indices)
      case None => None
      case Some(path) => Some([Name(steps[0].value)] + path)
    else if indices == [] then None
    else match Join(steps[1..], indices[1..])
      case None => None
      case Some(path) => Some([Index(indices[0])] + path)
  }

  lemma JoinEnds(steps: seq<Option<string>>, indices: seq<nat>)
    requires steps == [] && Join(steps, indices).Some?
    ensures Join(steps, indices).value == []
  {
  }

  lemma JoinStep(steps: seq<Option<string>>, indices: seq<nat>, i: nat, next: nat)
    requires i < |steps| && next <= |indices|
    requires Join(steps[i..], indices[next..]).Some?
    ensures
      var path := Join(steps[i..], indices[next..]).value;
      var taken := if steps[i].Some? then next else next + 1;
      && taken <= |indices|
      && Join(steps[i + 1..], indices[taken..]) == Some(path[1..])
      && path != []
      && path[0] == (if steps[i].Some? then Name(steps[i].value) else Index(indices[next]))
  {
    assert steps[i..][1..] == steps[i + 1..];
    if steps[i].None? {
      assert indices[next..][1..] == indices[next + 1..];
    }
  }

  lemma ShiftTwice(r: Result<Location, Fault>, a: nat, b: nat)
    ensures Shift(Shift(r, a), b) == Shift(r, b + a)
  {
  }

  /** The part of an object that steps and indices address. */
  method Locate(l: Layout, steps: seq<Option<string>>, indices: seq<nat>) returns (r: Result<Location, Fault>)
    requires Agrees(l) && Join(steps, indices).Some?
    ensures r == Follow(l, Join(steps, indices).value)
  {
    hide Agrees, Join, Enter, FieldIndex;
    var current: Layout, offset: nat, next: nat := l, 0, 0;
    ghost var path := Join(steps, indices).value;
    ghost var rest := path;
    assert steps[0..] == steps && indices[0..] == indices;
    for i := 0 to |steps|
      invariant next <= |indices| && Join(steps[i..], indices[next..]) == Some(rest)
      invariant Follow(l, path) == Shift(Follow(current, rest), offset)
    {
      JoinStep(steps, indices, i, next);
      var step: Step;
      if steps[i].Some? {
        step := Name(steps[i].value);
      } else {
        step := Index(indices[next]);
        next := next + 1;
      }
      var part := Enter(current, step);
      if part.Err? {
        return Err(part.error);
      }
      rest := rest[1..];
      ShiftTwice(Follow(part.value.layout, rest), part.value.offset, offset);
      current, offset := part.value.layout, offset + part.value.offset;
    }
    JoinEnds(steps[|steps|..], indices[next..]);
    return Ok(Location(current, offset));
  }
}
