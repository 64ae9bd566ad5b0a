/** Merging the statuses of the tokens that meet at a join: attributes, and objects element by element. */
module Merging {
  import opened Basics
  import opened Schemas
  import opened Layouts
  import opened Correspondence

  // ---------- the value a number of holders agree on ----------

  /** v is the one value all the holders defining one agree on, and undefined if there is no such value. */
  ghost predicate Consensus(values: seq<Value>, v: Value) {
    match v
    case Some(x) => Some(x) in values && forall w <- values :: w == None || w == Some(x)
    case None => (forall w <- values :: w == None) || Conflicting(values)
  }

  ghost predicate Conflicting(values: seq<Value>) {
    exists v <- values, w <- values :: v.Some? && w.Some? && v != w
  }

  lemma ConsensusIsUnique(values: seq<Value>, v: Value, others: seq<Value>, w: Value)
    requires Consensus(values, v) && Consensus(others, w)
    requires forall x :: x in values <==> x in others
    ensures v == w
  {
    if v.None? && w.Some? && Conflicting(values) {
      assert false;
    }
  }

  /** What merging keeps of one position: its value so far, and whether a conflict has made it undefined for good. */
  datatype Cell = Cell(merged: Value, conflict: bool)

  function MergeInto(cell: Cell, value: Value): Cell {
    if cell.conflict then cell
    else if cell.merged.None? then Cell(value, false)
    else if value.Some? && value != cell.merged then Cell(None, true)
    else cell
  }

  function MergeAll(values: seq<Value>): Cell {
    if values == [] then Cell(None, false) else MergeInto(MergeAll(ButLast(values)), Last(values))
  }

  lemma {:induction false} MergeAllIsConsensus(values: seq<Value>)
    ensures Consensus(values, MergeAll(values).merged)
    ensures MergeAll(values).conflict <==> Conflicting(values)
  {
    if values != [] {
      var before := ButLast(values);
      MergeAllIsConsensus(before);
      assert values == before + [Last(values)];
      assert forall w <- values :: w in before || w == Last(values);
      if Conflicting(before) {
        var v, w :| v in before && w in before && v.Some? && w.Some? && v != w;
        assert v in values && w in values;
      }
    }
  }

  /** A single attribute: the loop over the statuses with its break on conflict. */
  method MergeAttribute(values: seq<Value>) returns (merged: Value)
    ensures Consensus(values, merged)
  {
    merged := None;
    for j := 0 to |values|
      invariant MergeAll(values[..j]) == Cell(merged, false)
    {
      assert ButLast(values[..j + 1]) == values[..j];
      if merged.None? {
        merged := values[j];
      } else if values[j].Some? && values[j] != merged {
        merged := None;
        ConflictRemains(values, j + 1);
        break;
      }
    }
    MergeAllIsConsensus(values);
    assert values[..|values|] == values;
  }

  lemma {:induction false} ConflictRemains(values: seq<Value>, j: nat)
    requires j <= |values| && MergeAll(values[..j]).conflict && MergeAll(values[..j]).merged.None?
    ensures MergeAll(values).merged.None?
    decreases |values| - j
  {
    if j < |values| {
      assert ButLast(values[..j + 1]) == values[..j];
      ConflictRemains(values, j + 1);
    } else {
      assert values[..j] == values;
    }
  }

  // ---------- the layout of the merge ----------

  /** The least layout with room for both; a size is fixed where neither layout objects. */
  function Widen(l: Layout, other: Layout): Layout
    requires Comparable(l, other)
    decreases l
  {
    if l == other then l
    else match l
      case SingleLayout(_, _) => l
      case ArrayLayout(schema, _, element, count) =>
        var widened := Widen(element, other.element);
        var fixed := if schema.size.Some? && schema.size == other.schema.size then schema.size else None;
        MakeArray(ArraySchema(widened.schema, fixed), widened, Max(count, other.count))
      case StructLayout(schema, _, fields) =>
        var widened := WidenedFields(l, other);
        MakeStruct(StructSchema(seq(|fields|, k requires 0 <= k < |fields| => Field(schema.fields[k].name, widened[k].schema))),
                   widened)
  }

  function WidenedFields(l: Layout, other: Layout): (widened: seq<Layout>)
    requires Comparable(l, other) && l.StructLayout?
    ensures |widened| == |l.fields|
    decreases l, 0
  {
    seq(|l.fields|, k requires 0 <= k < |l.fields| => Widen(l.fields[k].layout, other.fields[k].layout))
  }

  /**
   Every array of a has at most the size it has in b, and every array b fixes a fixes alike. The merge of layouts
   is their least upper bound in this order.
   */
  ghost predicate Below(a: Layout, b: Layout)
    requires Comparable(a, b)
    decreases a
  {
    match a
    case SingleLayout(_, _) => true
    case ArrayLayout(_, _, element, count) =>
      count <= b.count && (b.schema.size.Some? ==> a.schema.size == b.schema.size) && Below(element, b.element)
    case StructLayout(_, _, fields) =>
      forall k | 0 <= k < |fields| :: Below(fields[k].layout, b.fields[k].layout)
  }

  lemma {:induction false} WidenIsUpperBound(l: Layout, other: Layout)
    requires Comparable(l, other)
    ensures var w := Widen(l, other);
            Comparable(l, w) && Comparable(other, w) && Below(l, w) && Below(other, w)
    decreases l
  {
    SameShapeReflexive(l.schema);
    SameShapeSymmetric(l.schema, other.schema);
    if l == other || l.SingleLayout? {
      BelowReflexive(l);
    } else if l.ArrayLayout? {
      WidenIsUpperBound(l.element, other.element);
    } else {
      WidenFieldsIsUpperBound(l, other);
    }
  }

  lemma {:induction false} WidenFieldsIsUpperBound(l: Layout, other: Layout)
    requires Comparable(l, other) && l.StructLayout? && l != other
    ensures var w := Widen(l, other);
            Comparable(l, w) && Comparable(other, w) && Below(l, w) && Below(other, w)
    decreases l, 0
  {
    hide Agrees;
    PartsAgree(l);
    PartsAgree(other);
    var w, widened := Widen(l, other), WidenedFields(l, other);
    forall k | 0 <= k < |l.fields|
      ensures Comparable(l.fields[k].layout, widened[k]) && Comparable(other.fields[k].layout, widened[k])
      ensures Below(l.fields[k].layout, widened[k]) && Below(other.fields[k].layout, widened[k])
      ensures w.schema.fields[k].name == l.schema.fields[k].name == other.schema.fields[k].name
    {
      FieldsAreComparable(l, other, k);
      WidenIsUpperBound(l.fields[k].layout, other.fields[k].layout);
    }
    MakeStructAgrees(w.schema, widened);
  }

  lemma BelowReflexive(l: Layout)
    requires Agrees(l) && SameShape(l.schema, l.schema)
    ensures Below(l, l)
  {
  }

  lemma {:induction false} WidenIsLeast(l: Layout, other: Layout, c: Layout)
    requires Comparable(l, other) && Comparable(l, c) && Comparable(other, c)
    requires Below(l, c) && Below(other, c)
    ensures Comparable(Widen(l, other), c) && Below(Widen(l, other), c)
    decreases l
  {
    WidenIsUpperBound(l, other);
    SameShapeSymmetric(l.schema, Widen(l, other).schema);
    SameShapeTransitive(Widen(l, other).schema, l.schema, c.schema);
    if l == other {
    } else if l.ArrayLayout? {
      WidenIsLeast(l.element, other.element, c.element);
    } else if l.StructLayout? {
      forall k | 0 <= k < |l.fields|
        ensures Below(Widen(l, other).fields[k].layout, c.fields[k].layout)
      {
        WidenFieldIsLeast(l, other, c, k);
      }
    }
  }

  lemma {:induction false} WidenFieldIsLeast(l: Layout, other: Layout, c: Layout, k: nat)
    requires Comparable(l, other) && Comparable(l, c) && Comparable(other, c)
    requires Below(l, c) && Below(other, c)
    requires l.StructLayout? && l != other && k < |l.fields|
    ensures Widen(l, other).StructLayout? && |Widen(l, other).fields| == |l.fields| == |c.fields|
    ensures var w := Widen(l, other).fields[k].layout;
            Comparable(w, c.fields[k].layout) && Below(w, c.fields[k].layout)
    decreases l, 0
  {
    hide Agrees, SameShape;
    PlacedIsContiguous(WidenedFields(l, other));
    FieldsAreComparable(l, other, k);
    FieldsAreComparable(l, c, k);
    FieldsAreComparable(other, c, k);
    WidenIsLeast(l.fields[k].layout, other.fields[k].layout, c.fields[k].layout);
  }

  lemma {:induction false} BelowTransitive(a: Layout, b: Layout, c: Layout)
    requires Comparable(a, b) && Comparable(b, c) && Below(a, b) && Below(b, c)
    ensures Comparable(a, c) && Below(a, c)
    decreases a
  {
    SameShapeTransitive(a.schema, b.schema, c.schema);
    if a.ArrayLayout? {
      BelowTransitive(a.element, b.element, c.element);
    } else if a.StructLayout? {
      forall k | 0 <= k < |a.fields| ensures Comparable(a.fields[k].layout, c.fields[k].layout) && Below(a.fields[k].layout, c.fields[k].layout) {
        BelowTransitive(a.fields[k].layout, b.fields[k].layout, c.fields[k].layout);
      }
    }
  }

  lemma {:induction false} EqualOffsets(fs: seq<FieldLayout>, gs: seq<FieldLayout>, n: nat)
    requires |fs| == |gs| && n <= |fs| && Contiguous(fs, n) && Contiguous(gs, n)
    requires forall k | 0 <= k < n :: fs[k].layout == gs[k].layout
    ensures EndOf(fs, n) == EndOf(gs, n) && fs[..n] == gs[..n]
  {
    if n > 0 {
      EqualOffsets(fs, gs, n - 1);
    }
  }

  lemma {:induction false} BelowAntisymmetric(a: Layout, b: Layout)
    requires Comparable(a, b) && Comparable(b, a) && Below(a, b) && Below(b, a)
    ensures a == b
    decreases a
  {
    if a.ArrayLayout? {
      BelowAntisymmetric(a.element, b.element);
    } else if a.StructLayout? {
      forall k | 0 <= k < |a.fields| ensures a.fields[k].layout == b.fields[k].layout {
        BelowAntisymmetric(a.fields[k].layout, b.fields[k].layout);
      }
      EqualOffsets(a.fields, b.fields, |a.fields|);
      assert a.schema.fields == b.schema.fields;
    }
  }

  ghost predicate IsUpperBound(layouts: set<Layout>, w: Layout) {
    forall l <- layouts :: Comparable(l, w) && Below(l, w)
  }

  /** The smallest layout with room for every value of the given layouts. */
  ghost predicate IsLeastUpperBound(layouts: set<Layout>, w: Layout) {
    && IsUpperBound(layouts, w)
    && forall c | IsUpperBound(layouts, c) :: Comparable(w, c) && Below(w, c)
  }

  lemma LeastUpperBoundIsUnique(layouts: set<Layout>, v: Layout, w: Layout)
    requires IsLeastUpperBound(layouts, v) && IsLeastUpperBound(layouts, w)
    ensures v == w
  {
    BelowAntisymmetric(v, w);
  }

  // ---------- merging objects ----------

  ghost function LayoutsOfAll(objects: seq<Object>): set<Layout> {
    set o <- objects :: o.layout
  }

  ghost function ValuesAt(objects: seq<Object>, path: Path): (values: seq<Value>)
    requires forall o <- objects :: o.Valid()
    ensures |values| == |objects|
    ensures forall j | 0 <= j < |objects| :: values[j] == objects[j].At(path)
  {
    seq(|objects|, j requires 0 <= j < |objects| => objects[j].At(path))
  }

  /** The objects an attribute holds in the statuses merged. */
  ghost predicate OfOneAttribute(objects: seq<Object>) {
    forall o <- objects :: o.Valid() && Comparable(objects[0].layout, o.layout)
  }

  /** m has the smallest sizes with room for all objects, and holds at every path what the objects agree on. */
  ghost predicate IsMerge(objects: seq<Object>, m: Object) {
    && (forall o <- objects :: o.Valid()) && m.Valid()
    && IsLeastUpperBound(LayoutsOfAll(objects), m.layout)
    && forall path :: Consensus(ValuesAt(objects, path), m.At(path))
  }

  /** The merge depends only on which objects are merged, not on their order or multiplicity. */
  lemma MergeIsOrderIndependent(objects: seq<Object>, m: Object, permuted: seq<Object>, n: Object)
    requires forall o :: o in objects <==> o in permuted
    requires forall o <- objects :: o.Valid()
    requires IsMerge(objects, m) && IsMerge(permuted, n)
    ensures m == n
  {
    assert LayoutsOfAll(objects) == LayoutsOfAll(permuted);
    LeastUpperBoundIsUnique(LayoutsOfAll(objects), m.layout, n.layout);
    forall path | Leaf(m.layout, path) ensures m.At(path) == n.At(path) {
      forall x ensures x in ValuesAt(objects, path) <==> x in ValuesAt(permuted, path) {
        SameHolders(objects, permuted, path, x);
        SameHolders(permuted, objects, path, x);
      }
      ConsensusIsUnique(ValuesAt(objects, path), m.At(path), ValuesAt(permuted, path), n.At(path));
    }
    ExtensionalEquality(m, n);
  }

  lemma SameHolders(objects: seq<Object>, others: seq<Object>, path: Path, x: Value)
    requires forall o <- objects :: o.Valid() && o in others
    requires forall o <- others :: o.Valid()
    ensures x in ValuesAt(objects, path) ==> x in ValuesAt(others, path)
  {
    if x in ValuesAt(objects, path) {
      var j :| 0 <= j < |objects| && ValuesAt(objects, path)[j] == x;
      assert objects[j] in others;
      var i :| 0 <= i < |others| && others[i] == objects[j];
      assert ValuesAt(others, path)[i] == x;
    }
  }

  /** A larger layout has every path of a smaller one. */
  lemma {:induction false} LeafOfLarger(l: Layout, w: Layout, path: Path)
    requires Comparable(l, w) && Below(l, w) && Leaf(l, path)
    ensures Leaf(w, path)
    decreases l
  {
    if l.ArrayLayout? {
      LeafOfLarger(l.element, w.element, path[1..]);
    } else if l.StructLayout? {
      var k := FieldOfPath(l, path);
      FieldsAreComparable(l, w, k);
      SameFields(l, w, l.schema.fields[k].name);
      LeafOfLarger(l.fields[k].layout, w.fields[k].layout, path[1..]);
    }
  }

  lemma MergeOfEqual(objects: seq<Object>)
    requires objects != [] && OfOneAttribute(objects) && forall o <- objects :: o == objects[0]
    ensures IsMerge(objects, objects[0])
  {
    var m := objects[0];
    assert m in objects;
    assert LayoutsOfAll(objects) == {m.layout};
    BelowReflexive(m.layout);
    forall path ensures Consensus(ValuesAt(objects, path), m.At(path)) {
      assert ValuesAt(objects, path)[0] == m.At(path);
    }
  }

  /** The merged layout of the first j objects. */
  method WidenAll(objects: seq<Object>) returns (layout: Layout)
    requires objects != [] && OfOneAttribute(objects)
    ensures IsLeastUpperBound(LayoutsOfAll(objects), layout) && Agrees(layout)
  {
    hide Agrees, SameShape, Widen, Below;
    layout := objects[0].layout;
    assert objects[0] in objects;
    BelowReflexive(layout);
    ghost var seen := {layout};
    for j := 0 to |objects|
      invariant seen == LayoutsOfAll(objects[..j]) + {objects[0].layout}
      invariant Comparable(objects[0].layout, layout)
      invariant IsLeastUpperBound(seen, layout)
    {
      var o := objects[j];
      assert o in objects;
      assert objects[..j + 1] == objects[..j] + [o];
      SameShapeSymmetric(objects[0].layout.schema, layout.schema);
      SameShapeTransitive(layout.schema, objects[0].layout.schema, o.layout.schema);
      WidenKeepsLeast(seen, layout, o.layout);
      SameShapeTransitive(objects[0].layout.schema, layout.schema, Widen(layout, o.layout).schema);
      layout := Widen(layout, o.layout);
      seen := seen + {o.layout};
    }
    assert objects[..|objects|] == objects;
    assert seen == LayoutsOfAll(objects);
  }

  lemma WidenKeepsLeast(layouts: set<Layout>, w: Layout, l: Layout)
    requires IsLeastUpperBound(layouts, w) && Comparable(w, l)
    ensures Comparable(w, Widen(w, l)) && IsLeastUpperBound(layouts + {l}, Widen(w, l))
  {
    WidenIsUpperBound(w, l);
    forall x <- layouts ensures Comparable(x, Widen(w, l)) && Below(x, Widen(w, l)) {
      BelowTransitive(x, w, Widen(w, l));
    }
    forall c | IsUpperBound(layouts + {l}, c) ensures Comparable(Widen(w, l), c) && Below(Widen(w, l), c) {
      assert IsUpperBound(layouts, c);
      assert l in layouts + {l};
      WidenIsLeast(w, l, c);
    }
  }

  /** What the merge holds at position t of the merged layout after the first j objects. */
  ghost function Merged(objects: seq<Object>, layout: Layout, j: nat, t: nat): Cell
    requires Agrees(layout) && t < layout.size && j <= |objects| && forall o <- objects :: o.Valid()
  {
    MergeAll(ValuesAt(objects[..j], PathAt(layout, t)))
  }

  lemma MergedStep(objects: seq<Object>, layout: Layout, j: nat, t: nat)
    requires Agrees(layout) && t < layout.size && j < |objects| && forall o <- objects :: o.Valid()
    ensures Merged(objects, layout, j + 1, t)
         == MergeInto(Merged(objects, layout, j, t), objects[j].At(PathAt(layout, t)))
  {
    var path := PathAt(layout, t);
    var values := ValuesAt(objects[..j + 1], path);
    assert ButLast(values) == ValuesAt(objects[..j], path);
  }

  /** A visited position holds the visited value, and a position not visited holds none. */
  lemma VisitedValue(o: Object, layout: Layout, t: nat)
    requires o.Valid() && Convertible(o.layout, layout) && t < layout.size
    ensures forall v <- Visits(o.layout, 0, layout, 0) ::
              v.1 == t ==> v.0 < |o.values| && o.At(PathAt(layout, t)) == o.values[v.0]
    ensures (forall v <- Visits(o.layout, 0, layout, 0) :: v.1 != t) ==> o.At(PathAt(layout, t)) == None
  {
    var path := PathAt(layout, t);
    PathAtIsLocated(layout, t);
    forall v <- Visits(o.layout, 0, layout, 0) | v.1 == t
      ensures v.0 < |o.values| && o.At(path) == o.values[v.0]
    {
      VisitOfPosition(o.layout, layout, v, path);
      LeafWithin(o.layout, path);
    }
    if Leaf(o.layout, path) {
      PathIsVisited(o.layout, 0, layout, 0, path);
    }
  }

  /** What a merge does at one position, as MergeInto says. */
  method MergeValue(value: Value, values: array<Value>, conflict: array<bool>, target: nat)
    requires target < values.Length == conflict.Length
    modifies values, conflict
    ensures Cell(values[target], conflict[target]) == old(MergeInto(Cell(values[target], conflict[target]), value))
    ensures forall t | 0 <= t < values.Length && t != target ::
              values[t] == old(values[t]) && conflict[t] == old(conflict[t])
  {
    if conflict[target] {
      return;
    }
    if values[target].None? {
      values[target] := value;
    } else if value.Some? && value != values[target] {
      values[target] := None;
      conflict[target] := true;
    }
  }

  /** Merging a value again changes nothing. */
  lemma MergeIntoTwice(cell: Cell, value: Value)
    ensures MergeInto(MergeInto(cell, value), value) == MergeInto(cell, value)
  {
  }

  ghost predicate Visited(visits: seq<Visit>, t: nat) {
    exists v <- visits :: v.1 == t
  }

  /** The visits of one object, which gives each visited position one value. */
  method MergeVisits(visits: seq<Visit>, source: seq<Value>, ghost given: seq<Value>,
                     values: array<Value>, conflict: array<bool>)
    requires values.Length == conflict.Length == |given|
    requires forall v <- visits :: v.0 < |source| && v.1 < |given| && source[v.0] == given[v.1]
    modifies values, conflict
    ensures forall t | 0 <= t < |given| ::
              Cell(values[t], conflict[t])
              == old(if Visited(visits, t) then MergeInto(Cell(values[t], conflict[t]), given[t])
                     else Cell(values[t], conflict[t]))
  {
    for k := 0 to |visits|
      invariant forall t | 0 <= t < |given| ::
                  Cell(values[t], conflict[t])
                  == old(if Visited(visits[..k], t) then MergeInto(Cell(values[t], conflict[t]), given[t])
                         else Cell(values[t], conflict[t]))
    {
      var (position, target) := visits[k];
      assert visits[k] in visits;
      assert visits[..k + 1] == visits[..k] + [visits[k]];
      assert forall t: nat :: Visited(visits[..k + 1], t) <==> Visited(visits[..k], t) || t == target;
      MergeIntoTwice(old(Cell(values[target], conflict[target])), given[target]);
      MergeValue(source[position], values, conflict, target);
    }
    assert visits[..|visits|] == visits;
  }

  method MergeObject(o: Object, layout: Layout, values: array<Value>, conflict: array<bool>)
    requires o.Valid() && Comparable(o.layout, layout)
    requires values.Length == conflict.Length == layout.size
    modifies values, conflict
    ensures forall t | 0 <= t < layout.size ::
              Cell(values[t], conflict[t]) == MergeInto(old(Cell(values[t], conflict[t])), o.At(PathAt(layout, t)))
  {
    hide Agrees, SameShape;
    var visits := Correspond(o.layout, 0, layout, 0);
    VisitsInRange(o.layout, 0, layout, 0);
    ghost var given := seq(layout.size, t requires 0 <= t < layout.size => o.At(PathAt(layout, t)));
    forall t | 0 <= t < layout.size
      ensures forall v <- visits :: v.1 == t ==> o.values[v.0] == given[t]
      ensures !Visited(visits, t) ==> given[t] == None
    {
      VisitedValue(o, layout, t);
    }
    MergeVisits(visits, o.values, given, values, conflict);
  }

  method Merge(objects: seq<Object>) returns (m: Object)
    requires objects != [] && OfOneAttribute(objects)
    ensures IsMerge(objects, m)
  {
    hide Agrees, SameShape, Below;
    if forall o <- objects :: o == objects[0] {
      MergeOfEqual(objects);
      return objects[0];
    }
    var layout := WidenAll(objects);
    var values := new Value[layout.size](_ => None);
    var conflict := new bool[layout.size](_ => false);
    for j := 0 to |objects|
      invariant forall t | 0 <= t < layout.size :: Cell(values[t], conflict[t]) == Merged(objects, layout, j, t)
    {
      assert objects[j].layout in LayoutsOfAll(objects);
      MergeObject(objects[j], layout, values, conflict);
      forall t | 0 <= t < layout.size ensures Cell(values[t], conflict[t]) == Merged(objects, layout, j + 1, t) {
        MergedStep(objects, layout, j, t);
      }
    }
    m := Object(layout, values[..]);
    MergedIsMerge(objects, m);
  }

  lemma MergedIsMerge(objects: seq<Object>, m: Object)
    requires forall o <- objects :: o.Valid()
    requires m.Valid() && IsLeastUpperBound(LayoutsOfAll(objects), m.layout)
    requires forall t | 0 <= t < m.layout.size :: m.values[t] == Merged(objects, m.layout, |objects|, t).merged
    ensures IsMerge(objects, m)
  {
    assert objects[..|objects|] == objects;
    forall path ensures Consensus(ValuesAt(objects, path), m.At(path)) {
      var values := ValuesAt(objects, path);
      if Leaf(m.layout, path) {
        LeafWithin(m.layout, path);
        var t := OffsetOf(m.layout, path);
        PathAtIsLocated(m.layout, t);
        PathsAreDisjoint(m.layout, path, PathAt(m.layout, t));
        MergeAllIsConsensus(values);
      } else {
        forall j | 0 <= j < |objects| ensures values[j] == None {
          assert objects[j].layout in LayoutsOfAll(objects);
          if Leaf(objects[j].layout, path) {
            LeafOfLarger(objects[j].layout, m.layout, path);
          }
        }
      }
    }
  }

  /** The array the steps reach in the merge of two layouts has the larger size, and is fixed only if both fix it. */
  lemma {:induction false} WidenSizes(l: Layout, other: Layout, steps: seq<Option<string>>)
    requires Comparable(l, other) && PartAlong(l, steps).Some? && PartAlong(l, steps).value.ArrayLayout?
    ensures PartAlong(other, steps).Some? && PartAlong(Widen(l, other), steps).Some?
    ensures
      var a, b, w := PartAlong(l, steps).value, PartAlong(other, steps).value, PartAlong(Widen(l, other), steps).value;
      && b.ArrayLayout? && w.ArrayLayout? && w.schema.ArraySchema? && a.schema.ArraySchema? && b.schema.ArraySchema?
      && w.count == Max(a.count, b.count)
      && w.schema.size == (if a.schema.size == b.schema.size then a.schema.size else None)
    decreases steps
  {
    hide SameShape, Widen, Agrees;
    if steps == [] || steps[0].None? {
      WidenArray(l, other);
      if steps != [] {
        WidenSizes(l.element, other.element, steps[1..]);
      }
    } else {
      var k := WidenField(l, other, steps[0].value);
      WidenSizes(l.fields[k].layout, other.fields[k].layout, steps[1..]);
    }
  }

  lemma WidenArray(l: Layout, other: Layout)
    requires Comparable(l, other) && l.ArrayLayout?
    ensures other.ArrayLayout? && Comparable(l.element, other.element)
    ensures l.schema.ArraySchema? && other.schema.ArraySchema?
    ensures
      var w := Widen(l, other);
      && w.ArrayLayout? && w.element == Widen(l.element, other.element) && w.schema.ArraySchema?
      && w.count == Max(l.count, other.count)
      && w.schema.size == (if l.schema.size == other.schema.size then l.schema.size else None)
  {
    ComparableElements(l, other);
  }

  lemma WidenField(l: Layout, other: Layout, name: string) returns (k: nat)
    requires Comparable(l, other) && l.StructLayout? && l.schema.StructSchema? && FieldIndex(l.schema.fields, name).Some?
    ensures k < |l.fields| == |other.fields| && other.StructLayout? && other.schema.StructSchema?
    ensures Comparable(l.fields[k].layout, other.fields[k].layout)
    ensures FieldIndex(l.schema.fields, name) == FieldIndex(other.schema.fields, name) == Some(k)
    ensures
      var w := Widen(l, other);
      && w.StructLayout? && w.schema.StructSchema? && k < |w.fields| && FieldIndex(w.schema.fields, name) == Some(k)
      && w.fields[k].layout == Widen(l.fields[k].layout, other.fields[k].layout)
  {
    hide SameShape;
    WidenIsUpperBound(l, other);
    k := FieldIndex(l.schema.fields, name).value;
    SameFields(l, other, name);
    SameFields(l, Widen(l, other), name);
    FieldsAreComparable(l, other, k);
    if l != other {
      PlacedIsContiguous(WidenedFields(l, other));
    }
  }

  // ---------- merging statuses ----------

  datatype Status = Status(attributes: seq<Value>, objects: seq<Object>)

  /** The index of the attribute holding the time of the last update of a token. */
  const TIMESTAMP := 0

  ghost predicate Mergeable(statuses: seq<Status>) {
    && statuses != []
    && |statuses[0].attributes| > TIMESTAMP
    && (forall s <- statuses ::
          && |s.attributes| == |statuses[0].attributes| && |s.objects| == |statuses[0].objects|
          && s.attributes[TIMESTAMP].Some?)
    && forall k | 0 <= k < |statuses[0].objects| :: OfOneAttribute(ObjectsOf(statuses, k))
  }

  function ObjectsOf(statuses: seq<Status>, k: nat): (objects: seq<Object>)
    requires forall s <- statuses :: k < |s.objects|
    ensures |objects| == |statuses| && forall j | 0 <= j < |statuses| :: objects[j] == statuses[j].objects[k]
  {
    seq(|statuses|, j requires 0 <= j < |statuses| => statuses[j].objects[k])
  }

  function AttributesOf(statuses: seq<Status>, i: nat): (values: seq<Value>)
    requires forall s <- statuses :: i < |s.attributes|
    ensures |values| == |statuses| && forall j | 0 <= j < |statuses| :: values[j] == statuses[j].attributes[i]
  {
    seq(|statuses|, j requires 0 <= j < |statuses| => statuses[j].attributes[i])
  }

  ghost predicate IsLatest(timestamps: seq<Value>, latest: Value) {
    latest in timestamps && latest.Some? && forall t <- timestamps :: t.Some? && t.value <= latest.value
  }

  /** The latest timestamp, the consensus on every other attribute, and the merge of the objects of each attribute. */
  ghost predicate IsMergedStatus(statuses: seq<Status>, merged: Status)
    requires Mergeable(statuses)
  {
    && |merged.attributes| == |statuses[0].attributes| && |merged.objects| == |statuses[0].objects|
    && IsLatest(AttributesOf(statuses, TIMESTAMP), merged.attributes[TIMESTAMP])
    && (forall i | 0 <= i < |merged.attributes| && i != TIMESTAMP ::
          Consensus(AttributesOf(statuses, i), merged.attributes[i]))
    && forall k | 0 <= k < |merged.objects| :: IsMerge(ObjectsOf(statuses, k), merged.objects[k])
  }

  method LatestTimestamp(timestamps: seq<Value>) returns (latest: Value)
    requires timestamps != [] && forall t <- timestamps :: t.Some?
    ensures IsLatest(timestamps, latest)
  {
    latest := timestamps[0];
    for j := 0 to |timestamps|
      invariant latest in timestamps && latest.Some?
      invariant forall t <- timestamps[..j] :: t.value <= latest.value
    {
      if latest.value < timestamps[j].value {
        latest := timestamps[j];
      }
    }
    assert timestamps[..|timestamps|] == timestamps;
  }

  lemma Column(statuses: seq<Status>, k: nat)
    requires Mergeable(statuses) && k < |statuses[0].objects|
    ensures forall s <- statuses :: k < |s.objects|
    ensures OfOneAttribute(ObjectsOf(statuses, k))
  {
  }

  /** Merges the objects of each attribute. */
  method MergeColumns(columns: seq<seq<Object>>) returns (objects: seq<Object>)
    requires forall c <- columns :: c != [] && OfOneAttribute(c)
    ensures |objects| == |columns| && forall k | 0 <= k < |objects| :: IsMerge(columns[k], objects[k])
  {
    hide IsMerge, OfOneAttribute;
    objects := [];
    for k := 0 to |columns|
      invariant |objects| == k && forall l | 0 <= l < k :: IsMerge(columns[l], objects[l])
    {
      assert columns[k] in columns;
      var merged := Merge(columns[k]);
      objects := objects + [merged];
    }
  }

  function Columns(statuses: seq<Status>): (columns: seq<seq<Object>>)
    requires statuses != [] && forall s <- statuses :: |s.objects| == |statuses[0].objects|
    ensures |columns| == |statuses[0].objects|
    ensures forall k | 0 <= k < |columns| :: columns[k] == ObjectsOf(statuses, k)
  {
    seq(|statuses[0].objects|, k requires 0 <= k < |statuses[0].objects| => ObjectsOf(statuses, k))
  }

  method MergeAttributes(statuses: seq<Status>) returns (attributes: seq<Value>)
    requires Mergeable(statuses)
    ensures |attributes| == |statuses[0].attributes|
    ensures IsLatest(AttributesOf(statuses, TIMESTAMP), attributes[TIMESTAMP])
    ensures forall i | 0 <= i < |attributes| && i != TIMESTAMP :: Consensus(AttributesOf(statuses, i), attributes[i])
  {
    hide IsLatest, Consensus, OfOneAttribute;
    attributes := [];
    for i := 0 to |statuses[0].attributes|
      invariant |attributes| == i
      invariant i > TIMESTAMP ==> IsLatest(AttributesOf(statuses, TIMESTAMP), attributes[TIMESTAMP])
      invariant forall l | 0 <= l < i && l != TIMESTAMP :: Consensus(AttributesOf(statuses, l), attributes[l])
    {
      var value;
      if i == TIMESTAMP {
        value := LatestTimestamp(AttributesOf(statuses, i));
      } else {
        value := MergeAttribute(AttributesOf(statuses, i));
      }
      attributes := attributes + [value];
    }
  }

  method MergeStatus(statuses: seq<Status>) returns (merged: Status)
    requires Mergeable(statuses)
    ensures IsMergedStatus(statuses, merged)
  {
    hide IsMerge, IsLatest, Consensus, OfOneAttribute;
    forall k | 0 <= k < |statuses[0].objects| ensures OfOneAttribute(ObjectsOf(statuses, k)) {
      Column(statuses, k);
    }
    var objects := MergeColumns(Columns(statuses));
    var attributes := MergeAttributes(statuses);
    merged := Status(attributes, objects);
  }

  lemma SameAttributes(statuses: seq<Status>, others: seq<Status>, i: nat)
    requires forall s <- statuses :: i < |s.attributes| && s in others
    requires forall s <- others :: i < |s.attributes| && s in statuses
    ensures forall v :: v in AttributesOf(statuses, i) <==> v in AttributesOf(others, i)
  {
    forall v ensures v in AttributesOf(statuses, i) <==> v in AttributesOf(others, i) {
      if v in AttributesOf(statuses, i) {
        var j :| 0 <= j < |statuses| && AttributesOf(statuses, i)[j] == v;
        assert statuses[j] in others;
        var l :| 0 <= l < |others| && others[l] == statuses[j];
        assert AttributesOf(others, i)[l] == v;
      }
      if v in AttributesOf(others, i) {
        var j :| 0 <= j < |others| && AttributesOf(others, i)[j] == v;
        assert others[j] in statuses;
        var l :| 0 <= l < |statuses| && statuses[l] == others[j];
        assert AttributesOf(statuses, i)[l] == v;
      }
    }
  }

  lemma SameObjects(statuses: seq<Status>, others: seq<Status>, k: nat)
    requires forall s <- statuses :: k < |s.objects| && s in others
    requires forall s <- others :: k < |s.objects| && s in statuses
    ensures forall o :: o in ObjectsOf(statuses, k) <==> o in ObjectsOf(others, k)
  {
    forall o ensures o in ObjectsOf(statuses, k) <==> o in ObjectsOf(others, k) {
      if o in ObjectsOf(statuses, k) {
        var j :| 0 <= j < |statuses| && ObjectsOf(statuses, k)[j] == o;
        assert statuses[j] in others;
        var l :| 0 <= l < |others| && others[l] == statuses[j];
        assert ObjectsOf(others, k)[l] == o;
      }
      if o in ObjectsOf(others, k) {
        var j :| 0 <= j < |others| && ObjectsOf(others, k)[j] == o;
        assert others[j] in statuses;
        var l :| 0 <= l < |statuses| && statuses[l] == others[j];
        assert ObjectsOf(statuses, k)[l] == o;
      }
    }
  }

  /** Permuting the tokens that meet at a join does not change the status they are merged to. */
  lemma MergedStatusIsOrderIndependent(statuses: seq<Status>, merged: Status, permuted: seq<Status>, other: Status)
    requires Mergeable(statuses) && Mergeable(permuted)
    requires multiset(statuses) == multiset(permuted)
    requires IsMergedStatus(statuses, merged) && IsMergedStatus(permuted, other)
    ensures merged == other
  {
    hide Mergeable, IsMergedStatus;
    SameSizes(statuses, merged, permuted, other);
    forall i | 0 <= i < |merged.attributes| ensures merged.attributes[i] == other.attributes[i] {
      MergedAttributesAgree(statuses, merged, permuted, other, i);
    }
    forall k | 0 <= k < |merged.objects| ensures merged.objects[k] == other.objects[k] {
      MergedObjectsAgree(statuses, merged, permuted, other, k);
    }
  }

  /** Permuted statuses are the same ones, and have as many attributes and objects as the merged statuses. */
  lemma SameSizes(statuses: seq<Status>, merged: Status, permuted: seq<Status>, other: Status)
    requires Mergeable(statuses) && Mergeable(permuted)
    requires multiset(statuses) == multiset(permuted)
    requires IsMergedStatus(statuses, merged) && IsMergedStatus(permuted, other)
    ensures forall s :: s in statuses <==> s in permuted
    ensures |merged.attributes| == |other.attributes| && |merged.objects| == |other.objects|
    ensures forall s <- statuses :: |s.attributes| == |merged.attributes| && |s.objects| == |merged.objects|
  {
    hide IsLatest, Consensus, IsMerge, OfOneAttribute, AttributesOf, ObjectsOf;
    SameElements(statuses, permuted);
    assert statuses[0] in statuses && statuses[0] in permuted;
  }

  lemma SameElements<T>(s: seq<T>, permuted: seq<T>)
    requires multiset(s) == multiset(permuted)
    ensures forall x :: x in s <==> x in permuted
  {
    forall x ensures x in s <==> x in permuted {
      assert x in multiset(s) <==> x in s;
      assert x in multiset(permuted) <==> x in permuted;
    }
  }

  lemma MergedAttributesAgree(statuses: seq<Status>, merged: Status, permuted: seq<Status>, other: Status, i: nat)
    requires Mergeable(statuses) && Mergeable(permuted) && forall s :: s in statuses <==> s in permuted
    requires IsMergedStatus(statuses, merged) && IsMergedStatus(permuted, other)
    requires i < |merged.attributes| == |other.attributes|
    ensures merged.attributes[i] == other.attributes[i]
  {
    hide OfOneAttribute, IsMerge, Consensus, ObjectsOf;
    SameAttributes(statuses, permuted, i);
    if i == TIMESTAMP {
      assert merged.attributes[i] in AttributesOf(permuted, i);
      assert other.attributes[i] in AttributesOf(statuses, i);
    } else {
      ConsensusIsUnique(AttributesOf(statuses, i), merged.attributes[i], AttributesOf(permuted, i), other.attributes[i]);
    }
  }

  lemma MergedObjectsAgree(statuses: seq<Status>, merged: Status, permuted: seq<Status>, other: Status, k: nat)
    requires Mergeable(statuses) && Mergeable(permuted) && forall s :: s in statuses <==> s in permuted
    requires IsMergedStatus(statuses, merged) && IsMergedStatus(permuted, other)
    requires k < |merged.objects| == |other.objects|
    ensures merged.objects[k] == other.objects[k]
  {
    hide IsMerge, IsLatest, Consensus, AttributesOf;
    SameObjects(statuses, permuted, k);
    MergeIsOrderIndependent(ObjectsOf(statuses, k), merged.objects[k], ObjectsOf(permuted, k), other.objects[k]);
  }
}
