/**
 The walk over two objects of the same structure that visits the values both of them have. A visitor is
 modelled by the visits it receives, in order: the positions of one value in the two objects.
 */
module Correspondence {
  import opened Basics
  import opened Schemas
  import opened Layouts

  type Visit = (nat, nat)

  ghost predicate Comparable(a: Layout, b: Layout) {
    Agrees(a) && Agrees(b) && SameShape(a.schema, b.schema)
  }

  /** The second layout is that of an object the first is converted to. */
  ghost predicate Convertible(from: Layout, to: Layout) {
    Agrees(from) && Agrees(to) && Castable(from.schema, to.schema)
  }

  lemma ComparableIsConvertible(a: Layout, b: Layout)
    requires Comparable(a, b)
    ensures Convertible(a, b)
  {
    AgreesIsWellNamed(b);
    SameShapeIsCastable(a.schema, b.schema);
  }

  lemma ConvertibleParts(from: Layout, to: Layout)
    requires Convertible(from, to)
    ensures from.SingleLayout? ==> to.SingleLayout?
    ensures from.ArrayLayout? ==>
      && to.ArrayLayout? && Convertible(from.element, to.element)
      && from.size == from.count * from.element.size && to.size == to.count * to.element.size
    ensures from.StructLayout? ==>
      && to.StructLayout? && from.schema.StructSchema? && to.schema.StructSchema?
      && |from.schema.fields| == |from.fields| && |to.schema.fields| == |to.fields|
      && (forall k | 0 <= k < |from.fields| :: Agrees(from.fields[k].layout))
      && (forall k | 0 <= k < |to.fields| :: Agrees(to.fields[k].layout))
  {
  }

  function Visits(from: Layout, fromOffset: nat, to: Layout, toOffset: nat): seq<Visit>
    requires Convertible(from, to)
    decreases from, 3, 0
  {
    match from
    case SingleLayout(_, _) => [(fromOffset, toOffset)]
    case ArrayLayout(_, _, _, count) => ElementVisits(from, fromOffset, to, toOffset, Min(count, to.count))
    case StructLayout(_, _, fields) => FieldVisits(from, fromOffset, to, toOffset, |fields|)
  }

  function ElementVisit(from: Layout, fromOffset: nat, to: Layout, toOffset: nat, i: nat): seq<Visit>
    requires Convertible(from, to) && from.ArrayLayout?
    decreases from, 1, 0
  {
    Visits(from.element, fromOffset + i * from.element.size, to.element, toOffset + i * to.element.size)
  }

  /** The visits of the first n elements. */
  function ElementVisits(from: Layout, fromOffset: nat, to: Layout, toOffset: nat, n: nat): seq<Visit>
    requires Convertible(from, to) && from.ArrayLayout?
    decreases from, 2, n
  {
    if n == 0 then []
    else ElementVisits(from, fromOffset, to, toOffset, n - 1) + ElementVisit(from, fromOffset, to, toOffset, n - 1)
  }

  /** The field of the target a field of the source is converted to. */
  function FieldOf(from: Layout, to: Layout, k: nat): (j: nat)
    requires Convertible(from, to) && from.StructLayout? && k < |from.fields|
    ensures to.StructLayout? && j < |to.fields| && Convertible(from.fields[k].layout, to.fields[j].layout)
    ensures FieldIndex(to.schema.fields, from.schema.fields[k].name) == Some(j)
  {
    FieldIndex(to.schema.fields, from.schema.fields[k].name).value
  }

  function FieldVisit(from: Layout, fromOffset: nat, to: Layout, toOffset: nat, k: nat): seq<Visit>
    requires Convertible(from, to) && from.StructLayout? && k < |from.fields|
    decreases from, 1, 0
  {
    var j := FieldOf(from, to, k);
    Visits(from.fields[k].layout, fromOffset + from.fields[k].offset,
           to.fields[j].layout, toOffset + to.fields[j].offset)
  }

  /** The visits of the first n fields. */
  function FieldVisits(from: Layout, fromOffset: nat, to: Layout, toOffset: nat, n: nat): seq<Visit>
    requires Convertible(from, to) && from.StructLayout? && n <= |from.fields|
    decreases from, 2, n
  {
    if n == 0 then []
    else FieldVisits(from, fromOffset, to, toOffset, n - 1) + FieldVisit(from, fromOffset, to, toOffset, n - 1)
  }

  lemma ComparableFields(from: Layout, to: Layout, k: nat)
    requires Comparable(from, to) && from.StructLayout? && k < |from.fields|
    ensures Convertible(from, to) && FieldOf(from, to, k) == k
    ensures Comparable(from.fields[k].layout, to.fields[k].layout)
  {
    ComparableIsConvertible(from, to);
    FieldIndexOfDistinct(to.schema.fields, k);
  }

  lemma ComparableElements(from: Layout, to: Layout)
    requires Comparable(from, to) && from.ArrayLayout?
    ensures to.ArrayLayout? && Comparable(from.element, to.element)
  {
  }

  method Correspond(from: Layout, fromOffset: nat, to: Layout, toOffset: nat) returns (visits: seq<Visit>)
    requires Comparable(from, to)
    ensures Convertible(from, to) && visits == Visits(from, fromOffset, to, toOffset)
    decreases from, 1
  {
    ComparableIsConvertible(from, to);
    if from.ArrayLayout? {
      visits := CorrespondElements(from, fromOffset, to, toOffset);
    } else if from.SingleLayout? {
      visits := [(fromOffset, toOffset)];
    } else {
      visits := CorrespondFields(from, fromOffset, to, toOffset);
    }
  }

  method CorrespondElements(from: Layout, fromOffset: nat, to: Layout, toOffset: nat) returns (visits: seq<Visit>)
    requires Comparable(from, to) && Convertible(from, to) && from.ArrayLayout?
    ensures visits == ElementVisits(from, fromOffset, to, toOffset, Min(from.count, to.count))
    decreases from, 0
  {
    hide Agrees, SameShape, Castable;
    ComparableElements(from, to);
    visits := [];
    for i := 0 to Min(from.count, to.count)
      invariant visits == ElementVisits(from, fromOffset, to, toOffset, i)
    {
      var nested := Correspond(from.element, fromOffset + i * from.element.size,
                               to.element, toOffset + i * to.element.size);
      visits := visits + nested;
    }
  }

  method CorrespondFields(from: Layout, fromOffset: nat, to: Layout, toOffset: nat) returns (visits: seq<Visit>)
    requires Comparable(from, to) && Convertible(from, to) && from.StructLayout?
    ensures visits == FieldVisits(from, fromOffset, to, toOffset, |from.fields|)
    decreases from, 0
  {
    hide Agrees, Castable, SameShape;
    visits := [];
    for k := 0 to |from.fields|
      invariant visits == FieldVisits(from, fromOffset, to, toOffset, k)
    {
      ComparableFields(from, to, k);
      var nested := Correspond(from.fields[k].layout, fromOffset + from.fields[k].offset,
                               to.fields[k].layout, toOffset + to.fields[k].offset);
      visits := visits + nested;
    }
  }

  // ---------- the visits are exactly the paths both objects have ----------

  lemma {:induction false} ElementVisited(from: Layout, fo: nat, to: Layout, too: nat, n: nat, i: nat, v: Visit)
    requires Convertible(from, to) && from.ArrayLayout? && i < n && v in ElementVisit(from, fo, to, too, i)
    ensures v in ElementVisits(from, fo, to, too, n)
    decreases n
  {
    hide Agrees, Castable;
    if i < n - 1 {
      ElementVisited(from, fo, to, too, n - 1, i, v);
    }
  }

  lemma {:induction false} FieldVisited(from: Layout, fo: nat, to: Layout, too: nat, n: nat, k: nat, v: Visit)
    requires Convertible(from, to) && from.StructLayout? && k < n <= |from.fields|
    requires v in FieldVisit(from, fo, to, too, k)
    ensures v in FieldVisits(from, fo, to, too, n)
    decreases n
  {
    hide Agrees, Castable;
    if k < n - 1 {
      FieldVisited(from, fo, to, too, n - 1, k, v);
    }
  }

  /** The field a path addressing a single value begins with. */
  lemma FieldOfPath(l: Layout, path: Path) returns (k: nat)
    requires Agrees(l) && l.StructLayout? && Leaf(l, path)
    ensures k < |l.fields| && path != [] && path[0] == Name(l.schema.fields[k].name)
    ensures FieldIndex(l.schema.fields, l.schema.fields[k].name) == Some(k)
    ensures Leaf(l.fields[k].layout, path[1..])
    ensures OffsetOf(l, path) == l.fields[k].offset + OffsetOf(l.fields[k].layout, path[1..])
  {
    k := FieldIndex(l.schema.fields, path[0].name).value;
  }

  /** The element a path addressing a single value begins with. */
  lemma ElementOfPath(l: Layout, path: Path) returns (i: nat)
    requires Agrees(l) && l.ArrayLayout? && Leaf(l, path)
    ensures i < l.count && path != [] && path[0] == Index(i) && Leaf(l.element, path[1..])
    ensures OffsetOf(l, path) == i * l.element.size + OffsetOf(l.element, path[1..])
  {
    i := path[0].index;
  }

  /** Complete: the value at every path both objects have is visited, at its positions. */
  lemma {:induction false} PathIsVisited(from: Layout, fo: nat, to: Layout, too: nat, path: Path)
    requires Convertible(from, to) && Leaf(from, path) && Leaf(to, path)
    ensures (fo + OffsetOf(from, path), too + OffsetOf(to, path)) in Visits(from, fo, to, too)
    decreases from, 1
  {
    hide Agrees, Castable;
    ConvertibleParts(from, to);
    if from.ArrayLayout? {
      ElementPathIsVisited(from, fo, to, too, path);
    } else if from.StructLayout? {
      FieldPathIsVisited(from, fo, to, too, path);
    }
  }

  lemma {:induction false} ElementPathIsVisited(from: Layout, fo: nat, to: Layout, too: nat, path: Path)
    requires Convertible(from, to) && from.ArrayLayout? && Leaf(from, path) && Leaf(to, path)
    ensures (fo + OffsetOf(from, path), too + OffsetOf(to, path)) in Visits(from, fo, to, too)
    decreases from, 0
  {
    hide Agrees, Castable, Follow;
    ConvertibleParts(from, to);
    var i := ElementOfPath(from, path);
    var j := ElementOfPath(to, path);
    PathIsVisited(from.element, fo + i * from.element.size, to.element, too + i * to.element.size, path[1..]);
    ElementVisited(from, fo, to, too, Min(from.count, to.count), i, (fo + OffsetOf(from, path), too + OffsetOf(to, path)));
  }

  lemma {:induction false} FieldPathIsVisited(from: Layout, fo: nat, to: Layout, too: nat, path: Path)
    requires Convertible(from, to) && from.StructLayout? && Leaf(from, path) && Leaf(to, path)
    ensures (fo + OffsetOf(from, path), too + OffsetOf(to, path)) in Visits(from, fo, to, too)
    decreases from, 0
  {
    hide Agrees, Castable;
    var k := FieldOfPath(from, path);
    var j := FieldOf(from, to, k);
    var l := FieldOfPath(to, path);
    assert l == j;
    PathIsVisited(from.fields[k].layout, fo + from.fields[k].offset,
                  to.fields[j].layout, too + to.fields[j].offset, path[1..]);
    FieldVisited(from, fo, to, too, |from.fields|, k, (fo + OffsetOf(from, path), too + OffsetOf(to, path)));
  }

  lemma {:induction false} ElementOfVisit(from: Layout, fo: nat, to: Layout, too: nat, n: nat, v: Visit) returns (i: nat)
    requires Convertible(from, to) && from.ArrayLayout? && v in ElementVisits(from, fo, to, too, n)
    ensures i < n && v in ElementVisit(from, fo, to, too, i)
    decreases n
  {
    hide Agrees, Castable;
    if v in ElementVisits(from, fo, to, too, n - 1) {
      i := ElementOfVisit(from, fo, to, too, n - 1, v);
    } else {
      i := n - 1;
    }
  }

  lemma {:induction false} FieldOfVisit(from: Layout, fo: nat, to: Layout, too: nat, n: nat, v: Visit) returns (k: nat)
    requires Convertible(from, to) && from.StructLayout? && n <= |from.fields| && v in FieldVisits(from, fo, to, too, n)
    ensures k < n && v in FieldVisit(from, fo, to, too, k)
    decreases n
  {
    hide Agrees, Castable;
    if v in FieldVisits(from, fo, to, too, n - 1) {
      k := FieldOfVisit(from, fo, to, too, n - 1, v);
    } else {
      k := n - 1;
    }
  }

  lemma UnderElement(l: Layout, i: nat, rest: Path)
    requires l.ArrayLayout? && i < l.count && Leaf(l.element, rest)
    ensures Leaf(l, [Index(i)] + rest)
    ensures OffsetOf(l, [Index(i)] + rest) == i * l.element.size + OffsetOf(l.element, rest)
  {
    FollowIndex(l, i, rest);
  }

  lemma UnderField(l: Layout, k: nat, rest: Path)
    requires Agrees(l) && l.StructLayout? && k < |l.fields| && Leaf(l.fields[k].layout, rest)
    ensures Leaf(l, [Name(l.schema.fields[k].name)] + rest)
    ensures OffsetOf(l, [Name(l.schema.fields[k].name)] + rest)
         == l.fields[k].offset + OffsetOf(l.fields[k].layout, rest)
  {
    FollowName(l, k, rest);
  }

  /** Sound: every visit is made for a path both objects have, at its positions. */
  lemma {:induction false} VisitHasPath(from: Layout, fo: nat, to: Layout, too: nat, v: Visit) returns (path: Path)
    requires Convertible(from, to) && v in Visits(from, fo, to, too)
    ensures Leaf(from, path) && Leaf(to, path)
    ensures v == (fo + OffsetOf(from, path), too + OffsetOf(to, path))
    decreases from
  {
    hide Agrees, Castable;
    ConvertibleParts(from, to);
    if from.SingleLayout? {
      path := [];
    } else if from.ArrayLayout? {
      path := ElementVisitHasPath(from, fo, to, too, v);
    } else {
      path := FieldVisitHasPath(from, fo, to, too, v);
    }
  }

  lemma {:induction false} ElementVisitHasPath(from: Layout, fo: nat, to: Layout, too: nat, v: Visit) returns (path: Path)
    requires Convertible(from, to) && from.ArrayLayout? && v in Visits(from, fo, to, too)
    ensures Leaf(from, path) && Leaf(to, path)
    ensures v == (fo + OffsetOf(from, path), too + OffsetOf(to, path))
    decreases from, 0
  {
    hide Agrees, Castable, Follow;
    ConvertibleParts(from, to);
    var i := ElementOfVisit(from, fo, to, too, Min(from.count, to.count), v);
    var rest := VisitHasPath(from.element, fo + i * from.element.size, to.element, too + i * to.element.size, v);
    path := [Index(i)] + rest;
    UnderElement(from, i, rest);
    UnderElement(to, i, rest);
  }

  lemma {:induction false} FieldVisitHasPath(from: Layout, fo: nat, to: Layout, too: nat, v: Visit) returns (path: Path)
    requires Convertible(from, to) && from.StructLayout? && v in Visits(from, fo, to, too)
    ensures Leaf(from, path) && Leaf(to, path)
    ensures v == (fo + OffsetOf(from, path), too + OffsetOf(to, path))
    decreases from, 0
  {
    hide Agrees, Castable, Follow;
    ConvertibleParts(from, to);
    var k := FieldOfVisit(from, fo, to, too, |from.fields|, v);
    var j := FieldOf(from, to, k);
    var rest := VisitHasPath(from.fields[k].layout, fo + from.fields[k].offset,
                             to.fields[j].layout, too + to.fields[j].offset, v);
    path := [Name(from.schema.fields[k].name)] + rest;
    UnderField(from, k, rest);
    UnderField(to, j, rest);
  }

  /** One position of an object is visited for one path only, whatever object it is compared with. */
  lemma VisitOfPosition(from: Layout, to: Layout, v: Visit, path: Path)
    requires Convertible(from, to) && v in Visits(from, 0, to, 0)
    requires Leaf(to, path) && OffsetOf(to, path) == v.1
    ensures Leaf(from, path) && OffsetOf(from, path) == v.0
  {
    var visited := VisitHasPath(from, 0, to, 0, v);
    PathsAreDisjoint(to, visited, path);
  }

  lemma VisitsInRange(from: Layout, fo: nat, to: Layout, too: nat)
    requires Convertible(from, to)
    ensures forall v <- Visits(from, fo, to, too) :: fo <= v.0 < fo + from.size && too <= v.1 < too + to.size
  {
    forall v <- Visits(from, fo, to, too) ensures fo <= v.0 < fo + from.size && too <= v.1 < too + to.size {
      var path := VisitHasPath(from, fo, to, too, v);
      LeafWithin(from, path);
      LeafWithin(to, path);
    }
  }

  /** No two visits are made to one position, and each has a position in both objects. */
  lemma VisitsAreFunctional(from: Layout, to: Layout)
    requires Convertible(from, to)
    ensures forall v <- Visits(from, 0, to, 0) :: v.0 < from.size && v.1 < to.size
    ensures forall v <- Visits(from, 0, to, 0), w <- Visits(from, 0, to, 0) :: v.1 == w.1 ==> v == w
  {
    VisitsInRange(from, 0, to, 0);
    forall v <- Visits(from, 0, to, 0), w <- Visits(from, 0, to, 0) | v.1 == w.1 ensures v == w {
      var path := VisitHasPath(from, 0, to, 0, v);
      VisitOfPosition(from, to, w, path);
    }
  }

  /** Comparable structs have the same fields under the same names. */
  lemma SameFields(from: Layout, to: Layout, name: string)
    requires Comparable(from, to) && from.StructLayout?
    ensures FieldIndex(from.schema.fields, name) == FieldIndex(to.schema.fields, name)
  {
    var k := FieldIndex(from.schema.fields, name);
    if k.Some? {
      assert to.schema.fields[k.value].name == name;
      FieldIndexOfDistinct(to.schema.fields, k.value);
    } else {
      assert forall j | 0 <= j < |to.schema.fields| :: to.schema.fields[j].name == from.schema.fields[j].name;
    }
  }

  lemma FieldsAreComparable(from: Layout, to: Layout, k: nat)
    requires Comparable(from, to) && from.StructLayout? && k < |from.fields|
    ensures to.StructLayout? && |to.fields| == |from.fields| && Comparable(from.fields[k].layout, to.fields[k].layout)
    ensures to.schema.fields[k].name == from.schema.fields[k].name
  {
  }

  /** Both objects hold the same value at every path the second has; what only the second has is undefined. */
  ghost predicate KeepsValues(o: Object, r: Object)
    requires o.Valid() && r.Valid()
  {
    forall path | Leaf(r.layout, path) :: r.At(path) == o.At(path)
  }

  /** Copying along the visits, to positions undefined before, keeps the values of all common paths. */
  lemma VisitsKeepValues(o: Object, r: Object)
    requires o.Valid() && r.Valid() && Convertible(o.layout, r.layout)
    requires forall v <- Visits(o.layout, 0, r.layout, 0) :: v.0 < o.layout.size && v.1 < r.layout.size
                                                          && r.values[v.1] == o.values[v.0]
    requires forall t | 0 <= t < r.layout.size ::
               (forall v <- Visits(o.layout, 0, r.layout, 0) :: v.1 != t) ==> r.values[t] == None
    ensures KeepsValues(o, r)
  {
    forall path | Leaf(r.layout, path) ensures r.At(path) == o.At(path) {
      LeafWithin(r.layout, path);
      if Leaf(o.layout, path) {
        PathIsVisited(o.layout, 0, r.layout, 0, path);
        var v := (OffsetOf(o.layout, path), OffsetOf(r.layout, path));
        assert v in Visits(o.layout, 0, r.layout, 0);
      } else {
        forall v <- Visits(o.layout, 0, r.layout, 0) ensures v.1 != OffsetOf(r.layout, path) {
          if v.1 == OffsetOf(r.layout, path) {
            VisitOfPosition(o.layout, r.layout, v, path);
          }
        }
      }
    }
  }
}
