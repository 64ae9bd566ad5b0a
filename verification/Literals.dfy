/**
 Literals: the tree a nested value is written as, its text, and the object it states. The tree of an object is
 what printing the object writes; an object made from a tree has every array open.
 */
module Literals {
  import opened Basics
  import opened Schemas
  import opened Layouts
  import opened Texts
  import opened ValueTexts

  datatype Literal =
    | Single(value: Value, valueType: ValueType)
    | Array(elements: seq<Literal>)
    | Fields(members: seq<Member>)

  datatype Member = Member(name: string, literal: Literal)

  datatype Fault =
    | ArrayWithoutMembers | UnterminatedArray | IllegalMember | MemberWithoutValue | UnterminatedLiteral
    | FieldWithoutName | DuplicateField | FieldWithoutAssignment | UnterminatedFields | IllegalField
    | UnterminatedString | NoLiteral | TextBesides | NotUniform

  // ---------- the text of a literal ----------

  ghost predicate Representable(literal: Literal, strings: seq<string>) {
    match literal
    case Single(value, t) => value.Some? ==> Represents(value.value, t, strings)
    case Array(elements) => forall e <- elements :: Representable(e, strings)
    case Fields(members) => forall m <- members :: Representable(m.literal, strings)
  }

  function SingleText(value: Value, t: ValueType, strings: seq<string>): string
    requires value.Some? ==> Represents(value.value, t, strings)
  {
    match value
    case None => "undefined"
    case Some(v) => ValueText(v, t, strings)
  }

  ghost function Notation(literal: Literal, strings: seq<string>): string
    requires Representable(literal, strings)
    decreases literal
  {
    match literal
    case Single(value, t) => SingleText(value, t, strings)
    case Array(elements) =>
      if elements == [] then "[ ]" else "[ " + Notation(elements[0], strings) + MoreElements(elements[1..], strings) + " ]"
    case Fields(members) =>
      if members == [] then "{  }" else "{ " + MemberText(members[0], strings) + MoreMembers(members[1..], strings) + " }"
  }

  ghost function MoreElements(elements: seq<Literal>, strings: seq<string>): string
    requires forall e <- elements :: Representable(e, strings)
    decreases elements
  {
    if elements == [] then "" else ", " + Notation(elements[0], strings) + MoreElements(elements[1..], strings)
  }

  ghost function MemberText(m: Member, strings: seq<string>): string
    requires Representable(m.literal, strings)
    decreases m
  {
    m.name + " := " + Notation(m.literal, strings)
  }

  ghost function MoreMembers(members: seq<Member>, strings: seq<string>): string
    requires forall m <- members :: Representable(m.literal, strings)
    decreases members
  {
    if members == [] then "" else ", " + MemberText(members[0], strings) + MoreMembers(members[1..], strings)
  }

  // ---------- the tree of an object ----------

  function TreeOf(l: Layout, values: seq<Value>, offset: nat): Literal
    requires Agrees(l) && offset + l.size <= |values|
    decreases l, 1
  {
    match l
    case SingleLayout(schema, _) => Single(values[offset], schema.valueType)
    case ArrayLayout(_, _, _, count) => Array(ElementTrees(l, values, offset, count))
    case StructLayout(_, _, fields) => Fields(MemberTrees(l, values, offset, |fields|))
  }

  /** Where element i begins within its array. */
  function ElementStart(l: Layout, i: nat): nat
    requires l.ArrayLayout?
  {
    i * l.element.size
  }

  function ElementTrees(l: Layout, values: seq<Value>, offset: nat, n: nat): (r: seq<Literal>)
    requires l.ArrayLayout? && Agrees(l) && offset + l.size <= |values| && n <= l.count
    ensures |r| == n
    decreases l, 0, n
  {
    if n == 0 then []
    else
      ElementSpan(n - 1, l.count, l.element.size);
      ElementTrees(l, values, offset, n - 1) + [TreeOf(l.element, values, offset + ElementStart(l, n - 1))]
  }

  function MemberTrees(l: Layout, values: seq<Value>, offset: nat, n: nat): (r: seq<Member>)
    requires l.StructLayout? && Agrees(l) && offset + l.size <= |values| && n <= |l.fields|
    ensures |r| == n && forall k | 0 <= k < n :: r[k].name == l.schema.fields[k].name
    decreases l, 0, n
  {
    if n == 0 then []
    else
      var field := l.fields[n - 1];
      FieldSpan(l, n - 1);
      MemberTrees(l, values, offset, n - 1)
        + [Member(l.schema.fields[n - 1].name, TreeOf(field.layout, values, offset + field.offset))]
  }

  lemma ElementWithin(l: Layout, i: nat)
    requires l.ArrayLayout? && Agrees(l) && i < l.count
    ensures ElementStart(l, i) + l.element.size == ElementStart(l, i + 1) <= l.size
    ensures ElementStart(l, 0) == 0 && ElementStart(l, l.count) == l.size
  {
    ElementSpan(i, l.count, l.element.size);
  }

  lemma FieldWithin(l: Layout, k: nat)
    requires l.StructLayout? && Agrees(l) && k < |l.fields|
    ensures l.schema.StructSchema? && |l.schema.fields| == |l.fields| && Agrees(l.fields[k].layout)
    ensures l.schema.fields[k].schema == l.fields[k].layout.schema
    ensures l.fields[k].offset == EndOf(l.fields, k)
    ensures EndOf(l.fields, k) + l.fields[k].layout.size == EndOf(l.fields, k + 1) <= l.size
  {
    FieldSpan(l, k);
  }

  lemma {:induction false} ElementTreesExactly(l: Layout, values: seq<Value>, offset: nat, n: nat, i: nat)
    requires l.ArrayLayout? && Agrees(l) && offset + l.size <= |values| && i < n <= l.count
    ensures offset + ElementStart(l, i) + l.element.size <= |values|
    ensures ElementTrees(l, values, offset, n)[i] == TreeOf(l.element, values, offset + ElementStart(l, i))
  {
    hide TreeOf, ElementStart, Agrees;
    PartsAgree(l);
    ElementWithin(l, i);
    if i < n - 1 {
      ElementTreesExactly(l, values, offset, n - 1, i);
    }
  }

  lemma {:induction false} MemberTreesExactly(l: Layout, values: seq<Value>, offset: nat, n: nat, k: nat)
    requires l.StructLayout? && Agrees(l) && offset + l.size <= |values| && k < n <= |l.fields|
    ensures offset + l.fields[k].offset + l.fields[k].layout.size <= |values|
    ensures MemberTrees(l, values, offset, n)[k].literal == TreeOf(l.fields[k].layout, values, offset + l.fields[k].offset)
  {
    hide Agrees, TreeOf;
    FieldWithin(l, k);
    if k < n - 1 {
      MemberTreesExactly(l, values, offset, n - 1, k);
    }
  }

  // ---------- the values of a literal ----------

  function Flat(literal: Literal): seq<Value>
    decreases literal
  {
    match literal
    case Single(value, _) => [value]
    case Array(elements) => FlatElements(elements)
    case Fields(members) => FlatMembers(members)
  }

  function FlatElements(elements: seq<Literal>): seq<Value>
    decreases elements
  {
    if elements == [] then [] else FlatElements(ButLast(elements)) + Flat(Last(elements))
  }

  function FlatMembers(members: seq<Member>): seq<Value>
    decreases members
  {
    if members == [] then [] else FlatMembers(ButLast(members)) + Flat(Last(members).literal)
  }

  /** The values of the tree of an object are those of the object. */
  lemma {:induction false} FlatOfTree(l: Layout, values: seq<Value>, offset: nat)
    requires Agrees(l) && offset + l.size <= |values|
    ensures Flat(TreeOf(l, values, offset)) == values[offset..offset + l.size]
    decreases l, 1
  {
    match l
    case SingleLayout(_, _) =>
    case ArrayLayout(_, _, _, count) => FlatOfElements(l, values, offset, count);
    case StructLayout(_, _, fields) => FlatOfMembers(l, values, offset, |fields|);
  }

  lemma SlicesJoin(values: seq<Value>, a: nat, b: nat, c: nat)
    requires a <= b <= c <= |values|
    ensures values[a..b] + values[b..c] == values[a..c]
  {
  }

  lemma FlatElementsAppend(elements: seq<Literal>, last: Literal)
    ensures FlatElements(elements + [last]) == FlatElements(elements) + Flat(last)
  {
    assert ButLast(elements + [last]) == elements;
  }

  lemma FlatMembersAppend(members: seq<Member>, last: Member)
    ensures FlatMembers(members + [last]) == FlatMembers(members) + Flat(last.literal)
  {
    assert ButLast(members + [last]) == members;
  }

  lemma {:induction false} FlatOfElements(l: Layout, values: seq<Value>, offset: nat, n: nat)
    requires l.ArrayLayout? && Agrees(l) && offset + l.size <= |values| && n <= l.count
    ensures ElementStart(l, n) <= l.size
    ensures FlatElements(ElementTrees(l, values, offset, n)) == values[offset..offset + ElementStart(l, n)]
    decreases l, 0, n
  {
    hide Agrees, TreeOf, Flat, FlatElements, ElementStart;
    if n == 0 {
      NoElements(l);
    } else {
      var start := offset + ElementStart(l, n - 1);
      PartsAgree(l);
      ElementWithin(l, n - 1);
      FlatOfElements(l, values, offset, n - 1);
      FlatOfTree(l.element, values, start);
      FlatElementsAppend(ElementTrees(l, values, offset, n - 1), TreeOf(l.element, values, start));
      SlicesJoin(values, offset, start, start + l.element.size);
    }
  }

  lemma NoElements(l: Layout)
    requires l.ArrayLayout?
    ensures ElementStart(l, 0) == 0 && FlatElements([]) == []
  {
  }

  lemma NoFields(l: Layout)
    requires l.StructLayout?
    ensures EndOf(l.fields, 0) == 0 && FlatMembers([]) == []
  {
  }

  lemma {:induction false} FlatOfMembers(l: Layout, values: seq<Value>, offset: nat, n: nat)
    requires l.StructLayout? && Agrees(l) && offset + l.size <= |values| && n <= |l.fields|
    ensures EndOf(l.fields, n) <= l.size
    ensures FlatMembers(MemberTrees(l, values, offset, n)) == values[offset..offset + EndOf(l.fields, n)]
    decreases l, 0, n
  {
    hide Agrees, TreeOf, Flat, FlatMembers, EndOf;
    if n == 0 {
      NoFields(l);
    } else {
      var field, start := l.fields[n - 1], offset + EndOf(l.fields, n - 1);
      FieldWithin(l, n - 1);
      FlatOfMembers(l, values, offset, n - 1);
      FlatOfTree(field.layout, values, start);
      FlatMembersAppend(MemberTrees(l, values, offset, n - 1),
                        Member(l.schema.fields[n - 1].name, TreeOf(field.layout, values, start)));
      SlicesJoin(values, offset, start, start + field.layout.size);
    }
  }

  // ---------- the layout of a literal ----------

  function LayoutOf(literal: Literal): Result<Layout, Fault>
    decreases literal, 0
  {
    match literal
    case Single(_, t) => Ok(MakeSingle(ValueSchema(t)))
    case Array(elements) =>
      if elements == [] then Err(ArrayWithoutMembers)
      else
        var element :- LayoutOf(elements[0]);
        var _ :- Uniform(elements, element);
        Ok(MakeArray(ArraySchema(element.schema, None), element, |elements|))
    case Fields(members) =>
      var layouts :- LayoutsOfMembers(members);
      Ok(MakeStruct(StructSchema(FieldsOf(members, layouts)), layouts))
  }

  /** All elements have the layout given; the first that has not is refused. */
  function Uniform(elements: seq<Literal>, element: Layout): Result<(), Fault>
    decreases elements, 1
  {
    if elements == [] then Ok(())
    else
      var _ :- Uniform(ButLast(elements), element);
      var last :- LayoutOf(Last(elements));
      if last != element then Err(NotUniform) else Ok(())
  }

  function LayoutsOfMembers(members: seq<Member>): (r: Result<seq<Layout>, Fault>)
    ensures r.Ok? ==> |r.value| == |members|
    decreases members, 1
  {
    if members == [] then Ok([])
    else
      var before :- LayoutsOfMembers(ButLast(members));
      var last :- LayoutOf(Last(members).literal);
      Ok(before + [last])
  }

  function FieldsOf(members: seq<Member>, layouts: seq<Layout>): (fields: seq<Field>)
    requires |members| == |layouts|
    ensures |fields| == |members|
    ensures forall k | 0 <= k < |fields| :: fields[k] == Field(members[k].name, layouts[k].schema)
  {
    seq(|members|, k requires 0 <= k < |members| => Field(members[k].name, layouts[k].schema))
  }

  // ---------- open arrays ----------

  /** The schema with every array open. */
  function Open(s: Schema): Schema {
    match s
    case ValueSchema(_) => s
    case ArraySchema(element, _) => ArraySchema(Open(element), None)
    case StructSchema(fields) =>
      StructSchema(seq(|fields|, k requires 0 <= k < |fields| => Field(fields[k].name, Open(fields[k].schema))))
  }

  /** The layout with every array of its schema open; sizes and offsets are kept. */
  function Opened(l: Layout): (r: Layout)
    ensures r.size == l.size && r.schema == Open(l.schema)
    decreases l
  {
    match l
    case SingleLayout(schema, size) => SingleLayout(Open(schema), size)
    case ArrayLayout(schema, size, element, count) => ArrayLayout(Open(schema), size, Opened(element), count)
    case StructLayout(schema, size, fields) =>
      StructLayout(Open(schema), size,
                   seq(|fields|, k requires 0 <= k < |fields| => FieldLayout(fields[k].offset, Opened(fields[k].layout))))
  }

  lemma {:induction false} ContiguousIsPlaced(fields: seq<FieldLayout>, layouts: seq<Layout>)
    requires Contiguous(fields, |fields|)
    requires |layouts| == |fields| && forall k | 0 <= k < |fields| :: layouts[k] == fields[k].layout
    ensures Placed(layouts) == fields && TotalSize(layouts) == EndOf(fields, |fields|)
  {
    hide Contiguous, EndOf, Placed, TotalSize;
    if fields == [] {
      NothingIsPlaced(fields, layouts);
    } else {
      ContiguousStep(fields);
      PlacedStep(layouts);
      ContiguousIsPlaced(ButLast(fields), ButLast(layouts));
      assert fields == ButLast(fields) + [FieldLayout(Last(fields).offset, Last(fields).layout)];
    }
  }

  lemma NothingIsPlaced(fields: seq<FieldLayout>, layouts: seq<Layout>)
    requires fields == [] && layouts == []
    ensures Placed(layouts) == fields && TotalSize(layouts) == EndOf(fields, |fields|)
  {
  }

  lemma ContiguousStep(fields: seq<FieldLayout>)
    requires fields != [] && Contiguous(fields, |fields|)
    ensures Contiguous(ButLast(fields), |fields| - 1) && Last(fields).offset == EndOf(ButLast(fields), |fields| - 1)
    ensures EndOf(fields, |fields|) == EndOf(ButLast(fields), |fields| - 1) + Last(fields).layout.size
  {
    assert fields == ButLast(fields) + [Last(fields)];
    PrefixEnd(ButLast(fields), [Last(fields)], |fields| - 1);
  }

  lemma PlacedStep(layouts: seq<Layout>)
    requires layouts != []
    ensures Placed(layouts) == Placed(ButLast(layouts)) + [FieldLayout(TotalSize(ButLast(layouts)), Last(layouts))]
    ensures TotalSize(layouts) == TotalSize(ButLast(layouts)) + Last(layouts).size
  {
  }

  lemma {:induction false} OpenedEnd(l: Layout, n: nat)
    requires l.StructLayout? && n <= |l.fields|
    ensures EndOf(Opened(l).fields, n) == EndOf(l.fields, n)
    ensures Contiguous(Opened(l).fields, n) == Contiguous(l.fields, n)
  {
    if n > 0 {
      OpenedEnd(l, n - 1);
    }
  }

  /** Opening the arrays of the schema leaves the layout in agreement with its schema. */
  lemma {:induction false} OpenedAgrees(l: Layout)
    requires Agrees(l)
    ensures Agrees(Opened(l))
  {
    match l
    case SingleLayout(_, _) =>
    case ArrayLayout(_, _, element, _) =>
      OpenedAgrees(element);
    case StructLayout(_, _, fields) =>
      OpenedEnd(l, |fields|);
      forall k | 0 <= k < |fields| ensures Agrees(Opened(fields[k].layout)) {
        OpenedAgrees(fields[k].layout);
      }
  }

  /** Every array of the object has elements. */
  ghost predicate Inhabited(l: Layout) {
    match l
    case SingleLayout(_, _) => true
    case ArrayLayout(_, _, element, count) => count > 0 && Inhabited(element)
    case StructLayout(_, _, fields) => forall k | 0 <= k < |fields| :: Inhabited(fields[k].layout)
  }

  /** The layout determined from the tree of an object is its own, with every array open. */
  lemma {:induction false} LayoutOfTree(l: Layout, values: seq<Value>, offset: nat)
    requires Agrees(l) && Inhabited(l) && offset + l.size <= |values|
    ensures LayoutOf(TreeOf(l, values, offset)) == Ok(Opened(l))
    decreases l, 1
  {
    match l
    case SingleLayout(_, _) =>
    case ArrayLayout(_, _, element, count) =>
      ElementsAreUniform(l, values, offset, count);
      OpenedArray(l);
    case StructLayout(_, _, fields) =>
      MembersAreLaidOut(l, values, offset, |fields|);
      OpenedStruct(l, MemberTrees(l, values, offset, |fields|));
  }

  lemma OpenedArray(l: Layout)
    requires l.ArrayLayout? && Agrees(l)
    ensures MakeArray(ArraySchema(Opened(l.element).schema, None), Opened(l.element), l.count) == Opened(l)
  {
  }

  /** The layouts of the opened fields. */
  function OpenedLayouts(l: Layout, n: nat): (r: seq<Layout>)
    requires l.StructLayout? && n <= |l.fields|
    ensures |r| == n && forall k | 0 <= k < n :: r[k] == Opened(l.fields[k].layout)
  {
    if n == 0 then [] else OpenedLayouts(l, n - 1) + [Opened(l.fields[n - 1].layout)]
  }

  lemma OpenedStruct(l: Layout, members: seq<Member>)
    requires l.StructLayout? && Agrees(l) && |members| == |l.fields|
    requires forall k | 0 <= k < |members| :: members[k].name == l.schema.fields[k].name
    ensures var layouts := OpenedLayouts(l, |l.fields|);
            MakeStruct(StructSchema(FieldsOf(members, layouts)), layouts) == Opened(l)
  {
    hide Agrees, Open, Opened, OpenedLayouts, Placed, TotalSize, Contiguous, EndOf;
    var layouts := OpenedLayouts(l, |l.fields|);
    OpenedEnd(l, |l.fields|);
    StructIsContiguous(l);
    ContiguousIsPlaced(Opened(l).fields, layouts);
    OpenedFields(l, members, layouts);
  }

  lemma StructIsContiguous(l: Layout)
    requires l.StructLayout? && Agrees(l)
    ensures Contiguous(l.fields, |l.fields|) && l.size == EndOf(l.fields, |l.fields|)
    ensures Opened(l).StructLayout? && |Opened(l).fields| == |l.fields|
    ensures forall k | 0 <= k < |l.fields| :: Opened(l).fields[k].layout == Opened(l.fields[k].layout)
  {
  }

  lemma OpenedFields(l: Layout, members: seq<Member>, layouts: seq<Layout>)
    requires l.StructLayout? && Agrees(l) && |members| == |l.fields| == |layouts|
    requires forall k | 0 <= k < |members| ::
               members[k].name == l.schema.fields[k].name && layouts[k] == Opened(l.fields[k].layout)
    ensures StructSchema(FieldsOf(members, layouts)) == Opened(l).schema
  {
    var a, b := FieldsOf(members, layouts), Open(l.schema).fields;
    forall k | 0 <= k < |a| ensures a[k] == b[k] {
      FieldWithin(l, k);
    }
    assert a == b;
  }

  lemma {:induction false} ElementsAreUniform(l: Layout, values: seq<Value>, offset: nat, n: nat)
    requires l.ArrayLayout? && Agrees(l) && Inhabited(l) && offset + l.size <= |values| && n <= l.count
    ensures Uniform(ElementTrees(l, values, offset, n), Opened(l.element)) == Ok(())
    ensures n > 0 ==> LayoutOf(ElementTrees(l, values, offset, n)[0]) == Ok(Opened(l.element))
    decreases l, 0, n
  {
    hide TreeOf, ElementTrees, ElementStart, Opened, LayoutOf, Uniform;
    if n == 0 {
      NoneUniform(Opened(l.element));
    } else {
      ElementWithin(l, n - 1);
      ElementsAreUniform(l, values, offset, n - 1);
      LayoutOfTree(l.element, values, offset + ElementStart(l, n - 1));
      LastOfElements(l, values, offset, n);
      OneMoreUniform(ElementTrees(l, values, offset, n), Opened(l.element));
    }
  }

  lemma NoneUniform(element: Layout)
    ensures Uniform([], element) == Ok(())
  {
  }

  lemma OneMoreUniform(elements: seq<Literal>, element: Layout)
    requires elements != [] && Uniform(ButLast(elements), element) == Ok(()) && LayoutOf(Last(elements)) == Ok(element)
    ensures Uniform(elements, element) == Ok(())
  {
    hide LayoutOf;
  }

  lemma LastOfElements(l: Layout, values: seq<Value>, offset: nat, n: nat)
    requires l.ArrayLayout? && Agrees(l) && offset + l.size <= |values| && 0 < n <= l.count
    requires offset + ElementStart(l, n - 1) + l.element.size <= |values|
    ensures ButLast(ElementTrees(l, values, offset, n)) == ElementTrees(l, values, offset, n - 1)
    ensures Last(ElementTrees(l, values, offset, n)) == TreeOf(l.element, values, offset + ElementStart(l, n - 1))
    ensures n > 1 ==> ElementTrees(l, values, offset, n)[0] == ElementTrees(l, values, offset, n - 1)[0]
  {
    hide TreeOf, ElementStart;
  }

  lemma NoMembersLaidOut()
    ensures LayoutsOfMembers([]) == Ok([])
  {
  }

  lemma LaidOutAfter(members: seq<Member>, m: Member)
    requires LayoutsOfMembers(members).Ok? && LayoutOf(m.literal).Ok?
    ensures LayoutsOfMembers(members + [m]) == Ok(LayoutsOfMembers(members).value + [LayoutOf(m.literal).value])
  {
    assert ButLast(members + [m]) == members;
  }

  lemma InhabitedField(l: Layout, k: nat)
    requires l.StructLayout? && Inhabited(l) && k < |l.fields|
    ensures Inhabited(l.fields[k].layout)
  {
  }

  lemma {:induction false} MembersAreLaidOut(l: Layout, values: seq<Value>, offset: nat, n: nat)
    requires l.StructLayout? && Agrees(l) && Inhabited(l) && offset + l.size <= |values| && n <= |l.fields|
    ensures LayoutsOfMembers(MemberTrees(l, values, offset, n)) == Ok(OpenedLayouts(l, n))
    decreases l, 0, n
  {
    hide TreeOf, Opened, Agrees, EndOf, Inhabited, LayoutOf, LayoutsOfMembers;
    if n == 0 {
      NoMembersLaidOut();
    } else {
      var field := l.fields[n - 1];
      FieldWithin(l, n - 1);
      InhabitedField(l, n - 1);
      MembersAreLaidOut(l, values, offset, n - 1);
      LayoutOfTree(field.layout, values, offset + field.offset);
      LaidOutAfter(MemberTrees(l, values, offset, n - 1),
                   Member(l.schema.fields[n - 1].name, TreeOf(field.layout, values, offset + field.offset)));
    }
  }

  // ---------- a literal is the tree of the object it states ----------

  /** No value with fields names a field twice. */
  ghost predicate Named(literal: Literal) {
    match literal
    case Single(_, _) => true
    case Array(elements) => forall e <- elements :: Named(e)
    case Fields(members) =>
      && (forall i, j | 0 <= i < j < |members| :: members[i].name != members[j].name)
      && forall m <- members :: Named(m.literal)
  }

  lemma {:induction false} UniformExactly(elements: seq<Literal>, element: Layout, i: nat)
    requires Uniform(elements, element).Ok? && i < |elements|
    ensures LayoutOf(elements[i]) == Ok(element)
  {
    if i < |elements| - 1 {
      UniformExactly(ButLast(elements), element, i);
    }
  }

  lemma {:induction false} LayoutsOfMembersExactly(members: seq<Member>, k: nat)
    requires LayoutsOfMembers(members).Ok? && k < |members|
    ensures LayoutOf(members[k].literal) == Ok(LayoutsOfMembers(members).value[k])
  {
    if k < |members| - 1 {
      LayoutsOfMembersExactly(ButLast(members), k);
    }
  }

  /** The layout of a literal agrees with its schema, every array of which is open. */
  lemma {:induction false} LayoutOfAgrees(literal: Literal)
    requires LayoutOf(literal).Ok? && Named(literal)
    ensures var l := LayoutOf(literal).value; Agrees(l) && Opened(l) == l
  {
    var l := LayoutOf(literal).value;
    match literal
    case Single(_, _) =>
    case Array(elements) =>
      LayoutOfAgrees(elements[0]);
    case Fields(members) =>
      var layouts := LayoutsOfMembers(members).value;
      PlacedIsContiguous(layouts);
      forall k | 0 <= k < |layouts| ensures Agrees(layouts[k]) && Opened(layouts[k]) == layouts[k] {
        LayoutsOfMembersExactly(members, k);
        LayoutOfAgrees(members[k].literal);
      }
      MakeStructAgrees(l.schema, layouts);
      assert Opened(l).fields == l.fields;
      assert Open(l.schema).fields == l.schema.fields;
  }

  /** A literal has as many values as its layout has positions. */
  lemma {:induction false} SizeOfFlat(literal: Literal)
    requires LayoutOf(literal).Ok?
    ensures LayoutOf(literal).value.size == |Flat(literal)|
    decreases literal
  {
    match literal
    case Single(_, _) =>
    case Array(elements) =>
      SizeOfElements(elements, LayoutOf(elements[0]).value);
    case Fields(members) =>
      SizeOfMembers(members);
  }

  lemma {:induction false} SizeOfElements(elements: seq<Literal>, element: Layout)
    requires Uniform(elements, element).Ok?
    ensures |FlatElements(elements)| == |elements| * element.size
    decreases elements
  {
    hide Flat, LayoutOf;
    if elements != [] {
      SizeOfElements(ButLast(elements), element);
      SizeOfFlat(Last(elements));
      Multiples(|elements|, element.size);
    }
  }

  lemma Multiples(n: nat, size: nat)
    requires n > 0
    ensures n * size == (n - 1) * size + size
  {
  }

  lemma {:induction false} SizeOfMembers(members: seq<Member>)
    requires LayoutsOfMembers(members).Ok?
    ensures |FlatMembers(members)| == TotalSize(LayoutsOfMembers(members).value)
    decreases members
  {
    if members != [] {
      SizeOfMembers(ButLast(members));
      SizeOfFlat(Last(members).literal);
    }
  }

  /** An object holding the values of a literal, in the layout of the literal, has the literal as its tree. */
  lemma {:induction false} TreeOfFlat(literal: Literal, l: Layout, values: seq<Value>, offset: nat)
    requires LayoutOf(literal) == Ok(l) && Named(literal) && Agrees(l)
    requires offset + l.size <= |values| && Flat(literal) <= values[offset..]
    ensures TreeOf(l, values, offset) == literal
    decreases literal
  {
    match literal
    case Single(_, _) =>
    case Array(elements) =>
      TreesOfElements(elements, l, values, offset);
    case Fields(members) =>
      StructIsLaidOut(literal, l);
      TreesOfMembers(members, l, values, offset);
  }

  lemma {:induction false} TreesOfElements(elements: seq<Literal>, l: Layout, values: seq<Value>, offset: nat)
    requires l.ArrayLayout? && Agrees(l) && |elements| <= l.count && offset + l.size <= |values|
    requires Uniform(elements, l.element).Ok? && forall e <- elements :: Named(e)
    requires FlatElements(elements) <= values[offset..]
    ensures ElementTrees(l, values, offset, |elements|) == elements
    decreases elements
  {
    hide Agrees, TreeOf, Flat, LayoutOf, Named, ElementStart, FlatElements, Uniform, MakeSingle;
    if elements != [] {
      var n, last := |elements| - 1, Last(elements);
      PartsAgree(l);
      ElementWithin(l, n);
      LastElement(elements, l);
      FollowingSlice(FlatElements(ButLast(elements)), Flat(last), values, offset);
      TreesOfElements(ButLast(elements), l, values, offset);
      TreeOfFlat(last, l.element, values, offset + ElementStart(l, n));
      assert ButLast(elements) + [last] == elements;
    }
  }

  lemma LastElement(elements: seq<Literal>, l: Layout)
    requires l.ArrayLayout? && elements != []
    requires Uniform(elements, l.element).Ok? && forall e <- elements :: Named(e)
    ensures Uniform(ButLast(elements), l.element).Ok? && LayoutOf(Last(elements)) == Ok(l.element)
    ensures Named(Last(elements)) && forall e <- ButLast(elements) :: Named(e)
    ensures FlatElements(elements) == FlatElements(ButLast(elements)) + Flat(Last(elements))
    ensures |FlatElements(ButLast(elements))| == ElementStart(l, |elements| - 1)
  {
    SizeOfElements(ButLast(elements), l.element);
  }

  lemma FollowingSlice(before: seq<Value>, part: seq<Value>, values: seq<Value>, offset: nat)
    requires offset <= |values| && before + part <= values[offset..]
    ensures offset + |before| <= |values| && before <= values[offset..] && part <= values[offset + |before|..]
  {
    assert before + part == values[offset..][..|before| + |part|];
    assert part == (before + part)[|before|..];
    assert before == (before + part)[..|before|];
  }

  /** The members have the layouts of the fields, and their names. */
  ghost predicate LaidOut(members: seq<Member>, l: Layout)
    requires l.StructLayout? && l.schema.StructSchema? && |l.schema.fields| == |l.fields|
  {
    && |members| <= |l.fields|
    && forall k | 0 <= k < |members| ::
         && LayoutOf(members[k].literal) == Ok(l.fields[k].layout)
         && members[k].name == l.schema.fields[k].name && Named(members[k].literal)
  }

  lemma StructIsLaidOut(literal: Literal, l: Layout)
    requires literal.Fields? && Named(literal) && LayoutOf(literal) == Ok(l) && Agrees(l)
    ensures l.StructLayout? && LaidOut(literal.members, l) && |literal.members| == |l.fields|
  {
    hide Agrees, Placed, Contiguous, EndOf, TotalSize, LayoutsOfMembers;
    var members := literal.members;
    PlacedIsContiguous(LayoutsOfMembers(members).value);
    forall k | 0 <= k < |members| ensures LayoutOf(members[k].literal) == Ok(l.fields[k].layout) {
      LayoutsOfMembersExactly(members, k);
    }
  }

  lemma LaidOutLast(members: seq<Member>, l: Layout)
    requires l.StructLayout? && Agrees(l) && members != [] && LaidOut(members, l)
    ensures var n := |members| - 1;
            && n < |l.fields| && LayoutOf(Last(members).literal) == Ok(l.fields[n].layout) && LaidOut(ButLast(members), l)
            && Last(members).name == l.schema.fields[n].name && Named(Last(members).literal)
            && FlatMembers(members) == FlatMembers(ButLast(members)) + Flat(Last(members).literal)
            && |Flat(Last(members).literal)| == l.fields[n].layout.size
  {
    SizeOfFlat(Last(members).literal);
  }

  lemma {:induction false} TreesOfMembers(members: seq<Member>, l: Layout, values: seq<Value>, offset: nat)
    requires l.StructLayout? && Agrees(l) && LaidOut(members, l) && |members| <= |l.fields| && offset + l.size <= |values|
    requires FlatMembers(members) <= values[offset..]
    ensures MemberTrees(l, values, offset, |members|) == members
    ensures |FlatMembers(members)| == EndOf(l.fields, |members|)
    decreases members
  {
    hide Agrees, TreeOf, Flat, LayoutOf, Named, LaidOut, EndOf, FlatMembers;
    if members == [] {
      NoFields(l);
    } else {
      var n, last := |members| - 1, Last(members);
      FieldWithin(l, n);
      LaidOutLast(members, l);
      FollowingSlice(FlatMembers(ButLast(members)), Flat(last.literal), values, offset);
      TreesOfMembers(ButLast(members), l, values, offset);
      TreeOfFlat(last.literal, l.fields[n].layout, values, offset + l.fields[n].offset);
      assert ButLast(members) + [last] == members;
    }
  }

  // ---------- printing an object ----------

  /** The members from member k on, with the separator before it. */
  ghost function MembersFrom(members: seq<Member>, k: nat, strings: seq<string>): string
    requires k <= |members| && forall m <- members :: Representable(m.literal, strings)
  {
    if k == |members| then ""
    else (if k == 0 then "" else ", ") + MemberText(members[k], strings) + MoreMembers(members[k + 1..], strings)
  }

  lemma NextMember(members: seq<Member>, k: nat, strings: seq<string>)
    requires k < |members| && forall m <- members :: Representable(m.literal, strings)
    ensures MembersFrom(members, k, strings)
         == (if k == 0 then "" else ", ") + MemberText(members[k], strings) + MembersFrom(members, k + 1, strings)
  {
    hide Representable, MemberText;
    if k + 1 < |members| {
      assert members[k + 1..][1..] == members[k + 2..];
    }
  }

  lemma NextElement(elements: seq<Literal>, i: nat, strings: seq<string>)
    requires i < |elements| && forall e <- elements :: Representable(e, strings)
    ensures MoreElements(elements[i..], strings)
         == ", " + Notation(elements[i], strings) + MoreElements(elements[i + 1..], strings)
  {
    hide Representable, Notation;
    assert elements[i..][1..] == elements[i + 1..];
  }

  lemma ArrayNotation(elements: seq<Literal>, strings: seq<string>)
    requires elements != [] && forall e <- elements :: Representable(e, strings)
    ensures MoreElements(elements, strings) != []
    ensures Notation(Array(elements), strings) == "[" + MoreElements(elements, strings)[1..] + " ]"
    ensures MoreElements(elements[|elements|..], strings) == ""
  {
    hide Representable;
    var first := Notation(elements[0], strings) + MoreElements(elements[1..], strings);
    Regroup(", ", Notation(elements[0], strings), MoreElements(elements[1..], strings));
    Regroup("[ ", Notation(elements[0], strings), MoreElements(elements[1..], strings));
    assert MoreElements(elements, strings)[1..] == " " + first;
    assert "[" + (" " + first) == "[ " + first;
  }

  lemma StructNotation(members: seq<Member>, strings: seq<string>)
    requires forall m <- members :: Representable(m.literal, strings)
    ensures Notation(Fields(members), strings) == "{ " + MembersFrom(members, 0, strings) + " }"
    ensures MembersFrom(members, |members|, strings) == ""
  {
    hide Representable, MemberText;
    if members != [] {
      assert "" + MemberText(members[0], strings) == MemberText(members[0], strings);
      Regroup("{ ", MemberText(members[0], strings), MoreMembers(members[1..], strings));
    }
  }

  method Render(l: Layout, values: seq<Value>, offset: nat, strings: seq<string>) returns (text: string)
    requires Agrees(l) && offset + l.size <= |values|
    requires Representable(TreeOf(l, values, offset), strings)
    ensures text == Notation(TreeOf(l, values, offset), strings)
    decreases l, 1
  {
    if l.ArrayLayout? {
      text := RenderElements(l, values, offset, strings);
    } else if l.SingleLayout? {
      text := SingleText(values[offset], l.schema.valueType, strings);
    } else {
      text := RenderMembers(l, values, offset, strings);
    }
  }

  method RenderElements(l: Layout, values: seq<Value>, offset: nat, strings: seq<string>) returns (text: string)
    requires l.ArrayLayout? && Agrees(l) && offset + l.size <= |values|
    requires Representable(TreeOf(l, values, offset), strings)
    ensures text == Notation(TreeOf(l, values, offset), strings)
    decreases l, 0
  {
    ghost var elements := ElementTrees(l, values, offset, l.count);
    if l.count == 0 {
      return "[ ]";
    }
    text := "";
    assert elements[0..] == elements;
    for i := 0 to l.count
      invariant text + MoreElements(elements[i..], strings) == MoreElements(elements, strings)
    {
      hide TreeOf, Notation, Representable, MoreElements;
      ElementTreesExactly(l, values, offset, l.count, i);
      NextElement(elements, i, strings);
      assert elements[i] in elements;
      var part := Render(l.element, values, offset + ElementStart(l, i), strings);
      Regroup(text, ", " + part, MoreElements(elements[i + 1..], strings));
      text := text + (", " + part);
    }
    ArrayNotation(elements, strings);
    // the separator before the first element gives way to the opening bracket
    text := "[" + text[1..] + " ]";
  }

  method RenderMembers(l: Layout, values: seq<Value>, offset: nat, strings: seq<string>) returns (text: string)
    requires l.StructLayout? && Agrees(l) && offset + l.size <= |values|
    requires Representable(TreeOf(l, values, offset), strings)
    ensures text == Notation(TreeOf(l, values, offset), strings)
    decreases l, 0
  {
    ghost var members := MemberTrees(l, values, offset, |l.fields|);
    text := "{ ";
    StructNotation(members, strings);
    for k := 0 to |l.fields|
      invariant text + MembersFrom(members, k, strings) == "{ " + MembersFrom(members, 0, strings)
    {
      hide TreeOf, Notation, Representable, MembersFrom;
      MemberTreesExactly(l, values, offset, |l.fields|, k);
      NextMember(members, k, strings);
      assert members[k] in members;
      var part := Render(l.fields[k].layout, values, offset + l.fields[k].offset, strings);
      var piece := (if k > 0 then ", " else "") + (l.schema.fields[k].name + " := " + part);
      Regroup(text, piece, MembersFrom(members, k + 1, strings));
      text := text + piece;
    }
    text := text + " }";
  }

  // ---------- writing the values of a literal ----------

  /** Fills the positions of a literal from the offset on, and leaves all others alone. */
  method Flatten(literal: Literal, l: Layout, values: array<Value>, offset: nat)
    requires LayoutOf(literal) == Ok(l) && Named(literal) && Agrees(l) && offset + l.size <= values.Length
    modifies values
    ensures values[..] == old(values[..offset]) + Flat(literal) + old(values[offset + l.size..])
    decreases literal
  {
    hide Agrees, LayoutOf, Named, Flat;
    match literal
    case Single(value, _) =>
      SingleIsLaidOut(literal, l);
      FlattenValue(value, values, offset);
    case Array(elements) =>
      ArrayIsLaidOut(literal, l);
      FlattenElements(elements, l, values, offset);
      FlatEnds(literal, l);
    case Fields(members) =>
      StructIsLaidOut(literal, l);
      FlattenMembers(members, l, values, offset);
      FlatEnds(literal, l);
  }

  lemma FlatEnds(literal: Literal, l: Layout)
    requires LayoutOf(literal) == Ok(l) && Named(literal) && Agrees(l)
    ensures literal.Array? ==> ElementStart(l, l.count) == l.size
    ensures literal.Fields? ==> EndOf(l.fields, |l.fields|) == l.size && Flat(literal) == FlatMembers(literal.members)
  {
  }

  /** A part written after what was written before it. */
  lemma Splice(given: seq<Value>, offset: nat, written: seq<Value>, part: seq<Value>, before: seq<Value>, after: seq<Value>)
    requires offset + |written| + |part| <= |given|
    requires before == given[..offset] + written + given[offset + |written|..]
    requires after == before[..offset + |written|] + part + before[offset + |written| + |part|..]
    ensures after == given[..offset] + (written + part) + given[offset + |written| + |part|..]
  {
    assert before[..offset + |written|] == given[..offset] + written;
    assert before[offset + |written| + |part|..] == given[offset + |written| + |part|..];
  }

  lemma {:induction false} UniformPrefix(elements: seq<Literal>, element: Layout, n: nat)
    requires Uniform(elements, element).Ok? && n <= |elements|
    ensures Uniform(elements[..n], element).Ok?
  {
    if n < |elements| {
      UniformPrefix(ButLast(elements), element, n);
      assert ButLast(elements)[..n] == elements[..n];
    } else {
      assert elements[..n] == elements;
    }
  }

  /** The first elements, and the next. */
  lemma NextFlatElement(elements: seq<Literal>, l: Layout, i: nat)
    requires l.ArrayLayout? && Agrees(l) && |elements| == l.count && i < l.count
    requires Uniform(elements, l.element).Ok? && forall e <- elements :: Named(e)
    ensures LayoutOf(elements[i]) == Ok(l.element) && Named(elements[i]) && Agrees(l.element)
    ensures FlatElements(elements[..i + 1]) == FlatElements(elements[..i]) + Flat(elements[i])
    ensures |FlatElements(elements[..i])| == ElementStart(l, i) && |Flat(elements[i])| == l.element.size
    ensures ElementStart(l, i) + l.element.size == ElementStart(l, i + 1) <= l.size
  {
    hide Uniform, Agrees, Named, FlatElements;
    PartsAgree(l);
    UniformPrefix(elements, l.element, i + 1);
    LastElement(elements[..i + 1], l);
    SizeOfFlat(elements[i]);
    ElementWithin(l, i);
    assert ButLast(elements[..i + 1]) == elements[..i];
  }

  lemma SingleIsLaidOut(literal: Literal, l: Layout)
    requires literal.Single? && LayoutOf(literal) == Ok(l)
    ensures l.size == 1 && Flat(literal) == [literal.value]
  {
  }

  lemma ArrayIsLaidOut(literal: Literal, l: Layout)
    requires literal.Array? && LayoutOf(literal) == Ok(l) && Named(literal)
    ensures l.ArrayLayout? && |literal.elements| == l.count && Flat(literal) == FlatElements(literal.elements)
    ensures Uniform(literal.elements, l.element).Ok? && forall e <- literal.elements :: Named(e)
  {
  }

  method FlattenValue(value: Value, values: array<Value>, offset: nat)
    requires offset < values.Length
    modifies values
    ensures values[..] == old(values[..offset]) + [value] + old(values[offset + 1..])
  {
    values[offset] := value;
  }

  method FlattenElements(elements: seq<Literal>, l: Layout, values: array<Value>, offset: nat)
    requires l.ArrayLayout? && Agrees(l) && |elements| == l.count && offset + l.size <= values.Length
    requires Uniform(elements, l.element).Ok? && forall e <- elements :: Named(e)
    modifies values
    ensures values[..] == old(values[..offset]) + FlatElements(elements) + old(values[offset + ElementStart(l, l.count)..])
    decreases elements
  {
    hide Uniform, Agrees, Named, FlatElements, ElementStart, Flat;
    NoElements(l);
    ghost var given := values[..];
    for i := 0 to |elements|
      invariant ElementStart(l, i) <= l.size
      invariant values[..] == given[..offset] + FlatElements(elements[..i]) + given[offset + ElementStart(l, i)..]
    {
      FlattenElement(elements, l, values, offset, i, given);
    }
    assert elements[..|elements|] == elements;
  }

  /** Writes one more element behind those written, given the values there were before the first. */
  method FlattenElement(elements: seq<Literal>, l: Layout, values: array<Value>, offset: nat, i: nat, ghost given: seq<Value>)
    requires l.ArrayLayout? && Agrees(l) && |elements| == l.count && offset + l.size <= values.Length == |given|
    requires Uniform(elements, l.element).Ok? && (forall e <- elements :: Named(e)) && i < |elements|
    requires ElementStart(l, i) <= l.size
    requires values[..] == given[..offset] + FlatElements(elements[..i]) + given[offset + ElementStart(l, i)..]
    modifies values
    ensures ElementStart(l, i + 1) <= l.size
    ensures values[..] == given[..offset] + FlatElements(elements[..i + 1]) + given[offset + ElementStart(l, i + 1)..]
    decreases elements, 0
  {
    hide Uniform, Agrees, Named, FlatElements, ElementStart, Flat;
    ghost var before := values[..];
    NextFlatElement(elements, l, i);
    Flatten(elements[i], l.element, values, offset + ElementStart(l, i));
    Splice(given, offset, FlatElements(elements[..i]), Flat(elements[i]), before, values[..]);
  }

  lemma LaidOutAt(members: seq<Member>, l: Layout, k: nat)
    requires l.StructLayout? && Agrees(l) && LaidOut(members, l) && k < |members|
    ensures k < |l.fields| && LayoutOf(members[k].literal) == Ok(l.fields[k].layout) && Named(members[k].literal)
  {
  }

  lemma NextFlatMember(members: seq<Member>, l: Layout, k: nat)
    requires l.StructLayout? && Agrees(l) && LaidOut(members, l) && |members| == |l.fields| && k < |members|
    ensures LayoutOf(members[k].literal) == Ok(l.fields[k].layout) && Named(members[k].literal)
    ensures Agrees(l.fields[k].layout) && l.fields[k].offset == EndOf(l.fields, k)
    ensures FlatMembers(members[..k + 1]) == FlatMembers(members[..k]) + Flat(members[k].literal)
    ensures |Flat(members[k].literal)| == l.fields[k].layout.size
    ensures EndOf(l.fields, k) + l.fields[k].layout.size == EndOf(l.fields, k + 1) <= l.size
  {
    hide Agrees, LayoutOf, Flat, FlatMembers, Named, LaidOut, EndOf;
    FieldWithin(l, k);
    LaidOutAt(members, l, k);
    SizeOfFlat(members[k].literal);
    FlatMembersAppend(members[..k], members[k]);
    assert members[..k + 1] == members[..k] + [members[k]];
  }

  method FlattenMembers(members: seq<Member>, l: Layout, values: array<Value>, offset: nat)
    requires l.StructLayout? && Agrees(l) && LaidOut(members, l) && |members| == |l.fields|
    requires offset + l.size <= values.Length
    modifies values
    ensures values[..] == old(values[..offset]) + FlatMembers(members) + old(values[offset + EndOf(l.fields, |l.fields|)..])
    decreases members
  {
    hide Agrees, LaidOut, Named, FlatMembers, Flat, EndOf, LayoutOf;
    NoFields(l);
    ghost var given := values[..];
    for k := 0 to |members|
      invariant EndOf(l.fields, k) <= l.size && |FlatMembers(members[..k])| == EndOf(l.fields, k)
      invariant values[..] == given[..offset] + FlatMembers(members[..k]) + given[offset + EndOf(l.fields, k)..]
    {
      FlattenMember(members, l, values, offset, k, given);
    }
    assert members[..|members|] == members;
  }

  method FlattenMember(members: seq<Member>, l: Layout, values: array<Value>, offset: nat, k: nat, ghost given: seq<Value>)
    requires l.StructLayout? && Agrees(l) && LaidOut(members, l) && k < |members| == |l.fields|
    requires offset + l.size <= values.Length == |given|
    requires EndOf(l.fields, k) <= l.size && |FlatMembers(members[..k])| == EndOf(l.fields, k)
    requires values[..] == given[..offset] + FlatMembers(members[..k]) + given[offset + EndOf(l.fields, k)..]
    modifies values
    ensures EndOf(l.fields, k + 1) <= l.size && |FlatMembers(members[..k + 1])| == EndOf(l.fields, k + 1)
    ensures values[..] == given[..offset] + FlatMembers(members[..k + 1]) + given[offset + EndOf(l.fields, k + 1)..]
    decreases members, 0
  {
    hide Agrees, LaidOut, Named, FlatMembers, Flat, EndOf, LayoutOf;
    ghost var before := values[..];
    NextFlatMember(members, l, k);
    Flatten(members[k].literal, l.fields[k].layout, values, offset + l.fields[k].offset);
    Splice(given, offset, FlatMembers(members[..k]), Flat(members[k].literal), before, values[..]);
  }
}
