/**
 The text notation of schemas: a recursive descent parser moving a position through the text, and the printing of a
 schema. The functions state what the parser makes of a text; the methods of the parser are proved to compute them.
 */
module SchemaTexts {
  import opened Basics
  import opened Schemas
  import opened Texts

  datatype Fault =
    | ExpectedName | ExpectedSize | Expected(character: char)
    | UnknownType | NoField | DuplicateField | ZeroSize | SizeTooLarge | Unexpected

  /** What is read from the beginning of a text, and the text that remains. */
  datatype Parsed<+T> = Parsed(value: T, rest: string)

  type Parse<+T> = Result<Parsed<T>, Fault>

  /** The largest size of an array the parser can read. */
  const MAX_SIZE := 0xFFFF_FFFF_FFFF_FFFF

  /** The size of an array, or none where the array is open. */
  type Dimension = Option<nat>

  // ---------- what the parser reads ----------

  function Expect(c: char, s: string): (r: Result<string, Fault>)
    ensures r.Ok? ==> |r.value| < |s|
  {
    if s != [] && s[0] == c then Ok(s[1..]) else Err(Expected(c))
  }

  function ReadName(s: string): (r: Parse<string>)
    ensures r.Ok? ==> IsName(r.value.value) && |r.value.rest| < |s|
  {
    if !IsNameStart(Peek(s)) then Err(ExpectedName)
    else var n := Span(IsNameCharacter, s); Ok(Parsed(s[..n], s[n..]))
  }

  function TypeOfName(name: string): Result<ValueType, Fault> {
    if name == "boolean" then Ok(BOOLEAN)
    else if name == "integer" then Ok(INTEGER)
    else if name == "decimal" then Ok(DECIMAL)
    else if name == "string" then Ok(STRING)
    else Err(UnknownType)
  }

  function ReadValueType(s: string): (r: Parse<ValueType>)
    ensures r.Ok? ==> |r.value.rest| < |s|
  {
    var name :- ReadName(s);
    var valueType :- TypeOfName(name.value);
    Ok(Parsed(valueType, name.rest))
  }

  function ReadSize(s: string): (r: Parse<nat>)
    ensures r.Ok? ==> |r.value.rest| < |s| && 0 < r.value.value <= MAX_SIZE
  {
    var n := Span(IsDigit, s);
    if n == 0 then Err(ExpectedSize)
    else
      var size := NumeralValue(s[..n]);
      if size > MAX_SIZE then Err(SizeTooLarge)
      else if size == 0 then Err(ZeroSize)
      else Ok(Parsed(size, s[n..]))
  }

  function ReadDimension(s: string): (r: Parse<Dimension>)
    ensures r.Ok? ==> |r.value.rest| < |s|
  {
    var inner :- Expect('[', s);
    var start := Skip(inner);
    var size: Parsed<Dimension> :-
      if Peek(start) == ']' then Ok(Parsed(None, start))
      else match ReadSize(start) case Ok(size) => Ok(Parsed(Some(size.value), size.rest)) case Err(e) => Err(e);
    var rest :- Expect(']', Skip(size.rest));
    Ok(Parsed(size.value, Skip(rest)))
  }

  function ReadDimensions(s: string): (r: Parse<seq<Dimension>>)
    ensures r.Ok? ==> |r.value.rest| <= |s|
    decreases |s|
  {
    if Peek(s) != '[' then Ok(Parsed([], s))
    else
      var first :- ReadDimension(s);
      var more :- ReadDimensions(first.rest);
      Ok(Parsed([first.value] + more.value, more.rest))
  }

  /** The type of arrays of the given dimensions, outermost first, over a type. */
  function ArrayOf(s: Schema, dimensions: seq<Dimension>): Schema {
    if dimensions == [] then s else ArraySchema(ArrayOf(s, dimensions[1..]), dimensions[0])
  }

  predicate HasField(fields: seq<Field>, name: string) {
    exists k :: 0 <= k < |fields| && fields[k].name == name
  }

  function ReadType(s: string): (r: Parse<Schema>)
    ensures r.Ok? ==> |r.value.rest| < |s|
    decreases |s|, 2
  {
    var start := Skip(s);
    var inner: Parsed<Schema> :-
      if Peek(start) == '{' then ReadStruct(start)
      else match ReadValueType(start) case Ok(t) => Ok(Parsed(ValueSchema(t.value), t.rest)) case Err(e) => Err(e);
    var dimensions :- ReadDimensions(Skip(inner.rest));
    Ok(Parsed(ArrayOf(inner.value, dimensions.value), dimensions.rest))
  }

  function ReadStruct(s: string): (r: Parse<Schema>)
    ensures r.Ok? ==> |r.value.rest| < |s|
    decreases |s|, 1
  {
    var inner :- Expect('{', s);
    var start := Skip(inner);
    if Peek(start) == '}' then Err(NoField) else ReadFields(start, [])
  }

  /** Reads a field, of a name no field read so far has. */
  function ReadField(s: string, done: seq<Field>): (r: Parse<Field>)
    ensures r.Ok? ==> |r.value.rest| < |s|
    decreases |s|, 3
  {
    var name :- ReadName(Skip(s));
    if HasField(done, name.value) then Err(DuplicateField)
    else
      var typed :- Expect(':', Skip(name.rest));
      var schema :- ReadType(typed);
      Ok(Parsed(Field(name.value, schema.value), Skip(schema.rest)))
  }

  /** Reads the fields following those read so far, and the closing brace. */
  function ReadFields(s: string, done: seq<Field>): (r: Parse<Schema>)
    ensures r.Ok? ==> |r.value.rest| < |s|
    decreases |s|, 4
  {
    var field :- ReadField(s, done);
    if Peek(field.rest) == ',' then ReadFields(field.rest[1..], done + [field.value])
    else
      var rest :- Expect('}', field.rest);
      Ok(Parsed(StructSchema(done + [field.value]), rest))
  }

  /** The schema a text denotes. */
  function Read(s: string): Result<Schema, Fault> {
    var schema :- ReadType(s);
    if Skip(schema.rest) != [] then Err(Unexpected) else Ok(schema.value)
  }

  // ---------- what is printed ----------

  function TypeName(t: ValueType): string {
    match t
    case BOOLEAN => "boolean"
    case INTEGER => "integer"
    case DECIMAL => "decimal"
    case STRING => "string"
  }

  function DimensionText(size: Dimension): string {
    match size
    case Some(n) => "[" + Numeral(n) + "]"
    case None => "[]"
  }

  function DimensionsText(sizes: seq<Dimension>): string {
    if sizes == [] then "" else DimensionText(sizes[0]) + DimensionsText(sizes[1..])
  }

  /** The dimensions of an array, outermost first, and the type of its innermost elements. */
  function Dimensions(s: Schema): seq<Dimension> {
    if s.ArraySchema? then [s.size] + Dimensions(s.element) else []
  }

  function Innermost(s: Schema): (t: Schema)
    ensures !t.ArraySchema? && (t == s || t < s)
  {
    if s.ArraySchema? then Innermost(s.element) else s
  }

  function Notation(s: Schema): string
    decreases s, 1
  {
    InnerText(Innermost(s)) + DimensionsText(Dimensions(s))
  }

  function InnerText(s: Schema): string
    requires !s.ArraySchema?
    decreases s, 0
  {
    if s.ValueSchema? then TypeName(s.valueType) else "{ " + FieldsText(s.fields) + " }"
  }

  function FieldText(f: Field): string
    decreases f
  {
    f.name + ": " + Notation(f.schema)
  }

  function FieldsText(fields: seq<Field>): string
    decreases fields
  {
    if fields == [] then "" else FieldText(fields[0]) + MoreText(fields[1..])
  }

  function MoreText(fields: seq<Field>): string
    decreases fields
  {
    if fields == [] then "" else ", " + FieldText(fields[0]) + MoreText(fields[1..])
  }

  // ---------- the round trip ----------

  /** The schemas a text can denote: structs have fields, of distinct names, and sizes are positive. */
  ghost predicate Printable(s: Schema) {
    match s
    case ValueSchema(_) => true
    case ArraySchema(element, size) => Printable(element) && (size.Some? ==> 0 < size.value <= MAX_SIZE)
    case StructSchema(fields) =>
      && fields != [] && DistinctNames(fields)
      && forall k | 0 <= k < |fields| :: IsName(fields[k].name) && Printable(fields[k].schema)
  }

  /** What may follow the notation of a schema: the end of the text, the next field, or the end of a struct. */
  ghost predicate Ends(rest: string) {
    rest == [] || rest[0] == ',' || (|rest| > 1 && rest[0] == ' ' && rest[1] == '}')
  }

  lemma NameRoundTrip(name: string, rest: string)
    requires IsName(name) && (rest != [] ==> !IsNameCharacter(rest[0]))
    ensures ReadName(name + rest) == Ok(Parsed(name, rest))
  {
    SpanOfWord(IsNameCharacter, name, rest);
  }

  lemma ValueTypeRoundTrip(t: ValueType, rest: string)
    requires rest != [] ==> !IsNameCharacter(rest[0])
    ensures ReadValueType(TypeName(t) + rest) == Ok(Parsed(t, rest))
  {
    NameRoundTrip(TypeName(t), rest);
  }

  lemma SizeRoundTrip(n: nat, rest: string)
    requires 0 < n <= MAX_SIZE && (rest != [] ==> !IsDigit(rest[0]))
    ensures ReadSize(Numeral(n) + rest) == Ok(Parsed(n, rest))
    ensures IsDigit((Numeral(n) + rest)[0])
  {
    hide Span, NumeralValue, Numeral;
    NumeralRoundTrip(n);
    assert Numeral(n)[0] in Numeral(n);
    SpanOfWord(IsDigit, Numeral(n), rest);
  }

  /** Where the expected character is next, it is read. */
  lemma ExpectedIsRead(c: char, rest: string)
    ensures Expect(c, [c] + rest) == Ok(rest) && Peek([c] + rest) == c && ([c] + rest)[1..] == rest
    ensures !IsSpace(c) ==> Skip([c] + rest) == [c] + rest
  {
  }

  lemma FixedDimension(n: nat, rest: string)
    ensures DimensionText(Some(n)) + rest == ['['] + (Numeral(n) + ("]" + rest))
  {
    hide Numeral;
    Regroup("[" + Numeral(n), "]", rest);
    Regroup("[", Numeral(n), "]" + rest);
  }

  lemma DimensionRoundTrip(size: Dimension, rest: string)
    requires size.Some? ==> 0 < size.value <= MAX_SIZE
    ensures ReadDimension(DimensionText(size) + rest) == Ok(Parsed(size, Skip(rest)))
    ensures Peek(DimensionText(size) + rest) == '['
  {
    hide ReadSize, Numeral, Skip, Expect, DimensionText;
    var close := "]" + rest;
    ExpectedIsRead(']', rest);
    SkipsNothing(close);
    if size.None? {
      OpenDimension(rest);
      ExpectedIsRead('[', close);
    } else {
      var inner := Numeral(size.value) + close;
      FixedDimension(size.value, rest);
      ExpectedIsRead('[', inner);
      SizeRoundTrip(size.value, close);
      DigitsAreDistinguished(inner[0]);
      SkipsNothing(inner);
    }
  }

  lemma OpenDimension(rest: string)
    ensures DimensionText(None) + rest == ['['] + ("]" + rest)
    ensures !IsSpace(']') && !IsSpace('[')
  {
  }

  lemma {:induction false} DimensionsRoundTrip(sizes: seq<Dimension>, rest: string)
    requires forall size <- sizes :: size.Some? ==> 0 < size.value <= MAX_SIZE
    requires Ends(rest)
    ensures ReadDimensions(Skip(DimensionsText(sizes) + rest)) == Ok(Parsed(sizes, Skip(rest)))
  {
    hide ReadDimension, ReadDimensions, Skip, DimensionText;
    if sizes == [] {
      assert DimensionsText(sizes) + rest == rest;
      NoDimensionFollows(rest);
    } else {
      hide Ends;
      var text := DimensionText(sizes[0]) + (DimensionsText(sizes[1..]) + rest);
      Regroup(DimensionText(sizes[0]), DimensionsText(sizes[1..]), rest);
      DimensionRoundTrip(sizes[0], DimensionsText(sizes[1..]) + rest);
      SkipsNothing(text);
      DimensionsRoundTrip(sizes[1..], rest);
      DimensionIsRead(text);
      assert [sizes[0]] + sizes[1..] == sizes;
    }
  }

  lemma NoDimensionFollows(rest: string)
    requires Ends(rest)
    ensures ReadDimensions(Skip(rest)) == Ok(Parsed([], Skip(rest)))
  {
  }

  lemma DimensionIsRead(s: string)
    requires Peek(s) == '[' && ReadDimension(s).Ok? && ReadDimensions(ReadDimension(s).value.rest).Ok?
    ensures var first, more := ReadDimension(s).value, ReadDimensions(ReadDimension(s).value.rest).value;
            ReadDimensions(s) == Ok(Parsed([first.value] + more.value, more.rest))
  {
  }

  lemma {:induction false} InnermostOfDimensions(s: Schema)
    requires Printable(s)
    ensures ArrayOf(Innermost(s), Dimensions(s)) == s && Printable(Innermost(s))
    ensures forall size <- Dimensions(s) :: size.Some? ==> 0 < size.value <= MAX_SIZE
  {
    if s.ArraySchema? {
      InnermostOfDimensions(s.element);
    }
  }

  /** What follows the innermost type: the dimensions, or what follows the notation. */
  lemma DimensionsBegin(sizes: seq<Dimension>, rest: string)
    requires Ends(rest)
    ensures var more := DimensionsText(sizes) + rest; more != [] ==> !IsNameCharacter(more[0])
  {
    if sizes != [] {
      assert DimensionText(sizes[0])[0] == '[';
    }
  }

  lemma {:induction false} TypeRoundTrip(s: Schema, rest: string)
    requires Printable(s) && Ends(rest)
    ensures ReadType(Notation(s) + rest) == Ok(Parsed(s, Skip(rest)))
    decreases s, 1
  {
    hide Dimensions, ReadDimensions, ReadType, ReadStruct, Skip, Innermost, DimensionsText, Ends, Printable, ReadValueType;
    hide ArrayOf, InnerText, TypeName;
    var t, sizes := Innermost(s), Dimensions(s);
    var more := DimensionsText(sizes) + rest;
    InnermostOfDimensions(s);
    DimensionsRoundTrip(sizes, rest);
    DimensionsBegin(sizes, rest);
    var text := InnerText(t) + more;
    Regroup(InnerText(t), DimensionsText(sizes), rest);
    if t.ValueSchema? {
      ValueTextBegins(t, more);
      ValueTypeRoundTrip(t.valueType, more);
      SkipsNothing(text);
    } else {
      StructRoundTrip(t, more);
      SkipsNothing(text);
    }
    TypeIsRead(text, t, more, sizes, rest);
  }

  lemma ValueTextBegins(t: Schema, more: string)
    requires t.ValueSchema?
    ensures InnerText(t) == TypeName(t.valueType)
    ensures var text := InnerText(t) + more; text != [] && !IsSpace(text[0]) && Peek(text) != '{'
  {
  }

  /** The innermost type is read, and then the dimensions. */
  lemma TypeIsRead(text: string, t: Schema, more: string, sizes: seq<Dimension>, rest: string)
    requires Skip(text) == text && ReadDimensions(Skip(more)) == Ok(Parsed(sizes, Skip(rest)))
    requires if Peek(text) == '{' then ReadStruct(text) == Ok(Parsed(t, more))
             else t.ValueSchema? && ReadValueType(text) == Ok(Parsed(t.valueType, more))
    ensures ReadType(text) == Ok(Parsed(ArrayOf(t, sizes), Skip(rest)))
  {
    hide Skip, ReadDimensions, ReadStruct, ReadValueType, ArrayOf;
  }

  lemma {:induction false} StructRoundTrip(s: Schema, rest: string)
    requires s.StructSchema? && Printable(s)
    ensures ReadStruct(InnerText(s) + rest) == Ok(Parsed(s, rest))
    ensures Peek(InnerText(s) + rest) == '{'
    decreases s, 0
  {
    hide FieldText, MoreText, Skip, ReadFields;
    var fields := s.fields;
    var text := FieldText(fields[0]) + (MoreText(fields[1..]) + " }" + rest);
    var inner := " " + text;
    assert InnerText(s) + rest == ['{'] + inner;
    ExpectedIsRead('{', inner);
    SkipsSpace(text);
    FieldBegins(fields[0], MoreText(fields[1..]) + " }" + rest);
    SkipsNothing(text);
    FieldsRoundTrip(s, 0, rest, text);
  }

  lemma FieldBegins(field: Field, rest: string)
    requires IsName(field.name)
    ensures var text := FieldText(field) + rest; text != [] && IsNameStart(text[0])
  {
    assert FieldText(field) + rest == field.name + (": " + Notation(field.schema) + rest);
  }

  /** Reading the fields from field k on, those before it having been read. */
  lemma {:induction false} FieldsRoundTrip(s: Schema, k: nat, rest: string, text: string)
    requires s.StructSchema? && Printable(s) && k < |s.fields|
    requires Skip(text) == FieldText(s.fields[k]) + (MoreText(s.fields[k + 1..]) + " }" + rest)
    ensures ReadFields(text, s.fields[..k]) == Ok(Parsed(s, rest))
    decreases s, 0, |s.fields| - k
  {
    hide FieldText, ReadField, Skip, Printable;
    var fields := s.fields;
    var more := MoreText(fields[k + 1..]) + " }" + rest;
    FieldRoundTrip(s, k, text, more);
    assert fields[..k] + [fields[k]] == fields[..k + 1];
    if k + 1 < |fields| {
      var next := FieldText(fields[k + 1]) + (MoreText(fields[k + 2..]) + " }" + rest);
      assert fields[k + 1..][1..] == fields[k + 2..];
      assert more == [','] + (" " + next);
      ExpectedIsRead(',', " " + next);
      SkipsSpace(next);
      FieldIsNamed(s, k + 1);
      FieldBegins(fields[k + 1], MoreText(fields[k + 2..]) + " }" + rest);
      SkipsNothing(next);
      FieldsRoundTrip(s, k + 1, rest, " " + next);
    } else {
      assert more == " " + (['}'] + rest);
      ExpectedIsRead('}', rest);
      SkipsSpace(['}'] + rest);
      assert fields[..k + 1] == fields;
    }
  }

  lemma FieldIsNamed(s: Schema, k: nat)
    requires s.StructSchema? && Printable(s) && k < |s.fields|
    ensures IsName(s.fields[k].name) && Printable(s.fields[k].schema)
    ensures !HasField(s.fields[..k], s.fields[k].name)
  {
  }

  lemma {:induction false} FieldRoundTrip(s: Schema, k: nat, text: string, rest: string)
    requires s.StructSchema? && Printable(s) && k < |s.fields| && Ends(rest)
    requires Skip(text) == FieldText(s.fields[k]) + rest
    ensures ReadField(text, s.fields[..k]) == Ok(Parsed(s.fields[k], Skip(rest)))
    decreases s, 0, 0
  {
    hide Skip, Printable, HasField, ReadType, ReadName, Notation, Ends;
    var field := s.fields[k];
    var typed := Notation(field.schema) + rest;
    var tail := " " + typed;
    FieldIsNamed(s, k);
    assert FieldText(field) + rest == field.name + ([':'] + tail);
    NameRoundTrip(field.name, [':'] + tail);
    ExpectedIsRead(':', tail);
    SkipsSpace(typed);
    TypeRoundTrip(field.schema, rest);
    LeadingSpace(typed);
    SkipsNothing(Skip(rest));
  }

  lemma LeadingSpace(s: string)
    ensures ReadType(" " + s) == ReadType(s)
  {
    hide ReadStruct, ReadDimensions, ReadValueType, Skip;
    SkipsSpace(s);
  }

  /** No text denotes a schema that cannot be printed. */
  lemma {:induction false} ReadTypeIsPrintable(s: string)
    ensures ReadType(s).Ok? ==> Printable(ReadType(s).value.value)
    decreases |s|, 2
  {
    if ReadType(s).Ok? {
      var start := Skip(s);
      if Peek(start) == '{' {
        var inner := ReadStruct(start).value;
        ReadFieldsArePrintable(Skip(Expect('{', start).value), []);
        DimensionsArePrintable(inner.value, Skip(inner.rest));
      } else {
        var inner := ReadValueType(start).value;
        DimensionsArePrintable(ValueSchema(inner.value), Skip(inner.rest));
      }
    }
  }

  lemma {:induction false} DimensionsArePrintable(s: Schema, text: string)
    requires Printable(s)
    ensures var r := ReadDimensions(text); r.Ok? ==> Printable(ArrayOf(s, r.value.value))
    decreases |text|
  {
    if ReadDimensions(text).Ok? && Peek(text) == '[' {
      DimensionsArePrintable(s, ReadDimension(text).value.rest);
    }
  }

  lemma {:induction false} ReadFieldsArePrintable(s: string, done: seq<Field>)
    requires DistinctNames(done) && forall f <- done :: IsName(f.name) && Printable(f.schema)
    ensures ReadFields(s, done).Ok? ==> Printable(ReadFields(s, done).value.value)
    decreases |s|, 3
  {
    if ReadFields(s, done).Ok? {
      var field := ReadField(s, done).value;
      ReadFieldIsPrintable(s, done);
      if Peek(field.rest) == ',' {
        ReadFieldsArePrintable(field.rest[1..], done + [field.value]);
      }
    }
  }

  lemma {:induction false} ReadFieldIsPrintable(s: string, done: seq<Field>)
    ensures var r := ReadField(s, done);
            r.Ok? ==> IsName(r.value.value.name) && Printable(r.value.value.schema) && !HasField(done, r.value.value.name)
    decreases |s|, 2
  {
    if ReadField(s, done).Ok? {
      var name := ReadName(Skip(s)).value;
      ReadTypeIsPrintable(Expect(':', Skip(name.rest)).value);
    }
  }

  /** A schema is read back from its notation exactly if it is printable, and nothing else is ever read. */
  lemma RoundTrip(s: Schema)
    ensures Read(Notation(s)) == Ok(s) <==> Printable(s)
  {
    hide Notation, ReadType, Printable;
    if Printable(s) {
      TypeRoundTrip(s, "");
      assert Notation(s) + "" == Notation(s);
    } else if Read(Notation(s)) == Ok(s) {
      ReadTypeIsPrintable(Notation(s));
    }
  }

  /** A schema is read only if nothing besides whitespace follows it. */
  lemma TextBesidesIsRefused(s: Schema, rest: string)
    requires Printable(s) && Ends(rest) && rest != []
    ensures Read(Notation(s) + rest) == Err(Unexpected)
  {
    hide Notation, ReadType, Printable;
    TypeRoundTrip(s, rest);
    if rest[0] == ' ' {
      SkipsAllSpace(rest[..1], rest[1..]);
      assert rest[..1] + rest[1..] == rest;
    }
  }

  /** A struct without fields is refused as such. */
  lemma EmptyStructIsRefused(space: string, rest: string)
    requires forall c <- space :: IsSpace(c)
    ensures Read("{" + space + "}" + rest) == Err(NoField)
  {
    hide ReadFields;
    var s := "{" + space + "}" + rest;
    SkipsNothing(s);
    assert s[1..] == space + ("}" + rest);
    SkipsAllSpace(space, "}" + rest);
    assert ReadStruct(s) == Err(NoField);
    assert ReadType(s) == Err(NoField);
  }

  // ---------- the parser ----------

  /** The parser returned what is read from a text, and has got to what remains; or it failed for the same reason. */
  ghost predicate Agrees<T>(r: Result<T, Fault>, rest: string, read: Parse<T>) {
    match read
    case Ok(parsed) => r == Ok(parsed.value) && rest == parsed.rest
    case Err(e) => r == Err(e)
  }

  /** The dimensions read first, and those read afterwards. */
  ghost function Following(sizes: seq<Dimension>, read: Parse<seq<Dimension>>): Parse<seq<Dimension>> {
    match read
    case Ok(more) => Ok(Parsed(sizes + more.value, more.rest))
    case Err(e) => Err(e)
  }

  lemma FollowingNothing(read: Parse<seq<Dimension>>)
    ensures Following([], read) == read
  {
    assert read.Ok? ==> [] + read.value.value == read.value.value;
  }

  lemma FollowingNext(sizes: seq<Dimension>, s: string)
    requires Peek(s) == '['
    ensures match ReadDimension(s)
            case Ok(first) => Following(sizes, ReadDimensions(s)) == Following(sizes + [first.value], ReadDimensions(first.rest))
            case Err(e) => Following(sizes, ReadDimensions(s)) == Err(e)
  {
    hide ReadDimension;
    if ReadDimension(s).Ok? && ReadDimensions(ReadDimension(s).value.rest).Ok? {
      var first, more := ReadDimension(s).value, ReadDimensions(ReadDimension(s).value.rest).value.value;
      assert sizes + ([first.value] + more) == sizes + [first.value] + more;
    }
  }

  lemma FollowingLast(sizes: seq<Dimension>, s: string)
    requires Peek(s) != '['
    ensures Following(sizes, ReadDimensions(s)) == Ok(Parsed(sizes, s))
  {
    assert sizes + [] == sizes;
  }

  class SchemaParser {
    const text: string
    var position: nat

    constructor (text: string)
      ensures this.text == text && Valid() && Rest() == text
    {
      this.text, position := text, 0;
    }

    ghost predicate Valid()
      reads this
    {
      position <= |text|
    }

    /** The text not read so far. */
    ghost function Rest(): string
      requires Valid()
      reads this
    {
      text[position..]
    }

    method Next() returns (c: char)
      requires Valid()
      ensures c == Peek(Rest())
    {
      c := if position < |text| then text[position] else '\0';
    }

    method SkipWhitespace()
      requires Valid()
      modifies this
      ensures Valid() && Rest() == Skip(old(Rest()))
    {
      while position < |text| && IsSpace(text[position])
        invariant Valid() && Skip(Rest()) == Skip(old(Rest()))
      {
        assert Rest()[1..] == text[position + 1..];
        position := position + 1;
      }
    }

    method ExpectNext(c: char) returns (r: Result<(), Fault>)
      requires Valid()
      modifies this
      ensures Valid()
      ensures match Expect(c, old(Rest())) case Ok(rest) => r == Ok(()) && Rest() == rest case Err(e) => r == Err(e)
    {
      if position == |text| || text[position] != c {
        return Err(Expected(c));
      }
      assert Rest()[1..] == text[position + 1..];
      position := position + 1;
      return Ok(());
    }

    /** Moves past the characters that are all of a kind. */
    method Take(kind: char -> bool) returns (word: string)
      requires Valid()
      modifies this
      ensures Valid()
      ensures var n := Span(kind, old(Rest())); word == old(Rest())[..n] && Rest() == old(Rest())[n..]
    {
      var start := position;
      while position < |text| && kind(text[position])
        invariant start <= position <= |text|
        invariant Span(kind, text[start..]) == position - start + Span(kind, Rest())
      {
        assert Rest()[1..] == text[position + 1..];
        position := position + 1;
      }
      word := text[start..position];
    }

    method ParseName() returns (r: Result<string, Fault>)
      requires Valid()
      modifies this
      ensures Valid() && Agrees(r, Rest(), ReadName(old(Rest())))
    {
      var c := Next();
      if !IsNameStart(c) {
        return Err(ExpectedName);
      }
      var name := Take(IsNameCharacter);
      return Ok(name);
    }

    method ParseValueType() returns (r: Result<ValueType, Fault>)
      requires Valid()
      modifies this
      ensures Valid() && Agrees(r, Rest(), ReadValueType(old(Rest())))
    {
      var name :- ParseName();
      r := TypeOfName(name);
    }

    method ParseSize() returns (r: Result<nat, Fault>)
      requires Valid()
      modifies this
      ensures Valid() && Agrees(r, Rest(), ReadSize(old(Rest())))
    {
      var digits := Take(IsDigit);
      if digits == "" {
        return Err(ExpectedSize);
      }
      var size := NumeralValue(digits);
      if size > MAX_SIZE {
        return Err(SizeTooLarge);
      }
      if size == 0 {
        return Err(ZeroSize);
      }
      return Ok(size);
    }

    method ParseDimension() returns (r: Result<Dimension, Fault>)
      requires Valid() && Peek(Rest()) == '['
      modifies this
      ensures Valid() && Agrees(r, Rest(), ReadDimension(old(Rest())))
    {
      assert Rest()[1..] == text[position + 1..];
      position := position + 1;
      SkipWhitespace();
      var size: Dimension := None;
      var c := Next();
      if c != ']' {
        var n :- ParseSize();
        size := Some(n);
      }
      SkipWhitespace();
      var _ :- ExpectNext(']');
      SkipWhitespace();
      return Ok(size);
    }

    method ParseType() returns (r: Result<Schema, Fault>)
      requires Valid()
      modifies this
      ensures Valid() && Agrees(r, Rest(), ReadType(old(Rest())))
      decreases |Rest()|, 1
    {
      SkipWhitespace();
      var schema: Schema;
      var c := Next();
      if c == '{' {
        schema :- ParseObject();
      } else {
        var valueType :- ParseValueType();
        schema := ValueSchema(valueType);
      }
      SkipWhitespace();
      var sizes :- ParseDimensions();
      // BuildArrays starts with the last dimension
      schema := BuildArrays(schema, sizes);
      return Ok(schema);
    }

    method ParseDimensions() returns (r: Result<seq<Dimension>, Fault>)
      requires Valid()
      modifies this
      ensures Valid() && Agrees(r, Rest(), ReadDimensions(old(Rest())))
    {
      hide ReadDimension, ReadDimensions, Following;
      var sizes: seq<Dimension> := [];
      FollowingNothing(ReadDimensions(Rest()));
      var c := Next();
      while c == '['
        invariant Valid() && c == Peek(Rest())
        invariant ReadDimensions(old(Rest())) == Following(sizes, ReadDimensions(Rest()))
        decreases |Rest()|
      {
        FollowingNext(sizes, Rest());
        var size :- ParseDimension();
        sizes := sizes + [size];
        c := Next();
      }
      FollowingLast(sizes, Rest());
      return Ok(sizes);
    }

    static method BuildArrays(inner: Schema, sizes: seq<Dimension>) returns (schema: Schema)
      ensures schema == ArrayOf(inner, sizes)
    {
      schema := inner;
      var n := |sizes|;
      assert sizes[0..] == sizes;
      while n > 0
        invariant 0 <= n <= |sizes| && ArrayOf(inner, sizes[n..]) == schema
      {
        n := n - 1;
        schema := ArraySchema(schema, sizes[n]);
        assert sizes[n..][1..] == sizes[n + 1..];
      }
    }

    method ParseObject() returns (r: Result<Schema, Fault>)
      requires Valid()
      modifies this
      ensures Valid() && Agrees(r, Rest(), ReadStruct(old(Rest())))
      decreases |Rest()|, 0
    {
      hide ReadField, Skip;
      var _ :- ExpectNext('{');
      SkipWhitespace();
      var c := Next();
      if c == '}' {
        return Err(NoField);
      }
      var fields: seq<Field> := [];
      while true
        invariant Valid() && ReadStruct(old(Rest())) == ReadFields(Rest(), fields)
        invariant |Rest()| < |old(Rest())|
        decreases |Rest()|
      {
        var field :- ParseField(fields);
        fields := fields + [field];
        c := Next();
        if c != ',' {
          var _ :- ExpectNext('}');
          return Ok(StructSchema(fields));
        }
        assert Rest()[1..] == text[position + 1..];
        position := position + 1;
      }
    }

    method ParseField(done: seq<Field>) returns (r: Result<Field, Fault>)
      requires Valid()
      modifies this
      ensures Valid() && Agrees(r, Rest(), ReadField(old(Rest()), done))
      decreases |Rest()|, 2
    {
      SkipWhitespace();
      var name :- ParseName();
      if HasField(done, name) {
        return Err(DuplicateField);
      }
      SkipWhitespace();
      var _ :- ExpectNext(':');
      var schema :- ParseType();
      SkipWhitespace();
      return Ok(Field(name, schema));
    }

    method ExpectEnd() returns (r: Result<(), Fault>)
      requires Valid()
      modifies this
      ensures Valid() && r == if Skip(old(Rest())) == "" then Ok(()) else Err(Unexpected)
    {
      SkipWhitespace();
      return if position == |text| then Ok(()) else Err(Unexpected);
    }
  }

  /** Parses a text stating a schema and nothing besides whitespace. */
  method ParseSchema(text: string) returns (r: Result<Schema, Fault>)
    ensures r == Read(text)
  {
    var parser := new SchemaParser(text);
    var schema :- parser.ParseType();
    var _ :- parser.ExpectEnd();
    return Ok(schema);
  }

  /** The dimensions of a schema, outermost first, and the type of its innermost elements. */
  method WalkDimensions(s: Schema) returns (sizes: string, current: Schema)
    ensures sizes == DimensionsText(Dimensions(s)) && current == Innermost(s)
  {
    sizes, current := "", s;
    while current.ArraySchema?
      invariant sizes + DimensionsText(Dimensions(current)) == DimensionsText(Dimensions(s))
      invariant Innermost(current) == Innermost(s)
      decreases current
    {
      assert Dimensions(current)[1..] == Dimensions(current.element);
      Regroup(sizes, DimensionText(current.size), DimensionsText(Dimensions(current.element)));
      sizes := sizes + DimensionText(current.size);
      current := current.element;
    }
  }

  method Stringify(s: Schema) returns (text: string)
    ensures text == Notation(s)
    decreases s
  {
    hide Dimensions, DimensionsText, Innermost;
    var sizes, current := WalkDimensions(s);
    if current.ValueSchema? {
      text := TypeName(current.valueType);
    } else {
      text := StringifyFields(current.fields);
    }
    text := text + sizes;
  }

  /** The text of the fields from field i on, with the separator before it. */
  function FieldsFrom(fields: seq<Field>, i: nat): string
    requires i <= |fields|
  {
    if i == 0 then FieldsText(fields) else MoreText(fields[i..])
  }

  function Separator(i: nat): string { if i == 0 then "" else ", " }

  lemma NextField(fields: seq<Field>, i: nat)
    requires i < |fields|
    ensures FieldsFrom(fields, i) == Separator(i) + FieldText(fields[i]) + FieldsFrom(fields, i + 1)
  {
    hide FieldText;
    assert fields[i..][1..] == fields[i + 1..];
    assert "" + FieldText(fields[i]) == FieldText(fields[i]);
  }

  method StringifyFields(fields: seq<Field>) returns (text: string)
    ensures text == "{ " + FieldsText(fields) + " }"
    decreases fields
  {
    hide FieldsFrom, Notation, Separator;
    text := "{ ";
    FieldsTextIsAll(fields);
    for i := 0 to |fields|
      invariant text + FieldsFrom(fields, i) == "{ " + FieldsText(fields)
    {
      var part := Stringify(fields[i].schema);
      NextField(fields, i);
      var piece := Separator(i) + (fields[i].name + ": " + part);
      Regroup(text, piece, FieldsFrom(fields, i + 1));
      text := text + piece;
    }
    text := text + " }";
  }

  lemma FieldsTextIsAll(fields: seq<Field>)
    ensures FieldsFrom(fields, 0) == FieldsText(fields) && FieldsFrom(fields, |fields|) == ""
  {
  }
}
