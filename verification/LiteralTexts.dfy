/**
 Reading the text of a literal: a scan moving a position through the text and registering the strings it meets. The
 functions state what the scan makes of a text; its methods are proved to compute them.
 */
module LiteralTexts {
  import opened Basics
  import opened Sequences
  import opened Schemas
  import opened Layouts
  import opened Literals
  import opened Texts
  import V = ValueTexts

  /** What is read from the beginning of a text, the text that remains, and the strings registered then. */
  datatype Scanned<+T> = Scanned(value: T, rest: string, strings: seq<string>)

  type Scanning<+T> = Result<Scanned<T>, Literals.Fault>

  // ---------- where members end ----------

  predicate Opens(c: char) { c == '(' || c == '[' || c == '{' }

  predicate Closes(c: char) { c == ')' || c == ']' || c == '}' }

  /** How many characters a member has, given how many brackets are open. */
  function MemberEnd(s: string, depth: nat): (r: Result<nat, Literals.Fault>)
    ensures r.Ok? ==> r.value <= |s|
    decreases |s|
  {
    if s == [] then Ok(0)
    else if s[0] == '"' then
      var quote := V.Find('"', s[1..]);
      if quote == |s| - 1 then Err(UnterminatedString)
      else
        var end :- MemberEnd(s[quote + 2..], depth);
        Ok(quote + 2 + end)
    else if (Closes(s[0]) || s[0] == ',') && depth == 0 then Ok(0)
    else
      var inner: nat := if Opens(s[0]) then depth + 1 else if Closes(s[0]) then depth - 1 else depth;
      var end :- MemberEnd(s[1..], inner);
      Ok(1 + end)
  }

  function TrimRight(s: string): (r: string)
    ensures r <= s
  {
    if s != [] && IsSpace(Last(s)) then TrimRight(ButLast(s)) else s
  }

  function Trim(s: string): string {
    TrimRight(Skip(s))
  }

  /** A brace opens a value with fields if a name and ':=' follow it. */
  predicate FieldsAhead(s: string)
    requires s != []
  {
    var ahead := Skip(s[1..]);
    && ahead != [] && IsNameStart(ahead[0])
    && ":=" <= Skip(ahead[Span(IsNameCharacter, ahead)..])
  }

  predicate IsArray(s: string) { s != [] && s[0] == '[' }

  predicate IsStruct(s: string) { s != [] && s[0] == '{' && FieldsAhead(s) }

  // ---------- what the scan reads ----------

  /** Reads a member that is a single value. */
  function ReadSingle(s: string, closing: char, strings: seq<string>): (r: Scanning<Literal>)
    ensures r.Ok? ==> |r.value.rest| <= |s|
  {
    var end :- MemberEnd(s, 0);
    if end == |s| then Err(UnterminatedLiteral)
    else if s[end] != ',' && s[end] != closing then Err(IllegalMember)
    else
      var member := Trim(s[..end]);
      if member == [] then Err(MemberWithoutValue)
      else match V.ReadScalar(member, strings)
        case None => Err(IllegalMember)
        case Some((scalar, registered)) => Ok(Scanned(Single(Some(scalar.value), scalar.valueType), s[end..], registered))
  }

  function ReadMember(s: string, closing: char, strings: seq<string>): (r: Scanning<Literal>)
    ensures r.Ok? ==> |r.value.rest| <= |s|
    decreases |s|, 1
  {
    if s == [] then Err(UnterminatedLiteral)
    else if IsArray(s) then ReadArray(s, strings)
    else if IsStruct(s) then ReadMembers(s[1..], [], strings)
    else ReadSingle(s, closing, strings)
  }

  function ReadArray(s: string, strings: seq<string>): (r: Scanning<Literal>)
    requires IsArray(s)
    ensures r.Ok? ==> |r.value.rest| < |s|
    decreases |s|, 0
  {
    var inner := Skip(s[1..]);
    if inner != [] && inner[0] == ']' then Err(ArrayWithoutMembers) else ReadElements(inner, [], strings)
  }

  /** Reads the elements following those read so far, and the closing bracket. */
  function ReadElements(s: string, done: seq<Literal>, strings: seq<string>): (r: Scanning<Literal>)
    ensures r.Ok? ==> |r.value.rest| < |s|
    decreases |s|, 3
  {
    var element :- ReadElement(s, strings);
    if element.rest == [] then Err(UnterminatedArray)
    else if element.rest[0] == ',' then ReadElements(element.rest[1..], done + [element.value], element.strings)
    else if element.rest[0] == ']' then
      Ok(Scanned(Array(done + [element.value]), element.rest[1..], element.strings))
    else Err(IllegalMember)
  }

  function ReadElement(s: string, strings: seq<string>): (r: Scanning<Literal>)
    ensures r.Ok? ==> |r.value.rest| <= |s|
    decreases |s|, 2
  {
    var element :- ReadMember(Skip(s), ']', strings);
    Ok(Scanned(element.value, Skip(element.rest), element.strings))
  }

  predicate HasMember(members: seq<Member>, name: string) {
    exists k :: 0 <= k < |members| && members[k].name == name
  }

  /** Reads the fields following those read so far, and the closing brace. */
  function ReadMembers(s: string, done: seq<Member>, strings: seq<string>): (r: Scanning<Literal>)
    ensures r.Ok? ==> |r.value.rest| < |s|
    decreases |s|, 3
  {
    var member :- ReadField(s, done, strings);
    if member.rest == [] then Err(UnterminatedFields)
    else if member.rest[0] == ',' then ReadMembers(member.rest[1..], done + [member.value], member.strings)
    else if member.rest[0] == '}' then
      Ok(Scanned(Fields(done + [member.value]), member.rest[1..], member.strings))
    else Err(IllegalField)
  }

  function ReadField(s: string, done: seq<Member>, strings: seq<string>): (r: Scanning<Member>)
    ensures r.Ok? ==> |r.value.rest| < |s|
    decreases |s|, 2
  {
    var start := Skip(s);
    var n := Span(IsNameCharacter, start);
    var name := start[..n];
    if name == [] then Err(FieldWithoutName)
    else if HasMember(done, name) then Err(DuplicateField)
    else
      var assignment := Skip(start[n..]);
      if !(":=" <= assignment) then Err(FieldWithoutAssignment)
      else
        var literal :- ReadMember(Skip(assignment[2..]), '}', strings);
        Ok(Scanned(Member(name, literal.value), Skip(literal.rest), literal.strings))
  }

  /** The literal of a whole text. */
  function ReadLiteral(s: string, strings: seq<string>): Result<(Literal, seq<string>), Literals.Fault> {
    var start := Skip(s);
    var literal :-
      if IsArray(start) then ReadArray(start, strings)
      else if IsStruct(start) then ReadMembers(start[1..], [], strings)
      else Err(NoLiteral);
    if Skip(literal.rest) != [] then Err(TextBesides) else Ok((literal.value, literal.strings))
  }

  /** The object a text states. */
  function ReadObject(s: string, strings: seq<string>): Result<(Object, seq<string>), Literals.Fault> {
    var (literal, registered) :- ReadLiteral(s, strings);
    var l :- LayoutOf(literal);
    Ok((Object(l, Flat(literal)), registered))
  }

  // ---------- what is read as it is printed ----------

  /**
   The literals a text can state: arrays and values with fields are not empty, names are words, the first of each
   value with fields beginning with a letter, and every value is defined and can be stated by a member.
   */
  ghost predicate Statable(literal: Literal, strings: seq<string>) {
    match literal
    case Single(value, t) => value.Some? && V.Proper(value.value, t, strings)
    case Array(elements) => elements != [] && forall e <- elements :: Statable(e, strings)
    case Fields(members) =>
      && members != [] && IsNameStart(Peek(members[0].name))
      && (forall i, j | 0 <= i < j < |members| :: members[i].name != members[j].name)
      && forall m <- members :: IsWord(m.name) && Statable(m.literal, strings)
  }

  /** Every integer of the literal has 32 bits. */
  ghost predicate WithinRange(literal: Literal) {
    match literal
    case Single(value, t) => value.Some? ==> V.InRange(value.value, t)
    case Array(elements) => forall e <- elements :: WithinRange(e)
    case Fields(members) => forall m <- members :: WithinRange(m.literal)
  }

  lemma {:induction false} StatableIsRepresentable(literal: Literal, strings: seq<string>)
    requires Statable(literal, strings)
    ensures Representable(literal, strings) && Named(literal)
  {
    match literal
    case Single(_, _) =>
    case Array(elements) =>
      forall e <- elements ensures Representable(e, strings) && Named(e) { StatableIsRepresentable(e, strings); }
    case Fields(members) =>
      forall m <- members ensures Representable(m.literal, strings) && Named(m.literal) {
        StatableIsRepresentable(m.literal, strings);
      }
  }

  /** What may follow a member: the next member, or the end of the literal it is a member of. */
  ghost predicate Ends(rest: string, closing: char) {
    && (closing == ']' || closing == '}')
    && rest != [] && (rest[0] == ',' || (|rest| > 1 && rest[0] == ' ' && rest[1] == closing))
  }

  /** A text read to its end, leaving what follows it apart from whitespace. */
  ghost predicate ReadsBack<T>(r: Scanning<T>, value: T, rest: string, strings: seq<string>) {
    r.Ok? && r.value.value == value && r.value.strings == strings && Skip(r.value.rest) == Skip(rest)
  }

  // ---------- a single value ----------

  lemma {:induction false} PlainEnd(member: string, rest: string)
    requires forall c <- member :: IsNameCharacter(c) || c == '-' || c == '.'
    requires MemberEnd(rest, 0).Ok?
    ensures MemberEnd(member + rest, 0) == Ok(|member| + MemberEnd(rest, 0).value)
  {
    if member == [] {
      assert member + rest == rest;
    } else {
      assert (member + rest)[1..] == member[1..] + rest;
      PlainEnd(member[1..], rest);
      assert member[0] in member;
    }
  }

  lemma QuotedEnd(s: string, rest: string)
    requires '"' !in s && MemberEnd(rest, 0).Ok?
    ensures MemberEnd("\"" + s + "\"" + rest, 0) == Ok(|s| + 2 + MemberEnd(rest, 0).value)
  {
    hide *;
    var text := "\"" + s + "\"" + rest;
    QuotedParts(s, rest, text);
    QuoteIsClosed(text, |s|, rest);
  }

  lemma QuotedParts(s: string, rest: string, text: string)
    requires text == "\"" + s + "\"" + rest && '"' !in s
    ensures |text| == |s| + 2 + |rest| && text[0] == '"'
    ensures V.Find('"', text[1..]) == |s|
    ensures text[|s| + 2..] == rest
  {
    hide V.Find;
    V.FindFirst('"', s, rest);
    assert text[1..] == s + ['"'] + rest;
  }

  lemma QuoteIsClosed(text: string, quote: nat, rest: string)
    requires |text| == quote + 2 + |rest| && text[0] == '"' && V.Find('"', text[1..]) == quote
    requires text[quote + 2..] == rest && MemberEnd(rest, 0).Ok?
    ensures MemberEnd(text, 0) == Ok(quote + 2 + MemberEnd(rest, 0).value)
  {
    hide V.Find, MemberEnd;
    QuoteOfMember(text, 0);
  }

  /** The space that may follow a member is trimmed from it. */
  lemma Trimmed(member: string)
    requires member != [] && !IsSpace(member[0]) && !IsSpace(Last(member))
    ensures Trim(member) == member && Trim(member + " ") == member
  {
    assert Last(member + " ") == ' ' && ButLast(member + " ") == member;
  }

  /** The text of a proper value begins and ends as a member, and reaches to what follows it. */
  lemma SingleIsMember(v: int, t: ValueType, rest: string, strings: seq<string>)
    requires V.Proper(v, t, strings) && MemberEnd(rest, 0).Ok?
    ensures var text := V.ValueText(v, t, strings);
            && text != [] && !IsSpace(text[0]) && !IsSpace(Last(text)) && !Opens(text[0]) && !Closes(text[0])
            && MemberEnd(text + rest, 0) == Ok(|text| + MemberEnd(rest, 0).value)
  {
    hide V.NumberOf, V.IntegerText, V.DecimalText, V.ToInt, MemberEnd;
    var text := V.ValueText(v, t, strings);
    if t == STRING {
      QuotedEnd(strings[v / SCALE], rest);
    } else {
      V.ValueTextIsPlain(v, t, strings);
      PlainEnd(text, rest);
      assert text[0] in text && Last(text) in text;
    }
  }

  /** The text of a member ends where what follows it begins, or one space further. */
  lemma RestEnds(rest: string, closing: char)
    requires Ends(rest, closing)
    ensures var end := MemberEnd(rest, 0);
            && end.Ok? && end.value <= 1 && end.value < |rest| && rest[..end.value] == (if end.value == 0 then "" else " ")
            && (rest[end.value] == ',' || rest[end.value] == closing)
            && Skip(rest[end.value..]) == Skip(rest)
  {
    hide Skip;
    if rest[0] != ',' {
      assert rest == " " + rest[1..] && rest[1..][0] == closing;
      SkipsSpace(rest[1..]);
      assert MemberEnd(rest[1..], 0) == Ok(0);
    } else {
      assert rest[0..] == rest;
    }
  }

  lemma SplitsFurther(text: string, rest: string, n: nat)
    requires n <= |rest|
    ensures (text + rest)[..|text| + n] == text + rest[..n] && (text + rest)[|text| + n..] == rest[n..]
  {
  }

  lemma SingleRoundTrip(v: int, t: ValueType, rest: string, closing: char, strings: seq<string>)
    requires Distinct(strings) && V.Proper(v, t, strings) && V.InRange(v, t) && Ends(rest, closing)
    ensures ReadsBack(ReadMember(V.ValueText(v, t, strings) + rest, closing, strings), Single(Some(v), t), rest, strings)
  {
    hide V.ReadScalar, V.ValueText, MemberEnd, Trim, Ends, V.InRange, Skip;
    var text := V.ValueText(v, t, strings);
    RestEnds(rest, closing);
    var end := MemberEnd(rest, 0).value;
    SingleIsMember(v, t, rest, strings);
    Trimmed(text);
    V.ValueRoundTrip(v, t, strings);
    var s := text + rest;
    SplitsFurther(text, rest, end);
    assert text + "" == text;
    assert ReadSingle(s, closing, strings).Ok?;
  }

  // ---------- arrays and values with fields ----------

  /** The text of a literal begins with no whitespace, and with nothing that ends another. */
  lemma NotationBegins(literal: Literal, rest: string, strings: seq<string>)
    requires Statable(literal, strings) && Representable(literal, strings)
    ensures var text := Notation(literal, strings) + rest; text != [] && !IsSpace(text[0]) && text[0] != ']'
  {
    if literal.Single? {
      SingleIsMember(literal.value.value, literal.valueType, ",", strings);
    }
  }

  lemma {:induction false} MemberRoundTrip(literal: Literal, rest: string, closing: char, strings: seq<string>)
    requires Statable(literal, strings) && Representable(literal, strings) && WithinRange(literal)
    requires Distinct(strings) && Ends(rest, closing)
    ensures ReadsBack(ReadMember(Notation(literal, strings) + rest, closing, strings), literal, rest, strings)
    decreases literal, 1
  {
    match literal
    case Single(value, t) => SingleRoundTrip(value.value, t, rest, closing, strings);
    case Array(_) => ArrayRoundTrip(literal, rest, strings);
    case Fields(_) => StructRoundTrip(literal, rest, strings);
  }

  lemma {:induction false} ArrayRoundTrip(literal: Literal, rest: string, strings: seq<string>)
    requires literal.Array? && Statable(literal, strings) && Representable(literal, strings) && WithinRange(literal)
    requires Distinct(strings)
    ensures IsArray(Notation(literal, strings) + rest)
    ensures ReadArray(Notation(literal, strings) + rest, strings) == Ok(Scanned(literal, rest, strings))
    decreases literal, 0
  {
    hide Statable, WithinRange, Representable, Skip, ReadElements, MoreElements;
    var elements := literal.elements;
    PartsOfArray(literal, 0, strings);
    var text := Notation(elements[0], strings) + (MoreElements(elements[1..], strings) + " ]" + rest);
    assert Notation(literal, strings) + rest == ['['] + (" " + text);
    assert (['['] + (" " + text))[1..] == " " + text;
    SkipsSpace(text);
    NotationBegins(elements[0], MoreElements(elements[1..], strings) + " ]" + rest, strings);
    SkipsNothing(text);
    assert elements[..0] == [];
    ElementsRoundTrip(literal, 0, rest, text, strings);
  }

  lemma PartsOfArray(literal: Literal, i: nat, strings: seq<string>)
    requires literal.Array? && Statable(literal, strings) && Representable(literal, strings) && WithinRange(literal)
    requires i < |literal.elements| || i == 0
    ensures literal.elements != [] && (forall e <- literal.elements :: Representable(e, strings))
    ensures Statable(literal.elements[i], strings) && WithinRange(literal.elements[i])
  {
  }

  /** Reading the elements from element i on, those before it having been read. */
  /** The text of further elements is a comma, a space, and the next element. */
  lemma MoreElementsBegin(elements: seq<Literal>, i: nat, rest: string, strings: seq<string>)
    requires i < |elements| && forall e <- elements :: Representable(e, strings)
    ensures
      var more := MoreElements(elements[i..], strings) + " ]" + rest;
      var next := Notation(elements[i], strings) + (MoreElements(elements[i + 1..], strings) + " ]" + rest);
      more == [','] + (" " + next) && more[0] == ',' && more[1..] == " " + next
  {
    hide Representable, Notation;
    assert elements[i..][1..] == elements[i + 1..];
    var next := Notation(elements[i], strings) + (MoreElements(elements[i + 1..], strings) + " ]" + rest);
    assert MoreElements(elements[i..], strings) + " ]" + rest == [','] + (" " + next);
  }

  lemma {:induction false} ElementsRoundTrip(literal: Literal, i: nat, rest: string, text: string, strings: seq<string>)
    requires literal.Array? && Statable(literal, strings) && Representable(literal, strings) && WithinRange(literal)
    requires Distinct(strings) && i < |literal.elements|
    requires Skip(text) == Notation(literal.elements[i], strings)
                         + (MoreElements(literal.elements[i + 1..], strings) + " ]" + rest)
    ensures ReadElements(text, literal.elements[..i], strings) == Ok(Scanned(literal, rest, strings))
    decreases literal, 0, |literal.elements| - i
  {
    hide Statable, WithinRange, Representable, Skip, ReadMember, ReadElements, ReadsBack, Notation, MoreElements;
    var elements := literal.elements;
    PartsOfArray(literal, i, strings);
    var more := MoreElements(elements[i + 1..], strings) + " ]" + rest;
    assert elements[..i] + [elements[i]] == elements[..i + 1];
    if i + 1 < |elements| {
      PartsOfArray(literal, i + 1, strings);
      var next := Notation(elements[i + 1], strings) + (MoreElements(elements[i + 2..], strings) + " ]" + rest);
      MoreElementsBegin(elements, i + 1, rest, strings);
      MemberRoundTrip(elements[i], more, ']', strings);
      NextElementIsRead(text, elements[..i], elements[i], next, strings);
      SkipsSpace(next);
      NotationBegins(elements[i + 1], MoreElements(elements[i + 2..], strings) + " ]" + rest, strings);
      SkipsNothing(next);
      ElementsRoundTrip(literal, i + 1, rest, " " + next, strings);
    } else {
      NoMoreElements(elements[i + 1..], rest, strings);
      MemberRoundTrip(elements[i], more, ']', strings);
      LastElementIsRead(text, elements[..i], elements[i], rest, strings);
      assert elements[..i + 1] == elements;
    }
  }

  lemma NoMoreElements(elements: seq<Literal>, rest: string, strings: seq<string>)
    requires elements == []
    ensures
      var more := MoreElements(elements, strings) + " ]" + rest;
      more == " " + ([']'] + rest) && more[0] == ' ' && more[1] == ']'
  {
  }

  /** An element followed by a comma is read, and then the next one. */
  lemma NextElementIsRead(text: string, done: seq<Literal>, element: Literal, next: string, strings: seq<string>)
    requires ReadsBack(ReadMember(Skip(text), ']', strings), element, [','] + (" " + next), strings)
    ensures ReadElements(text, done, strings) == ReadElements(" " + next, done + [element], strings)
  {
    hide Skip, ReadMember;
    var more := [','] + (" " + next);
    assert more[1..] == " " + next;
    SkipsNothing(more);
  }

  /** An element followed by the closing bracket is read, and the array ends. */
  lemma LastElementIsRead(text: string, done: seq<Literal>, element: Literal, rest: string, strings: seq<string>)
    requires ReadsBack(ReadMember(Skip(text), ']', strings), element, " " + ([']'] + rest), strings)
    ensures ReadElements(text, done, strings) == Ok(Scanned(Array(done + [element]), rest, strings))
  {
    hide Skip, ReadMember;
    var close := [']'] + rest;
    assert close[1..] == rest;
    SkipsSpace(close);
    SkipsNothing(close);
  }

  lemma {:induction false} StructRoundTrip(literal: Literal, rest: string, strings: seq<string>)
    requires literal.Fields? && Statable(literal, strings) && Representable(literal, strings) && WithinRange(literal)
    requires Distinct(strings)
    ensures var text := Notation(literal, strings) + rest;
            IsStruct(text) && ReadMembers(text[1..], [], strings) == Ok(Scanned(literal, rest, strings))
    decreases literal, 0
  {
    hide Statable, WithinRange, Representable, Skip, ReadMembers, MoreMembers, Notation;
    var members := literal.members;
    PartsOfStruct(literal, 0, strings);
    var more := MoreMembers(members[1..], strings) + " }" + rest;
    var text := MemberText(members[0], strings) + more;
    StructBegins(literal, rest, strings);
    assert (['{'] + (" " + text))[1..] == " " + text;
    SkipsSpace(text);
    NameBegins(members[0], more, strings);
    SkipsNothing(text);
    assert members[..0] == [];
    MembersRoundTrip(literal, 0, rest, " " + text, strings);
  }

  lemma StructBegins(literal: Literal, rest: string, strings: seq<string>)
    requires literal.Fields? && literal.members != [] && Representable(literal, strings)
    requires forall m <- literal.members :: Representable(m.literal, strings)
    ensures Notation(literal, strings) + rest
         == ['{'] + (" " + (MemberText(literal.members[0], strings) + (MoreMembers(literal.members[1..], strings) + " }" + rest)))
  {
    hide Representable, MemberText, MoreMembers;
  }

  lemma PartsOfStruct(literal: Literal, k: nat, strings: seq<string>)
    requires literal.Fields? && Statable(literal, strings) && Representable(literal, strings) && WithinRange(literal)
    requires k < |literal.members| || k == 0
    ensures literal.members != [] && (forall m <- literal.members :: Representable(m.literal, strings))
    ensures IsNameStart(Peek(literal.members[0].name))
    ensures var m := literal.members[k]; Statable(m.literal, strings) && WithinRange(m.literal) && IsWord(m.name)
    ensures !HasMember(literal.members[..k], literal.members[k].name)
  {
  }

  /** A name ends where the space before ':=' follows it. */
  lemma NameBegins(m: Member, rest: string, strings: seq<string>)
    requires IsWord(m.name) && Representable(m.literal, strings)
    ensures var text, value := MemberText(m, strings) + rest, Notation(m.literal, strings) + rest;
            && text != [] && !IsSpace(text[0]) && text[0] == m.name[0]
            && Span(IsNameCharacter, text) == |m.name| && text[..|m.name|] == m.name
            && ":=" <= Skip(text[|m.name|..]) && Skip(text[|m.name|..])[2..] == " " + value
  {
    hide Span, Notation, Representable;
    var value := Notation(m.literal, strings) + rest;
    var assignment := ":= " + value;
    assert MemberText(m, strings) + rest == m.name + (" " + assignment);
    SpanOfWord(IsNameCharacter, m.name, " " + assignment);
    SkipsSpace(assignment);
    SkipsNothing(assignment);
    assert m.name[0] in m.name;
  }

  lemma {:induction false} FieldRoundTrip(literal: Literal, k: nat, text: string, rest: string, strings: seq<string>)
    requires literal.Fields? && Statable(literal, strings) && Representable(literal, strings) && WithinRange(literal)
    requires Distinct(strings) && k < |literal.members| && Ends(rest, '}')
    requires Representable(literal.members[k].literal, strings)
    requires Skip(text) == MemberText(literal.members[k], strings) + rest
    ensures ReadField(text, literal.members[..k], strings) == Ok(Scanned(literal.members[k], Skip(rest), strings))
    decreases literal, 0, 0
  {
    hide Statable, WithinRange, Representable, Skip, ReadMember, Notation, HasMember, Span, MemberText, Ends;
    var m := literal.members[k];
    var value := Notation(m.literal, strings) + rest;
    PartsOfStruct(literal, k, strings);
    NameBegins(m, rest, strings);
    SkipsSpace(value);
    NotationBegins(m.literal, rest, strings);
    SkipsNothing(value);
    MemberRoundTrip(m.literal, rest, '}', strings);
  }

  /** Reading the fields from field k on, those before it having been read. */
  lemma {:induction false} MembersRoundTrip(literal: Literal, k: nat, rest: string, text: string, strings: seq<string>)
    requires literal.Fields? && Statable(literal, strings) && Representable(literal, strings) && WithinRange(literal)
    requires Distinct(strings) && k < |literal.members|
    requires forall m <- literal.members :: Representable(m.literal, strings)
    requires Skip(text) == MemberText(literal.members[k], strings)
                         + (MoreMembers(literal.members[k + 1..], strings) + " }" + rest)
    ensures ReadMembers(text, literal.members[..k], strings) == Ok(Scanned(literal, rest, strings))
    decreases literal, 0, |literal.members| - k
  {
    hide Statable, WithinRange, Representable, Skip, ReadField, MemberText;
    var members := literal.members;
    var more := MoreMembers(members[k + 1..], strings) + " }" + rest;
    assert members[..k] + [members[k]] == members[..k + 1];
    if k + 1 < |members| {
      PartsOfStruct(literal, k + 1, strings);
      var next := MemberText(members[k + 1], strings) + (MoreMembers(members[k + 2..], strings) + " }" + rest);
      assert members[k + 1..][1..] == members[k + 2..];
      assert more == [','] + (" " + next);
      assert more[1..] == " " + next;
      SkipsNothing(more);
      FieldRoundTrip(literal, k, text, more, strings);
      SkipsSpace(next);
      NameBegins(members[k + 1], MoreMembers(members[k + 2..], strings) + " }" + rest, strings);
      SkipsNothing(next);
      MembersRoundTrip(literal, k + 1, rest, " " + next, strings);
    } else {
      var close := ['}'] + rest;
      assert more == " " + close && close[1..] == rest;
      SkipsSpace(close);
      SkipsNothing(close);
      FieldRoundTrip(literal, k, text, more, strings);
      assert members[..k + 1] == members;
    }
  }

  // ---------- nothing else is ever read ----------

  lemma {:induction false} StatableLater(literal: Literal, strings: seq<string>, later: seq<string>)
    requires Statable(literal, strings) && strings <= later
    ensures Statable(literal, later)
  {
    match literal
    case Single(_, _) =>
    case Array(elements) =>
      forall e <- elements ensures Statable(e, later) { StatableLater(e, strings, later); }
    case Fields(members) =>
      forall m <- members ensures Statable(m.literal, later) { StatableLater(m.literal, strings, later); }
  }

  /** What was read can be stated, and the strings registered before keep their indices. */
  ghost predicate Keeps(strings: seq<string>, later: seq<string>) {
    strings <= later && Distinct(later)
  }

  lemma ReadSingleIsStatable(s: string, closing: char, strings: seq<string>)
    requires Distinct(strings) && ReadSingle(s, closing, strings).Ok?
    ensures var r := ReadSingle(s, closing, strings).value; Statable(r.value, r.strings) && Keeps(strings, r.strings)
  {
    hide V.ReadScalar, MemberEnd, Trim;
    V.ReadScalarIsProper(Trim(s[..MemberEnd(s, 0).value]), strings);
  }

  lemma {:induction false} ReadMemberIsStatable(s: string, closing: char, strings: seq<string>)
    requires Distinct(strings) && ReadMember(s, closing, strings).Ok?
    ensures var r := ReadMember(s, closing, strings).value; Statable(r.value, r.strings) && Keeps(strings, r.strings)
    decreases |s|, 1
  {
    hide Statable, ReadSingle;
    if IsArray(s) {
      ReadArrayIsStatable(s, strings);
    } else if IsStruct(s) {
      ReadMembersAreStatable(s[1..], [], strings);
    } else {
      ReadSingleIsStatable(s, closing, strings);
    }
  }

  lemma {:induction false} ReadArrayIsStatable(s: string, strings: seq<string>)
    requires IsArray(s) && Distinct(strings) && ReadArray(s, strings).Ok?
    ensures var r := ReadArray(s, strings).value; Statable(r.value, r.strings) && Keeps(strings, r.strings)
    decreases |s|, 0
  {
    hide Statable, ReadElements;
    ReadElementsAreStatable(Skip(s[1..]), [], strings);
  }

  lemma {:induction false} ReadElementsAreStatable(s: string, done: seq<Literal>, strings: seq<string>)
    requires Distinct(strings) && ReadElements(s, done, strings).Ok?
    requires forall e <- done :: Statable(e, strings)
    ensures var r := ReadElements(s, done, strings).value; Statable(r.value, r.strings) && Keeps(strings, r.strings)
    decreases |s|, 2
  {
    hide ReadMember;
    var element := ReadElement(s, strings).value;
    ReadMemberIsStatable(Skip(s), ']', strings);
    forall e <- done ensures Statable(e, element.strings) {
      StatableLater(e, strings, element.strings);
    }
    if element.rest[0] == ',' {
      ReadElementsAreStatable(element.rest[1..], done + [element.value], element.strings);
    }
  }

  /** The fields read so far can be part of a value with fields. */
  ghost predicate StatableFields(members: seq<Member>, strings: seq<string>) {
    && (members != [] ==> IsNameStart(Peek(members[0].name)))
    && (forall i, j | 0 <= i < j < |members| :: members[i].name != members[j].name)
    && forall m <- members :: IsWord(m.name) && Statable(m.literal, strings)
  }

  lemma StatableFieldsLater(members: seq<Member>, strings: seq<string>, later: seq<string>)
    requires StatableFields(members, strings) && strings <= later
    ensures StatableFields(members, later)
  {
    forall m <- members ensures Statable(m.literal, later) {
      StatableLater(m.literal, strings, later);
    }
  }

  lemma {:induction false} ReadMembersAreStatable(s: string, done: seq<Member>, strings: seq<string>)
    requires Distinct(strings) && ReadMembers(s, done, strings).Ok? && StatableFields(done, strings)
    requires done == [] ==> IsNameStart(Peek(Skip(s)))
    ensures var r := ReadMembers(s, done, strings).value; Statable(r.value, r.strings) && Keeps(strings, r.strings)
    decreases |s|, 2
  {
    hide ReadField, StatableFields, Skip;
    var member := ReadField(s, done, strings).value;
    ReadFieldIsStatable(s, done, strings);
    StatableFieldsLater(done, strings, member.strings);
    FieldIsAdded(done, member.value, member.strings);
    if member.rest[0] == ',' {
      ReadMembersAreStatable(member.rest[1..], done + [member.value], member.strings);
    }
  }

  lemma FieldIsAdded(done: seq<Member>, m: Member, strings: seq<string>)
    requires StatableFields(done, strings) && !HasMember(done, m.name)
    requires IsWord(m.name) && Statable(m.literal, strings) && (done == [] ==> IsNameStart(m.name[0]))
    ensures StatableFields(done + [m], strings) && Statable(Fields(done + [m]), strings)
  {
  }

  lemma {:induction false} ReadFieldIsStatable(s: string, done: seq<Member>, strings: seq<string>)
    requires Distinct(strings) && ReadField(s, done, strings).Ok?
    ensures var r := ReadField(s, done, strings).value;
            && IsWord(r.value.name) && r.value.name[0] == Peek(Skip(s)) && !HasMember(done, r.value.name)
            && Statable(r.value.literal, r.strings) && Keeps(strings, r.strings)
    decreases |s|, 1
  {
    hide ReadMember, Statable, HasMember;
    var start := Skip(s);
    var n := Span(IsNameCharacter, start);
    ReadMemberIsStatable(Skip(Skip(start[n..])[2..]), '}', strings);
  }

  // ---------- integers beyond 32 bits ----------

  /** The literal with its integers converted to 32 bits, as they are printed. */
  function Wrapped(literal: Literal): Literal
    decreases literal
  {
    match literal
    case Single(value, t) =>
      if value.Some? && t == INTEGER then Single(Some(V.ToInt(value.value) * SCALE), t) else literal
    case Array(elements) => Array(WrappedElements(elements))
    case Fields(members) => Fields(WrappedMembers(members))
  }

  function WrappedElements(elements: seq<Literal>): (r: seq<Literal>)
    ensures |r| == |elements|
    decreases elements
  {
    if elements == [] then [] else [Wrapped(elements[0])] + WrappedElements(elements[1..])
  }

  function WrappedMembers(members: seq<Member>): (r: seq<Member>)
    ensures |r| == |members| && forall k | 0 <= k < |members| :: r[k].name == members[k].name
    decreases members
  {
    if members == [] then [] else [Member(members[0].name, Wrapped(members[0].literal))] + WrappedMembers(members[1..])
  }

  lemma WrappedOnce(v: int)
    ensures V.ToInt(V.ToInt(v) * SCALE) == V.ToInt(v)
  {
    hide V.ToInt;
    WrappedIsInteger(v);
    V.ToIntIsExact(V.ToInt(v) * SCALE);
  }

  lemma WrappedIsInteger(v: int)
    ensures V.ToInt(v) * SCALE % SCALE == 0 && V.ToInt(v) * SCALE / SCALE == V.ToInt(v)
    ensures -0x8000_0000 <= V.ToInt(v) < 0x8000_0000
  {
    hide V.ToInt;
    V.ToIntWraps(v);
  }

  ghost predicate PrintedAlike(a: Literal, b: Literal, strings: seq<string>) {
    && Representable(a, strings) && Representable(b, strings) && Notation(a, strings) == Notation(b, strings)
    && Statable(a, strings) && WithinRange(a)
  }

  /** A literal is printed like the literal with its integers converted to 32 bits. */
  lemma {:induction false} WrappedIsPrintedAlike(literal: Literal, strings: seq<string>)
    requires Statable(literal, strings) && Representable(literal, strings)
    ensures PrintedAlike(Wrapped(literal), literal, strings)
    decreases literal
  {
    hide Statable, Representable, PrintedAlike;
    match literal
    case Single(value, t) =>
      WrappedSingle(value, t, strings);
    case Array(elements) =>
      ElementsOfStatable(elements, strings);
      WrappedElementsArePrintedAlike(elements, strings);
      WrappedArray(elements, strings);
    case Fields(members) =>
      MembersOfStatable(members, strings);
      WrappedMembersArePrintedAlike(members, strings);
      WrappedFields(members, strings);
  }

  lemma WrappedSingle(value: Value, t: ValueType, strings: seq<string>)
    requires Statable(Single(value, t), strings) && Representable(Single(value, t), strings)
    ensures PrintedAlike(Wrapped(Single(value, t)), Single(value, t), strings)
  {
    hide V.ToInt;
    WrappedOnce(value.value);
    WrappedIsInteger(value.value);
  }

  lemma ElementsOfStatable(elements: seq<Literal>, strings: seq<string>)
    requires Statable(Array(elements), strings) && Representable(Array(elements), strings)
    ensures forall e <- elements :: Statable(e, strings) && Representable(e, strings)
  {
  }

  lemma WrappedArray(elements: seq<Literal>, strings: seq<string>)
    requires Statable(Array(elements), strings) && Representable(Array(elements), strings)
    requires forall e <- WrappedElements(elements) :: Representable(e, strings) && Statable(e, strings) && WithinRange(e)
    requires elements != [] ==>
      && MoreElements(WrappedElements(elements)[1..], strings) == MoreElements(elements[1..], strings)
      && PrintedAlike(WrappedElements(elements)[0], elements[0], strings)
    ensures PrintedAlike(Wrapped(Array(elements)), Array(elements), strings)
  {
    hide WrappedElements;
  }

  lemma MembersOfStatable(members: seq<Member>, strings: seq<string>)
    requires Statable(Fields(members), strings) && Representable(Fields(members), strings)
    ensures forall m <- members :: Statable(m.literal, strings) && Representable(m.literal, strings) && IsWord(m.name)
  {
  }

  lemma WrappedFields(members: seq<Member>, strings: seq<string>)
    requires Statable(Fields(members), strings) && Representable(Fields(members), strings)
    requires forall m <- WrappedMembers(members) ::
               && Representable(m.literal, strings) && Statable(m.literal, strings)
               && WithinRange(m.literal) && IsWord(m.name)
    requires members != [] ==>
      && MoreMembers(WrappedMembers(members)[1..], strings) == MoreMembers(members[1..], strings)
      && PrintedAlike(WrappedMembers(members)[0].literal, members[0].literal, strings)
      && WrappedMembers(members)[0].name == members[0].name
    ensures PrintedAlike(Wrapped(Fields(members)), Fields(members), strings)
  {
    hide WrappedMembers, MoreMembers, PrintedAlike, IsWord, IsNameStart, Peek;
    var wrapped := WrappedMembers(members);
    FieldsAreStatable(members, wrapped, strings);
    assert Wrapped(Fields(members)) == Fields(wrapped);
    FirstIsPrintedAlike(wrapped[0], members[0], strings);
    FieldsArePrintedAlike(wrapped, members, strings);
  }

  lemma FieldsAreStatable(members: seq<Member>, wrapped: seq<Member>, strings: seq<string>)
    requires Statable(Fields(members), strings) && |wrapped| == |members|
    requires forall k | 0 <= k < |members| :: wrapped[k].name == members[k].name
    requires forall m <- wrapped ::
               Representable(m.literal, strings) && Statable(m.literal, strings) && WithinRange(m.literal) && IsWord(m.name)
    ensures Statable(Fields(wrapped), strings) && Representable(Fields(wrapped), strings) && WithinRange(Fields(wrapped))
  {
    hide IsWord, IsNameStart, Peek;
    forall i, j | 0 <= i < j < |wrapped| ensures wrapped[i].name != wrapped[j].name {
      assert members[i].name != members[j].name;
    }
  }

  lemma FirstIsPrintedAlike(a: Member, b: Member, strings: seq<string>)
    requires a.name == b.name && PrintedAlike(a.literal, b.literal, strings)
    ensures Representable(a.literal, strings) && Representable(b.literal, strings)
    ensures MemberText(a, strings) == MemberText(b, strings)
  {
    hide Representable, Notation, Statable, WithinRange;
  }

  lemma FieldsArePrintedAlike(a: seq<Member>, b: seq<Member>, strings: seq<string>)
    requires Statable(Fields(a), strings) && Statable(Fields(b), strings) && WithinRange(Fields(a))
    requires Representable(Fields(a), strings) && Representable(Fields(b), strings)
    requires MemberText(a[0], strings) == MemberText(b[0], strings)
    requires MoreMembers(a[1..], strings) == MoreMembers(b[1..], strings)
    ensures PrintedAlike(Fields(a), Fields(b), strings)
  {
    hide MemberText, MoreMembers, IsWord, IsNameStart, Peek;
    assert a != [] && b != [];
  }

  lemma {:induction false} WrappedElementsArePrintedAlike(elements: seq<Literal>, strings: seq<string>)
    requires forall e <- elements :: Statable(e, strings) && Representable(e, strings)
    ensures forall e <- WrappedElements(elements) :: Representable(e, strings) && Statable(e, strings) && WithinRange(e)
    ensures MoreElements(WrappedElements(elements), strings) == MoreElements(elements, strings)
    ensures elements != [] ==>
      && WrappedElements(elements)[1..] == WrappedElements(elements[1..])
      && MoreElements(WrappedElements(elements)[1..], strings) == MoreElements(elements[1..], strings)
      && PrintedAlike(WrappedElements(elements)[0], elements[0], strings)
    decreases elements
  {
    hide Statable, Representable, Notation, WithinRange, Wrapped;
    if elements != [] {
      assert WrappedElements(elements)[1..] == WrappedElements(elements[1..]);
      assert elements[0] in elements;
      WrappedIsPrintedAlike(elements[0], strings);
      WrappedElementsArePrintedAlike(elements[1..], strings);
    }
  }

  lemma {:induction false} WrappedMembersArePrintedAlike(members: seq<Member>, strings: seq<string>)
    requires forall m <- members :: Statable(m.literal, strings) && Representable(m.literal, strings) && IsWord(m.name)
    ensures forall m <- WrappedMembers(members) ::
              && Representable(m.literal, strings) && Statable(m.literal, strings)
              && WithinRange(m.literal) && IsWord(m.name)
    ensures MoreMembers(WrappedMembers(members), strings) == MoreMembers(members, strings)
    ensures members != [] ==>
      && WrappedMembers(members)[1..] == WrappedMembers(members[1..])
      && MoreMembers(WrappedMembers(members)[1..], strings) == MoreMembers(members[1..], strings)
      && PrintedAlike(WrappedMembers(members)[0].literal, members[0].literal, strings)
      && WrappedMembers(members)[0].name == members[0].name
    decreases members
  {
    hide Statable, Representable, Notation, WithinRange, Wrapped;
    if members != [] {
      assert WrappedMembers(members)[1..] == WrappedMembers(members[1..]);
      assert members[0] in members;
      WrappedIsPrintedAlike(members[0].literal, strings);
      WrappedMembersArePrintedAlike(members[1..], strings);
    }
  }

  // ---------- the round trip ----------

  /** The tree of an object does not depend on which arrays its schema fixes. */
  lemma {:induction false} TreeOfOpened(l: Layout, values: seq<Value>, offset: nat)
    requires Agrees(l) && offset + l.size <= |values|
    ensures Agrees(Opened(l)) && TreeOf(Opened(l), values, offset) == TreeOf(l, values, offset)
    decreases l
  {
    OpenedAgrees(l);
    var a, b := TreeOf(Opened(l), values, offset), TreeOf(l, values, offset);
    match l
    case SingleLayout(_, _) =>
    case ArrayLayout(_, _, element, count) =>
      forall i | 0 <= i < count ensures a.elements[i] == b.elements[i] {
        ElementTreesExactly(l, values, offset, count, i);
        ElementTreesExactly(Opened(l), values, offset, count, i);
        TreeOfOpened(element, values, offset + ElementStart(l, i));
      }
      assert a.elements == b.elements;
    case StructLayout(_, _, fields) =>
      forall k | 0 <= k < |fields| ensures a.members[k] == b.members[k] {
        MemberTreesExactly(l, values, offset, |fields|, k);
        MemberTreesExactly(Opened(l), values, offset, |fields|, k);
        TreeOfOpened(fields[k].layout, values, offset + fields[k].offset);
      }
      assert a.members == b.members;
  }

  lemma {:induction false} StatableIsInhabited(l: Layout, values: seq<Value>, offset: nat, strings: seq<string>)
    requires Agrees(l) && offset + l.size <= |values| && Statable(TreeOf(l, values, offset), strings)
    ensures Inhabited(l)
    decreases l
  {
    var tree := TreeOf(l, values, offset);
    match l
    case SingleLayout(_, _) =>
    case ArrayLayout(_, _, element, count) =>
      ElementTreesExactly(l, values, offset, count, 0);
      assert tree.elements[0] in tree.elements;
      StatableIsInhabited(element, values, offset + ElementStart(l, 0), strings);
    case StructLayout(_, _, fields) =>
      forall k | 0 <= k < |fields| ensures Inhabited(fields[k].layout) {
        MemberTreesExactly(l, values, offset, |fields|, k);
        assert tree.members[k] in tree.members;
        StatableIsInhabited(fields[k].layout, values, offset + fields[k].offset, strings);
      }
  }

  /** A literal that can be stated is read back from its text. */
  lemma LiteralRoundTrip(literal: Literal, strings: seq<string>)
    requires !literal.Single? && Distinct(strings) && Representable(literal, strings)
    requires Statable(literal, strings) && WithinRange(literal)
    ensures ReadLiteral(Notation(literal, strings), strings) == Ok((literal, strings))
  {
    hide Statable, WithinRange, Representable, Notation, ReadLiteral;
    assert Notation(literal, strings) + "" == Notation(literal, strings);
    LiteralIsReadAlone(literal, "", strings);
  }

  /** The text of a literal is read exactly if nothing besides whitespace follows it. */
  lemma LiteralIsReadAlone(literal: Literal, rest: string, strings: seq<string>)
    requires !literal.Single? && Distinct(strings) && Representable(literal, strings)
    requires Statable(literal, strings) && WithinRange(literal)
    ensures ReadLiteral(Notation(literal, strings) + rest, strings)
         == if Skip(rest) == [] then Ok((literal, strings)) else Err(TextBesides)
  {
    hide Statable, WithinRange, Representable, Notation, ReadArray, ReadMembers;
    var text := Notation(literal, strings) + rest;
    NotationBegins(literal, rest, strings);
    SkipsNothing(text);
    if literal.Array? {
      ArrayRoundTrip(literal, rest, strings);
    } else {
      StructRoundTrip(literal, rest, strings);
    }
  }

  /** An array without elements is refused as such. */
  lemma EmptyArrayIsRefused(space: string, rest: string, strings: seq<string>)
    requires forall c <- space :: IsSpace(c)
    ensures ReadLiteral("[" + space + "]" + rest, strings) == Err(ArrayWithoutMembers)
  {
    hide ReadElements, ReadMembers;
    var s := "[" + space + "]" + rest;
    SkipsNothing(s);
    assert s[1..] == space + ("]" + rest);
    SkipsAllSpace(space, "]" + rest);
  }

  lemma ReadLiteralIsStatable(s: string, strings: seq<string>)
    requires Distinct(strings) && ReadLiteral(s, strings).Ok?
    ensures var (literal, later) := ReadLiteral(s, strings).value; Statable(literal, later) && Keeps(strings, later)
  {
    hide Statable, ReadArray, ReadMembers, Skip;
    var start := Skip(s);
    if IsArray(start) {
      ReadArrayIsStatable(start, strings);
    } else {
      ReadMembersAreStatable(start[1..], [], strings);
    }
  }

  /** The text of an object, arrays and structs being printed in brackets and braces. */
  ghost function ObjectText(o: Object, strings: seq<string>): string
    requires o.Valid() && Representable(TreeOf(o.layout, o.values, 0), strings)
  {
    Notation(TreeOf(o.layout, o.values, 0), strings)
  }

  /**
   Reading what printing an object writes gives the same values in the same layout, every array of its schema open,
   and registers no string, exactly if the object is fully defined, none of its arrays and structs is empty, its
   strings have no quotes and its other values are proper values of their types.
   */
  lemma RoundTrip(o: Object, strings: seq<string>)
    requires o.Valid() && !o.layout.SingleLayout? && Distinct(strings)
    requires Representable(TreeOf(o.layout, o.values, 0), strings)
    ensures var tree := TreeOf(o.layout, o.values, 0);
            (ReadObject(ObjectText(o, strings), strings) == Ok((Object(Opened(o.layout), o.values), strings)))
            <==> (Statable(tree, strings) && WithinRange(tree))
    ensures Opened(o.layout).schema == Open(o.layout.schema)
  {
    hide Statable, WithinRange, Representable, Notation, ReadLiteral, Opened, Agrees;
    var tree := TreeOf(o.layout, o.values, 0);
    var text := ObjectText(o, strings);
    FlatOfTree(o.layout, o.values, 0);
    assert o.values[0..o.layout.size] == o.values;
    if Statable(tree, strings) && WithinRange(tree) {
      LiteralRoundTrip(tree, strings);
      StatableIsInhabited(o.layout, o.values, 0, strings);
      LayoutOfTree(o.layout, o.values, 0);
    }
    if ReadObject(text, strings) == Ok((Object(Opened(o.layout), o.values), strings)) {
      ReadBackIsStatable(o, strings);
    }
  }

  lemma ReadBackIsStatable(o: Object, strings: seq<string>)
    requires o.Valid() && !o.layout.SingleLayout? && Distinct(strings)
    requires Representable(TreeOf(o.layout, o.values, 0), strings)
    requires ReadObject(ObjectText(o, strings), strings) == Ok((Object(Opened(o.layout), o.values), strings))
    ensures var tree := TreeOf(o.layout, o.values, 0); Statable(tree, strings) && WithinRange(tree)
  {
    hide Statable, WithinRange, Representable, Notation, ReadLiteral, Opened, Wrapped, Agrees, LayoutOf, Flat, TreeOf;
    var tree := TreeOf(o.layout, o.values, 0);
    var text := ObjectText(o, strings);
    var literal := ReadLiteral(text, strings).value.0;
    ReadLiteralIsStatable(text, strings);
    StatableIsRepresentable(literal, strings);
    TreeOfOpened(o.layout, o.values, 0);
    assert o.values[0..] == o.values;
    TreeOfFlat(literal, Opened(o.layout), o.values, 0);
    assert literal == tree;
    WrappedIsPrintedAlike(tree, strings);
    KindsAreKept(o);
    LiteralRoundTrip(Wrapped(tree), strings);
  }

  lemma KindsAreKept(o: Object)
    requires o.Valid()
    ensures var tree := TreeOf(o.layout, o.values, 0); Wrapped(tree).Single? == tree.Single? == o.layout.SingleLayout?
  {
  }

  // ---------- the scan ----------

  /** The scan returned what is read from a text, has got to what remains and has registered what the text states. */
  ghost predicate Reads<T>(r: Result<T, Literals.Fault>, rest: string, strings: seq<string>, read: Scanning<T>) {
    match read
    case Ok(scanned) => r == Ok(scanned.value) && rest == scanned.rest && strings == scanned.strings
    case Err(e) => r == Err(e)
  }

  /** The end of a member some characters further on. */
  ghost function Further(n: nat, end: Result<nat, Literals.Fault>): Result<nat, Literals.Fault> {
    match end
    case Ok(k) => Ok(n + k)
    case Err(e) => Err(e)
  }

  lemma NextOfMember(n: nat, s: string, depth: nat)
    requires s != []
    ensures var end, c := Further(n, MemberEnd(s, depth)), s[0];
            if c == '"' then
              var quote := V.Find('"', s[1..]);
              if quote == |s| - 1 then end == Err(UnterminatedString)
              else end == Further(n + quote + 2, MemberEnd(s[quote + 2..], depth))
            else if Opens(c) then end == Further(n + 1, MemberEnd(s[1..], depth + 1))
            else if (Closes(c) || c == ',') && depth == 0 then end == Ok(n)
            else if Closes(c) then end == Further(n + 1, MemberEnd(s[1..], depth - 1))
            else end == Further(n + 1, MemberEnd(s[1..], depth))
  {
    hide V.Find, MemberEnd, Opens, Closes;
    FirstOfMember(s, depth);
  }

  lemma FirstOfMember(s: string, depth: nat)
    requires s != []
    ensures var end, c := MemberEnd(s, depth), s[0];
            if c == '"' then
              var quote := V.Find('"', s[1..]);
              if quote == |s| - 1 then end == Err(UnterminatedString)
              else quote + 2 <= |s| && end == Further(quote + 2, MemberEnd(s[quote + 2..], depth))
            else if Opens(c) then end == Further(1, MemberEnd(s[1..], depth + 1))
            else if (Closes(c) || c == ',') && depth == 0 then end == Ok(0)
            else if Closes(c) then end == Further(1, MemberEnd(s[1..], depth - 1))
            else end == Further(1, MemberEnd(s[1..], depth))
  {
    hide V.Find, Opens, Closes, MemberEnd;
    BracketsDiffer(s[0]);
    if s[0] == '"' {
      QuoteOfMember(s, depth);
    } else if !((Closes(s[0]) || s[0] == ',') && depth == 0) {
      CharacterOfMember(s, depth);
    } else {
      SeparatorOfMember(s, depth);
    }
  }

  lemma QuoteOfMember(s: string, depth: nat)
    requires s != [] && s[0] == '"'
    ensures var quote := V.Find('"', s[1..]);
            if quote == |s| - 1 then MemberEnd(s, depth) == Err(UnterminatedString)
            else quote + 2 <= |s| && MemberEnd(s, depth) == Further(quote + 2, MemberEnd(s[quote + 2..], depth))
  {
    hide V.Find, Opens, Closes;
  }

  lemma SeparatorOfMember(s: string, depth: nat)
    requires s != [] && s[0] != '"' && (Closes(s[0]) || s[0] == ',') && depth == 0
    ensures MemberEnd(s, depth) == Ok(0)
  {
    hide V.Find, Opens, Closes;
  }

  lemma CharacterOfMember(s: string, depth: nat)
    requires s != [] && s[0] != '"' && !((Closes(s[0]) || s[0] == ',') && depth == 0)
    ensures var inner: nat := if Opens(s[0]) then depth + 1 else if Closes(s[0]) then depth - 1 else depth;
            MemberEnd(s, depth) == Further(1, MemberEnd(s[1..], inner))
  {
    hide V.Find, Opens, Closes;
  }

  lemma BracketsDiffer(c: char)
    ensures Opens(c) ==> !Closes(c) && c != ','
  {
  }

  lemma NoMember(n: nat, depth: nat)
    ensures Further(n, MemberEnd([], depth)) == Ok(n)
  {
  }

  lemma NoFurther(end: Result<nat, Literals.Fault>)
    ensures Further(0, end) == end
  {
  }

  class Scan {
    const input: string
    var position: nat
    var strings: seq<string>

    constructor (input: string, strings: seq<string>)
      ensures this.input == input && this.strings == strings && Valid() && Rest() == input
    {
      this.input, this.strings, position := input, strings, 0;
    }

    ghost predicate Valid()
      reads this
    {
      position <= |input|
    }

    /** The text not read so far. */
    ghost function Rest(): string
      requires Valid()
      reads this
    {
      input[position..]
    }

    method Advance()
      requires Valid() && Rest() != []
      modifies this`position
      ensures Valid() && Rest() == old(Rest())[1..]
    {
      position := position + 1;
    }

    method SkipSpace()
      requires Valid()
      modifies this`position
      ensures Valid() && Rest() == Skip(old(Rest()))
    {
      while position < |input| && IsSpace(input[position])
        invariant Valid() && Skip(Rest()) == Skip(old(Rest()))
      {
        assert Rest()[1..] == input[position + 1..];
        position := position + 1;
      }
    }

    /** The end of the characters of one kind beginning at a position. */
    method Ahead(kind: char -> bool, start: nat) returns (end: nat)
      requires start <= |input|
      ensures start <= end <= |input| && Span(kind, input[start..]) == end - start
    {
      end := start;
      while end < |input| && kind(input[end])
        invariant start <= end <= |input| && Span(kind, input[start..]) == end - start + Span(kind, input[end..])
      {
        assert input[end..][1..] == input[end + 1..];
        end := end + 1;
      }
    }

    method SpaceAhead(start: nat) returns (end: nat)
      requires start <= |input|
      ensures start <= end <= |input| && input[end..] == Skip(input[start..])
    {
      end := start;
      while end < |input| && IsSpace(input[end])
        invariant start <= end <= |input| && Skip(input[end..]) == Skip(input[start..])
      {
        assert input[end..][1..] == input[end + 1..];
        end := end + 1;
      }
    }

    method FieldsFollow() returns (r: bool)
      requires Valid() && Rest() != []
      ensures r == FieldsAhead(Rest())
    {
      assert Rest()[1..] == input[position + 1..];
      var ahead := SpaceAhead(position + 1);
      if ahead == |input| || !IsNameStart(input[ahead]) {
        return false;
      }
      var end := Ahead(IsNameCharacter, ahead);
      assert input[ahead..][end - ahead..] == input[end..];
      end := SpaceAhead(end);
      r := ":=" <= input[end..];
    }

    method FindQuote(start: nat) returns (quote: nat)
      requires start <= |input|
      ensures start <= quote <= |input| && V.Find('"', input[start..]) == quote - start
    {
      quote := start;
      while quote < |input| && input[quote] != '"'
        invariant start <= quote <= |input| && V.Find('"', input[start..]) == quote - start + V.Find('"', input[quote..])
      {
        assert input[quote..][1..] == input[quote + 1..];
        quote := quote + 1;
      }
    }

    method FindMemberEnd() returns (r: Result<nat, Literals.Fault>)
      requires Valid()
      ensures match MemberEnd(Rest(), 0) case Ok(n) => r == Ok(position + n) case Err(e) => r == Err(e)
      ensures r.Ok? ==> r.value <= |input|
    {
      hide MemberEnd, Further, V.Find;
      var end, depth: nat := position, 0;
      NoFurther(MemberEnd(Rest(), 0));
      while end < |input|
        invariant position <= end <= |input|
        invariant MemberEnd(Rest(), 0) == Further(end - position, MemberEnd(input[end..], depth))
      {
        var c := input[end];
        NextOfMember(end - position, input[end..], depth);
        assert input[end..][1..] == input[end + 1..];
        if c == '"' {
          var quote := FindQuote(end + 1);
          if quote == |input| {
            return Err(UnterminatedString);
          }
          ghost var width := quote - end + 1;
          assert input[end..][width..] == input[quote + 1..];
          end := quote;
        } else if Opens(c) {
          depth := depth + 1;
        } else if Closes(c) {
          if depth == 0 {
            return Ok(end);
          }
          depth := depth - 1;
        } else if c == ',' && depth == 0 {
          return Ok(end);
        }
        end := end + 1;
      }
      assert input[end..] == [];
      NoMember(end - position, depth);
      return Ok(end);
    }

    method ScanSingle(closing: char) returns (r: Result<Literal, Literals.Fault>)
      requires Valid()
      modifies this
      ensures Valid() && Reads(r, Rest(), strings, ReadSingle(old(Rest()), closing, old(strings)))
    {
      var end :- FindMemberEnd();
      var begin := position;
      position := end;
      if position == |input| {
        return Err(UnterminatedLiteral);
      }
      if input[position] != ',' && input[position] != closing {
        return Err(IllegalMember);
      }
      assert input[begin..][..end - begin] == input[begin..end];
      assert input[begin..][end - begin..] == input[end..];
      var member := Trim(input[begin..end]);
      if member == [] {
        return Err(MemberWithoutValue);
      }
      match V.ReadScalar(member, strings)
      case None => return Err(IllegalMember);
      case Some((scalar, registered)) =>
        strings := registered;
        return Ok(Single(Some(scalar.value), scalar.valueType));
    }

    method ScanMember(closing: char) returns (r: Result<Literal, Literals.Fault>)
      requires Valid()
      modifies this
      ensures Valid() && Reads(r, Rest(), strings, ReadMember(old(Rest()), closing, old(strings)))
      decreases |Rest()|, 1
    {
      if position == |input| {
        return Err(UnterminatedLiteral);
      }
      if input[position] == '[' {
        r := ScanArray();
        return;
      }
      var fields := FieldsFollow();
      if input[position] == '{' && fields {
        r := ScanFields();
      } else {
        r := ScanSingle(closing);
      }
    }

    method ScanArray() returns (r: Result<Literal, Literals.Fault>)
      requires Valid() && IsArray(Rest())
      modifies this
      ensures Valid() && Reads(r, Rest(), strings, ReadArray(old(Rest()), old(strings)))
      decreases |Rest()|, 0
    {
      hide ReadElement, Skip;
      Advance();
      SkipSpace();
      if position < |input| && input[position] == ']' {
        return Err(ArrayWithoutMembers);
      }
      var elements: seq<Literal> := [];
      while true
        invariant Valid() && |Rest()| < |old(Rest())|
        invariant ReadArray(old(Rest()), old(strings)) == ReadElements(Rest(), elements, strings)
        decreases |Rest()|
      {
        var element :- ScanElement();
        elements := elements + [element];
        if position == |input| {
          return Err(UnterminatedArray);
        }
        if input[position] == ']' {
          Advance();
          return Ok(Array(elements));
        }
        if input[position] != ',' {
          return Err(IllegalMember);
        }
        Advance();
      }
    }

    method ScanElement() returns (r: Result<Literal, Literals.Fault>)
      requires Valid()
      modifies this
      ensures Valid() && Reads(r, Rest(), strings, ReadElement(old(Rest()), old(strings)))
      decreases |Rest()|, 2
    {
      SkipSpace();
      var element :- ScanMember(']');
      SkipSpace();
      return Ok(element);
    }

    method ScanFields() returns (r: Result<Literal, Literals.Fault>)
      requires Valid() && IsStruct(Rest())
      modifies this
      ensures Valid() && Reads(r, Rest(), strings, ReadMembers(old(Rest())[1..], [], old(strings)))
      decreases |Rest()|, 0
    {
      hide ReadField, FieldsAhead;
      Advance();
      var members: seq<Member> := [];
      while true
        invariant Valid() && |Rest()| < |old(Rest())|
        invariant ReadMembers(old(Rest())[1..], [], old(strings)) == ReadMembers(Rest(), members, strings)
        decreases |Rest()|
      {
        var member :- ScanField(members);
        members := members + [member];
        if position == |input| {
          return Err(UnterminatedFields);
        }
        if input[position] == '}' {
          Advance();
          return Ok(Fields(members));
        }
        if input[position] != ',' {
          return Err(IllegalField);
        }
        Advance();
      }
    }

    method ScanField(done: seq<Member>) returns (r: Result<Member, Literals.Fault>)
      requires Valid()
      modifies this
      ensures Valid() && Reads(r, Rest(), strings, ReadField(old(Rest()), done, old(strings)))
      decreases |Rest()|, 2
    {
      hide ReadMember, Skip, Span, HasMember;
      SkipSpace();
      var begin := position;
      position := Ahead(IsNameCharacter, position);
      var name := input[begin..position];
      assert input[begin..][..position - begin] == name && input[begin..][position - begin..] == Rest();
      if name == [] {
        return Err(FieldWithoutName);
      }
      if HasMember(done, name) {
        return Err(DuplicateField);
      }
      SkipSpace();
      if !(":=" <= input[position..]) {
        return Err(FieldWithoutAssignment);
      }
      assert Rest()[2..] == input[position + 2..];
      position := position + 2;
      SkipSpace();
      var literal :- ScanMember('}');
      SkipSpace();
      return Ok(Member(name, literal));
    }

    method ScanInitializer() returns (r: Result<Literal, Literals.Fault>)
      requires Valid()
      modifies this
      ensures Valid()
      ensures match ReadLiteral(old(Rest()), old(strings))
              case Ok((literal, registered)) => r == Ok(literal) && strings == registered
              case Err(e) => r == Err(e)
    {
      SkipSpace();
      if position == |input| {
        return Err(NoLiteral);
      }
      var fields := FieldsFollow();
      var literal: Literal;
      if input[position] == '[' {
        literal :- ScanArray();
      } else if input[position] == '{' && fields {
        literal :- ScanFields();
      } else {
        return Err(NoLiteral);
      }
      SkipSpace();
      return if position < |input| then Err(TextBesides) else Ok(literal);
    }
  }

  /** Scans a text, determines the layout of its literal and fills an object of that layout. */
  method ScanObject(input: string, strings: seq<string>) returns (r: Result<(Object, seq<string>), Literals.Fault>)
    requires Distinct(strings)
    ensures r == ReadObject(input, strings)
  {
    hide ReadLiteral, LayoutOf, Flat, Statable, Representable, Named, Agrees;
    var scan := new Scan(input, strings);
    var literal :- scan.ScanInitializer();
    var l :- LayoutOf(literal);
    ReadLiteralIsStatable(input, strings);
    StatableIsRepresentable(literal, scan.strings);
    var values := Fill(literal, l);
    return Ok((Object(l, values), scan.strings));
  }

  /** Fills the values of an object of the layout of a literal. */
  method Fill(literal: Literal, l: Layout) returns (flat: seq<Value>)
    requires LayoutOf(literal) == Ok(l) && Named(literal)
    ensures flat == Flat(literal)
  {
    hide LayoutOf, Flat, Named, Agrees;
    LayoutOfAgrees(literal);
    SizeOfFlat(literal);
    var values := new Value[l.size](_ => None);
    Flatten(literal, l, values, 0);
    assert values[..] == Flat(literal);
    return values[..];
  }
}
