/** Compact JSON (sections 4 to 7 of RFC 8259, without white space): the one text a document is written as. The
    byte strings of src/rekor.rs that are hashed or signed are such texts. */
module CompactJson {
  import opened Basics
  import opened TextCodecs

  const COMMA: byte := 44
  const COLON: byte := 58
  const OPEN: byte := 123
  const CLOSE: byte := 125

  /** The kinds of value those texts hold; members keep their order. */
  datatype Document =
    | Text(content: Bytes)
    | Number(n: nat)
    | List(items: seq<Document>)
    | Object(fields: seq<Field>)

  datatype Field = Field(name: Bytes, value: Document)

  function Compact(d: Document): Bytes
    decreases d, 0
  {
    match d
    case Text(content) => JsonString(content)
    case Number(n) => Decimal(n)
    case List(items) => [91] + CompactItems(items) + [93]
    case Object(fields) => [OPEN] + CompactFields(fields) + [CLOSE]
  }

  function CompactItems(items: seq<Document>): Bytes
    decreases items, 1
  {
    if items == [] then []
    else Compact(items[0]) + (if |items| == 1 then [] else [COMMA]) + CompactItems(items[1..])
  }

  function CompactFields(fields: seq<Field>): Bytes
    decreases fields, 1
  {
    if fields == [] then []
    else CompactField(fields[0]) + (if |fields| == 1 then [] else [COMMA]) + CompactFields(fields[1..])
  }

  function CompactField(f: Field): Bytes
    decreases f, 1
  {
    JsonString(f.name) + [COLON] + Compact(f.value)
  }

  // ---- texts written piece by piece ----

  /** The text of some members and the brace that ends their object. */
  function Closed(fields: seq<Field>): Bytes {
    CompactFields(fields) + [CLOSE]
  }

  lemma Regroup(name: Bytes, value: Bytes, separator: Bytes, rest: Bytes)
    ensures name + [COLON] + value + separator + rest == name + ([COLON] + (value + (separator + rest)))
  {
  }

  lemma Regroup3(a: Bytes, b: Bytes, c: Bytes)
    ensures a + b + c == a + (b + c)
  {
  }

  /** A member in front of others. */
  lemma ClosedCons(f: Field, rest: seq<Field>)
    requires rest != []
    ensures Closed([f] + rest) == JsonString(f.name) + ([COLON] + (Compact(f.value) + ([COMMA] + Closed(rest))))
  {
    assert ([f] + rest)[1..] == rest && ([f] + rest)[0] == f;
    assert CompactFields([f] + rest) == CompactField(f) + [COMMA] + CompactFields(rest);
    Regroup3(CompactField(f) + [COMMA], CompactFields(rest), [CLOSE]);
    Regroup(JsonString(f.name), Compact(f.value), [COMMA], Closed(rest));
  }

  lemma RegroupLast(name: Bytes, value: Bytes, end: Bytes)
    ensures name + [COLON] + value + end == name + ([COLON] + (value + end))
  {
  }

  lemma NoMore(a: Bytes)
    ensures a + [] + [] == a
  {
  }

  lemma OneField(f: Field)
    ensures CompactFields([f]) == CompactField(f)
  {
    assert [f][1..] == [];
    NoMore(CompactField(f));
  }

  lemma ClosedOne(f: Field)
    ensures Closed([f]) == JsonString(f.name) + ([COLON] + (Compact(f.value) + [CLOSE]))
  {
    OneField(f);
    RegroupLast(JsonString(f.name), Compact(f.value), [CLOSE]);
  }

  lemma ObjectClosed(fields: seq<Field>)
    ensures Compact(Object(fields)) == [OPEN] + Closed(fields)
  {
  }

  /** A list of one object. */
  lemma OneObject(fields: seq<Field>)
    ensures Compact(List([Object(fields)])) == [91] + ([OPEN] + Closed(fields)) + [93]
  {
    ObjectClosed(fields);
    var items := [Object(fields)];
    assert items[1..] == [] && CompactItems(items) == Compact(items[0]) + [] + [];
  }

  /** A plain name or text is shown between quotes as it is. */
  lemma Quoted(s: Bytes)
    requires Unescaped(s)
    ensures JsonString(s) == [QUOTE] + s + [QUOTE]
  {
    EscapeUnescaped(s);
  }

  lemma FourLiterals(front: string, name: string, back: string)
    ensures Ascii(front + "\"" + name + "\":" + back)
         == Ascii(front) + ([QUOTE] + Ascii(name) + [QUOTE]) + ([COLON] + Ascii(back))
  {
    AsciiTwo("\":");
  }

  /** A member's name as a literal holds it, with the bytes that stand before and after. */
  lemma NameInLiteral(literal: string, front: string, x: Bytes, name: string, back: string, y: Bytes)
    requires forall k :: 0 <= k < |name| ==> 'A' <= name[k] <= 'z' && name[k] != '\\'
    requires literal == front + "\"" + name + "\":" + back && Ascii(front) == x && Ascii(back) == y
    ensures Ascii(literal) == x + JsonString(Ascii(name)) + ([COLON] + y)
  {
    FourLiterals(front, name, back);
    Quoted(Ascii(name));
  }
}
