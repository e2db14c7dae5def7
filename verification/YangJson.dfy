// JSON values with insertion-ordered objects, and their schema-less image in CBOR.

module YangJson {
  import Cbor
  import T = YangText

  datatype Json =
    | JNull
    | JBool(b: bool)
    | JNum(n: int)
    | JFraction(text: string)
    | JStr(s: string)
    | JArr(items: seq<Json>)
    | JObj(fields: seq<Field>)

  datatype Field = Field(key: string, val: Json)

  /** The first field with this key, as its index; the number of fields when there is none. */
  function KeyIndex(fields: seq<Field>, key: string): (i: nat)
    ensures i <= |fields| && (i < |fields| ==> fields[i].key == key)
    ensures forall j :: 0 <= j < i ==> fields[j].key != key
  {
    if fields == [] || fields[0].key == key then 0
    else
      var i := KeyIndex(fields[1..], key);
      assert forall j :: 1 <= j < i + 1 ==> fields[j] == fields[1..][j - 1];
      i + 1
  }

  predicate HasKey(fields: seq<Field>, key: string) {
    KeyIndex(fields, key) < |fields|
  }

  /** A key already there gets the new value in its place; a new one goes to the end. */
  function Insert(fields: seq<Field>, f: Field): seq<Field> {
    var i := KeyIndex(fields, f.key);
    if i < |fields| then fields[i := f] else fields + [f]
  }

  predicate DistinctKeys(fields: seq<Field>) {
    forall i, j :: 0 <= i < j < |fields| ==> fields[i].key != fields[j].key
  }

  /** The schema-less image of a value; numbers that are not integers become text. */
  function Generic(v: Json): Cbor.Value
    decreases v, 1
  {
    match v
    case JNull => Cbor.Null
    case JBool(b) => Cbor.Bool(b)
    case JNum(n) => Cbor.Integer(n)
    case JFraction(text) => Cbor.Text(text)
    case JStr(s) => Cbor.Text(s)
    case JArr(items) => Cbor.Array(Generics(items))
    case JObj(fields) => Cbor.Map(GenericFields(fields))
  }

  function Generics(items: seq<Json>): seq<Cbor.Value>
    decreases items, 0
  {
    if items == [] then [] else [Generic(items[0])] + Generics(items[1..])
  }

  function GenericFields(fields: seq<Field>): seq<Cbor.Entry>
    decreases fields, 0
  {
    if fields == [] then [] else [GenericField(fields[0])] + GenericFields(fields[1..])
  }

  function GenericField(f: Field): Cbor.Entry
    decreases f, 2
  {
    Cbor.Entry(Cbor.Text(f.key), Generic(f.val))
  }

  // ---------------------------------------------------------------- JSON text

  function HexChar(d: nat): char
    requires d < 16
  {
    if d < 10 then '0' + d as char else 'a' + (d - 10) as char
  }

  /** One character inside a JSON string. */
  function EscapeChar(c: char): string {
    if c == '\"' then "\\\""
    else if c == '\\' then "\\\\"
    else if c == 8 as char then "\\b"
    else if c == '\t' then "\\t"
    else if c == '\n' then "\\n"
    else if c == 12 as char then "\\f"
    else if c == '\r' then "\\r"
    else if c < ' ' then "\\u00" + [HexChar(c as int / 16), HexChar(c as int % 16)]
    else [c]
  }

  function EscapeText(s: string): string {
    if s == "" then "" else EscapeChar(s[0]) + EscapeText(s[1..])
  }

  function Quoted(s: string): string {
    "\"" + EscapeText(s) + "\""
  }

  /** A value as JSON text, without white space. */
  function JsonText(v: Json): string
    decreases v, 1
  {
    match v
    case JNull => "null"
    case JBool(b) => if b then "true" else "false"
    case JNum(n) => T.Print(n)
    case JFraction(text) => text
    case JStr(s) => Quoted(s)
    case JArr(items) => "[" + ItemsText(items) + "]"
    case JObj(fields) => "{" + FieldsText(fields) + "}"
  }

  function ItemsText(items: seq<Json>): string
    decreases items, 0
  {
    if items == [] then ""
    else JsonText(items[0]) + (if |items| == 1 then "" else ",") + ItemsText(items[1..])
  }

  function FieldsText(fields: seq<Field>): string
    decreases fields, 0
  {
    if fields == [] then "" else FieldText(fields[0]) + (if |fields| == 1 then "" else ",") + FieldsText(fields[1..])
  }

  function FieldText(f: Field): string
    decreases f, 2
  {
    Quoted(f.key) + ":" + JsonText(f.val)
  }
}
