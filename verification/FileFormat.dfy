/** The format of a library file in its own characters: the keys that identify nodes, numbers, and the layout of the
    printer */
module FileFormats {
  import opened Decimals
  import opened Wrappers
  import opened JsonText
  import opened JsonRoundTrip
  import opened JsonWriters
  import opened IrGraph
  import opened JsonGraph
  import opened LibraryFiles

  // ---- keys ----

  ghost predicate FirstWith(fields: seq<Field>, key: string, k: int) {
    0 <= k < |fields| && fields[k].key == key && forall i | 0 <= i < k :: fields[i].key != key
  }

  lemma GetFirst(fields: seq<Field>, key: string)
    ensures forall k | FirstWith(fields, key, k) :: Get(fields, key) == Some(fields[k].value)
    ensures (forall k | 0 <= k < |fields| :: fields[k].key != key) ==> Get(fields, key) == None
  {
    var f := Find(fields, key);
    assert f < |fields| ==> fields[f].key == key;
    forall k | FirstWith(fields, key, k) ensures k == f {
    }
  }

  /** The id of a node is the number under Node_ID, or -1, and its type is the string under Node_Type. */
  lemma KeysRead(fields: seq<Field>)
    ensures forall k, id | FirstWith(fields, "Node_ID", k) && fields[k].value == Number(id) :: IdIn(fields) == id
    ensures (forall k | FirstWith(fields, "Node_ID", k) :: !fields[k].value.Number?) ==> IdIn(fields) == -1
    ensures forall k, kind | FirstWith(fields, "Node_Type", k) && fields[k].value == String(kind) ::
              TypeIn(fields) == kind
    ensures (forall k | FirstWith(fields, "Node_Type", k) :: !fields[k].value.String?) ==> TypeIn(fields) == ""
  {
    GetFirst(fields, "Node_ID");
    GetFirst(fields, "Node_Type");
    var k := Find(fields, "Node_ID");
    assert k < |fields| ==> FirstWith(fields, "Node_ID", k);
    var t := Find(fields, "Node_Type");
    assert t < |fields| ==> FirstWith(fields, "Node_Type", t);
  }

  function NodeFields(id: int, kind: string): seq<Field> {
    [Field("Node_ID", Number(id)), Field("Node_Type", String(kind))]
  }

  /** A value that begins with the id and the type of a node is seen as a node of that id and type. */
  lemma NodeSeen(schema: Schema, types: Types, id: int, kind: string, rest: seq<Field>)
    ensures IdIn(NodeFields(id, kind) + rest) == id && TypeIn(NodeFields(id, kind) + rest) == kind
    ensures var d := Seen(schema, types, Object(NodeFields(id, kind) + rest), None);
            d.ObjectDump? && d.id == id && d.kind == kind
  {
    hide SeenScalars, SeenKids, SeenElements;
    var fields := NodeFields(id, kind) + rest;
    assert fields[0].key == "Node_ID" && fields[1].key == "Node_Type";
    DifferentKeys();
    assert FirstWith(fields, "Node_ID", 0) && FirstWith(fields, "Node_Type", 1);
    KeysRead(fields);
    GetFirst(fields, "Node_Type");
  }

  lemma DifferentKeys()
    ensures "Node_ID" != "Node_Type"
  {
    assert |"Node_ID"| != |"Node_Type"|;
  }

  /** A value with an id but no type is seen as a reference to the node of that id. */
  lemma ReferenceSeen(schema: Schema, types: Types, id: int)
    ensures Seen(schema, types, Object([Field("Node_ID", Number(id))]), None) == ReferTo(id)
  {
    var fields := [Field("Node_ID", Number(id))];
    DifferentKeys();
    assert FirstWith(fields, "Node_ID", 0);
    KeysRead(fields);
    GetFirst(fields, "Node_Type");
  }

  /** A node is written as an object that begins with its id and its type, and a reference with the id alone. */
  lemma KeysWritten(schema: Schema, d: Dump)
    requires d != NullDump
    ensures Written(schema, d).Object?
    ensures d == ReferTo(d.id) ==> Written(schema, d).fields == [Field("Node_ID", Number(d.id))]
    ensures d != ReferTo(d.id) && d.kind in schema ==> NodeFields(d.id, d.kind) <= Written(schema, d).fields
  {
    hide SlotFields, ElementFields;
  }

  // ---- characters ----

  lemma Numerals()
    ensures NumberText(0) == "0" && NumberText(1907) == "1907" && NumberText(-42) == "-42"
  {
    assert Digits(1) == "1";
    assert Digits(19) == "19";
    assert Digits(190) == "190";
    assert Digits(4) == "4";
  }

  lemma Words()
    ensures ScalarText(Json.Null) == "null"
    ensures ScalarText(Boolean(true)) == "true" && ScalarText(Boolean(false)) == "false"
  {
  }

  lemma StringText(s: string)
    ensures ScalarText(String(s)) == "\"" + s + "\""
  {
  }

  /** Words are read by their first letter, in either case, and by the length that this letter asks for; a character
      that begins no value is skipped, and there is no value. */
  lemma WordRead(c: char, word: string, rest: string)
    ensures c in "tT" && |word| == 3 ==>
              ReadValue(In([c] + word + rest, true)) == Got(Some(Boolean(true)), In(rest, true))
    ensures c in "fF" && |word| == 4 ==>
              ReadValue(In([c] + word + rest, true)) == Got(Some(Boolean(false)), In(rest, true))
    ensures c in "nN" && |word| == 3 ==>
              ReadValue(In([c] + word + rest, true)) == Got(Some(Json.Null), In(rest, true))
    ensures c !in "tTfFnN\"-{[0123456789 \t\n\r" && c as int !in {11, 12} ==>
              ReadValue(In([c] + word + rest, true)) == Got(None, In(word + rest, true))
  {
    hide ReadValue, ReadString, ReadNumber;
    var s := [c] + word + rest;
    assert s == [c] + (word + rest) && s[1..] == word + rest && s[|word| + 1..] == rest;
    if c !in "{[ \t\n\r" && c as int !in {11, 12} { StartsScalar(s); }
    if IsDigit(c) { assert c in "0123456789"; }
  }

  lemma StartsScalar(s: string)
    requires s != "" && !IsSpace(s[0]) && s[0] != '{' && s[0] != '['
    ensures ReadValue(In(s, true)) == ReadScalar(s)
  {
    hide ReadScalar;
    assert SkipSpace(s) == s;
  }

  /** A field stands on a line of its own. */
  lemma FieldText(f: Field, indent: nat)
    ensures EntryText(LaidField(f, indent))
            == "\n" + Spaces(2 * indent) + "\"" + f.key + "\" : " + Text(Laid(f.value, indent))
  {
    hide Text, Laid;
    var head := "\n" + Spaces(2 * indent) + "\"" + f.key;
    assert EndLine(indent) == "\n" + Spaces(2 * indent);
    assert head + "\"" + " " + ":" + " " == head + "\" : ";
  }

  /** Elements that hold no others stand on one line. */
  lemma SmallArrayText(a: Json, b: Json, indent: nat)
    requires IsScalar(a) && IsScalar(b)
    ensures Text(Laid(Array([a, b]), indent)) == "[" + (ScalarText(a) + ("," + (" " + ScalarText(b) + "]")))
  {
    hide ScalarText;
    var x, y := LaidItem(a, true, true, indent), LaidItem(b, false, true, indent);
    SmallItem(a, true, indent);
    SmallItem(b, false, indent);
    assert Laid(Array([a, b]), indent) == List([x, y], "");
    TwoItems(x, y);
  }

  lemma SmallItem(a: Json, first: bool, indent: nat)
    requires IsScalar(a)
    ensures ItemText(LaidItem(a, first, true, indent)) == if first then ScalarText(a) else " " + ScalarText(a)
  {
    hide ScalarText;
    assert Laid(a, indent) == Scalar(a);
    var text := ScalarText(a);
    assert "" + text + "" == text && " " + text + "" == " " + text;
  }

  lemma TwoItems(x: Item, y: Item)
    ensures Text(List([x, y], "")) == "[" + (ItemText(x) + ("," + (ItemText(y) + "]")))
  {
    hide ItemText;
    assert "" + "]" == "]";
    assert ItemsText([x, y], 1, "") == ItemText(y) + "]";
  }

  /** Any other element stands on a line of its own. */
  lemma LargeArrayText(elem: Json, indent: nat)
    requires !IsScalar(elem)
    ensures Text(Laid(Array([elem]), indent))
            == "[" + ("\n" + Spaces(2 * indent + 2) + Text(Laid(elem, indent + 1)) + ("\n" + Spaces(2 * indent) + "]"))
  {
    hide Text;
    var x := LaidItem(elem, true, false, indent + 1);
    assert !IsScalar([elem][0]) && !IsSmall([elem]);
    assert Laid(Array([elem]), indent) == List([x], EndLine(indent));
    OneItem(x, EndLine(indent));
  }

  lemma OneItem(x: Item, close: string)
    requires x.after == ""
    ensures Text(List([x], close)) == "[" + (x.before + Text(x.doc) + (close + "]"))
  {
    var head := x.before + Text(x.doc);
    assert head + "" == head;
    assert ItemText([x][0]) == head;
  }

  lemma IdText(id: int)
    ensures EntryText(LaidField(Field("Node_ID", Number(id)), 1)) == "\n  \"Node_ID\" : " + NumberText(id)
  {
    hide NumberText;
    FieldText(Field("Node_ID", Number(id)), 1);
    assert Spaces(2) == "  ";
    assert "\n" + "  " + "\"" + "Node_ID" + "\" : " == "\n  \"Node_ID\" : ";
  }

  /** The text of a reference */
  lemma ReferenceText(schema: Schema, id: int)
    ensures Text(Laid(Written(schema, ReferTo(id)), 0)) == "{" + ("\n  \"Node_ID\" : " + NumberText(id) + "\n}")
  {
    hide NumberText, EntryText, LaidField;
    KeysWritten(schema, ReferTo(id));
    OneEntry(Field("Node_ID", Number(id)));
    IdText(id);
  }

  lemma OneEntry(f: Field)
    ensures Text(Laid(Object([f]), 0)) == "{" + (EntryText(LaidField(f, 1)) + "\n}")
  {
    hide EntryText, LaidField;
    assert Spaces(0) == "" && EndLine(0) == "\n" && "\n" + "}" == "\n}";
    assert Laid(Object([f]), 0) == Dict([LaidField(f, 1)], "\n");
  }

  /** The text of an object begins with the texts of its first two fields. */
  lemma TwoFieldsText(f: Field, g: Field, rest: seq<Field>)
    ensures "{" + EntryText(LaidField(f, 1)) + "," + EntryText(LaidField(g, 1))
            <= Text(Laid(Object([f, g] + rest), 0))
  {
    hide LaidField, EntryText;
    var fields := [f, g] + rest;
    var doc := Laid(Object(fields), 0);
    var e := doc.entries;
    assert e[0] == LaidField(f, 1) && e[1] == LaidField(g, 1);
    assert EntryText(e[1]) <= EntriesText(e, 1, doc.close);
    assert EntriesText(e, 0, doc.close) == EntryText(e[0]) + ("," + EntriesText(e, 1, doc.close));
  }

  lemma TypeText(kind: string)
    ensures EntryText(LaidField(Field("Node_Type", String(kind)), 1))
            == "\n  \"Node_Type\" : " + ("\"" + kind + "\"")
  {
    FieldText(Field("Node_Type", String(kind)), 1);
    assert Spaces(2) == "  ";
    assert "\n" + "  " + "\"" + "Node_Type" + "\" : " == "\n  \"Node_Type\" : ";
  }

  /** The text of a node begins with its id and its type. */
  lemma NodeText(schema: Schema, d: Dump)
    requires d != NullDump && d != ReferTo(d.id) && d.kind in schema
    ensures "{" + ("\n  \"Node_ID\" : " + NumberText(d.id)) + "," + ("\n  \"Node_Type\" : " + ("\"" + d.kind + "\""))
            <= Text(Laid(Written(schema, d), 0))
  {
    hide LaidField, EntryText, Text, Laid, NumberText;
    KeysWritten(schema, d);
    var fields := Written(schema, d).fields;
    assert fields == NodeFields(d.id, d.kind) + fields[2..];
    IdText(d.id);
    TypeText(d.kind);
    TwoFieldsText(Field("Node_ID", Number(d.id)), Field("Node_Type", String(d.kind)), fields[2..]);
  }

  lemma KeysEscaped()
    ensures WellEscaped("Node_ID") && WellEscaped("Node_Type")
  {
  }

  function IdEntry(id: int): Entry {
    Entry("", "Node_ID", " ", " ", Scalar(Number(id)), "")
  }

  function TypeEntry(kind: string): Entry {
    Entry(" ", "Node_Type", " ", " ", Scalar(String(kind)), "")
  }

  lemma IdEntryText(id: int)
    ensures EntryText(IdEntry(id)) == "\"Node_ID\" : " + NumberText(id)
  {
    hide NumberText;
    assert "" + "\"" + "Node_ID" + "\"" + " " + ":" + " " == "\"Node_ID\" : ";
    var text := "\"Node_ID\" : " + NumberText(id);
    assert text + "" == text;
  }

  lemma TypeEntryText(kind: string)
    ensures EntryText(TypeEntry(kind)) == " \"Node_Type\" : " + ("\"" + kind + "\"")
  {
    assert " " + "\"" + "Node_Type" + "\"" + " " + ":" + " " == " \"Node_Type\" : ";
    var text := " \"Node_Type\" : " + ("\"" + kind + "\"");
    assert text + "" == text;
  }

  lemma TwoEntries(e: Entry, f: Entry)
    ensures Text(Dict([e, f], "")) == "{" + (EntryText(e) + ("," + (EntryText(f) + "}")))
    ensures ValueOfDoc(Dict([e, f], "")) == Object([EntryValue(e), EntryValue(f)])
    ensures EntryOk(e) && EntryOk(f) && e.key != f.key ==> WellFormed(Dict([e, f], ""))
  {
    hide EntryText, EntryValue, EntryOk;
    assert "" + "}" == "}";
    assert EntriesText([e, f], 1, "") == EntryText(f) + "}";
    assert EntryValues([e, f], 2) == [];
    assert EntryValues([e, f], 1) == [EntryValue(f)];
    assert EntryValues([e, f], 0) == [EntryValue(e), EntryValue(f)];
  }

  /** A text with the id and the type of a node is seen as a node of that id and type. */
  lemma NodeTextSeen(schema: Schema, types: Types, id: int, kind: string, rest: string)
    requires WellEscaped(kind)
    ensures var text := "{" + ("\"Node_ID\" : " + NumberText(id)
                               + ("," + (" \"Node_Type\" : " + ("\"" + kind + "\"") + "}")));
            var got := ReadValue(In(text + rest, true));
            && got == Got(Some(Object(NodeFields(id, kind))), In(rest, true))
            && var d := Seen(schema, types, got.value.value, None); d.ObjectDump? && d.id == id && d.kind == kind
  {
    hide Seen, ReadValue, Text, EntryText, NumberText;
    DifferentKeys();
    KeysEscaped();
    IdEntryText(id);
    TypeEntryText(kind);
    TwoEntries(IdEntry(id), TypeEntry(kind));
    ReadsPlain(Dict([IdEntry(id), TypeEntry(kind)], ""), rest);
    assert NodeFields(id, kind) + [] == NodeFields(id, kind);
    NodeSeen(schema, types, id, kind, []);
  }
}
