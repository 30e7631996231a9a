/** How JSON values are printed (lib/json.cpp, lib/cstring.cpp), and that what is printed is read back */
module JsonWriters {
  import opened Wrappers
  import opened JsonText
  import opened JsonRoundTrip

  const TAB_SIZE := 2

  function Spaces(n: nat): (s: string)
    ensures |s| == n && forall i | 0 <= i < n :: s[i] == ' '
  {
    seq(n, _ => ' ')
  }

  /** IndentCtl::endl */
  function EndLine(indent: nat): string {
    "\n" + Spaces(indent * TAB_SIZE)
  }

  predicate IsSmall(elems: seq<Json>) {
    forall i | 0 <= i < |elems| :: IsScalar(elems[i])
  }

  /** The layout of a value: arrays of scalars stand on one line, other elements and fields on lines of their own. */
  ghost function Laid(j: Json, indent: nat): Doc
    decreases j, 0
  {
    match j
    case Array(elems) =>
      var small := IsSmall(elems);
      List(seq(|elems|, i requires 0 <= i < |elems| => LaidItem(elems[i], i == 0, small, Deeper(small, indent))),
           if small then "" else EndLine(indent))
    case Object(fields) =>
      Dict(seq(|fields|, i requires 0 <= i < |fields| => LaidField(fields[i], indent + 1)), EndLine(indent))
    case _ => Scalar(j)
  }

  /** The indentation of the elements of an array */
  function Deeper(small: bool, indent: nat): nat {
    if small then indent else indent + 1
  }

  ghost function LaidItem(elem: Json, first: bool, small: bool, indent: nat): Item
    decreases elem, 1
  {
    Item(if !small then EndLine(indent) else if first then "" else " ", Laid(elem, indent), "")
  }

  ghost function LaidField(f: Field, indent: nat): Entry
    decreases f, 0
  {
    Entry(EndLine(indent), f.key, " ", " ", Laid(f.value, indent), "")
  }

  /** Strings and keys came from EscapeJson, or are as good, and the keys of an object are distinct. */
  ghost predicate Printable(j: Json)
    decreases j, 0
  {
    match j
    case String(s) => WellEscaped(s)
    case Array(elems) => forall i | 0 <= i < |elems| :: Printable(elems[i])
    case Object(fields) =>
      && (forall i | 0 <= i < |fields| :: PrintableField(fields[i]))
      && forall i, k | 0 <= i < k < |fields| :: fields[i].key != fields[k].key
    case _ => true
  }

  ghost predicate PrintableField(f: Field)
    decreases f, 0
  {
    WellEscaped(f.key) && Printable(f.value)
  }

  lemma {:induction false} ItemValuesAre(items: seq<Item>, elems: seq<Json>, k: nat)
    requires k <= |items| == |elems| && forall i | 0 <= i < |items| :: ItemValue(items[i]) == elems[i]
    ensures ItemValues(items, k) == elems[k..]
    decreases |items| - k
  {
    if k < |items| { ItemValuesAre(items, elems, k + 1); }
  }

  lemma {:induction false} EntryValuesAre(entries: seq<Entry>, fields: seq<Field>, k: nat)
    requires k <= |entries| == |fields| && forall i | 0 <= i < |entries| :: EntryValue(entries[i]) == fields[i]
    ensures EntryValues(entries, k) == fields[k..]
    decreases |entries| - k
  {
    if k < |entries| { EntryValuesAre(entries, fields, k + 1); }
  }

  /** A layout is a layout of the value, and it is well formed if and only if the value is printable. */
  lemma {:induction false} LaidIsDoc(j: Json, indent: nat)
    ensures ValueOfDoc(Laid(j, indent)) == j
    ensures Printable(j) <==> WellFormed(Laid(j, indent))
    decreases j, 0
  {
    match j
    case Array(elems) =>
      var items := Laid(j, indent).items;
      forall i | 0 <= i < |elems|
        ensures ItemValue(items[i]) == elems[i] && (Printable(elems[i]) <==> ItemOk(items[i]))
      {
        LaidItemIsItem(elems[i], i == 0, IsSmall(elems), Deeper(IsSmall(elems), indent));
      }
      ItemValuesAre(items, elems, 0);
    case Object(fields) =>
      var entries := Laid(j, indent).entries;
      forall i | 0 <= i < |fields|
        ensures EntryValue(entries[i]) == fields[i] && entries[i].key == fields[i].key
        ensures PrintableField(fields[i]) <==> EntryOk(entries[i])
      {
        LaidFieldIsEntry(fields[i], indent + 1);
      }
      EntryValuesAre(entries, fields, 0);
    case _ =>
  }

  lemma {:induction false} LaidItemIsItem(elem: Json, first: bool, small: bool, indent: nat)
    ensures ItemValue(LaidItem(elem, first, small, indent)) == elem
    ensures Printable(elem) <==> ItemOk(LaidItem(elem, first, small, indent))
    decreases elem, 1
  {
    LaidIsDoc(elem, indent);
  }

  lemma {:induction false} LaidFieldIsEntry(f: Field, indent: nat)
    ensures EntryValue(LaidField(f, indent)) == f
    ensures PrintableField(f) <==> EntryOk(LaidField(f, indent))
    decreases f, 0
  {
    LaidIsDoc(f.value, indent);
  }

  /** Reading the text that is printed for a value returns the value, and consumes exactly that text. */
  lemma PrintedIsReadBack(j: Json, indent: nat, rest: string)
    requires Printable(j) && (j.Number? ==> NoDigit(rest))
    ensures ReadValue(In(Text(Laid(j, indent)) + rest, true)) == Got(Some(j), In(rest, true))
  {
    LaidIsDoc(j, indent);
    ReadsPlain(Laid(j, indent), rest);
  }

  lemma ReadsPlain(d: Doc, rest: string)
    requires WellFormed(d) && (d.Scalar? && d.json.Number? ==> NoDigit(rest))
    ensures ReadValue(In(Text(d) + rest, true)) == Got(Some(ValueOfDoc(d)), In(rest, true))
  {
    ReadsDoc("", d, rest);
    var t := Text(d);
    assert "" + t == t;
  }

  // ---- the printer ----

  /** A stream to print to, with its indentation */
  class Writer {
    var out: string
    var indent: nat

    constructor ()
      ensures out == "" && indent == 0
    {
      out, indent := "", 0;
    }

    method Put(s: string)
      modifies `out
      ensures out == old(out) + s
    {
      out := out + s;
    }

    method Serialize(j: Json)
      modifies this
      ensures out == old(out) + Text(Laid(j, indent)) && indent == old(indent)
      decreases j, 1
    {
      match j
      case Array(elems) => SerializeArray(elems);
      case Object(fields) => SerializeObject(fields);
      case String(s) => Put("\"" + s + "\"");
      case Number(n) => Put(NumberText(n));
      case Boolean(b) => Put(if b then "true" else "false");
      case Null => Put("null");
    }

    method SerializeArray(elems: seq<Json>)
      modifies this
      ensures out == old(out) + Text(Laid(Array(elems), indent)) && indent == old(indent)
      decreases Array(elems), 0
    {
      hide ItemsText, LaidItem, ItemText, IsSmall, Spaces;
      var isSmall := AllScalars(elems);
      ghost var doc := Laid(Array(elems), indent);
      Put("[");
      if !isSmall { indent := indent + 1; }
      SerializeElements(elems, isSmall, doc.items, doc.close);
      ghost var printed := out;
      if !isSmall {
        indent := indent - 1;
        Put(EndLine(indent));
      }
      assert out == printed + doc.close;
      Put("]");
      ghost var text := ItemsText(doc.items, 0, doc.close);
      Regroup(old(out), "[", text);
    }

    method SerializeElements(elems: seq<Json>, isSmall: bool, ghost items: seq<Item>, ghost close: string)
      requires |items| == |elems|
      requires forall i | 0 <= i < |elems| :: items[i] == LaidItem(elems[i], i == 0, isSmall, indent)
      modifies this
      ensures out + close + "]" == old(out) + ItemsText(items, 0, close) && indent == old(indent)
      decreases elems
    {
      hide ItemsText, ItemsLeft, ItemText, LaidItem;
      var first := true;
      AllItemsLeft(items, close);
      for i := 0 to |elems|
        invariant out + ItemsLeft(items, i, close) == old(out) + ItemsText(items, 0, close)
        invariant first == (i == 0) && indent == old(indent)
      {
        ghost var before := out;
        SerializeElement(elems[i], first, isSmall);
        first := false;
        ItemPrinted(before, out, items, i, close);
      }
      Regroup(out, close, "]");
    }

    /** An element, after a separator unless it is the first one */
    method SerializeElement(elem: Json, first: bool, isSmall: bool)
      modifies this
      ensures out == old(out) + ((if first then "" else ",") + ItemText(LaidItem(elem, first, isSmall, indent)))
      ensures indent == old(indent)
      decreases elem, 2
    {
      ghost var item := LaidItem(elem, first, isSmall, indent);
      if !first {
        Put(",");
        if isSmall { Put(" "); }
      }
      if !isSmall { Put(EndLine(indent)); }
      ghost var sep := if first then "" else ",";
      assert out == old(out) + (sep + item.before);
      Serialize(elem);
      Regroup(old(out), sep + item.before, Text(item.doc));
      ItemTextIs(sep, item);
    }

    method SerializeObject(fields: seq<Field>)
      modifies this
      ensures out == old(out) + Text(Laid(Object(fields), indent)) && indent == old(indent)
      decreases Object(fields), 0
    {
      ghost var doc := Laid(Object(fields), indent);
      Put("{");
      indent := indent + 1;
      SerializeFields(fields, doc.entries, doc.close);
      indent := indent - 1;
      Put(EndLine(indent));
      Put("}");
      Regroup(old(out), "{", EntriesText(doc.entries, 0, doc.close));
    }

    method SerializeFields(fields: seq<Field>, ghost entries: seq<Entry>, ghost close: string)
      requires |entries| == |fields|
      requires forall i | 0 <= i < |fields| :: entries[i] == LaidField(fields[i], indent)
      modifies this
      ensures out + close + "}" == old(out) + EntriesText(entries, 0, close) && indent == old(indent)
      decreases fields
    {
      hide EntriesText, EntriesLeft, EntryText, LaidField;
      var first := true;
      AllEntriesLeft(entries, close);
      for i := 0 to |fields|
        invariant out + EntriesLeft(entries, i, close) == old(out) + EntriesText(entries, 0, close)
        invariant first == (i == 0) && indent == old(indent)
      {
        ghost var before := out;
        SerializeField(fields[i], first);
        first := false;
        EntryPrinted(before, out, entries, i, close);
      }
      Regroup(out, close, "}");
    }

    method SerializeField(f: Field, first: bool)
      modifies this
      ensures out == old(out) + ((if first then "" else ",") + EntryText(LaidField(f, indent)))
      ensures indent == old(indent)
      decreases f, 0
    {
      if !first { Put(","); }
      Put(EndLine(indent));
      Put("\"" + f.key + "\"" + " : ");
      ghost var e := LaidField(f, indent);
      ghost var head := e.before + "\"" + e.key + "\"" + e.beforeColon + ":" + e.afterColon;
      ghost var sep := if first then "" else ",";
      assert out == old(out) + (sep + head);
      Serialize(f.value);
      Regroup(old(out), sep + head, Text(e.doc));
      EntryTextIs(sep, e, head);
    }
  }

  method AllScalars(elems: seq<Json>) returns (isSmall: bool)
    ensures isSmall == IsSmall(elems)
  {
    isSmall := true;
    for i := 0 to |elems|
      invariant isSmall <==> forall k | 0 <= k < i :: IsScalar(elems[k])
    {
      if !IsScalar(elems[i]) { isSmall := false; }
    }
  }

  lemma ItemTextIs(sep: string, i: Item)
    requires i.after == ""
    ensures sep + ItemText(i) == (sep + i.before) + Text(i.doc)
  {
  }

  lemma EntryTextIs(sep: string, e: Entry, head: string)
    requires e.after == "" && head == e.before + "\"" + e.key + "\"" + e.beforeColon + ":" + e.afterColon
    ensures sep + EntryText(e) == (sep + head) + Text(e.doc)
  {
  }

  lemma Regroup(a: string, b: string, c: string)
    ensures (a + b) + c == a + (b + c)
  {
  }

  /** cstring::escapeJson */
  method Escape(s: string) returns (out: string)
    ensures out == EscapeJson(s)
    ensures |out| == |s| + multiset(s)['"'] + multiset(s)['\\'] && Unescape(out) == s && WellEscaped(out)
    ensures '"' !in s && '\\' !in s ==> out == s
  {
    hide Unescape, WellEscaped, Laid, Text;
    out := "";
    for i := 0 to |s|
      invariant out == EscapeJson(s[..i])
    {
      var c := s[i];
      if c == '\\' || c == '"' { out := out + "\\"; }
      out := out + [c];
      assert s[..i + 1][..i] == s[..i];
    }
    assert s[..|s|] == s;
    EscapesExactly(s);
    EscapedIsWellEscaped(s);
  }

  /** What is left to be printed after i entries */
  ghost function EntriesLeft(entries: seq<Entry>, i: nat, close: string): string
    requires i <= |entries|
  {
    if i == 0 then EntriesText(entries, 0, close)
    else if i == |entries| then close + "}"
    else "," + EntriesText(entries, i, close)
  }

  lemma AllEntriesLeft(entries: seq<Entry>, close: string)
    ensures EntriesLeft(entries, 0, close) == EntriesText(entries, 0, close)
    ensures EntriesLeft(entries, |entries|, close) == close + "}"
  {
  }

  lemma EntryThenLeft(entries: seq<Entry>, i: nat, close: string)
    requires i < |entries|
    ensures EntriesLeft(entries, i, close)
            == (if i == 0 then "" else ",") + (EntryText(entries[i]) + EntriesLeft(entries, i + 1, close))
  {
    hide EntryText;
    var rest := EntryText(entries[i]) + EntriesLeft(entries, i + 1, close);
    assert EntriesText(entries, i, close) == rest;
    assert "" + rest == rest;
  }

  lemma EntryPrinted(before: string, out: string, entries: seq<Entry>, i: nat, close: string)
    requires i < |entries| && out == before + ((if i == 0 then "" else ",") + EntryText(entries[i]))
    ensures out + EntriesLeft(entries, i + 1, close) == before + EntriesLeft(entries, i, close)
  {
    hide EntryText, EntriesLeft, EntriesText;
    var sep, entry, left := if i == 0 then "" else ",", EntryText(entries[i]), EntriesLeft(entries, i + 1, close);
    EntryThenLeft(entries, i, close);
    Regroup(before, sep + entry, left);
    Regroup(sep, entry, left);
  }

  /** What is left to be printed after i items */
  ghost function ItemsLeft(items: seq<Item>, i: nat, close: string): string
    requires i <= |items|
  {
    if i == 0 then ItemsText(items, 0, close)
    else if i == |items| then close + "]"
    else "," + ItemsText(items, i, close)
  }

  lemma AllItemsLeft(items: seq<Item>, close: string)
    ensures ItemsLeft(items, 0, close) == ItemsText(items, 0, close)
    ensures ItemsLeft(items, |items|, close) == close + "]"
  {
  }

  lemma ItemThenLeft(items: seq<Item>, i: nat, close: string)
    requires i < |items|
    ensures ItemsLeft(items, i, close)
            == (if i == 0 then "" else ",") + (ItemText(items[i]) + ItemsLeft(items, i + 1, close))
  {
    hide ItemText;
    var rest := ItemText(items[i]) + ItemsLeft(items, i + 1, close);
    assert ItemsText(items, i, close) == rest;
    assert "" + rest == rest;
  }

  lemma ItemPrinted(before: string, out: string, items: seq<Item>, i: nat, close: string)
    requires i < |items| && out == before + ((if i == 0 then "" else ",") + ItemText(items[i]))
    ensures out + ItemsLeft(items, i + 1, close) == before + ItemsLeft(items, i, close)
  {
    hide ItemText, ItemsLeft, ItemsText;
    var sep, item, left := if i == 0 then "" else ",", ItemText(items[i]), ItemsLeft(items, i + 1, close);
    ItemThenLeft(items, i, close);
    Regroup(before, sep + item, left);
    Regroup(sep, item, left);
  }
}
