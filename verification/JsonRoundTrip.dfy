/** Reading what was printed: for every way in which white space may be laid out */
module JsonRoundTrip {
  import opened Decimals
  import opened Wrappers
  import opened JsonText

  // ---- strings ----

  lemma FirstQuoteAt(u: string, k: nat, rest: string)
    requires k <= |u| && (forall i | 0 <= i < k :: u[i] != '"') && (k < |u| ==> u[k] == '"')
    ensures FirstQuote(u + "\"" + rest) == k
  {
    var s := u + "\"" + rest;
    var f := FirstQuote(s);
    assert s[k] == '"';
  }

  /** After what was read already, every quote is escaped, and so is not the quote that follows. */
  ghost predicate Escaped(acc: string, u: string) {
    (forall i | 0 <= i < |u| && u[i] == '"' :: Run(acc + u[..i]) % 2 == 1) && Run(acc + u) % 2 == 0
  }

  /** Past an escaped quote */
  lemma EscapedPast(acc: string, u: string, k: nat)
    requires k < |u| && u[k] == '"' && (forall i | 0 <= i < k :: u[i] != '"') && Run(acc + u[..k]) % 2 == 1
    ensures Escaped(acc, u) <==> Escaped(acc + u[..k] + "\"", u[k + 1..])
  {
    var v, acc' := u[k + 1..], acc + u[..k] + "\"";
    assert acc' + v == acc + u;
    forall i | 0 <= i < |v| ensures acc' + v[..i] == acc + u[..k + 1 + i] && v[i] == u[k + 1 + i] {
    }
    if Escaped(acc', v) {
      forall i | 0 <= i < |u| && u[i] == '"' ensures Run(acc + u[..i]) % 2 == 1 {
        if i > k { assert acc' + v[..i - k - 1] == acc + u[..i] && v[i - k - 1] == u[i]; }
      }
    }
  }

  lemma ReadStringEnds(acc: string, u: string, k: nat, rest: string)
    requires k == FirstQuote(u) && Run(acc + u[..k]) % 2 == 0
    ensures ReadString(acc, u + "\"" + rest).0 == acc + u[..k]
    ensures k == |u| ==> ReadString(acc, u + "\"" + rest).1 == In(rest, true)
  {
    FirstQuoteAt(u, k, rest);
    assert (u + "\"" + rest)[..k] == u[..k];
    assert k == |u| ==> (u + "\"" + rest)[k + 1..] == rest;
  }

  lemma {:induction false} ReadStringGoesOn(acc: string, u: string, k: nat, rest: string)
    requires k == FirstQuote(u) && Run(acc + u[..k]) % 2 == 1
    ensures ReadString(acc, u + "\"" + rest)
            == ReadString(acc + u[..k] + "\"", if k == |u| then rest else u[k + 1..] + "\"" + rest)
  {
    FirstQuoteAt(u, k, rest);
    var s := u + "\"" + rest;
    assert s[..k] == u[..k];
    assert s[k + 1..] == if k == |u| then rest else u[k + 1..] + "\"" + rest;
  }

  /** A string in which every quote is escaped is read back, and nothing beyond its closing quote. Otherwise something
      else is read: the string ends early, or it does not end with its closing quote. */
  lemma {:induction false} ReadsString(acc: string, u: string, rest: string)
    ensures Escaped(acc, u) ==> ReadString(acc, u + "\"" + rest) == (acc + u, In(rest, true))
    ensures !Escaped(acc, u) && rest == "" ==> ReadString(acc, u + "\"" + rest).0 != acc + u
    decreases |u|
  {
    var k := FirstQuote(u);
    if Run(acc + u[..k]) % 2 == 0 {
      ReadStringEnds(acc, u, k, rest);
      assert k == |u| ==> u[..k] == u;
    } else {
      ReadStringGoesOn(acc, u, k, rest);
      if k < |u| {
        EscapedPast(acc, u, k);
        ReadsString(acc + u[..k] + "\"", u[k + 1..], rest);
        Rejoined(acc, u, k);
      } else {
        assert u[..k] == u;
        NothingLeft(acc + u);
      }
    }
  }

  lemma Rejoined(acc: string, u: string, k: nat)
    requires k < |u| && u[k] == '"'
    ensures acc + u[..k] + "\"" + u[k + 1..] == acc + u
  {
  }

  lemma {:induction false} ReadsWhole(s: string, rest: string)
    requires WellEscaped(s)
    ensures ReadString("", s + "\"" + rest) == (s, In(rest, true))
  {
    assert forall i | 0 <= i <= |s| :: "" + s[..i] == s[..i];
    assert "" + s == s && Escaped("", s);
    ReadsString("", s, rest);
  }

  /** A string is read back exactly when it is well escaped. */
  lemma {:induction false} ReadBackExactly(s: string)
    ensures WellEscaped(s) <==> forall rest :: ReadString("", s + "\"" + rest) == (s, In(rest, true))
  {
    assert forall i | 0 <= i <= |s| :: "" + s[..i] == s[..i];
    assert "" + s == s;
    assert WellEscaped(s) <==> Escaped("", s);
    forall rest ensures WellEscaped(s) ==> ReadString("", s + "\"" + rest) == (s, In(rest, true)) {
      ReadsString("", s, rest);
    }
    ReadsString("", s, "");
  }

  // ---- numbers ----

  function NumberText(n: int): string {
    if n < 0 then "-" + Digits(-n) else Digits(n)
  }

  /** A number ends where no digit follows. */
  predicate NoDigit(rest: string) {
    rest == "" || !IsDigit(rest[0])
  }

  lemma {:induction false} DigitsEnd(d: string, rest: string)
    requires NoDigit(rest) && forall i | 0 <= i < |d| :: IsDigit(d[i])
    ensures DigitsIn(d + rest) == |d|
  {
    var s := d + rest;
    var k := DigitsIn(s);
    assert forall i | 0 <= i < |d| :: s[i] == d[i];
    assert |s| > |d| ==> s[|d|] == rest[0];
  }

  predicate AllDigits(d: string) {
    d != "" && forall i | 0 <= i < |d| :: IsDigit(d[i])
  }

  lemma ReadsUnsigned(d: string, rest: string, s: string)
    requires NoDigit(rest) && AllDigits(d) && s == d + rest
    ensures ReadNumber(s) == Got(Some(Number(ValueOf(d))), In(rest, true))
  {
    DigitsEnd(d, rest);
    assert s[..|d|] == d && s[|d|..] == rest && s[0] == d[0];
  }

  lemma ReadsSigned(d: string, rest: string, s: string)
    requires NoDigit(rest) && AllDigits(d) && s != "" && s[0] == '-' && s[1..] == d + rest
    ensures ReadNumber(s) == Got(Some(Number(-ValueOf(d))), In(rest, true))
  {
    DigitsEnd(d, rest);
    assert s[1..][..|d|] == d && s[1..][|d|..] == rest;
  }

  lemma ReadsNumber(n: int, rest: string)
    requires NoDigit(rest)
    ensures ReadNumber(NumberText(n) + rest) == Got(Some(Number(n)), In(rest, true))
  {
    hide Digits, DigitsIn, ValueOf, ReadNumber;
    var m: nat := if n < 0 then -n else n;
    var d, s := Digits(m), NumberText(n) + rest;
    DigitsRead(m);
    if n < 0 {
      assert s[1..] == d + rest;
      ReadsSigned(d, rest, s);
    } else {
      ReadsUnsigned(d, rest, s);
    }
  }

  // ---- documents: values with the white space around them ----

  datatype Doc =
    | Scalar(json: Json)
    | List(items: seq<Item>, close: string)
    | Dict(entries: seq<Entry>, close: string)

  datatype Item = Item(before: string, doc: Doc, after: string)

  datatype Entry = Entry(before: string, key: string, beforeColon: string, afterColon: string, doc: Doc, after: string)

  predicate IsScalar(j: Json) {
    !j.Array? && !j.Object?
  }

  function ScalarText(j: Json): string
    requires IsScalar(j)
  {
    match j
    case Null => "null"
    case Boolean(b) => if b then "true" else "false"
    case Number(n) => NumberText(n)
    case String(s) => "\"" + s + "\""
  }

  ghost predicate AllSpace(w: string) {
    forall i | 0 <= i < |w| :: IsSpace(w[i])
  }

  /** Only white space stands between tokens, strings and keys are well escaped, and keys are distinct. */
  ghost predicate WellFormed(d: Doc)
    decreases d, 0
  {
    match d
    case Scalar(j) => IsScalar(j) && (j.String? ==> WellEscaped(j.s))
    case List(items, close) => AllSpace(close) && forall i | 0 <= i < |items| :: ItemOk(items[i])
    case Dict(entries, close) =>
      && AllSpace(close) && (forall i | 0 <= i < |entries| :: EntryOk(entries[i]))
      && DistinctKeys(entries)
  }

  ghost predicate DistinctKeys(entries: seq<Entry>) {
    forall i, j | 0 <= i < j < |entries| :: entries[i].key != entries[j].key
  }

  ghost predicate ItemOk(i: Item)
    decreases i, 0
  {
    AllSpace(i.before) && AllSpace(i.after) && WellFormed(i.doc)
  }

  ghost predicate EntryOk(e: Entry)
    decreases e, 0
  {
    && AllSpace(e.before) && AllSpace(e.beforeColon) && AllSpace(e.afterColon) && AllSpace(e.after)
    && WellEscaped(e.key) && WellFormed(e.doc)
  }

  ghost function Text(d: Doc): string
    decreases d, 0
  {
    match d
    case Scalar(j) => if IsScalar(j) then ScalarText(j) else ""
    case List(items, close) => "[" + ItemsText(items, 0, close)
    case Dict(entries, close) => "{" + EntriesText(entries, 0, close)
  }

  ghost function ItemText(i: Item): string
    decreases i, 0
  {
    i.before + Text(i.doc) + i.after
  }

  ghost function EntryText(e: Entry): string
    decreases e, 0
  {
    e.before + "\"" + e.key + "\"" + e.beforeColon + ":" + e.afterColon + Text(e.doc) + e.after
  }

  /** What follows an opening bracket from the k-th item on */
  ghost function ItemsText(items: seq<Item>, k: nat, close: string): string
    requires k <= |items|
    decreases items, |items| - k
  {
    if k == |items| then close + "]"
    else ItemText(items[k]) + if k + 1 == |items| then close + "]" else "," + ItemsText(items, k + 1, close)
  }

  ghost function EntriesText(entries: seq<Entry>, k: nat, close: string): string
    requires k <= |entries|
    decreases entries, |entries| - k
  {
    if k == |entries| then close + "}"
    else EntryText(entries[k]) + if k + 1 == |entries| then close + "}" else "," + EntriesText(entries, k + 1, close)
  }

  ghost function ValueOfDoc(d: Doc): Json
    decreases d, 0
  {
    match d
    case Scalar(j) => j
    case List(items, _) => Array(ItemValues(items, 0))
    case Dict(entries, _) => Object(EntryValues(entries, 0))
  }

  ghost function ItemValue(i: Item): Json
    decreases i, 0
  {
    ValueOfDoc(i.doc)
  }

  ghost function EntryValue(e: Entry): Field
    decreases e, 0
  {
    Field(e.key, ValueOfDoc(e.doc))
  }

  ghost function ItemValues(items: seq<Item>, k: nat): seq<Json>
    requires k <= |items|
    decreases items, |items| - k
  {
    if k == |items| then [] else [ItemValue(items[k])] + ItemValues(items, k + 1)
  }

  ghost function EntryValues(entries: seq<Entry>, k: nat): seq<Field>
    requires k <= |entries|
    decreases entries, |entries| - k
  {
    if k == |entries| then [] else [EntryValue(entries[k])] + EntryValues(entries, k + 1)
  }

  // ---- reading documents ----

  lemma {:induction false} SpaceSkipped(w: string, s: string)
    requires AllSpace(w) && (s != "" ==> !IsSpace(s[0]))
    ensures SkipSpace(w + s) == s
  {
    if w == "" {
      assert w + s == s;
    } else {
      SpaceSkipped(w[1..], s);
      assert (w + s)[1..] == w[1..] + s;
    }
  }

  lemma TextStarts(d: Doc)
    requires WellFormed(d)
    ensures Text(d) != "" && !IsSpace(Text(d)[0]) && Text(d)[0] !in "]},:"
  {
    if d.Scalar? && d.json.Number? {
      var n := d.json.n;
      DigitsRead(if n < 0 then -n else n);
    }
  }

  lemma OpensArray(s: string)
    ensures ReadValue(In("[" + s, true)) == ReadElements(s, [])
  {
    assert ("[" + s)[1..] == s && SkipSpace("[" + s) == "[" + s;
  }

  lemma OpensObject(s: string)
    ensures ReadValue(In("{" + s, true)) == ReadFields(s, [])
  {
    assert ("{" + s)[1..] == s && SkipSpace("{" + s) == "{" + s;
  }

  lemma ReadsQuoted(s: string, rest: string)
    requires WellEscaped(s)
    ensures ReadValue(In("\"" + s + "\"" + rest, true)) == Got(Some(String(s)), In(rest, true))
  {
    var t := "\"" + s + "\"" + rest;
    assert t[1..] == s + "\"" + rest;
    ReadsWhole(s, rest);
    OpensString(t, s, In(rest, true));
  }

  lemma OpensString(t: string, s: string, left: In)
    requires t != "" && t[0] == '"' && ReadString("", t[1..]) == (s, left)
    ensures ReadValue(In(t, true)) == Got(Some(String(s)), left)
  {
    assert SkipSpace(t) == t;
  }

  lemma ReadsWord(word: string, rest: string)
    requires word == "null" || word == "true" || word == "false"
    ensures ReadValue(In(word + rest, true))
            == Got(Some(if word == "null" then Null else Boolean(word == "true")), In(rest, true))
  {
    var t := word + rest;
    assert t[0] == word[0] && t[|word|..] == rest;
    assert SkipSpace(t) == t;
  }

  lemma ReadsNumberValue(n: int, rest: string)
    requires NoDigit(rest)
    ensures ReadValue(In(NumberText(n) + rest, true)) == Got(Some(Number(n)), In(rest, true))
  {
    hide Digits, ValueOf, ReadNumber, ReadFields, ReadElements, ReadString;
    DigitsRead(if n < 0 then -n else n);
    ReadsNumber(n, rest);
    var t := NumberText(n) + rest;
    assert t[0] == NumberText(n)[0];
    assert SkipSpace(t) == t;
  }

  lemma ReadsScalar(j: Json, rest: string)
    requires IsScalar(j) && (j.String? ==> WellEscaped(j.s)) && (j.Number? ==> NoDigit(rest))
    ensures ReadValue(In(ScalarText(j) + rest, true)) == Got(Some(j), In(rest, true))
  {
    match j
    case Null => ReadsWord("null", rest);
    case Boolean(b) => ReadsWord(if b then "true" else "false", rest);
    case Number(n) => ReadsNumberValue(n, rest);
    case String(s) => ReadsQuoted(s, rest);
  }

  lemma SpaceBeforeValue(w: string, t: string)
    requires AllSpace(w)
    ensures ReadValue(In(w + t, true)) == ReadValue(In(t, true))
  {
    SpaceBefore(w, t);
  }

  /** Reading the text of a document, whatever comes before it and after it, gives its value and consumes exactly its
      text; but a number must not be followed by a digit. */
  lemma {:induction false} ReadsDoc(w: string, d: Doc, rest: string)
    requires AllSpace(w) && WellFormed(d) && (d.Scalar? && d.json.Number? ==> NoDigit(rest))
    ensures ReadValue(In(w + Text(d) + rest, true)) == Got(Some(ValueOfDoc(d)), In(rest, true))
    decreases d, 1
  {
    assert w + Text(d) + rest == w + (Text(d) + rest);
    SpaceBeforeValue(w, Text(d) + rest);
    match d
    case Scalar(j) => ReadsScalar(j, rest);
    case List(items, close) => ReadsList(items, close, rest);
    case Dict(entries, close) => ReadsDict(entries, close, rest);
  }

  lemma {:induction false} ReadsList(items: seq<Item>, close: string, rest: string)
    requires AllSpace(close) && forall i | 0 <= i < |items| :: ItemOk(items[i])
    ensures ReadValue(In("[" + ItemsText(items, 0, close) + rest, true))
            == Got(Some(Array(ItemValues(items, 0))), In(rest, true))
    decreases items, |items| + 1
  {
    hide ItemsText, ItemValues, ReadElements, ReadValue, ItemOk;
    ReadsItems(items, 0, close, rest, []);
    assert [] + ItemValues(items, 0) == ItemValues(items, 0);
    var s := ItemsText(items, 0, close);
    assert "[" + s + rest == "[" + (s + rest);
    OpensArray(s + rest);
  }

  lemma {:induction false} ReadsDict(entries: seq<Entry>, close: string, rest: string)
    requires AllSpace(close) && forall i | 0 <= i < |entries| :: EntryOk(entries[i])
    requires DistinctKeys(entries)
    ensures ReadValue(In("{" + EntriesText(entries, 0, close) + rest, true))
            == Got(Some(Object(EntryValues(entries, 0))), In(rest, true))
    decreases entries, |entries| + 1
  {
    hide EntriesText, EntryValues, ReadFields, ReadValue, EntryOk, DistinctKeys;
    ReadsEntries(entries, 0, close, rest, []);
    assert [] + EntryValues(entries, 0) == EntryValues(entries, 0);
    var s := EntriesText(entries, 0, close);
    assert "{" + s + rest == "{" + (s + rest);
    OpensObject(s + rest);
  }

  lemma {:induction false} SpaceBefore(w: string, s: string)
    requires AllSpace(w)
    ensures SkipSpace(w + s) == SkipSpace(s)
  {
    if w == "" {
      assert w + s == s;
    } else {
      SpaceBefore(w[1..], s);
      assert (w + s)[1..] == w[1..] + s;
    }
  }

  lemma NoDigitAfterSpace(w: string, s: string)
    requires AllSpace(w) && NoDigit(s)
    ensures NoDigit(w + s)
  {
    assert w == "" ==> w + s == s;
  }

  /** One element of an array, and what the reader does after it */
  lemma {:induction false} ReadsItem(i: Item, tail: string, acc: seq<Json>)
    requires ItemOk(i) && NoDigit(tail) && SkipSpace(tail) != ""
    ensures var t, elems := SkipSpace(tail), acc + [ItemValue(i)];
            ReadElements(ItemText(i) + tail, acc) ==
            if t[0] == ']' then Got(Some(Array(elems)), In(t[1..], true)) else ReadElements(t[1..], elems)
    decreases i, 1
  {
    TextStarts(i.doc);
    var s := Text(i.doc) + (i.after + tail);
    assert ItemText(i) + tail == i.before + s;
    SpaceSkipped(i.before, s);
    NoDigitAfterSpace(i.after, tail);
    ReadsDoc("", i.doc, i.after + tail);
    assert "" + Text(i.doc) + (i.after + tail) == s;
    SpaceBefore(i.after, tail);
  }

  /** The k-th item in a text, with what follows it */
  lemma ItemsTextSplit(items: seq<Item>, k: nat, close: string, rest: string)
    requires k < |items|
    ensures ItemsText(items, k, close) + rest == ItemText(items[k])
              + if k + 1 == |items| then close + ("]" + rest) else "," + (ItemsText(items, k + 1, close) + rest)
  {
  }

  lemma EndsArray(close: string, rest: string, acc: seq<Json>)
    requires AllSpace(close)
    ensures ReadElements(close + ("]" + rest), acc) == Got(Some(Array(acc)), In(rest, true))
    ensures ReadElements(close + "]" + rest, acc) == Got(Some(Array(acc)), In(rest, true))
    ensures SkipSpace(close + ("]" + rest)) == "]" + rest && NoDigit(close + ("]" + rest)) && ("]" + rest)[1..] == rest
  {
    SpaceSkipped(close, "]" + rest);
    NoDigitAfterSpace(close, "]" + rest);
    assert close + "]" + rest == close + ("]" + rest);
  }

  lemma {:induction false} LastItem(i: Item, close: string, rest: string, acc: seq<Json>)
    requires ItemOk(i) && AllSpace(close)
    ensures ReadElements(ItemText(i) + (close + ("]" + rest)), acc)
            == Got(Some(Array(acc + [ItemValue(i)])), In(rest, true))
    decreases i, 2
  {
    EndsArray(close, rest, acc + [ItemValue(i)]);
    ReadsItem(i, close + ("]" + rest), acc);
  }

  lemma {:induction false} NextItem(i: Item, more: string, acc: seq<Json>)
    requires ItemOk(i)
    ensures ReadElements(ItemText(i) + ("," + more), acc) == ReadElements(more, acc + [ItemValue(i)])
    decreases i, 2
  {
    assert SkipSpace("," + more) == "," + more && ("," + more)[1..] == more;
    ReadsItem(i, "," + more, acc);
  }

  lemma ItemValuesSplit(items: seq<Item>, k: nat, acc: seq<Json>)
    requires k < |items|
    ensures var elems := acc + [ItemValue(items[k])];
            acc + ItemValues(items, k) == if k + 1 == |items| then elems else elems + ItemValues(items, k + 1)
  {
    assert k + 1 == |items| ==> ItemValues(items, k + 1) == [];
  }

  lemma {:induction false} ReadsItems(items: seq<Item>, k: nat, close: string, rest: string, acc: seq<Json>)
    requires AllSpace(close) && k <= |items| && forall i | 0 <= i < |items| :: ItemOk(items[i])
    ensures ReadElements(ItemsText(items, k, close) + rest, acc)
            == Got(Some(Array(acc + ItemValues(items, k))), In(rest, true))
    decreases items, |items| - k
  {
    if k == |items| {
      EndsArray(close, rest, acc);
      assert acc + [] == acc;
    } else {
      var elems := acc + [ItemValue(items[k])];
      ItemsTextSplit(items, k, close, rest);
      ItemValuesSplit(items, k, acc);
      if k + 1 == |items| {
        LastItem(items[k], close, rest, acc);
      } else {
        NextItem(items[k], ItemsText(items, k + 1, close) + rest, acc);
        ReadsItems(items, k + 1, close, rest, elems);
      }
    }
  }

  // ---- objects ----

  ghost predicate HasKey(fields: seq<Field>, key: string) {
    exists i :: 0 <= i < |fields| && fields[i].key == key
  }

  lemma {:induction false} PutNewKey(fields: seq<Field>, key: string, value: Json)
    requires !HasKey(fields, key)
    ensures Put(fields, key, value) == fields + [Field(key, value)]
  {
    if fields != [] {
      assert fields[0].key != key;
      assert !HasKey(fields[1..], key) by {
        assert forall i | 0 <= i < |fields[1..]| :: fields[1..][i] == fields[i + 1];
      }
      PutNewKey(fields[1..], key, value);
    }
  }

  /** What follows the key of an entry, from its colon on */
  ghost function AfterColon(e: Entry, tail: string): string
  {
    e.afterColon + Text(e.doc) + (e.after + tail)
  }

  lemma EntryStarts(e: Entry, tail: string)
    requires EntryOk(e)
    ensures SkipSpace(EntryText(e) + tail) == "\"" + e.key + "\"" + (e.beforeColon + (":" + AfterColon(e, tail)))
  {
    hide Text, WellFormed, WellEscaped;
    var s := "\"" + e.key + "\"" + (e.beforeColon + (":" + AfterColon(e, tail)));
    assert EntryText(e) + tail == e.before + s;
    SpaceSkipped(e.before, s);
  }

  /** One field of an object, and what the reader does after it */
  lemma {:induction false} ReadsEntry(e: Entry, tail: string, acc: seq<Field>)
    requires EntryOk(e) && NoDigit(tail) && SkipSpace(tail) != "" && !HasKey(acc, e.key)
    ensures var t, fields := SkipSpace(tail), acc + [EntryValue(e)];
            ReadFields(EntryText(e) + tail, acc) ==
            if t[0] == '}' then Got(Some(Object(fields)), In(t[1..], true)) else ReadFields(t[1..], fields)
    decreases e, 1
  {
    var colon := ":" + AfterColon(e, tail);
    EntryStarts(e, tail);
    ReadsQuoted(e.key, e.beforeColon + colon);
    SpaceSkipped(e.beforeColon, colon);
    NoDigitAfterSpace(e.after, tail);
    ReadsDoc(e.afterColon, e.doc, e.after + tail);
    SpaceBefore(e.after, tail);
    PutNewKey(acc, e.key, ValueOfDoc(e.doc));
    assert colon[1..] == AfterColon(e, tail);
  }

  lemma EntryValuesSplit(entries: seq<Entry>, k: nat, acc: seq<Field>)
    requires k < |entries|
    ensures var fields := acc + [EntryValue(entries[k])];
            acc + EntryValues(entries, k) == if k + 1 == |entries| then fields else fields + EntryValues(entries, k + 1)
  {
    assert k + 1 == |entries| ==> EntryValues(entries, k + 1) == [];
  }

  lemma KeyIsNew(entries: seq<Entry>, k: nat, acc: seq<Field>)
    requires DistinctKeys(entries) && KeysRead(entries, k, acc) && k < |entries|
    ensures !HasKey(acc, entries[k].key) && KeysRead(entries, k + 1, acc + [EntryValue(entries[k])])
  {
  }

  lemma EntriesTextSplit(entries: seq<Entry>, k: nat, close: string, rest: string)
    requires k < |entries|
    ensures EntriesText(entries, k, close) + rest == EntryText(entries[k])
              + if k + 1 == |entries| then close + ("}" + rest) else "," + (EntriesText(entries, k + 1, close) + rest)
  {
  }

  ghost predicate KeysRead(entries: seq<Entry>, k: nat, acc: seq<Field>) {
    |acc| == k <= |entries| && forall i | 0 <= i < k :: acc[i].key == entries[i].key
  }

  lemma EndsObject(close: string, rest: string, acc: seq<Field>)
    requires AllSpace(close)
    ensures ReadFields(close + ("}" + rest), acc) == Got(Some(Object(acc)), In(rest, true))
    ensures ReadFields(close + "}" + rest, acc) == Got(Some(Object(acc)), In(rest, true))
    ensures SkipSpace(close + ("}" + rest)) == "}" + rest && NoDigit(close + ("}" + rest)) && ("}" + rest)[1..] == rest
  {
    SpaceSkipped(close, "}" + rest);
    NoDigitAfterSpace(close, "}" + rest);
    assert close + "}" + rest == close + ("}" + rest);
  }

  lemma {:induction false} LastEntry(e: Entry, close: string, rest: string, acc: seq<Field>)
    requires EntryOk(e) && AllSpace(close) && !HasKey(acc, e.key)
    ensures ReadFields(EntryText(e) + (close + ("}" + rest)), acc)
            == Got(Some(Object(acc + [EntryValue(e)])), In(rest, true))
    decreases e, 2
  {
    EndsObject(close, rest, acc + [EntryValue(e)]);
    ReadsEntry(e, close + ("}" + rest), acc);
  }

  lemma {:induction false} NextEntry(e: Entry, more: string, acc: seq<Field>)
    requires EntryOk(e) && !HasKey(acc, e.key)
    ensures ReadFields(EntryText(e) + ("," + more), acc) == ReadFields(more, acc + [EntryValue(e)])
    decreases e, 2
  {
    assert SkipSpace("," + more) == "," + more && ("," + more)[1..] == more;
    ReadsEntry(e, "," + more, acc);
  }

  lemma {:induction false} ReadsEntries(entries: seq<Entry>, k: nat, close: string, rest: string, acc: seq<Field>)
    requires AllSpace(close) && k <= |entries| && forall i | 0 <= i < |entries| :: EntryOk(entries[i])
    requires DistinctKeys(entries) && KeysRead(entries, k, acc)
    ensures ReadFields(EntriesText(entries, k, close) + rest, acc)
            == Got(Some(Object(acc + EntryValues(entries, k))), In(rest, true))
    decreases entries, |entries| - k
  {
    if k == |entries| {
      EndsObject(close, rest, acc);
      assert acc + [] == acc;
    } else {
      var fields := acc + [EntryValue(entries[k])];
      EntriesTextSplit(entries, k, close, rest);
      KeyIsNew(entries, k, acc);
      EntryValuesSplit(entries, k, acc);
      if k + 1 == |entries| {
        LastEntry(entries[k], close, rest, acc);
      } else {
        NextEntry(entries[k], EntriesText(entries, k + 1, close) + rest, acc);
        ReadsEntries(entries, k + 1, close, rest, fields);
      }
    }
  }
}
