/** What else the reader of ir/json_parser.cpp takes for JSON: any character between values, a separator at the end,
    text that ends early, and a key that occurs twice */
module JsonLeniency {
  import opened Decimals
  import opened Wrappers
  import opened JsonText
  import opened JsonRoundTrip

  /** A character that neither is skipped nor continues a number */
  predicate Separates(c: char) {
    !IsSpace(c) && !IsDigit(c)
  }

  function Plain(d: Doc): Item {
    Item("", d, "")
  }

  lemma PlainText(d: Doc)
    ensures ItemText(Plain(d)) == Text(d) && ItemValue(Plain(d)) == ValueOfDoc(d)
    ensures WellFormed(d) ==> ItemOk(Plain(d))
  {
    var text := Text(d);
    assert "" + text + "" == text;
  }

  /** An element of an array, before a character that separates it from what follows */
  lemma ReadsElement(d: Doc, c: char, more: string, acc: seq<Json>)
    requires WellFormed(d) && Separates(c)
    ensures ReadElements(Text(d) + ([c] + more), acc)
            == if c == ']' then Got(Some(Array(acc + [ValueOfDoc(d)])), In(more, true))
               else ReadElements(more, acc + [ValueOfDoc(d)])
  {
    hide Text, ValueOfDoc, WellFormed, ReadElements;
    PlainText(d);
    var tail := [c] + more;
    assert SkipSpace(tail) == tail && tail[1..] == more && NoDigit(tail);
    ReadsItem(Plain(d), tail, acc);
  }

  lemma ClosesArray(rest: string, acc: seq<Json>)
    ensures ReadElements("]" + rest, acc) == Got(Some(Array(acc)), In(rest, true))
  {
    assert SkipSpace("]" + rest) == "]" + rest && ("]" + rest)[1..] == rest;
  }

  /** Any character but a bracket separates two elements, and one before the closing bracket does no harm. */
  lemma AnySeparator(d: Doc, e: Doc, c: char, rest: string)
    requires WellFormed(d) && WellFormed(e) && Separates(c) && c != ']'
    ensures ReadValue(In("[" + (Text(d) + ([c] + (Text(e) + ("]" + rest)))), true))
            == Got(Some(Array([ValueOfDoc(d), ValueOfDoc(e)])), In(rest, true))
    ensures ReadValue(In("[" + (Text(d) + ([c] + ("]" + rest))), true))
            == Got(Some(Array([ValueOfDoc(d)])), In(rest, true))
  {
    hide Text, ValueOfDoc, WellFormed, ReadElements, ReadValue;
    var x, y := ValueOfDoc(d), ValueOfDoc(e);
    OpensArray(Text(d) + ([c] + (Text(e) + ("]" + rest))));
    OpensArray(Text(d) + ([c] + ("]" + rest)));
    ReadsElement(d, c, Text(e) + ("]" + rest), []);
    ReadsElement(d, c, "]" + rest, []);
    ReadsElement(e, ']', rest, [x]);
    ClosesArray(rest, [x]);
    assert [] + [x] == [x] && [x] + [y] == [x, y];
  }

  /** An array that is not closed has the elements that were read, and the stream fails. */
  lemma UnclosedArray(d: Doc)
    requires WellFormed(d)
    ensures ReadValue(In("[" + Text(d), true)) == Got(Some(Array([ValueOfDoc(d)])), In("", false))
    ensures ReadValue(In("[", true)) == Got(None, In("", false))
  {
    hide ValueOfDoc, WellFormed;
    var s := Text(d);
    TextStarts(d);
    assert "[" + "" == "[" && "" + s == s && s + "" == s && [] + [ValueOfDoc(d)] == [ValueOfDoc(d)];
    OpensArray(s);
    OpensArray("");
    ReadsDoc("", d, "");
    assert SkipSpace(s) == s;
  }

  /** Any character stands for the colon. */
  lemma AnyColon(key: string, c: char, d: Doc, rest: string)
    requires WellEscaped(key) && WellFormed(d) && !IsSpace(c)
    ensures ReadValue(In("{" + ("\"" + key + "\"" + ([c] + (Text(d) + ("}" + rest)))), true))
            == Got(Some(Object([Field(key, ValueOfDoc(d))])), In(rest, true))
  {
    hide Text, ValueOfDoc, WellFormed, WellEscaped, ReadValue, ReadFields;
    var after := Text(d) + ("}" + rest);
    var s := "\"" + key + "\"" + ([c] + after);
    OpensObject(s);
    ReadsQuoted(key, [c] + after);
    assert NoDigit("}" + rest);
    ReadsDoc("", d, "}" + rest);
    assert "" + Text(d) + ("}" + rest) == after;
    FieldThenBrace(s, key, c, after, ValueOfDoc(d), rest);
  }

  lemma FieldThenBrace(s: string, key: string, c: char, after: string, value: Json, rest: string)
    requires s != "" && s[0] == '"' && !IsSpace(c)
    requires ReadValue(In(s, true)) == Got(Some(String(key)), In([c] + after, true))
    requires ReadValue(In(after, true)) == Got(Some(value), In("}" + rest, true))
    ensures ReadFields(s, []) == Got(Some(Object([Field(key, value)])), In(rest, true))
  {
    hide ReadValue;
    assert SkipSpace(s) == s && SkipSpace([c] + after) == [c] + after && ([c] + after)[1..] == after;
    assert SkipSpace("}" + rest) == "}" + rest && ("}" + rest)[1..] == rest;
    assert Put([], key, value) == [Field(key, value)];
  }

  /** A key that occurs again gets its new value in its old place. */
  lemma {:induction false} PutAgain(fields: seq<Field>, key: string, value: Json, k: nat)
    requires k < |fields| && fields[k].key == key && forall i | 0 <= i < k :: fields[i].key != key
    ensures Put(fields, key, value) == fields[k := Field(key, value)]
  {
    if k > 0 {
      PutAgain(fields[1..], key, value, k - 1);
      assert fields[k := Field(key, value)] == [fields[0]] + fields[1..][k - 1 := Field(key, value)];
    }
  }
}
