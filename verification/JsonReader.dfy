/** operator>> of ir/json_parser.cpp */
module JsonReaders {
  import opened Decimals
  import opened Wrappers
  import opened JsonText

  class Reader {
    const text: string
    var pos: nat
    /** The stream has not failed. */
    var ok: bool

    constructor (text: string)
      ensures Valid() && State() == In(text, true)
    {
      this.text, pos, ok := text, 0, true;
    }

    ghost predicate Valid()
      reads this
    {
      pos <= |text|
    }

    ghost function State(): In
      requires Valid()
      reads this
    {
      In(text[pos..], ok)
    }

    /** std::ws */
    method SkipSpaces()
      requires Valid()
      modifies `pos
      ensures Valid() && text[pos..] == SkipSpace(old(text[pos..])) && old(pos) <= pos
    {
      while pos < |text| && IsSpace(text[pos])
        invariant Valid() && old(pos) <= pos && SkipSpace(text[pos..]) == SkipSpace(old(text[pos..]))
      {
        assert text[pos..][1..] == text[pos + 1..];
        pos := pos + 1;
      }
    }

    method Fail()
      requires Valid()
      modifies this
      ensures Valid() && State() == In("", false)
    {
      pos, ok := |text|, false;
    }

    method Ignore(n: nat)
      requires Valid()
      modifies `pos
      ensures Valid() && text[pos..] == Drop(old(text[pos..]), n) && old(pos) <= pos
    {
      pos := if pos + n <= |text| then pos + n else |text|;
    }

    /** getline up to a quote, which is not kept; without a quote, all that is left */
    method GetLine() returns (line: string, found: bool)
      requires Valid()
      modifies `pos
      ensures Valid() && old(pos) <= pos
      ensures var s := old(text[pos..]);
              && line == s[..FirstQuote(s)] && (found <==> FirstQuote(s) < |s|)
              && text[pos..] == if found then s[FirstQuote(s) + 1..] else ""
      ensures !found ==> pos == |text|
    {
      var start := pos;
      while pos < |text| && text[pos] != '"'
        invariant start <= pos <= |text|
        invariant FirstQuote(text[start..]) == pos - start + FirstQuote(text[pos..])
      {
        NoQuoteFirst(text, pos);
        pos := pos + 1;
      }
      line := text[start..pos];
      assert line == text[start..][..pos - start];
      found := pos < |text|;
      if found { pos := pos + 1; }
    }

    /** Adds the next line to what was read of a string. */
    method AddLine(s0: string) returns (s: string, found: bool)
      requires Valid()
      modifies this
      ensures Valid() && AfterLine(s, found, State()) == ReadString(s0, old(text[pos..]))
      ensures if found then old(pos) < pos else pos == |text|
      ensures old(pos) == |text| ==> s == s0
    {
      LineRead(s0, text[pos..]);
      var line;
      line, found := GetLine();
      ok := found || line != "";
      s := s0 + line;
    }

    method ReadStringValue() returns (s: string)
      requires Valid() && ok
      modifies this
      ensures Valid() && (s, State()) == ReadString("", old(text[pos..]))
    {
      var found;
      ghost var whole := ReadString("", text[pos..]);
      s, found := AddLine("");
      while s != "" && s[|s| - 1] == '\\'
        invariant Valid() && (!found ==> pos == |text|)
        invariant AfterLine(s, found, State()) == whole
        decreases |text| - pos, found, s != "" && s[|s| - 1] == '\\'
      {
        var bsCount := TrailingBackslashes(s);
        if bsCount % 2 == 0 {
          StringEnds(s, found, State());
          return;
        }
        QuoteIsEscaped(s, found, State());
        s, found := AddLine(s + "\"");
      }
      StringEnds(s, found, State());
    }

    method SkipDigits() returns (digits: string)
      requires Valid()
      modifies `pos
      ensures Valid() && old(pos) <= pos
      ensures var s := old(text[pos..]); digits == s[..DigitsIn(s)] && text[pos..] == s[DigitsIn(s)..]
    {
      var start := pos;
      while pos < |text| && IsDigit(text[pos])
        invariant start <= pos <= |text|
        invariant DigitsIn(text[start..]) == pos - start + DigitsIn(text[pos..])
      {
        assert text[pos..][1..] == text[pos + 1..];
        pos := pos + 1;
      }
      digits := text[start..pos];
    }

    /** The number that gmp reads */
    method ReadNumberValue() returns (j: Json)
      requires Valid() && ok && pos < |text|
      modifies this
      ensures Valid() && old(pos) <= pos
      ensures Got(Some(j), State()) == ReadNumber(old(text[pos..]))
    {
      hide DigitsIn;
      var negative := text[pos] == '-';
      assert text[pos..][0] == text[pos] && text[pos..][1..] == text[pos + 1..];
      if negative { pos := pos + 1; }
      var digits := SkipDigits();
      ok := digits != "";
      var n := ValueOf(digits);
      j := Number(if negative then -n else n);
    }

    method ReadToken() returns (j: Option<Json>)
      requires Valid() && ok && pos < |text|
      modifies this
      ensures Valid() && Got(j, State()) == ReadScalar(old(text[pos..]))
    {
      var ch := text[pos];
      assert text[pos..][0] == ch && text[pos..][1..] == text[pos + 1..];
      if ch == '"' {
        pos := pos + 1;
        var s := ReadStringValue();
        j := Some(String(s));
      } else if ch == '-' || IsDigit(ch) {
        var n := ReadNumberValue();
        j := Some(n);
      } else if ch == 't' || ch == 'T' {
        Ignore(4);
        j := Some(Boolean(true));
      } else if ch == 'f' || ch == 'F' {
        Ignore(5);
        j := Some(Boolean(false));
      } else if ch == 'n' || ch == 'N' {
        Ignore(4);
        j := Some(Null);
      } else {
        pos := pos + 1;
        j := None;
      }
    }

    method ReadJson() returns (j: Option<Json>)
      requires Valid()
      modifies this
      ensures Valid() && Got(j, State()) == ReadValue(old(State()))
      decreases |text| - pos, 0
    {
      hide ReadFields, ReadElements, ReadScalar, SkipSpace;
      if !ok { return None; }
      SkipSpaces();
      if pos == |text| {
        ok := false;
        return None;
      }
      var ch := text[pos];
      assert text[pos..][0] == ch && text[pos..][1..] == text[pos + 1..];
      if ch == '{' {
        pos := pos + 1;
        j := ReadObject();
      } else if ch == '[' {
        pos := pos + 1;
        j := ReadVector();
      } else {
        j := ReadToken();
      }
    }

    /** White space and one more character; at the end of the text the stream fails. */
    method NextChar() returns (ch: char)
      requires Valid()
      modifies this
      ensures Valid() && old(pos) <= pos
      ensures var t := SkipSpace(old(text[pos..]));
              if !old(ok) || t == "" then State() == In("", false)
              else ch == t[0] && State() == In(t[1..], true)
    {
      ch := ' ';
      if !ok {
        Fail();
        return;
      }
      SkipSpaces();
      if pos == |text| {
        Fail();
        return;
      }
      ch := text[pos];
      assert text[pos..][1..] == text[pos + 1..];
      pos := pos + 1;
    }

    method ReadVector() returns (j: Option<Json>)
      requires Valid() && ok
      modifies this
      ensures Valid() && Got(j, State()) == ReadElements(old(text[pos..]), [])
      decreases |text| - pos, 1
    {
      var vec := [];
      while true
        invariant Valid() && ok && old(pos) <= pos
        invariant ReadElements(text[pos..], vec) == ReadElements(old(text[pos..]), [])
        decreases |text| - pos
      {
        SkipSpaces();
        if pos == |text| {
          Fail();
          return None;
        }
        if text[pos] == ']' {
          pos := pos + 1;
          return Some(Array(vec));
        }
        var elem := ReadJson();
        if elem.None? { return None; }
        vec := vec + [elem.value];
        var ch := NextChar();
        if !ok || ch == ']' { return Some(Array(vec)); }
      }
    }

    method ReadObject() returns (j: Option<Json>)
      requires Valid() && ok
      modifies this
      ensures Valid() && Got(j, State()) == ReadFields(old(text[pos..]), [])
      decreases |text| - pos, 1
    {
      var obj := [];
      while true
        invariant Valid() && ok && old(pos) <= pos
        invariant ReadFields(text[pos..], obj) == ReadFields(old(text[pos..]), [])
        decreases |text| - pos
      {
        SkipSpaces();
        if pos == |text| {
          Fail();
          return None;
        }
        if text[pos] == '}' {
          pos := pos + 1;
          return Some(Object(obj));
        }
        var key := ReadJson();
        if key.None? || !key.value.String? { return None; }
        var colon := NextChar();
        if !ok { return None; }
        var val := ReadJson();
        if val.None? { return None; }
        obj := JsonText.Put(obj, key.value.s, val.value);
        var ch := NextChar();
        if !ok || ch == '}' { return Some(Object(obj)); }
      }
    }
  }

  /** What is read of a string in all, after a line of it was read */
  ghost function AfterLine(s: string, found: bool, left: In): (string, In) {
    if Run(s) % 2 == 0 then (s, left)
    else if found then ReadString(s + "\"", left.rest)
    else (s + "\"", In("", false))
  }

  lemma NoQuoteFirst(s: string, i: nat)
    requires i < |s| && s[i] != '"'
    ensures FirstQuote(s[i..]) == 1 + FirstQuote(s[i + 1..])
  {
    assert s[i..][1..] == s[i + 1..];
  }

  lemma LineRead(acc: string, s: string)
    ensures var k := FirstQuote(s);
            ReadString(acc, s)
            == AfterLine(acc + s[..k], k < |s|, if k < |s| then In(s[k + 1..], true) else In("", k > 0))
  {
  }

  lemma QuoteIsEscaped(s: string, found: bool, left: In)
    requires Run(s) % 2 == 1 && (!found ==> left.rest == "")
    ensures AfterLine(s, found, left) == ReadString(s + "\"", left.rest)
  {
    if !found { NothingLeft(s); }
  }

  lemma StringEnds(s: string, found: bool, left: In)
    requires s == "" || s[|s| - 1] != '\\' || Run(s) % 2 == 0
    ensures AfterLine(s, found, left) == (s, left)
  {
  }

  /** The loop that counts the backslashes before a quote */
  method TrailingBackslashes(s: string) returns (count: nat)
    ensures count == Run(s)
  {
    count := 0;
    var t := |s|;
    assert s[..t] == s;
    while t > 0 && s[t - 1] == '\\'
      invariant 0 <= t <= |s| && Run(s) == count + Run(s[..t])
    {
      assert s[..t][..t - 1] == s[..t - 1];
      count, t := count + 1, t - 1;
    }
  }
}
