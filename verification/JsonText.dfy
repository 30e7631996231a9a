/** JSON values and how they are read: escaping (lib/cstring.cpp), and the reader of ir/json_parser.cpp as a function
    of the text that is left in a stream. RFC 8259 describes the format; the reader accepts more. */
module JsonText {
  import opened Decimals
  import opened Wrappers

  /** Strings and keys are kept in escaped form. */
  datatype Json =
    | Null
    | Boolean(b: bool)
    | Number(n: int)
    | String(s: string)
    | Array(elems: seq<Json>)
    | Object(fields: seq<Field>)

  datatype Field = Field(key: string, value: Json)

  // ---- strings ----

  predicate NeedsEscape(c: char) {
    c == '\\' || c == '"'
  }

  function EscapeJson(s: string): string {
    if s == "" then ""
    else
      var n := |s| - 1;
      EscapeJson(s[..n]) + if NeedsEscape(s[n]) then ['\\', s[n]] else [s[n]]
  }

  /** The number of backslashes at the end of a string */
  function Run(s: string): nat {
    if s != "" && s[|s| - 1] == '\\' then 1 + Run(s[..|s| - 1]) else 0
  }

  /** Every quote follows an odd run of backslashes, and the run at the end is even (section 7 of RFC 8259 asks for
      this as far as quotes and backslashes are concerned). */
  ghost predicate WellEscaped(s: string) {
    (forall i | 0 <= i < |s| && s[i] == '"' :: Run(s[..i]) % 2 == 1) && Run(s) % 2 == 0
  }

  lemma {:induction false} EscapedIsWellEscaped(s: string)
    ensures WellEscaped(EscapeJson(s))
  {
    if s != "" {
      var n := |s| - 1;
      EscapedIsWellEscaped(s[..n]);
      if NeedsEscape(s[n]) {
        EscapedMore(EscapeJson(s[..n]), s[n]);
      } else {
        PlainMore(EscapeJson(s[..n]), s[n]);
      }
    }
  }

  lemma PlainMore(t: string, c: char)
    requires WellEscaped(t) && !NeedsEscape(c)
    ensures WellEscaped(t + [c])
  {
    forall i | 0 <= i < |t| && t[i] == '"' ensures Run((t + [c])[..i]) % 2 == 1 { assert (t + [c])[..i] == t[..i]; }
  }

  lemma EscapedMore(t: string, c: char)
    requires WellEscaped(t) && NeedsEscape(c)
    ensures WellEscaped(t + ['\\', c])
  {
    var u := t + ['\\', c];
    assert u[..|t| + 1][..|t|] == t;
    forall i | 0 <= i < |u| && u[i] == '"' ensures Run(u[..i]) % 2 == 1 {
      if i < |t| { assert u[..i] == t[..i]; }
    }
  }

  lemma EscapeLast(s: string)
    requires s != ""
    ensures var e, c := EscapeJson(s), s[|s| - 1];
            && |e| >= 2 - (if NeedsEscape(c) then 0 else 1) && e[|e| - 1] == c
            && e[..|e| - if NeedsEscape(c) then 2 else 1] == EscapeJson(s[..|s| - 1])
  {
  }

  /** Different strings are escaped to different strings. */
  lemma {:induction false} EscapeIsInjective(s: string, t: string)
    requires EscapeJson(s) == EscapeJson(t)
    ensures s == t
  {
    if s != "" { EscapeLast(s); }
    if t != "" { EscapeLast(t); }
    if s != "" && t != "" {
      EscapeIsInjective(s[..|s| - 1], t[..|t| - 1]);
      assert s == s[..|s| - 1] + [s[|s| - 1]] && t == t[..|t| - 1] + [t[|t| - 1]];
    }
  }

  /** What an escaped string stands for: a backslash is dropped, and the character after it is kept as it is. */
  function Unescape(s: string): string {
    if s == "" then ""
    else if s[0] == '\\' && |s| > 1 then [s[1]] + Unescape(s[2..])
    else [s[0]] + Unescape(s[1..])
  }

  lemma {:induction false} EscapeFirst(s: string)
    requires s != ""
    ensures EscapeJson(s) == (if NeedsEscape(s[0]) then ['\\', s[0]] else [s[0]]) + EscapeJson(s[1..])
  {
    var n := |s| - 1;
    if n == 0 {
      assert s[..0] == "" && s[1..] == "";
    } else {
      EscapeFirst(s[..n]);
      assert s[..n][1..] == s[1..][..n - 1] && s[..n][0] == s[0];
    }
  }

  /** Only quotes and backslashes are escaped, by one backslash each, and the string can be got back. */
  lemma {:induction false} EscapesExactly(s: string)
    ensures |EscapeJson(s)| == |s| + multiset(s)['"'] + multiset(s)['\\']
    ensures Unescape(EscapeJson(s)) == s
    ensures '"' !in s && '\\' !in s ==> EscapeJson(s) == s
  {
    if s != "" {
      var t, u := EscapeJson(s), EscapeJson(s[1..]);
      EscapeFirst(s);
      EscapesExactly(s[1..]);
      assert s == [s[0]] + s[1..];
      assert t[|t| - |u|..] == u;
    }
  }

  // ---- the reader ----

  /** What is left in a stream, and whether it can still be read from */
  datatype In = In(rest: string, ok: bool)

  /** The value is missing when the reader leaves its result unset. */
  datatype Got = Got(value: Option<Json>, left: In)

  predicate IsSpace(c: char) {
    c == ' ' || '\t' <= c <= '\r'
  }

  function SkipSpace(s: string): (r: string)
    ensures |r| <= |s| && (r != "" ==> !IsSpace(r[0]))
  {
    if s != "" && IsSpace(s[0]) then SkipSpace(s[1..]) else s
  }

  function FirstQuote(s: string): (k: nat)
    ensures k <= |s| && (forall i | 0 <= i < k :: s[i] != '"') && (k < |s| ==> s[k] == '"')
  {
    if s == "" || s[0] == '"' then 0 else 1 + FirstQuote(s[1..])
  }

  /** A string is read up to a quote that does not follow an odd run of backslashes. */
  function ReadString(acc: string, s: string): (r: (string, In))
    ensures |r.1.rest| <= |s|
    decreases |s|
  {
    var k := FirstQuote(s);
    var t := acc + s[..k];
    if Run(t) % 2 == 0 then (t, if k < |s| then In(s[k + 1..], true) else In("", k > 0))
    else if k < |s| then ReadString(t + "\"", s[k + 1..])
    else (t + "\"", In("", false))
  }

  lemma NothingLeft(acc: string)
    ensures ReadString(acc + "\"", "") == (acc + "\"", In("", false))
  {
    assert acc + "\"" + "" == acc + "\"";
  }

  function DigitsIn(s: string): (k: nat)
    ensures k <= |s| && (forall i | 0 <= i < k :: IsDigit(s[i])) && (k < |s| ==> !IsDigit(s[k]))
  {
    if s == "" || !IsDigit(s[0]) then 0 else 1 + DigitsIn(s[1..])
  }

  /** An optional sign and digits; without digits the stream fails. */
  function ReadNumber(s: string): (r: Got)
    requires s != ""
    ensures r.value.Some? && |r.left.rest| <= |s| && (r.left.ok ==> |r.left.rest| < |s|)
  {
    var digits := if s[0] == '-' then s[1..] else s;
    var k := DigitsIn(digits);
    if k == 0 then Got(Some(Number(0)), In(digits, false))
    else
      var n := ValueOf(digits[..k]);
      Got(Some(Number(if s[0] == '-' then -n else n)), In(digits[k..], true))
  }

  function Drop(s: string, n: nat): (r: string)
    ensures |r| <= |s| && (n > 0 && s != "" ==> |r| < |s|)
  {
    if n <= |s| then s[n..] else ""
  }

  /** Strings, numbers and words. Words are known by their first character. */
  function ReadScalar(s: string): (r: Got)
    requires s != ""
    ensures |r.left.rest| <= |s| && (r.left.ok ==> |r.left.rest| < |s|)
  {
    var c := s[0];
    if c == '"' then
      var (t, left) := ReadString("", s[1..]);
      Got(Some(String(t)), left)
    else if c == '-' || IsDigit(c) then ReadNumber(s)
    else if c == 't' || c == 'T' then Got(Some(Boolean(true)), In(Drop(s, 4), true))
    else if c == 'f' || c == 'F' then Got(Some(Boolean(false)), In(Drop(s, 5), true))
    else if c == 'n' || c == 'N' then Got(Some(Null), In(Drop(s, 4), true))
    else Got(None, In(s[1..], true))
  }

  function ReadValue(i: In): (r: Got)
    ensures |r.left.rest| <= |i.rest|
    ensures r.value.Some? && r.left.ok ==> |r.left.rest| < |i.rest|
    decreases |i.rest|, 0
  {
    var s := SkipSpace(i.rest);
    if !i.ok then Got(None, i)
    else if s == "" then Got(None, In("", false))
    else if s[0] == '{' then ReadFields(s[1..], [])
    else if s[0] == '[' then ReadElements(s[1..], [])
    else ReadScalar(s)
  }

  /** The elements of an array and its closing bracket; any other character stands between elements. */
  function ReadElements(s0: string, acc: seq<Json>): (r: Got)
    ensures |r.left.rest| <= |s0|
    decreases |s0|, 1
  {
    var s := SkipSpace(s0);
    if s == "" then Got(None, In("", false))
    else if s[0] == ']' then Got(Some(Array(acc)), In(s[1..], true))
    else
      var elem := ReadValue(In(s, true));
      if elem.value.None? then elem
      else
        var elems := acc + [elem.value.value];
        var t := SkipSpace(elem.left.rest);
        if !elem.left.ok || t == "" then Got(Some(Array(elems)), In("", false))
        else if t[0] == ']' then Got(Some(Array(elems)), In(t[1..], true))
        else ReadElements(t[1..], elems)
  }

  /** A field replaces the value of one with the same key. */
  function Put(fields: seq<Field>, key: string, value: Json): seq<Field> {
    if fields == [] then [Field(key, value)]
    else if fields[0].key == key then [Field(key, value)] + fields[1..]
    else [fields[0]] + Put(fields[1..], key, value)
  }

  function ReadFields(s0: string, acc: seq<Field>): (r: Got)
    ensures |r.left.rest| <= |s0|
    decreases |s0|, 1
  {
    var s := SkipSpace(s0);
    if s == "" then Got(None, In("", false))
    else if s[0] == '}' then Got(Some(Object(acc)), In(s[1..], true))
    else
      var key := ReadValue(In(s, true));
      if key.value.None? || !key.value.value.String? then Got(None, key.left)
      else
        var afterKey := SkipSpace(key.left.rest);
        if !key.left.ok || afterKey == "" then Got(None, In("", false))
        else
          var val := ReadValue(In(afterKey[1..], true));
          if val.value.None? then val
          else
            var fields := Put(acc, key.value.value.s, val.value.value);
            var t := SkipSpace(val.left.rest);
            if !val.left.ok || t == "" then Got(Some(Object(fields)), In("", false))
            else if t[0] == '}' then Got(Some(Object(fields)), In(t[1..], true))
            else ReadFields(t[1..], fields)
  }
}
