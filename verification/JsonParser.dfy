/**
 A recursive-descent parser for the restricted profile and the proof that it undoes `Print`.

 The parser stands for `json.loads` with the hooks that refuse duplicate keys and floating-point
 numbers. Texts with insignificant whitespace or avoidable escapes, which `json.loads` reads, are
 refused here; every reader of protocol messages refuses them too, because they are not the
 canonical encoding of what was read.
 */
module JsonParser {
  import opened Prelude
  import opened Ordering
  import opened JsonValues

  predicate IsDigit(c: char) {
    '0' <= c <= '9'
  }

  function DigitValue(c: char): (d: nat)
    requires IsDigit(c)
    ensures d < 10
  {
    c as int - '0' as int
  }

  /** Length of the longest run of digits at the front. */
  function DigitRun(s: string): (n: nat)
    ensures n <= |s|
    ensures forall i :: 0 <= i < n ==> IsDigit(s[i])
    ensures n < |s| ==> !IsDigit(s[n])
  {
    if s == "" || !IsDigit(s[0]) then 0 else 1 + DigitRun(s[1..])
  }

  function DecimalValue(s: string): nat
    requires forall i :: 0 <= i < |s| ==> IsDigit(s[i])
  {
    if s == "" then 0 else 10 * DecimalValue(s[..|s| - 1]) + DigitValue(s[|s| - 1])
  }

  /** Digits without a superfluous leading zero. */
  function ParseNat(s: string): (r: Option<(nat, string)>)
    ensures r.Some? ==> |r.value.1| < |s|
  {
    var n := DigitRun(s);
    if n == 0 || (n > 1 && s[0] == '0') then None
    else Some((DecimalValue(s[..n]), s[n..]))
  }

  function ParseInt(s: string): (r: Option<(int, string)>)
    ensures r.Some? ==> |r.value.1| < |s|
  {
    var negative := s != "" && s[0] == '-';
    var (n, rest) :- ParseNat(if negative then s[1..] else s);
    Some((if negative then -(n as int) else n as int, rest))
  }

  /** The text up to the closing quote. */
  function ParseText(s: string): (r: Option<(string, string)>)
    ensures r.Some? ==> |r.value.1| < |s|
  {
    if s == "" then None
    else if s[0] == '"' then Some(("", s[1..]))
    else if s[0] == '\\' then
      if |s| < 2 || (s[1] != '"' && s[1] != '\\') then None
      else
        var (text, rest) :- ParseText(s[2..]);
        Some(([s[1]] + text, rest))
    else
      var (text, rest) :- ParseText(s[1..]);
      Some(([s[0]] + text, rest))
  }

  function ParseLiteral(s: string, literal: string, v: Json): (r: Option<(Json, string)>)
    requires literal != ""
    ensures r.Some? ==> |r.value.1| < |s|
  {
    if literal <= s then Some((v, s[|literal|..])) else None
  }

  /** Everything but arrays and objects. */
  function ParseAtom(s: string): (r: Option<(Json, string)>)
    ensures r.Some? ==> |r.value.1| < |s|
  {
    if s == "" then None
    else if s[0] == 'n' then ParseLiteral(s, "null", Null)
    else if s[0] == 't' then ParseLiteral(s, "true", Bool(true))
    else if s[0] == 'f' then ParseLiteral(s, "false", Bool(false))
    else if s[0] == '"' then
      var (text, rest) :- ParseText(s[1..]);
      Some((Str(text), rest))
    else
      var (n, rest) :- ParseInt(s);
      Some((Int(n), rest))
  }

  function ParseValue(s: string): (r: Option<(Json, string)>)
    ensures r.Some? ==> |r.value.1| < |s|
    decreases |s|, 0
  {
    if s == "" then None
    else if s[0] == '[' then ParseArray(s[1..])
    else if s[0] == '{' then ParseObject(s[1..])
    else ParseAtom(s)
  }

  /** An array after its opening bracket. */
  function ParseArray(s: string): (r: Option<(Json, string)>)
    ensures r.Some? ==> |r.value.1| < |s|
    decreases |s|, 1
  {
    if s == "" then None
    else if s[0] == ']' then Some((Arr([]), s[1..]))
    else
      var (v, rest) :- ParseValue(s);
      var (vs, rest') :- ParseMoreItems(rest);
      Some((Arr([v] + vs), rest'))
  }

  /** An object after its opening brace. */
  function ParseObject(s: string): (r: Option<(Json, string)>)
    ensures r.Some? ==> |r.value.1| < |s|
    decreases |s|, 2
  {
    if s == "" then None
    else if s[0] == '}' then Some((Obj(map[]), s[1..]))
    else
      var ((k, v), rest) :- ParseField(s);
      var (fields, rest') :- ParseMoreFields(rest, map[k := v]);
      Some((Obj(fields), rest'))
  }

  function ParseMoreItems(s: string): (r: Option<(seq<Json>, string)>)
    ensures r.Some? ==> |r.value.1| < |s|
    decreases |s|, 1
  {
    if s == "" then None
    else if s[0] == ']' then Some(([], s[1..]))
    else if s[0] == ',' then
      var (v, rest) :- ParseValue(s[1..]);
      var (vs, rest') :- ParseMoreItems(rest);
      Some(([v] + vs, rest'))
    else None
  }

  function ParseField(s: string): (r: Option<((string, Json), string)>)
    ensures r.Some? ==> |r.value.1| < |s|
    decreases |s|, 1
  {
    if s == "" || s[0] != '"' then None
    else
      var (k, rest) :- ParseText(s[1..]);
      if rest == "" || rest[0] != ':' then None
      else
        var (v, rest') :- ParseValue(rest[1..]);
        Some(((k, v), rest'))
  }

  /** Fills the dictionary field by field and refuses a key that is already in it. */
  function ParseMoreFields(s: string, fields: map<string, Json>): (r: Option<(map<string, Json>, string)>)
    ensures r.Some? ==> |r.value.1| < |s|
    decreases |s|, 2
  {
    if s == "" then None
    else if s[0] == '}' then Some((fields, s[1..]))
    else if s[0] == ',' then
      var ((k, v), rest) :- ParseField(s[1..]);
      if k in fields then None else ParseMoreFields(rest, fields[k := v])
    else None
  }

  /** `json.loads`: one value and nothing after it. */
  function Parse(s: string): Option<Json> {
    var (v, rest) :- ParseValue(s);
    if rest == "" then Some(v) else None
  }

  // ---------- the parser undoes the printer ----------

  /** What may follow a printed value without being read as part of it. */
  predicate Delimited(rest: string) {
    rest == "" || !IsDigit(rest[0])
  }

  lemma {:induction false} DigitRunOf(digits: string, rest: string)
    requires forall i :: 0 <= i < |digits| ==> IsDigit(digits[i])
    requires Delimited(rest)
    ensures DigitRun(digits + rest) == |digits|
  {
    var s := digits + rest;
    if digits == "" {
      assert s == rest;
    } else {
      assert s[0] == digits[0] && s[1..] == digits[1..] + rest;
      DigitRunOf(digits[1..], rest);
    }
  }

  lemma {:induction false} DecimalValueOf(n: nat)
    ensures DecimalValue(Decimal(n)) == n
    ensures Decimal(n)[0] == '0' ==> n == 0
  {
    if n < 10 {
      var s := Decimal(n);
      assert s[..0] == "";
      assert DecimalValue(s[..0]) == 0;
    } else {
      DecimalValueOf(n / 10);
      var s := Decimal(n);
      assert s[..|s| - 1] == Decimal(n / 10);
      assert s[0] == Decimal(n / 10)[0];
    }
  }

  lemma ParseNatOf(n: nat, rest: string)
    requires Delimited(rest)
    ensures ParseNat(Decimal(n) + rest) == Some((n, rest))
  {
    var digits := Decimal(n);
    var s := digits + rest;
    DigitRunOf(digits, rest);
    DecimalValueOf(n);
    assert s[..|digits|] == digits && s[|digits|..] == rest;
    assert s[0] == digits[0];
    assert n == 0 ==> |digits| == 1;
  }

  lemma ParseIntOf(n: int, rest: string)
    requires Delimited(rest)
    ensures ParseInt(PrintInt(n) + rest) == Some((n, rest))
  {
    if n < 0 {
      ParseNegativeOf(-n, PrintInt(n), rest);
    } else {
      ParseNonNegativeOf(n, PrintInt(n), rest);
    }
  }

  lemma PrintIntStart(n: int)
    ensures PrintInt(n)[0] == '-' || IsDigit(PrintInt(n)[0])
  {
  }

  lemma ParseNonNegativeOf(n: nat, digits: string, rest: string)
    requires digits == Decimal(n) && Delimited(rest)
    ensures ParseInt(digits + rest) == Some((n as int, rest))
  {
    ParseNatOf(n, rest);
    assert (digits + rest)[0] == digits[0] && IsDigit(digits[0]);
  }

  lemma ParseNegativeOf(n: nat, text: string, rest: string)
    requires text == "-" + Decimal(n) && Delimited(rest)
    ensures ParseInt(text + rest) == Some((-(n as int), rest))
  {
    ParseNatOf(n, rest);
    Peel('-', Decimal(n), rest);
  }

  lemma {:induction false} ParseTextOf(text: string, rest: string)
    ensures ParseText(Escape(text) + "\"" + rest) == Some((text, rest))
  {
    var s := Escape(text) + "\"" + rest;
    if text == "" {
      assert s == "\"" + rest;
      assert s[1..] == rest;
    } else {
      var tail := Escape(text[1..]) + "\"" + rest;
      ParseTextOf(text[1..], rest);
      assert s == EscapeChar(text[0]) + tail;
      assert text == [text[0]] + text[1..];
      if text[0] == '"' || text[0] == '\\' {
        assert s[0] == '\\' && s[1] == text[0] && s[2..] == tail;
      } else {
        assert s[0] == text[0] && s[1..] == tail;
      }
    }
  }

  lemma ParseArrayStep(body: string, tail: string, x: Json)
    requires body != "" && body[0] != ']' && ParseValue(body + tail) == Some((x, tail))
    ensures ParseMoreItems(tail).Some? ==>
              var (xs, rest) := ParseMoreItems(tail).value;
              ParseArray(body + tail) == Some((Arr([x] + xs), rest))
  {
    assert (body + tail)[0] == body[0];
  }

  lemma ParseItemStep(body: string, tail: string, x: Json)
    requires ParseValue(body + tail) == Some((x, tail))
    ensures ParseMoreItems(tail).Some? ==>
              var (xs, rest) := ParseMoreItems(tail).value;
              ParseMoreItems("," + body + tail) == Some(([x] + xs, rest))
  {
    var s := "," + body + tail;
    assert s[1..] == body + tail;
  }

  lemma ParseFieldStep(key: string, body: string, tail: string, x: Json)
    requires ParseValue(body + tail) == Some((x, tail))
    ensures ParseField(Quote(key) + ":" + body + tail) == Some(((key, x), tail))
  {
    var after := ":" + body + tail;
    ParseTextOf(key, after);
    QuotedPrefix(key, body, tail);
    Peel(':', body, tail);
  }

  lemma QuotedPrefix(key: string, body: string, tail: string)
    ensures Quote(key) + ":" + body + tail != "" && (Quote(key) + ":" + body + tail)[0] == '"'
    ensures (Quote(key) + ":" + body + tail)[1..] == Escape(key) + "\"" + (":" + body + tail)
  {
  }

  lemma ParseObjectStep(field: string, tail: string, key: string, x: Json)
    requires field != "" && field[0] == '"' && ParseField(field + tail) == Some(((key, x), tail))
    ensures ParseMoreFields(tail, map[key := x]).Some? ==>
              var (fields, rest) := ParseMoreFields(tail, map[key := x]).value;
              ParseObject(field + tail) == Some((Obj(fields), rest))
  {
    assert (field + tail)[0] == field[0];
  }

  lemma ParseFieldsStep(field: string, tail: string, key: string, x: Json, acc: map<string, Json>)
    requires ParseField(field + tail) == Some(((key, x), tail)) && key !in acc
    ensures ParseMoreFields("," + field + tail, acc) == ParseMoreFields(tail, acc[key := x])
  {
    var s := "," + field + tail;
    assert s[1..] == field + tail;
  }

  lemma ParseLiteralOf(literal: string, rest: string, v: Json)
    requires literal != ""
    ensures ParseLiteral(literal + rest, literal, v) == Some((v, rest))
  {
    assert (literal + rest)[|literal|..] == rest;
  }

  lemma ParseIntAtom(n: int, rest: string)
    requires Delimited(rest)
    ensures ParseAtom(PrintInt(n) + rest) == Some((Int(n), rest))
    ensures PrintInt(n)[0] == '-' || IsDigit(PrintInt(n)[0])
  {
    PrintIntStart(n);
    ParseIntOf(n, rest);
    AtomOfInt(PrintInt(n) + rest, n, rest);
  }

  lemma AtomOfInt(s: string, n: int, rest: string)
    requires s != "" && (s[0] == '-' || IsDigit(s[0])) && ParseInt(s) == Some((n, rest))
    ensures ParseAtom(s) == Some((Int(n), rest))
  {
  }

  lemma ParseTextAtom(text: string, rest: string)
    ensures ParseAtom(Quote(text) + rest) == Some((Str(text), rest))
  {
    var s := Quote(text) + rest;
    assert s[0] == '"' && s[1..] == Escape(text) + "\"" + rest;
    ParseTextOf(text, rest);
  }

  lemma ParseAtomOf(v: Json, rest: string)
    requires !v.Arr? && !v.Obj? && Delimited(rest)
    ensures ParseAtom(Print(v) + rest) == Some((v, rest))
    ensures Print(v) != "" && Print(v)[0] != '[' && Print(v)[0] != '{' && Print(v)[0] != ']'
  {
    match v
    case Null => ParseLiteralOf("null", rest, v);
    case Bool(flag) => ParseLiteralOf(if flag then "true" else "false", rest, v);
    case Int(n) => ParseIntAtom(n, rest);
    case Str(text) => ParseTextAtom(text, rest);
  }

  lemma Peel(c: char, body: string, rest: string)
    ensures ([c] + body + rest)[0] == c && ([c] + body + rest)[1..] == body + rest
  {
  }

  lemma Associate(a: string, b: string, c: string, rest: string)
    ensures a + b + c + rest == a + (b + c + rest)
  {
  }

  lemma {:induction false} ParsePrint(v: Json, rest: string)
    requires Delimited(rest)
    ensures ParseValue(Print(v) + rest) == Some((v, rest))
    decreases v
  {
    match v
    case Arr(items) =>
      ParsePrintArray(v, rest);
      Peel('[', PrintArray(v), rest);
    case Obj(fields) =>
      ParsePrintObject(v, rest);
      Peel('{', PrintObject(v), rest);
    case _ =>
      ParseAtomOf(v, rest);
      assert (Print(v) + rest)[0] == Print(v)[0];
  }

  lemma {:induction false} ParsePrintArray(v: Json, rest: string)
    requires v.Arr? && Delimited(rest)
    ensures ParseArray(PrintArray(v) + rest) == Some((v, rest))
    decreases v, |v.items| + 1
  {
    if v.items == [] {
      Peel(']', "", rest);
      assert "" + rest == rest;
      assert PrintArray(v) + rest == [']'] + "" + rest;
    } else {
      var body, more := Print(v.items[0]), PrintMoreItems(v, 1);
      var tail := more + "]" + rest;
      ParsePrintItems(v, 1, rest);
      ParsePrint(v.items[0], tail);
      PrintStart(v.items[0]);
      ParseArrayStep(body, tail, v.items[0]);
      Associate(body, more, "]", rest);
      assert [v.items[0]] + v.items[1..] == v.items;
    }
  }

  lemma ParseItemsEnd(s: string, rest: string)
    requires s == "" + "]" + rest
    ensures ParseMoreItems(s) == Some(([], rest)) && Delimited(s)
  {
    assert s[0] == ']' && s[1..] == rest;
  }

  lemma {:induction false} ParsePrintItems(v: Json, from: nat, rest: string)
    requires v.Arr? && from <= |v.items| && Delimited(rest)
    ensures ParseMoreItems(PrintMoreItems(v, from) + "]" + rest) == Some((v.items[from..], rest))
    ensures Delimited(PrintMoreItems(v, from) + "]" + rest)
    decreases v, |v.items| - from
  {
    if from == |v.items| {
      ParseItemsEnd(PrintMoreItems(v, from) + "]" + rest, rest);
      assert v.items[from..] == [];
    } else {
      var body, more := Print(v.items[from]), PrintMoreItems(v, from + 1);
      var tail := more + "]" + rest;
      ParsePrintItems(v, from + 1, rest);
      ParsePrint(v.items[from], tail);
      ParseItemStep(body, tail, v.items[from]);
      Associate("," + body, more, "]", rest);
      ItemsFrom(v.items, from);
    }
  }

  lemma ItemsFrom(items: seq<Json>, from: nat)
    requires from < |items|
    ensures items[from..] == [items[from]] + items[from + 1..]
  {
  }

  function Restrict(m: map<string, Json>, keys: seq<string>): map<string, Json> {
    map k | k in m && k in keys :: m[k]
  }

  lemma ParseEmptyObject(v: Json, rest: string)
    requires v.Obj? && SortedKeys(v.fields.Keys) == []
    ensures ParseObject(PrintObject(v) + rest) == Some((v, rest))
  {
    SortedKeysElements(v.fields.Keys);
    Peel('}', "", rest);
    assert "" + rest == rest;
    assert PrintObject(v) + rest == ['}'] + "" + rest;
    assert v.fields == map[];
  }

  lemma {:induction false} ParsePrintObject(v: Json, rest: string)
    requires v.Obj? && Delimited(rest)
    ensures ParseObject(PrintObject(v) + rest) == Some((v, rest))
    decreases v, |v.fields| + 1
  {
    var keys := SortedKeys(v.fields.Keys);
    SortedKeysElements(v.fields.Keys);
    if keys == [] {
      ParseEmptyObject(v, rest);
    } else {
      var key, others := keys[0], keys[1..];
      var x := v.fields[key];
      FirstKey(v.fields, keys);
      var field, more := PrintField(v, key), PrintMoreFields(v, others);
      var tail := more + "}" + rest;
      ParsePrintFields(v, others, map[key := x], rest);
      ParsePrintField(v, key, tail);
      ParseObjectStep(field, tail, key, x);
      Associate(field, more, "}", rest);
    }
  }

  lemma FirstKey(m: map<string, Json>, keys: seq<string>)
    requires keys != [] && Distinct(keys) && forall k :: k in keys <==> k in m
    ensures forall k :: k in keys[1..] ==> k in m && k != keys[0]
    ensures Distinct(keys[1..])
    ensures map[keys[0] := m[keys[0]]] + Restrict(m, keys[1..]) == m
  {
    assert keys == [keys[0]] + keys[1..];
  }

  lemma NextKey(m: map<string, Json>, keys: seq<string>, acc: map<string, Json>)
    requires keys != [] && Distinct(keys) && forall k :: k in keys ==> k in m && k !in acc
    ensures forall k :: k in keys[1..] ==> k in m && k !in acc[keys[0] := m[keys[0]]]
    ensures Distinct(keys[1..])
    ensures acc + Restrict(m, keys) == acc[keys[0] := m[keys[0]]] + Restrict(m, keys[1..])
  {
    assert keys == [keys[0]] + keys[1..];
  }

  lemma ParsePrintField(v: Json, key: string, rest: string)
    requires v.Obj? && key in v.fields && Delimited(rest)
    ensures ParseField(PrintField(v, key) + rest) == Some(((key, v.fields[key]), rest))
    ensures PrintField(v, key) != "" && PrintField(v, key)[0] == '"'
    decreases v, 0
  {
    var body := Print(v.fields[key]);
    ParsePrint(v.fields[key], rest);
    ParseFieldStep(key, body, rest, v.fields[key]);
  }

  lemma {:induction false} ParsePrintFields(v: Json, keys: seq<string>, acc: map<string, Json>, rest: string)
    requires v.Obj? && Delimited(rest) && Distinct(keys)
    requires forall k :: k in keys ==> k in v.fields && k !in acc
    ensures ParseMoreFields(PrintMoreFields(v, keys) + "}" + rest, acc)
         == Some((acc + Restrict(v.fields, keys), rest))
    ensures Delimited(PrintMoreFields(v, keys) + "}" + rest)
    decreases v, |keys|
  {
    if keys == [] {
      Peel('}', "", rest);
      assert "" + rest == rest;
      assert PrintMoreFields(v, keys) + "}" + rest == ['}'] + "" + rest;
      assert acc + Restrict(v.fields, keys) == acc;
    } else {
      var key, others := keys[0], keys[1..];
      var x := v.fields[key];
      NextKey(v.fields, keys, acc);
      var field, more := PrintField(v, key), PrintMoreFields(v, others);
      var tail := more + "}" + rest;
      ParsePrintFields(v, others, acc[key := x], rest);
      ParsePrintField(v, key, tail);
      ParseFieldsStep(field, tail, key, x, acc);
      Associate("," + field, more, "}", rest);
    }
  }

  /** No printed value starts like the end of an array. */
  lemma PrintStart(v: Json)
    ensures Print(v) != "" && Print(v)[0] != ']'
  {
    if !v.Arr? && !v.Obj? {
      ParseAtomOf(v, "");
    }
  }

  /** Parsing a printed value gives the value back. */
  lemma ParsePrintRoundTrip(v: Json)
    ensures Parse(Print(v)) == Some(v)
  {
    ParsePrint(v, "");
    assert Print(v) + "" == Print(v);
  }

  /** The canonical printer is injective. */
  lemma PrintInjective(v: Json, w: Json)
    requires Print(v) == Print(w)
    ensures v == w
  {
    ParsePrintRoundTrip(v);
    ParsePrintRoundTrip(w);
  }

  /** Canonical encodings are prefix-free as far as the reader can tell. */
  lemma PrintSelfDelimiting(v: Json, w: Json, restV: string, restW: string)
    requires Delimited(restV) && Delimited(restW)
    requires Print(v) + restV == Print(w) + restW
    ensures v == w && restV == restW
  {
    ParsePrint(v, restV);
    ParsePrint(w, restW);
  }
}
