/**
 The restricted JSON profile of the protocol (RFC 8259, sections 4 to 7): integers only, no
 insignificant whitespace, object keys in code-point order.

 `Print` writes compact text with sorted keys, for printable ASCII strings. A dictionary is a map, so
 the order in which its fields were written is forgotten.
 */
module JsonValues {
  import opened Prelude
  import opened Ordering

  datatype Json =
    | Null
    | Bool(flag: bool)
    | Int(number: int)
    | Str(text: string)
    | Arr(items: seq<Json>)
    | Obj(fields: map<string, Json>)

  const MIN_INTEGER := -0x8000_0000_0000_0000
  const MAX_INTEGER := 0x7FFF_FFFF_FFFF_FFFF
  const MAX_TEXT_BYTES := 65536

  predicate IsPrintable(s: string) {
    forall i :: 0 <= i < |s| ==> ' ' <= s[i] <= '~'
  }

  /**
   `_validate_canonical_value`, which guards every canonical encoding. Object keys are not
   examined: they are always the fixed field names of the messages.
   */
  predicate ValidCanonical(v: Json)
    decreases v
  {
    match v
    case Int(number) => MIN_INTEGER <= number <= MAX_INTEGER
    case Str(text) => IsPrintable(text) && |text| <= MAX_TEXT_BYTES
    case Arr(items) => forall i :: 0 <= i < |items| ==> ValidCanonical(items[i])
    case Obj(fields) => forall k :: k in fields ==> ValidCanonical(fields[k])
    case _ => true
  }

  // ---------- numbers ----------

  function DigitChar(d: nat): (c: char)
    requires d < 10
    ensures '0' <= c <= '9'
  {
    ('0' as int + d) as char
  }

  function Decimal(n: nat): (s: string)
    ensures s != "" && forall i :: 0 <= i < |s| ==> '0' <= s[i] <= '9'
  {
    if n < 10 then [DigitChar(n)] else Decimal(n / 10) + [DigitChar(n % 10)]
  }

  function PrintInt(n: int): (s: string)
    ensures s != ""
  {
    if n < 0 then "-" + Decimal(-n) else Decimal(n)
  }

  // ---------- text ----------

  function EscapeChar(c: char): string {
    if c == '"' then "\\\"" else if c == '\\' then "\\\\" else [c]
  }

  function Escape(s: string): string {
    if s == "" then "" else EscapeChar(s[0]) + Escape(s[1..])
  }

  function Quote(s: string): string {
    "\"" + Escape(s) + "\""
  }

  // ---------- objects ----------

  predicate IsLeastKey(k: string, keys: set<string>) {
    k in keys && forall j :: j in keys ==> LexLe(k, j)
  }

  lemma {:induction false} LeastKeyExists(keys: set<string>)
    requires keys != {}
    ensures exists k :: IsLeastKey(k, keys)
  {
    var x :| x in keys;
    LexTotal(x, x);
    if keys == {x} {
      assert IsLeastKey(x, keys);
    } else {
      var rest := keys - {x};
      LeastKeyExists(rest);
      var m :| IsLeastKey(m, rest);
      LexTotal(x, m);
      var k := if LexLe(x, m) then x else m;
      forall j | j in keys ensures LexLe(k, j) {
        if j != x && k == x {
          LexTransitive(x, m, j);
        }
      }
      assert IsLeastKey(k, keys);
    }
  }

  lemma LeastKeyUnique(keys: set<string>)
    ensures forall k, l :: IsLeastKey(k, keys) && IsLeastKey(l, keys) ==> k == l
  {
    forall k, l | IsLeastKey(k, keys) && IsLeastKey(l, keys) ensures k == l {
      LexAntisymmetric(k, l);
    }
  }

  /** The keys in code-point order. */
  function SortedKeys(keys: set<string>): (s: seq<string>) {
    if keys == {} then []
    else
      LeastKeyExists(keys);
      LeastKeyUnique(keys);
      var k :| IsLeastKey(k, keys);
      [k] + SortedKeys(keys - {k})
  }

  lemma {:induction false} SortedKeysElements(keys: set<string>)
    ensures forall k :: k in SortedKeys(keys) <==> k in keys
    ensures |SortedKeys(keys)| == |keys| && Distinct(SortedKeys(keys))
  {
    if keys != {} {
      var s := SortedKeys(keys);
      var k := s[0];
      assert s[1..] == SortedKeys(keys - {k});
      SortedKeysElements(keys - {k});
      assert s == [k] + s[1..];
      forall i, j | 0 <= i < j < |s| ensures s[i] != s[j] {
        assert s[j] == s[1..][j - 1] && s[j] in keys - {k};
        if i > 0 { assert s[i] == s[1..][i - 1]; }
      }
    }
  }

  lemma {:induction false} SortedKeysSorted(keys: set<string>)
    ensures Sorted(LexLe, SortedKeys(keys))
  {
    if keys != {} {
      var s := SortedKeys(keys);
      var k := s[0];
      var rest := s[1..];
      assert rest == SortedKeys(keys - {k});
      SortedKeysSorted(keys - {k});
      SortedKeysElements(keys);
      forall i, j | 0 <= i < j < |s| ensures LexLe(s[i], s[j]) {
        if i > 0 {
          assert LexLe(rest[i - 1], rest[j - 1]);
        } else {
          assert s[j] in s;
        }
      }
    }
  }

  // ---------- the printer ----------

  function Print(v: Json): (s: string)
    decreases v
  {
    match v
    case Null => "null"
    case Bool(flag) => if flag then "true" else "false"
    case Int(number) => PrintInt(number)
    case Str(text) => Quote(text)
    case Arr(items) => "[" + PrintArray(v)
    case Obj(fields) => "{" + PrintObject(v)
  }

  /** An array after its opening bracket. */
  function PrintArray(v: Json): string
    requires v.Arr?
    decreases v, |v.items| + 1
  {
    if v.items == [] then "]" else Print(v.items[0]) + PrintMoreItems(v, 1) + "]"
  }

  /** An object after its opening brace. */
  function PrintObject(v: Json): string
    requires v.Obj?
    decreases v, |v.fields| + 1
  {
    var keys := SortedKeys(v.fields.Keys);
    SortedKeysElements(v.fields.Keys);
    if keys == [] then "}"
    else
      assert keys[0] in keys;
      PrintField(v, keys[0]) + PrintMoreFields(v, keys[1..]) + "}"
  }

  function PrintMoreItems(v: Json, from: nat): string
    requires v.Arr? && from <= |v.items|
    decreases v, |v.items| - from
  {
    if from == |v.items| then "" else "," + Print(v.items[from]) + PrintMoreItems(v, from + 1)
  }

  function PrintField(v: Json, key: string): string
    requires v.Obj? && key in v.fields
    decreases v, 0
  {
    Quote(key) + ":" + Print(v.fields[key])
  }

  function PrintMoreFields(v: Json, keys: seq<string>): string
    requires v.Obj? && forall k :: k in keys ==> k in v.fields
    decreases v, |keys|, 1
  {
    if keys == [] then "" else "," + PrintField(v, keys[0]) + PrintMoreFields(v, keys[1..])
  }
}
