/**
 Schema-less JSON values as the Python code sees them after `json.loads`,
 together with the pieces of Python semantics the pipeline leans on:
 truthiness, `dict.get`, `a or b`, hashability and `str()`.
 */
module Json {
  import opened Text

  /** A JSON value. A float carries the text Python's `str()` gives it,
      because IEEE rounding and float printing are not part of this model. */
  datatype Json =
    | JNull
    | JBool(b: bool)
    | JInt(i: int)
    | JFloat(f: real, text: string)
    | JStr(s: string)
    | JArr(items: seq<Json>)
    | JObj(fields: seq<Member>)

  /** One `key: value` entry of a JSON object, in document order. */
  datatype Member = Member(key: string, value: Json)

  /** Python truthiness: None, False, 0, 0.0, "", [] and {} are false. */
  predicate Truthy(v: Json): (b: bool)
    ensures !b <==> v == JNull || v == JBool(false) || v == JInt(0) || (v.JFloat? && v.f == 0.0)
                    || v == JStr("") || v == JArr([]) || v == JObj([])
  {
    match v
    case JNull => false
    case JBool(b) => b
    case JInt(i) => i != 0
    case JFloat(f, _) => f != 0.0
    case JStr(s) => s != []
    case JArr(items) => items != []
    case JObj(fields) => fields != []
  }

  /** `d.get(key)`: the value stored under `key`, or None. */
  function Get(fields: seq<Member>, key: string): (r: Json)
    ensures r != JNull ==> Member(key, r) in fields
    ensures (forall m :: m in fields ==> m.key != key) ==> r == JNull
    ensures forall i :: 0 <= i < |fields| && fields[i].key == key && (forall j :: 0 <= j < i ==> fields[j].key != key)
              ==> r == fields[i].value
  {
    if fields == [] then JNull
    else if fields[0].key == key then fields[0].value
    else Get(fields[1..], key)
  }

  /** Python's `a or b`: `a` when it is truthy, otherwise `b` (even a falsy `b`). */
  function Or(a: Json, b: Json): (r: Json)
    ensures Truthy(a) ==> r == a
    ensures !Truthy(a) ==> r == b
    ensures Truthy(r) <==> Truthy(a) || Truthy(b)
  {
    if Truthy(a) then a else b
  }

  /** Lists and dicts cannot be dict keys or set members in Python. */
  predicate Hashable(v: Json) {
    !v.JArr? && !v.JObj?
  }

  /** The types `_collect_text` treats as scalars: str, int, float, bool. */
  predicate IsScalar(v: Json) {
    v.JStr? || v.JInt? || v.JFloat? || v.JBool?
  }

  /** Python `str(v)`: a string is itself, anything else prints as its repr. */
  function Str(v: Json): (r: string)
    ensures v.JStr? ==> r == v.s
    ensures !v.JStr? ==> r == Repr(v)
    ensures v.JArr? ==> |r| >= 2 && r[0] == '[' && r[|r| - 1] == ']'
    ensures v.JObj? ==> |r| >= 2 && r[0] == '{' && r[|r| - 1] == '}'
  {
    match v
    case JStr(s) => s
    case _ => Repr(v)
  }

  /** `sep.join(parts)`, built from the last part backwards. */
  function Join(parts: seq<string>, sep: string): string
    decreases |parts|
  {
    if parts == [] then ""
    else if |parts| == 1 then parts[0]
    else Join(parts[..|parts| - 1], sep) + sep + parts[|parts| - 1]
  }

  /** A join splits after its first part. */
  lemma {:induction false} JoinCons(parts: seq<string>, sep: string)
    requires |parts| >= 2
    ensures Join(parts, sep) == parts[0] + sep + Join(parts[1..], sep)
    decreases |parts|
  {
    var n := |parts|;
    if n == 2 {
      assert parts[1..] == [parts[1]];
      assert parts[..1] == [parts[0]];
    } else {
      var init := parts[..n - 1];
      JoinCons(init, sep);
      assert init[1..] == parts[1..][..n - 2];
      assert parts[1..][n - 2] == parts[n - 1];
      assert init[0] == parts[0];
    }
  }

  /** The repr of each item of a list. */
  function ItemReprs(items: seq<Json>): seq<string>
    decreases items, 0
  {
    seq(|items|, i requires 0 <= i < |items| => Repr(items[i]))
  }

  /** The `key: value` text of one entry of a mapping. */
  function EntryRepr(m: Member): string
    decreases m, 0
  {
    ReprString(m.key) + ": " + Repr(m.value)
  }

  /** The `key: value` text of each entry of a mapping. */
  function EntryReprs(fields: seq<Member>): seq<string>
    decreases fields, 0
  {
    seq(|fields|, i requires 0 <= i < |fields| => EntryRepr(fields[i]))
  }

  /** Python `repr(v)` of a JSON value; nested strings, and the keys of a
      mapping, are shown as `ReprString` shows them. */
  function Repr(v: Json): (r: string)
    ensures v == JNull ==> r == "None"
    ensures v.JBool? ==> r == (if v.b then "True" else "False")
    ensures v.JInt? ==> r == IntText(v.i)
    ensures v.JFloat? ==> r == v.text
    ensures v.JStr? ==> |r| >= 2 && Unescape(r[1..|r| - 1]) == v.s
    ensures v.JArr? ==> r == "[" + Join(ItemReprs(v.items), ", ") + "]"
    ensures v.JObj? ==> r == "{" + Join(EntryReprs(v.fields), ", ") + "}"
    decreases v, 3
  {
    match v
    case JNull => "None"
    case JBool(b) => if b then "True" else "False"
    case JInt(i) => IntText(i)
    case JFloat(_, text) => text
    case JStr(s) => ReprStringRoundTrip(s); ReprString(s)
    case JArr(items) => "[" + ReprItems(items) + "]"
    case JObj(fields) => "{" + ReprFields(fields) + "}"
  }

  function ReprItems(items: seq<Json>): (r: string)
    ensures r == Join(ItemReprs(items), ", ")
    decreases items, 2
  {
    if items == [] then ""
    else if |items| == 1 then Repr(items[0])
    else
      ItemReprsCons(items);
      assert ItemReprs(items)[0] == Repr(items[0]);
      Repr(items[0]) + ", " + ReprItems(items[1..])
  }

  function ReprFields(fields: seq<Member>): (r: string)
    ensures r == Join(EntryReprs(fields), ", ")
    decreases fields, 2
  {
    if fields == [] then ""
    else
      var entry := EntryRepr(fields[0]);
      if |fields| == 1 then entry
      else
        EntryReprsCons(fields);
        assert EntryReprs(fields)[0] == entry;
        entry + ", " + ReprFields(fields[1..])
  }

  lemma ItemReprsCons(items: seq<Json>)
    requires |items| >= 2
    ensures Join(ItemReprs(items), ", ") == ItemReprs(items)[0] + ", " + Join(ItemReprs(items[1..]), ", ")
    decreases items, 1
  {
    var e := ItemReprs(items);
    JoinCons(e, ", ");
    forall i | 0 <= i < |items| - 1
      ensures e[1..][i] == ItemReprs(items[1..])[i]
    {
      assert items[1..][i] == items[i + 1];
    }
    assert e[1..] == ItemReprs(items[1..]);
  }

  lemma EntryReprsCons(fields: seq<Member>)
    requires |fields| >= 2
    ensures Join(EntryReprs(fields), ", ") == EntryReprs(fields)[0] + ", " + Join(EntryReprs(fields[1..]), ", ")
    decreases fields, 1
  {
    var e := EntryReprs(fields);
    JoinCons(e, ", ");
    forall i | 0 <= i < |fields| - 1
      ensures e[1..][i] == EntryReprs(fields[1..])[i]
    {
      assert fields[1..][i] == fields[i + 1];
    }
    assert e[1..] == EntryReprs(fields[1..]);
  }

  /** The quote `repr` puts around a string: a double quote when the string
      contains a single quote and no double quote, a single quote otherwise. */
  function QuoteFor(s: string): (q: char)
    ensures q == '"' <==> '\'' in s && '"' !in s
    ensures q == '\'' || q == '"'
  {
    if '\'' in s && '"' !in s then '"' else '\''
  }

  /** Characters up to U+00FF that `repr` shows as themselves: everything but
      the C0 controls, DEL, the C1 controls, no-break space and soft hyphen. */
  predicate Printable(c: char) {
    var n := c as int;
    !(n < 0x20 || (0x7f <= n <= 0xa0) || n == 0xad)
  }

  function HexDigit(d: nat): (c: char)
    requires d < 16
    ensures HexValue(c) == d
  {
    if d < 10 then ('0' as int + d) as char else ('a' as int + d - 10) as char
  }

  /** The value of a lower-case hexadecimal digit (0 for anything else). */
  function HexValue(c: char): (d: nat)
    ensures d < 16
  {
    if '0' <= c <= '9' then c as int - '0' as int
    else if 'a' <= c <= 'f' then c as int - 'a' as int + 10
    else 0
  }

  /** How `repr` writes one character inside quotes `q`: a backslash and the
      quote are escaped, tab, newline and carriage return get their letter
      escapes, other unprintable characters a `\xhh` escape. */
  function Escape(c: char, q: char): (r: string)
    ensures Printable(c) && c != '\\' && c != q ==> r == [c]
    ensures r != [c] ==> |r| >= 2 && r[0] == '\\'
  {
    if c == '\\' then ['\\', '\\']
    else if c == q then ['\\', c]
    else if c == '\t' then ['\\', 't']
    else if c == '\n' then ['\\', 'n']
    else if c == '\r' then ['\\', 'r']
    else if !Printable(c) then ['\\', 'x', HexDigit(c as int / 16), HexDigit(c as int % 16)]
    else [c]
  }

  function EscapeAll(s: string, q: char): string {
    if s == [] then [] else Escape(s[0], q) + EscapeAll(s[1..], q)
  }

  /** Python `repr(s)` of a string. */
  function ReprString(s: string): (r: string)
    ensures |r| >= 2 && r[0] == QuoteFor(s) && r[|r| - 1] == QuoteFor(s)
  {
    var q := QuoteFor(s);
    [q] + EscapeAll(s, q) + [q]
  }

  /** Reads the inside of a quoted `repr` back: the inverse of `EscapeAll`. */
  function Unescape(t: string): string
    decreases |t|
  {
    if t == [] then []
    else if t[0] == '\\' && |t| >= 2 then
      var c := t[1];
      if c == 't' then ['\t'] + Unescape(t[2..])
      else if c == 'n' then ['\n'] + Unescape(t[2..])
      else if c == 'r' then ['\r'] + Unescape(t[2..])
      else if c == 'x' && |t| >= 4 then [(HexValue(t[2]) * 16 + HexValue(t[3])) as char] + Unescape(t[4..])
      else [c] + Unescape(t[2..])
    else [t[0]] + Unescape(t[1..])
  }

  /** Undoing one escape gives back the character. */
  lemma UnescapeEscape(c: char, q: char, rest: string)
    requires q == '\'' || q == '"'
    ensures Unescape(Escape(c, q) + rest) == [c] + Unescape(rest)
  {
    var e := Escape(c, q);
    var t := e + rest;
    if |e| == 4 {
      assert t[2] == HexDigit(c as int / 16) && t[3] == HexDigit(c as int % 16);
      assert t[4..] == rest;
    } else if |e| == 2 {
      assert t[2..] == rest;
    } else {
      assert t[1..] == rest;
    }
  }

  /** `repr` of a string can be read back: the text between its quotes
      unescapes to the string. */
  lemma {:induction false} EscapeAllRoundTrip(s: string, q: char)
    requires q == '\'' || q == '"'
    ensures Unescape(EscapeAll(s, q)) == s
  {
    if s != [] {
      EscapeAllRoundTrip(s[1..], q);
      UnescapeEscape(s[0], q, EscapeAll(s[1..], q));
      assert s == [s[0]] + s[1..];
    }
  }

  lemma ReprStringRoundTrip(s: string)
    ensures var r := ReprString(s);
            Unescape(r[1..|r| - 1]) == s
  {
    var q := QuoteFor(s);
    var r := ReprString(s);
    assert r[1..|r| - 1] == EscapeAll(s, q);
    EscapeAllRoundTrip(s, q);
  }
}
