/**
  JSON documents as values.

  A questionnaire schema is a JSON tree. Objects are kept as sequences of
  (key, value) members so that insertion order, which decides iteration
  order and output order, is part of the value. Numbers are integers: the
  converter never interprets them, it only passes them on or rejects them.
*/
module Json {
  import opened Wrappers

  datatype Value =
    | Str(s: string)
    | Num(n: int)
    | Bool(b: bool)
    | Null
    | Arr(items: seq<Value>)
    | Obj(fields: seq<(string, Value)>)

  /** The exceptions the converter can raise, by their Python class. */
  datatype Error = TypeError | AttributeError | KeyError | IndexError

  /** A computation that either yields a value or raises. */
  datatype Result<+T> = Ok(value: T) | Err(error: Error)

  /** `prefix` followed by what `r` yields, or `r`'s error. */
  function Prepend<T>(prefix: seq<T>, r: Result<seq<T>>): (p: Result<seq<T>>)
    ensures p.Ok? <==> r.Ok?
    ensures r.Err? ==> p == r
    ensures r.Ok? ==> p.value == prefix + r.value
  {
    match r
    case Err(e) => Err(e)
    case Ok(xs) => Ok(prefix + xs)
  }

  lemma PrependNothing<T>(r: Result<seq<T>>)
    ensures Prepend([], r) == r
  {
    if r.Ok? {
      assert [] + r.value == r.value;
    }
  }

  lemma PrependTwice<T>(a: seq<T>, b: seq<T>, r: Result<seq<T>>)
    ensures Prepend(a, Prepend(b, r)) == Prepend(a + b, r)
  {
    if r.Ok? {
      assert a + (b + r.value) == (a + b) + r.value;
    }
  }

  // ---------------------------------------------------------------------
  // Sizes, used as termination measures for the recursive transformers

  function Size(v: Value): (n: nat)
    ensures n >= 1
  {
    match v
    case Arr(items) => 1 + SizeList(items)
    case Obj(fields) => 1 + SizeFields(fields)
    case _ => 1
  }

  function SizeList(items: seq<Value>): (n: nat)
    ensures forall i :: 0 <= i < |items| ==> Size(items[i]) < n
  {
    if items == [] then 0
    else
      assert forall i :: 1 <= i < |items| ==> items[i] == items[1..][i - 1];
      1 + Size(items[0]) + SizeList(items[1..])
  }

  function SizeFields(fields: seq<(string, Value)>): nat
  {
    if fields == [] then 0
    else
      var member := fields[0];
      assert member.1 < member;
      1 + Size(member.1) + SizeFields(fields[1..])
  }

  // ---------------------------------------------------------------------
  // Object members

  function Keys(fields: seq<(string, Value)>): (ks: seq<string>)
    ensures |ks| == |fields|
    ensures forall i :: 0 <= i < |fields| ==> ks[i] == fields[i].0
  {
    seq(|fields|, i requires 0 <= i < |fields| => fields[i].0)
  }

  lemma KeysCons(m: (string, Value), fields: seq<(string, Value)>)
    ensures Keys([m] + fields) == [m.0] + Keys(fields)
  {
  }

  /** Python dictionaries never hold a key twice. */
  predicate UniqueKeys(fields: seq<(string, Value)>)
  {
    forall i, j :: 0 <= i < j < |fields| ==> fields[i].0 != fields[j].0
  }

  /** `d.get(k)`: the value stored under `k`, if any. */
  function Get(fields: seq<(string, Value)>, k: string): (r: Option<Value>)
    ensures r.Some? <==> k in Keys(fields)
  {
    if fields == [] then None
    else if fields[0].0 == k then Some(fields[0].1)
    else
      assert Keys(fields) == [fields[0].0] + Keys(fields[1..]);
      Get(fields[1..], k)
  }

  /**
    `d[k] = v`: an existing key keeps its position and gets the new value,
    a new key is appended at the end.
  */
  function Assign(fields: seq<(string, Value)>, k: string, v: Value): (r: seq<(string, Value)>)
    ensures k in Keys(fields) ==> Keys(r) == Keys(fields)
    ensures k !in Keys(fields) ==> Keys(r) == Keys(fields) + [k]
  {
    if fields == [] then [(k, v)]
    else
      KeysCons(fields[0], fields[1..]);
      assert [fields[0]] + fields[1..] == fields;
      if fields[0].0 == k then
        KeysCons((k, v), fields[1..]);
        [(k, v)] + fields[1..]
      else
        var rest := Assign(fields[1..], k, v);
        KeysCons(fields[0], rest);
        [fields[0]] + rest
  }

  /** After `d[k] = v`, `d[k]` is `v` and every other key reads as before. */
  lemma {:induction false} AssignGet(fields: seq<(string, Value)>, k: string, v: Value, k': string)
    ensures Get(Assign(fields, k, v), k) == Some(v)
    ensures k' != k ==> Get(Assign(fields, k, v), k') == Get(fields, k')
  {
    if fields != [] && fields[0].0 != k {
      AssignGet(fields[1..], k, v, k');
    }
  }

  /** `d[k] = v` changes the value under `k` and nothing else. */
  lemma AssignFrame(fields: seq<(string, Value)>, k: string, v: Value)
    ensures Get(Assign(fields, k, v), k) == Some(v)
    ensures forall k' :: k' != k ==> Get(Assign(fields, k, v), k') == Get(fields, k')
  {
    forall k' | k' != k ensures Get(Assign(fields, k, v), k') == Get(fields, k') {
      AssignGet(fields, k, v, k');
    }
    AssignGet(fields, k, v, k);
  }

  /** `d[k] = d[k]` leaves the dictionary as it was. */
  lemma {:induction false} AssignSame(fields: seq<(string, Value)>, k: string)
    requires k in Keys(fields)
    ensures Assign(fields, k, Get(fields, k).value) == fields
  {
    if fields[0].0 != k {
      AssignSkip(fields, k, Get(fields, k).value);
      KeysCons(fields[0], fields[1..]);
      assert [fields[0]] + fields[1..] == fields;
      AssignSame(fields[1..], k);
    } else {
      assert [fields[0]] + fields[1..] == fields;
    }
  }

  /** `d[k] = v` for a key already present rewrites the first member with that key where it stands. */
  lemma {:induction false} AssignAt(fields: seq<(string, Value)>, i: nat, v: Value)
    requires i < |fields|
    requires forall j :: 0 <= j < i ==> fields[j].0 != fields[i].0
    ensures Get(fields, fields[i].0) == Some(fields[i].1)
    ensures Assign(fields, fields[i].0, v) == fields[..i] + [(fields[i].0, v)] + fields[i + 1..]
  {
    var k := fields[i].0;
    if i == 0 {
      assert fields[..0] == [];
    } else {
      assert fields[0].0 != k;
      AssignSkip(fields, k, v);
      AssignAtShape(fields, i, (k, v));
      AssignAt(fields[1..], i - 1, v);
    }
  }

  lemma AssignSkip(fields: seq<(string, Value)>, k: string, v: Value)
    requires fields != [] && fields[0].0 != k
    ensures Assign(fields, k, v) == [fields[0]] + Assign(fields[1..], k, v)
    ensures Get(fields, k) == Get(fields[1..], k)
  {
  }

  lemma AssignAtShape<T>(xs: seq<T>, i: nat, y: T)
    requires 0 < i < |xs|
    ensures xs[1..][i - 1] == xs[i]
    ensures [xs[0]] + (xs[1..][..i - 1] + [y] + xs[1..][i..]) == xs[..i] + [y] + xs[i + 1..]
  {
  }

  /** The same, for a dictionary written out as the members before, the member, and the members after. */
  lemma AssignInPlace(a: seq<(string, Value)>, m: (string, Value), b: seq<(string, Value)>, v: Value)
    requires UniqueKeys(a + [m] + b)
    ensures Get(a + [m] + b, m.0) == Some(m.1)
    ensures Assign(a + [m] + b, m.0, v) == a + [(m.0, v)] + b
  {
    var fields := a + [m] + b;
    InPlaceShape(a, m, b);
    assert forall j :: 0 <= j < |a| ==> fields[j].0 != fields[|a|].0;
    AssignAt(fields, |a|, v);
  }

  lemma InPlaceShape<T>(a: seq<T>, m: T, b: seq<T>)
    ensures var xs := a + [m] + b; |a| < |xs| && xs[|a|] == m && xs[..|a|] == a && xs[|a| + 1..] == b
  {
  }

  // ---------------------------------------------------------------------
  // Python's truth value of a JSON value (`if not x`)

  predicate Truthy(v: Value)
  {
    match v
    case Str(s) => s != ""
    case Num(n) => n != 0
    case Bool(b) => b
    case Null => false
    case Arr(items) => items != []
    case Obj(fields) => fields != []
  }

  // ---------------------------------------------------------------------
  // Python's `str(x)` of a JSON value

  /** The decimal numeral of `n`, without leading zeros. */
  function NatString(n: nat): (r: string)
    ensures |r| >= 1
    decreases n
  {
    if n < 10 then [Digit(n)] else NatString(n / 10) + [Digit(n % 10)]
  }

  function Digit(d: nat): char
    requires d < 10
  {
    "0123456789"[d]
  }

  function IntString(n: int): string
  {
    if n < 0 then "-" + NatString(-n) else NatString(n)
  }

  function HexDigit(d: nat): char
    requires d < 16
  {
    "0123456789abcdef"[d]
  }

  /** One character of a string literal as `repr` writes it between `quote`s. */
  function EscapeChar(c: char, quote: char): string
  {
    if c == '\\' then "\\\\"
    else if c == quote then ['\\', c]
    else if c == '\n' then "\\n"
    else if c == '\r' then "\\r"
    else if c == '\t' then "\\t"
    else if (c as int) < 32 || (c as int) == 127 then
      ['\\', 'x', HexDigit((c as int) / 16), HexDigit((c as int) % 16)]
    else [c]
  }

  function Escape(s: string, quote: char): string
  {
    if s == [] then [] else EscapeChar(s[0], quote) + Escape(s[1..], quote)
  }

  /** `repr(s)`: single quotes unless the text holds a single quote and no double quote. */
  function QuoteString(s: string): string
  {
    var quote := if '\'' in s && '"' !in s then '"' else '\'';
    [quote] + Escape(s, quote) + [quote]
  }

  function Repr(v: Value): string
    decreases Size(v)
  {
    match v
    case Str(s) => QuoteString(s)
    case Num(n) => IntString(n)
    case Bool(b) => if b then "True" else "False"
    case Null => "None"
    case Arr(items) => "[" + ReprItems(items) + "]"
    case Obj(fields) => "{" + ReprFields(fields) + "}"
  }

  function ReprItems(items: seq<Value>): string
    decreases SizeList(items)
  {
    if items == [] then ""
    else if |items| == 1 then Repr(items[0])
    else Repr(items[0]) + ", " + ReprItems(items[1..])
  }

  function ReprFields(fields: seq<(string, Value)>): string
    decreases SizeFields(fields)
  {
    if fields == [] then ""
    else
      var member := QuoteString(fields[0].0) + ": " + Repr(fields[0].1);
      if |fields| == 1 then member else member + ", " + ReprFields(fields[1..])
  }

  /** `str(x)`: a string is itself, anything else is its `repr`. */
  function PyStr(v: Value): string
  {
    if v.Str? then v.s else Repr(v)
  }
}
