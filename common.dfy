/**
  Values and helpers shared by the whole model: the JavaScript values that travel
  between the React pages, the Express handlers and SQLite, their truthiness, and
  the few string and sequence operations the application relies on.
 */
module Common {

  datatype Option<T> = None | Some(value: T)

  /** A JavaScript scalar, which is also what a SQLite column holds once bound.
      Numbers are integers: floating point is not modelled. */
  datatype Value = Undefined | Null | Bool(b: bool) | Num(n: int) | Str(s: string)

  /** A plain JavaScript object: a request body, a query string, a React form state
      or a record received from the API. */
  type Obj = map<string, Value>

  /** `o.key`: a missing property reads as `undefined`. */
  function Get(o: Obj, key: string): Value
  {
    if key in o then o[key] else Undefined
  }

  /** JavaScript truthiness. */
  predicate Truthy(v: Value)
  {
    match v
    case Undefined => false
    case Null => false
    case Bool(b) => b
    case Num(n) => n != 0
    case Str(s) => s != ""
  }

  /** `a || b` */
  function Or(a: Value, b: Value): Value
  {
    if Truthy(a) then a else b
  }

  /** A destructuring default `{ x = d } = o`: applies only when the property is `undefined`. */
  function Default(v: Value, d: Value): Value
  {
    if v == Undefined then d else v
  }

  /** better-sqlite3 binds `undefined` as NULL and every other value as itself. */
  function Bind(v: Value): Value
  {
    if v == Undefined then Null else v
  }

  /** `String(v)`, as a template literal `${v}` renders a value. */
  function ToText(v: Value): string
  {
    match v
    case Undefined => "undefined"
    case Null => "null"
    case Bool(b) => if b then "true" else "false"
    case Num(n) => if n < 0 then "-" + NatToText(-n) else NatToText(n)
    case Str(s) => s
  }

  function NatToText(n: nat): string
    decreases n
  {
    var d := [('0' as int + n % 10) as char];
    if n < 10 then d else NatToText(n / 10) + d
  }

  /** The value of a character as a digit in bases up to 36; 36 for any other character. */
  function DigitValue(c: char): nat
  {
    if '0' <= c <= '9' then c as int - '0' as int
    else if 'a' <= c <= 'z' then c as int - 'a' as int + 10
    else if 'A' <= c <= 'Z' then c as int - 'A' as int + 10
    else 36
  }

  /** The number the digits `ds` write in `radix`. */
  function ValueOf(ds: string, radix: nat): nat
  {
    if ds == [] then 0 else ValueOf(ds[..|ds| - 1], radix) * radix + DigitValue(ds[|ds| - 1])
  }

  /** `String(n)` is a non-empty run of decimal digits, without a leading zero, that
      reads back as `n`. */
  lemma {:induction false} TextDigits(n: nat)
    ensures NatToText(n) != []
    ensures forall i :: 0 <= i < |NatToText(n)| ==> '0' <= NatToText(n)[i] <= '9'
    ensures NatToText(n)[0] == '0' ==> n == 0
    ensures ValueOf(NatToText(n), 10) == n
    decreases n
  {
    var d := [('0' as int + n % 10) as char];
    if n >= 10 {
      TextDigits(n / 10);
      var s := NatToText(n / 10);
      assert NatToText(n) == s + d;
      assert (s + d)[..|s + d| - 1] == s;
    }
  }

  // ---------------------------------------------------------------- text

  /** `toLowerCase` restricted to ASCII; other characters are left as they are. */
  function LowerChar(c: char): char
  {
    if 'A' <= c <= 'Z' then (c as int + 32) as char else c
  }

  function Lower(s: string): (r: string)
    ensures |r| == |s|
    ensures forall i :: 0 <= i < |s| ==> r[i] == LowerChar(s[i])
  {
    if s == [] then [] else [LowerChar(s[0])] + Lower(s[1..])
  }

  predicate OccursAt(hay: string, needle: string, i: int)
  {
    0 <= i && i + |needle| <= |hay| && hay[i..i + |needle|] == needle
  }

  /** `hay.includes(needle)` */
  predicate Contains(hay: string, needle: string)
  {
    exists i :: 0 <= i <= |hay| && OccursAt(hay, needle, i)
  }

  /** `field?.toLowerCase().includes(needle)` for an already lower-cased needle: a missing
      or null field never matches. */
  predicate FieldIncludes(v: Value, needle: string)
  {
    v.Str? && Contains(Lower(v.s), needle)
  }

  lemma ContainsEmpty(hay: string)
    ensures Contains(hay, "")
  {
    assert OccursAt(hay, "", 0);
  }

  /** The characters `String.prototype.trim` and `parseInt` skip: white space and line terminators. */
  predicate IsSpace(c: char)
  {
    c == ' ' || c == '\t' || c == '\n' || c == '\r' || c == '\U{000B}' || c == '\U{000C}'
    || c == '\U{00A0}' || c == '\U{1680}' || ('\U{2000}' <= c <= '\U{200A}')
    || c == '\U{2028}' || c == '\U{2029}' || c == '\U{202F}' || c == '\U{205F}'
    || c == '\U{3000}' || c == '\U{FEFF}'
  }

  function TrimStart(s: string): (r: string)
    ensures |r| <= |s| && r == s[|s| - |r|..]
    ensures forall i :: 0 <= i < |s| - |r| ==> IsSpace(s[i])
    ensures r == [] || !IsSpace(r[0])
  {
    if s != [] && IsSpace(s[0]) then TrimStart(s[1..]) else s
  }

  function TrimEnd(s: string): (r: string)
    ensures |r| <= |s| && r == s[..|r|]
    ensures forall i :: |r| <= i < |s| ==> IsSpace(s[i])
    ensures r == [] || !IsSpace(r[|r| - 1])
  {
    if s != [] && IsSpace(s[|s| - 1]) then TrimEnd(s[..|s| - 1]) else s
  }

  /** `s.trim()` */
  function Trim(s: string): string
  {
    TrimEnd(TrimStart(s))
  }

  // ----------------------------------------------------------- sequences

  /** `s.filter(p)` */
  function Filter<T>(s: seq<T>, p: T -> bool): (r: seq<T>)
    ensures |r| <= |s|
    ensures forall i :: 0 <= i < |r| ==> r[i] in s && p(r[i])
    ensures forall i :: 0 <= i < |s| && p(s[i]) ==> s[i] in r
  {
    if s == [] then []
    else if p(s[0]) then [s[0]] + Filter(s[1..], p)
    else Filter(s[1..], p)
  }

  /** `a` is `b` with some elements deleted, the rest kept in order. */
  predicate IsSubsequence<T(==)>(a: seq<T>, b: seq<T>)
    decreases |b|
  {
    a == [] || (b != [] && if a[0] == b[0] then IsSubsequence(a[1..], b[1..]) else IsSubsequence(a, b[1..]))
  }

  lemma {:induction false} FilterIsSubsequence<T>(s: seq<T>, p: T -> bool)
    ensures IsSubsequence(Filter(s, p), s)
  {
    if s != [] {
      FilterIsSubsequence(s[1..], p);
      if !p(s[0]) {
        var r := Filter(s[1..], p);
        if r != [] {
          assert p(r[0]);
        }
      }
    }
  }

  /** `s.some(p)`, scanning from the front. */
  predicate Any<T>(s: seq<T>, p: T -> bool)
  {
    s != [] && (p(s[0]) || Any(s[1..], p))
  }

  lemma {:induction false} AnyIff<T>(s: seq<T>, p: T -> bool)
    ensures Any(s, p) <==> exists i :: 0 <= i < |s| && p(s[i])
  {
    if s != [] {
      AnyIff(s[1..], p);
      if exists i :: 0 <= i < |s| && p(s[i]) {
        var i :| 0 <= i < |s| && p(s[i]);
        if i > 0 {
          assert s[1..][i - 1] == s[i];
        }
      }
      if Any(s[1..], p) {
        var i :| 0 <= i < |s[1..]| && p(s[1..][i]);
        assert s[i + 1] == s[1..][i];
      }
    }
  }

  /** What `filter` keeps: exactly the members of `s` that pass `p`. */
  lemma FilterMembers<T>(s: seq<T>, p: T -> bool)
    ensures forall x :: x in Filter(s, p) <==> x in s && p(x)
  {
    forall x | x in Filter(s, p) ensures p(x) {
      var i :| 0 <= i < |Filter(s, p)| && Filter(s, p)[i] == x;
    }
    forall x | x in s && p(x) ensures x in Filter(s, p) {
      var i :| 0 <= i < |s| && s[i] == x;
    }
  }

  /** `s.filter(p).length` */
  function Count<T>(s: seq<T>, p: T -> bool): nat
  {
    |Filter(s, p)|
  }

  /** `s.slice(0, n)` for a non-negative `n`. */
  function Prefix<T>(s: seq<T>, n: nat): (r: seq<T>)
    ensures |r| == if n < |s| then n else |s|
    ensures r <= s
  {
    if n < |s| then s[..n] else s
  }

  /** SQL `LIMIT n`: SQLite reads a negative limit as "no limit". */
  function Limit<T>(s: seq<T>, n: int): (r: seq<T>)
    ensures n >= 0 ==> |r| <= n
    ensures r <= s
    ensures n < 0 || |s| <= n ==> r == s
  {
    if n < 0 then s else Prefix(s, n)
  }
}
