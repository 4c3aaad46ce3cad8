/**
  SQL `ORDER BY` as the model uses it. A sort key is a list of ascending or
  descending column values compared left to right; values compare as SQLite
  compares them (NULL first, then numbers, then text in code-point order). The
  order between rows with equal keys is not specified by SQLite, so contracts
  about query results promise only that the result is a sorted permutation.
 */
module Ordering {
  import opened Common

  /** SQLite's cross-type order: NULL sorts before numbers, numbers before text. */
  function Rank(v: Value): nat
  {
    match v
    case Undefined => 0
    case Null => 0
    case Bool(_) => 1
    case Num(_) => 1
    case Str(_) => 2
  }

  function NumOf(v: Value): int
  {
    match v
    case Bool(b) => if b then 1 else 0
    case Num(n) => n
    case _ => 0
  }

  /** Text under the BINARY collation: lexicographic by code point. */
  predicate TextLe(a: string, b: string)
  {
    a == [] || (b != [] && (a[0] < b[0] || (a[0] == b[0] && TextLe(a[1..], b[1..]))))
  }

  predicate ValueLe(a: Value, b: Value)
  {
    Rank(a) < Rank(b)
    || (Rank(a) == Rank(b) && match a
        case Str(x) => TextLe(x, b.s)
        case _ => NumOf(a) <= NumOf(b))
  }

  datatype Atom = Asc(v: Value) | Desc(v: Value)

  predicate AtomLe(a: Atom, b: Atom)
  {
    match (a, b)
    case (Asc(x), Asc(y)) => ValueLe(x, y)
    case (Desc(x), Desc(y)) => ValueLe(y, x)
    case (Asc(_), Desc(_)) => true
    case (Desc(_), Asc(_)) => false
  }

  type Key = seq<Atom>

  /** `ORDER BY k1, k2, ...`: the first column that differs decides. */
  predicate KeyLe(a: Key, b: Key)
  {
    a == [] || (b != [] && if AtomLe(a[0], b[0]) && AtomLe(b[0], a[0]) then KeyLe(a[1..], b[1..]) else AtomLe(a[0], b[0]))
  }

  lemma {:induction false} TextLeTotal(a: string, b: string)
    ensures TextLe(a, b) || TextLe(b, a)
  {
    if a != [] && b != [] && a[0] == b[0] {
      TextLeTotal(a[1..], b[1..]);
    }
  }

  lemma {:induction false} TextLeTrans(a: string, b: string, c: string)
    requires TextLe(a, b) && TextLe(b, c)
    ensures TextLe(a, c)
  {
    if a != [] && b != [] && c != [] && a[0] == b[0] == c[0] {
      TextLeTrans(a[1..], b[1..], c[1..]);
    }
  }

  lemma ValueLeTotal(a: Value, b: Value)
    ensures ValueLe(a, b) || ValueLe(b, a)
  {
    if a.Str? && b.Str? {
      TextLeTotal(a.s, b.s);
    }
  }

  lemma ValueLeTrans(a: Value, b: Value, c: Value)
    requires ValueLe(a, b) && ValueLe(b, c)
    ensures ValueLe(a, c)
  {
    if a.Str? && b.Str? && c.Str? {
      TextLeTrans(a.s, b.s, c.s);
    }
  }

  lemma AtomLeTotal(a: Atom, b: Atom)
    ensures AtomLe(a, b) || AtomLe(b, a)
  {
    ValueLeTotal(a.v, b.v);
  }

  lemma AtomLeTrans(a: Atom, b: Atom, c: Atom)
    requires AtomLe(a, b) && AtomLe(b, c)
    ensures AtomLe(a, c)
  {
    if a.Asc? && b.Asc? && c.Asc? {
      ValueLeTrans(a.v, b.v, c.v);
    } else if a.Desc? && b.Desc? && c.Desc? {
      ValueLeTrans(c.v, b.v, a.v);
    }
  }

  lemma {:induction false} KeyLeTotal(a: Key, b: Key)
    ensures KeyLe(a, b) || KeyLe(b, a)
  {
    if a != [] && b != [] {
      AtomLeTotal(a[0], b[0]);
      KeyLeTotal(a[1..], b[1..]);
    }
  }

  lemma {:induction false} KeyLeTrans(a: Key, b: Key, c: Key)
    requires KeyLe(a, b) && KeyLe(b, c)
    ensures KeyLe(a, c)
  {
    if a != [] && c != [] {
      assert b != [];
      var ab := AtomLe(a[0], b[0]) && AtomLe(b[0], a[0]);
      var bc := AtomLe(b[0], c[0]) && AtomLe(c[0], b[0]);
      AtomLeTrans(a[0], b[0], c[0]);
      if ab && bc {
        AtomLeTrans(c[0], b[0], a[0]);
        KeyLeTrans(a[1..], b[1..], c[1..]);
      } else if ab {
        if AtomLe(c[0], a[0]) { AtomLeTrans(c[0], a[0], b[0]); }
      } else if bc {
        if AtomLe(c[0], a[0]) { AtomLeTrans(b[0], c[0], a[0]); }
      } else {
        if AtomLe(c[0], a[0]) { AtomLeTrans(b[0], c[0], a[0]); }
      }
    }
  }

  // ------------------------------------------------------------- sorting

  predicate SortedBy<T>(s: seq<T>, key: T -> Key)
  {
    forall i, j :: 0 <= i < j < |s| ==> KeyLe(key(s[i]), key(s[j]))
  }

  function Insert<T>(x: T, s: seq<T>, key: T -> Key): (r: seq<T>)
    ensures multiset(r) == multiset(s) + multiset{x}
    ensures SortedBy(s, key) ==> SortedBy(r, key)
  {
    if s == [] then [x]
    else if KeyLe(key(x), key(s[0])) then
      InsertFront(x, s, key);
      [x] + s
    else
      var rest := Insert(x, s[1..], key);
      InsertAfter(x, s, rest, key);
      assert s == [s[0]] + s[1..];
      [s[0]] + rest
  }

  lemma InsertFront<T>(x: T, s: seq<T>, key: T -> Key)
    requires s != [] && KeyLe(key(x), key(s[0]))
    ensures SortedBy(s, key) ==> SortedBy([x] + s, key)
  {
    if SortedBy(s, key) {
      forall j | 0 < j < |s| + 1
        ensures KeyLe(key(x), key(([x] + s)[j]))
      {
        if j > 1 { KeyLeTrans(key(x), key(s[0]), key(s[j - 1])); }
      }
    }
  }

  lemma InsertAfter<T>(x: T, s: seq<T>, rest: seq<T>, key: T -> Key)
    requires s != [] && !KeyLe(key(x), key(s[0]))
    requires multiset(rest) == multiset(s[1..]) + multiset{x}
    requires SortedBy(s[1..], key) ==> SortedBy(rest, key)
    ensures SortedBy(s, key) ==> SortedBy([s[0]] + rest, key)
  {
    if SortedBy(s, key) {
      KeyLeTotal(key(x), key(s[0]));
      forall j | 0 <= j < |rest|
        ensures KeyLe(key(s[0]), key(rest[j]))
      {
        assert rest[j] in multiset(rest);
        if rest[j] != x {
          assert rest[j] in multiset(s[1..]);
          var k :| 1 <= k < |s| && s[k] == rest[j];
        }
      }
    }
  }

  /** The rows of `s` in key order: a stand-in for the engine's sort. */
  function SortBy<T>(s: seq<T>, key: T -> Key): (r: seq<T>)
    ensures multiset(r) == multiset(s)
    ensures SortedBy(r, key)
  {
    if s == [] then []
    else
      assert s == [s[0]] + s[1..];
      Insert(s[0], SortBy(s[1..], key), key)
  }

  // ------------------------------------------------------------ id order

  lemma NonEmpty(s: set<int>)
    requires s != {}
    ensures exists x :: x in s
  {
    if forall x :: x !in s { assert false; }
  }

  lemma {:induction false} MinExists(s: set<int>, x: int)
    requires x in s
    ensures exists m :: m in s && forall k :: k in s ==> m <= k
    decreases s
  {
    if s - {x} != {} {
      NonEmpty(s - {x});
      var y :| y in s - {x};
      MinExists(s - {x}, y);
      var m :| m in s - {x} && forall k :: k in s - {x} ==> m <= k;
      var least := if x < m then x else m;
      forall k | k in s ensures least <= k {
        if k != x { assert k in s - {x}; }
      }
    } else {
      forall k | k in s ensures k == x || k in s - {x} { }
    }
  }

  lemma MinOf(s: set<int>)
    requires s != {}
    ensures exists m :: m in s && forall k :: k in s ==> m <= k
  {
    NonEmpty(s);
    var x :| x in s;
    MinExists(s, x);
  }

  /** A strictly ascending sequence stays so with a smaller element in front. */
  lemma AscendingCons(m: int, rest: seq<int>)
    requires forall i, j :: 0 <= i < j < |rest| ==> rest[i] < rest[j]
    requires forall j :: 0 <= j < |rest| ==> m < rest[j]
    ensures forall i, j :: 0 <= i < j < |[m] + rest| ==> ([m] + rest)[i] < ([m] + rest)[j]
  {
    var r := [m] + rest;
    forall i, j | 0 <= i < j < |r| ensures r[i] < r[j] {
      assert r[j] == rest[j - 1];
      if i > 0 {
        assert r[i] == rest[i - 1];
      }
    }
  }

  /** The keys of a table in ascending rowid order, as SQLite scans it. */
  function SortedIds(s: set<int>): (r: seq<int>)
    ensures forall k :: k in r <==> k in s
    ensures forall i, j :: 0 <= i < j < |r| ==> r[i] < r[j]
    decreases s
  {
    if s == {} then []
    else
      MinOf(s);
      var m :| m in s && forall k :: k in s ==> m <= k;
      var rest := SortedIds(s - {m});
      assert forall j :: 0 <= j < |rest| ==> m < rest[j] by {
        forall j | 0 <= j < |rest| ensures m < rest[j] {
          assert rest[j] in s - {m};
        }
      }
      AscendingCons(m, rest);
      [m] + rest
  }
}
