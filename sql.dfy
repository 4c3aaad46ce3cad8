/**
  What the table models need of SQLite: a table is a map from rowid to row, a
  `SELECT ... WHERE ... ORDER BY` is the table scanned in rowid order, filtered,
  then sorted; `LIKE` is SQLite's pattern match; and a statement fails when a
  value cannot be bound or a UNIQUE constraint is violated.
 */
module Sql {
  import opened Common
  import opened Ordering

  /** A row as `SELECT *` returns it: its rowid and its columns. */
  datatype Entry<T> = Entry(id: int, row: T)

  /** Why a statement throws: a value it cannot bind, a UNIQUE, NOT NULL or FOREIGN KEY
      constraint it would break, or, when it is prepared, a name no column has. */
  datatype SqlError = BindError | UniqueViolation | NotNullViolation | ForeignKeyViolation | NoSuchColumn

  datatype Result<T> = Ok(value: T) | Err(error: SqlError)

  /** better-sqlite3 binds numbers, strings and null (`undefined` becomes null); a
      JavaScript boolean makes `run` throw a TypeError. */
  predicate Bindable(v: Value)
  {
    !v.Bool?
  }

  /** A full scan: every row of the table, in rowid order. */
  function Entries<T>(m: map<int, T>): (r: seq<Entry<T>>)
    ensures forall i :: 0 <= i < |r| ==> r[i].id in m && r[i].row == m[r[i].id]
    ensures forall i, j :: 0 <= i < j < |r| ==> r[i].id < r[j].id
    ensures forall id :: id in m ==> Entry(id, m[id]) in r
  {
    var ids := SortedIds(m.Keys);
    var r := seq(|ids|, i requires 0 <= i < |ids| => Entry(ids[i], m[ids[i]]));
    assert forall id :: id in m ==> Entry(id, m[id]) in r by {
      forall id | id in m ensures Entry(id, m[id]) in r {
        var i :| 0 <= i < |ids| && ids[i] == id;
        assert r[i] == Entry(id, m[id]);
      }
    }
    r
  }

  /** `SELECT * FROM m WHERE p ORDER BY key`. */
  function Select<T(!new)>(m: map<int, T>, p: Entry<T> -> bool, key: Entry<T> -> Key): (r: seq<Entry<T>>)
    ensures multiset(r) == multiset(Filter(Entries(m), p))
    ensures forall e :: e in r <==> e.id in m && e.row == m[e.id] && p(e)
    ensures SortedBy(r, key)
  {
    var r := SortBy(Filter(Entries(m), p), key);
    forall e ensures e in r <==> e.id in m && e.row == m[e.id] && p(e) {
      ScanMember(m, p, r, e);
    }
    r
  }

  lemma ScanMember<T>(m: map<int, T>, p: Entry<T> -> bool, r: seq<Entry<T>>, e: Entry<T>)
    requires multiset(r) == multiset(Filter(Entries(m), p))
    ensures e in r <==> e.id in m && e.row == m[e.id] && p(e)
  {
    var all := Entries(m);
    FilterMembers(all, p);
    assert e in r <==> e in multiset(r);
    assert e in Filter(all, p) <==> e in multiset(Filter(all, p));
    if e in all {
      var i :| 0 <= i < |all| && all[i] == e;
    }
  }

  /** `SELECT * FROM m WHERE p ORDER BY key LIMIT n`: at most `n` matching rows, and
      they come before every matching row left out. */
  function SelectLimit<T(!new)>(m: map<int, T>, p: Entry<T> -> bool, key: Entry<T> -> Key, n: int): (r: seq<Entry<T>>)
    ensures n >= 0 ==> |r| <= n
    ensures forall e :: e in r ==> e.id in m && e.row == m[e.id] && p(e)
    ensures SortedBy(r, key)
    ensures n < 0 || |r| < n ==> forall id :: id in m && p(Entry(id, m[id])) ==> Entry(id, m[id]) in r
    ensures forall e, id :: e in r && id in m && p(Entry(id, m[id])) && Entry(id, m[id]) !in r ==>
      KeyLe(key(e), key(Entry(id, m[id])))
  {
    var all := Select(m, p, key);
    var r := Limit(all, n);
    assert n < 0 || |r| < n ==> r == all;
    forall e, id | e in r && id in m && p(Entry(id, m[id])) && Entry(id, m[id]) !in r
      ensures KeyLe(key(e), key(Entry(id, m[id])))
    {
      PrefixBeforeRest(all, r, key, e, Entry(id, m[id]));
    }
    r
  }

  /** In a sorted sequence, what a prefix keeps sorts before what it drops. */
  lemma PrefixBeforeRest<T>(s: seq<T>, r: seq<T>, key: T -> Key, x: T, y: T)
    requires SortedBy(s, key) && r <= s && x in r && y in s && y !in r
    ensures KeyLe(key(x), key(y))
  {
    var i :| 0 <= i < |r| && r[i] == x;
    var k :| 0 <= k < |s| && s[k] == y;
    assert s[i] == x;
  }

  // ---------------------------------------------------------------- LIKE

  /** SQLite's `LIKE` without ESCAPE: `%` matches any run of characters, `_` any one
      character, every other character itself ignoring ASCII case. */
  predicate LikeMatch(pattern: string, s: string)
    decreases |pattern| + |s|
  {
    if pattern == [] then s == []
    else if pattern[0] == '%' then LikeMatch(pattern[1..], s) || (s != [] && LikeMatch(pattern, s[1..]))
    else s != [] && (pattern[0] == '_' || LowerChar(pattern[0]) == LowerChar(s[0])) && LikeMatch(pattern[1..], s[1..])
  }

  /** The text `LIKE` compares: NULL matches nothing, numbers by their decimal form. */
  predicate Like(v: Value, pattern: string)
  {
    match v
    case Str(s) => LikeMatch(pattern, s)
    case Num(_) => LikeMatch(pattern, ToText(v))
    case _ => false
  }

  /** The bound parameter `%${term}%` of the search queries. */
  function Surround(term: string): string
  {
    "%" + term + "%"
  }

  predicate Literal(term: string)
  {
    forall i :: 0 <= i < |term| ==> term[i] != '%' && term[i] != '_'
  }

  lemma {:induction false} PercentMatchesAll(s: string)
    ensures LikeMatch("%", s)
    decreases |s|
  {
    if s != [] {
      PercentMatchesAll(s[1..]);
    }
  }

  /** A wildcard-free pattern followed by `%` matches exactly the texts it starts, ignoring case. */
  lemma {:induction false} LiteralPrefix(t: string, s: string)
    requires Literal(t)
    ensures LikeMatch(t + "%", s) <==> |t| <= |s| && Lower(t) == Lower(s[..|t|])
    decreases |t|
  {
    if t == [] {
      PercentMatchesAll(s);
      assert t + "%" == "%";
    } else {
      assert (t + "%")[1..] == t[1..] + "%";
      LiteralPrefix(t[1..], if s == [] then s else s[1..]);
      if s != [] && |t| <= |s| {
        assert Lower(t) == [LowerChar(t[0])] + Lower(t[1..]);
        assert Lower(s[..|t|]) == [LowerChar(s[0])] + Lower(s[1..][..|t| - 1]) by {
          assert s[..|t|] == [s[0]] + s[1..][..|t| - 1];
        }
      }
    }
  }

  /** A leading `%` lets the rest of the pattern match at any position. */
  lemma {:induction false} LeadingPercent(q: string, s: string)
    ensures LikeMatch("%" + q, s) <==> exists i :: 0 <= i <= |s| && LikeMatch(q, s[i..])
    decreases |s|
  {
    assert ("%" + q)[1..] == q;
    assert s[0..] == s;
    if s != [] {
      LeadingPercent(q, s[1..]);
      if exists i :: 0 <= i <= |s| && LikeMatch(q, s[i..]) {
        var i :| 0 <= i <= |s| && LikeMatch(q, s[i..]);
        if i > 0 {
          assert s[1..][i - 1..] == s[i..];
        }
      }
      if exists i :: 0 <= i <= |s[1..]| && LikeMatch(q, s[1..][i..]) {
        var i :| 0 <= i <= |s[1..]| && LikeMatch(q, s[1..][i..]);
        assert s[1..][i..] == s[i + 1..];
      }
    }
  }

  /** `col LIKE '%term%'` for a term without wildcards is a case-insensitive substring test. */
  lemma LikeIsContains(term: string, s: string)
    requires Literal(term)
    ensures LikeMatch(Surround(term), s) <==> Contains(Lower(s), Lower(term))
  {
    assert Surround(term) == "%" + (term + "%");
    LeadingPercent(term + "%", s);
    if LikeMatch(Surround(term), s) {
      var i :| 0 <= i <= |s| && LikeMatch(term + "%", s[i..]);
      MatchAt(term, s, i);
    }
    if Contains(Lower(s), Lower(term)) {
      var i :| 0 <= i <= |Lower(s)| && OccursAt(Lower(s), Lower(term), i);
      MatchAt(term, s, i);
    }
  }

  /** The pattern `term%` matches from position `i` exactly where the lowered term occurs. */
  lemma MatchAt(term: string, s: string, i: int)
    requires Literal(term) && 0 <= i <= |s|
    ensures LikeMatch(term + "%", s[i..]) <==> OccursAt(Lower(s), Lower(term), i)
  {
    LiteralPrefix(term, s[i..]);
    if i + |term| <= |s| {
      LowerSlice(s, i, |term|);
    }
  }

  lemma LowerSlice(s: string, i: int, n: int)
    requires 0 <= i && 0 <= n && i + n <= |s|
    ensures Lower(s)[i..i + n] == Lower(s[i..][..n])
  {
    assert forall k :: 0 <= k < n ==> Lower(s)[i..i + n][k] == Lower(s[i..][..n])[k];
  }
}
