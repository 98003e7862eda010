/**
 * The row order of the news listing: `ORDER BY <column> <direction>, id ASC`
 * (internal/data/news.go, GetAll). Text columns compare by code point; the
 * database's collation is not part of this model.
 */
module NewsOrder {
  import opened Text
  import opened NewsRecord
  import opened Filters

  /** The columns of the news table that hold a plain integer, text or timestamp. */
  const SORTABLE_COLUMNS: seq<string> := ["id", "created_at", "updated_at", "title", "content", "status", "version"]

  predicate Sortable(column: string) {
    column in SORTABLE_COLUMNS
  }

  /** The value a row is ordered by. */
  datatype Key = IntKey(i: int) | StrKey(s: string)

  function KeyOf(column: string, n: News): Key
    requires Sortable(column)
  {
    if column == "id" then IntKey(n.id)
    else if column == "created_at" then IntKey(n.createdAt)
    else if column == "updated_at" then IntKey(n.updatedAt)
    else if column == "title" then StrKey(n.title)
    else if column == "content" then StrKey(n.content)
    else if column == "status" then StrKey(n.status)
    else IntKey(n.version)
  }

  /** -1, 0 or 1 as `a` sorts before, with or after `b` in ascending order. */
  function CompareKeys(a: Key, b: Key): int {
    match (a, b)
    case (IntKey(x), IntKey(y)) => if x < y then -1 else if x == y then 0 else 1
    case (StrKey(x), StrKey(y)) => if StrLess(x, y) then -1 else if x == y then 0 else 1
    case (IntKey(_), StrKey(_)) => -1
    case (StrKey(_), IntKey(_)) => 1
  }

  lemma CompareKeysProperties(a: Key, b: Key)
    ensures CompareKeys(a, b) == 0 <==> a == b
    ensures CompareKeys(a, b) == -CompareKeys(b, a)
  {
    if a.StrKey? && b.StrKey? {
      StrLessIrreflexive(a.s);
      if StrLess(a.s, b.s) {
        StrLessAsymmetric(a.s, b.s);
      } else if a.s != b.s {
        StrLessTotal(a.s, b.s);
      }
    }
  }

  lemma CompareKeysTransitive(a: Key, b: Key, c: Key)
    requires CompareKeys(a, b) < 0 && CompareKeys(b, c) < 0
    ensures CompareKeys(a, c) < 0
  {
    if a.StrKey? && b.StrKey? && c.StrKey? {
      StrLessTransitive(a.s, b.s, c.s);
    }
  }

  /** The key comparison in the requested direction. */
  function Directed(column: string, dir: Direction, a: News, b: News): int
    requires Sortable(column)
  {
    var c := CompareKeys(KeyOf(column, a), KeyOf(column, b));
    if dir == Asc then c else -c
  }

  /** `a` is listed before `b`: by the column in the direction, then by id ascending. */
  predicate Before(column: string, dir: Direction, a: News, b: News)
    requires Sortable(column)
  {
    var d := Directed(column, dir, a, b);
    d < 0 || (d == 0 && a.id < b.id)
  }

  lemma DirectedProperties(column: string, dir: Direction, a: News, b: News)
    requires Sortable(column)
    ensures Directed(column, dir, a, b) == 0 <==> KeyOf(column, a) == KeyOf(column, b)
    ensures Directed(column, dir, a, b) == -Directed(column, dir, b, a)
  {
    CompareKeysProperties(KeyOf(column, a), KeyOf(column, b));
  }

  lemma DirectedTransitive(column: string, dir: Direction, a: News, b: News, c: News)
    requires Sortable(column)
    requires Directed(column, dir, a, b) < 0 && Directed(column, dir, b, c) < 0
    ensures Directed(column, dir, a, c) < 0
  {
    var ka, kb, kc := KeyOf(column, a), KeyOf(column, b), KeyOf(column, c);
    if dir == Asc {
      CompareKeysTransitive(ka, kb, kc);
    } else {
      CompareKeysProperties(ka, kb);
      CompareKeysProperties(kb, kc);
      CompareKeysProperties(ka, kc);
      CompareKeysTransitive(kc, kb, ka);
    }
  }

  /** The listing order is a strict total order on rows with distinct ids. */
  lemma BeforeIrreflexive(column: string, dir: Direction, a: News)
    requires Sortable(column)
    ensures !Before(column, dir, a, a)
  {
    DirectedProperties(column, dir, a, a);
  }

  lemma BeforeTransitive(column: string, dir: Direction, a: News, b: News, c: News)
    requires Sortable(column)
    requires Before(column, dir, a, b) && Before(column, dir, b, c)
    ensures Before(column, dir, a, c)
  {
    DirectedProperties(column, dir, a, b);
    DirectedProperties(column, dir, b, c);
    DirectedProperties(column, dir, a, c);
    if Directed(column, dir, a, b) < 0 && Directed(column, dir, b, c) < 0 {
      DirectedTransitive(column, dir, a, b, c);
    }
  }

  lemma BeforeTotal(column: string, dir: Direction, a: News, b: News)
    requires Sortable(column)
    requires a.id != b.id
    ensures Before(column, dir, a, b) || Before(column, dir, b, a)
  {
    DirectedProperties(column, dir, a, b);
  }

  lemma BeforeAsymmetric(column: string, dir: Direction, a: News, b: News)
    requires Sortable(column)
    requires Before(column, dir, a, b)
    ensures !Before(column, dir, b, a)
  {
    DirectedProperties(column, dir, a, b);
  }

  /** No two rows share an id. */
  predicate DistinctIds(s: seq<News>) {
    forall i, j :: 0 <= i < j < |s| ==> s[i].id != s[j].id
  }

  /** Every row is listed before every later row. */
  predicate SortedBy(column: string, dir: Direction, s: seq<News>)
    requires Sortable(column)
  {
    forall i, j :: 0 <= i < j < |s| ==> Before(column, dir, s[i], s[j])
  }

  /** Puts `x` in front of the first row it is listed before. */
  function InsertRow(column: string, dir: Direction, x: News, s: seq<News>): (r: seq<News>)
    requires Sortable(column)
    ensures multiset(r) == multiset(s) + multiset{x}
  {
    if s == [] then [x]
    else if Before(column, dir, x, s[0]) then [x] + s
    else
      assert s == [s[0]] + s[1..];
      [s[0]] + InsertRow(column, dir, x, s[1..])
  }

  /** Sorts rows into listing order, by insertion. */
  function SortRows(column: string, dir: Direction, s: seq<News>): (r: seq<News>)
    requires Sortable(column)
    ensures multiset(r) == multiset(s)
  {
    if s == [] then []
    else
      assert s == [s[0]] + s[1..];
      InsertRow(column, dir, s[0], SortRows(column, dir, s[1..]))
  }

  lemma {:induction false} InsertRowSorted(column: string, dir: Direction, x: News, s: seq<News>)
    requires Sortable(column)
    requires SortedBy(column, dir, s)
    requires forall y :: y in s ==> y.id != x.id
    ensures SortedBy(column, dir, InsertRow(column, dir, x, s))
  {
    if s != [] {
      if Before(column, dir, x, s[0]) {
        var r := [x] + s;
        forall i, j | 0 <= i < j < |r| ensures Before(column, dir, r[i], r[j]) {
          if i == 0 && j > 1 {
            BeforeTransitive(column, dir, x, s[0], s[j - 1]);
          }
        }
      } else {
        BeforeTotal(column, dir, x, s[0]);
        var rest := s[1..];
        assert SortedBy(column, dir, rest);
        InsertRowSorted(column, dir, x, rest);
        var ins := InsertRow(column, dir, x, rest);
        var r := [s[0]] + ins;
        forall i, j | 0 <= i < j < |r| ensures Before(column, dir, r[i], r[j]) {
          if i == 0 {
            assert r[j] in multiset(ins);
            if r[j] != x {
              assert r[j] in rest;
              var k :| 0 <= k < |rest| && rest[k] == r[j];
              assert s[k + 1] == r[j];
            }
          }
        }
      }
    }
  }

  lemma {:induction false} SortRowsSorted(column: string, dir: Direction, s: seq<News>)
    requires Sortable(column)
    requires DistinctIds(s)
    ensures SortedBy(column, dir, SortRows(column, dir, s))
  {
    if s != [] {
      var rest := s[1..];
      assert DistinctIds(rest) by {
        forall i, j | 0 <= i < j < |rest| ensures rest[i].id != rest[j].id {
          assert rest[i] == s[i + 1] && rest[j] == s[j + 1];
        }
      }
      SortRowsSorted(column, dir, rest);
      var sorted := SortRows(column, dir, rest);
      forall y | y in sorted ensures y.id != s[0].id {
        assert y in multiset(rest);
        var k :| 0 <= k < |rest| && rest[k] == y;
        assert s[k + 1] == y;
      }
      InsertRowSorted(column, dir, s[0], sorted);
    }
  }

  /** Two sorted arrangements of the same rows start with the same row. */
  lemma SortedHeadsAgree(column: string, dir: Direction, s: seq<News>, t: seq<News>)
    requires Sortable(column)
    requires SortedBy(column, dir, s) && SortedBy(column, dir, t)
    requires multiset(s) == multiset(t) && s != []
    ensures t != [] && s[0] == t[0]
  {
    assert s[0] in multiset(t);
    assert t[0] in multiset(s);
    var i :| 0 <= i < |t| && t[i] == s[0];
    var j :| 0 <= j < |s| && s[j] == t[0];
    if i != 0 && j != 0 {
      assert Before(column, dir, t[0], s[0]);
      BeforeAsymmetric(column, dir, t[0], s[0]);
    }
  }

  /**
   * The listing order is determined: two sorted arrangements of the same rows
   * are the same sequence. So the SQL ORDER BY with its id tie-break fixes one
   * page content for every offset.
   */
  lemma {:induction false} SortedUnique(column: string, dir: Direction, s: seq<News>, t: seq<News>)
    requires Sortable(column)
    requires SortedBy(column, dir, s) && SortedBy(column, dir, t)
    requires multiset(s) == multiset(t)
    ensures s == t
  {
    if s == [] {
      assert |multiset(t)| == 0;
    } else {
      SortedHeadsAgree(column, dir, s, t);
      assert s == [s[0]] + s[1..] && t == [t[0]] + t[1..];
      assert multiset(s) == multiset{s[0]} + multiset(s[1..]);
      assert multiset(t) == multiset{t[0]} + multiset(t[1..]);
      assert multiset(s[1..]) == multiset(s) - multiset{s[0]};
      assert multiset(t[1..]) == multiset(t) - multiset{t[0]};
      SortedUnique(column, dir, s[1..], t[1..]);
    }
  }
}
