/** The posts table of gitter.db and the two queries the server runs on it:
    `SELECT MAX(page) FROM posts` and
    `SELECT content, created FROM posts WHERE page <= ? ORDER BY created DESC LIMIT 10`. */
module Posts {
  import opened Int64
  import opened Options

  /** One row of the posts table. `created` is filled in by the database. */
  datatype Row = Row(id: int64, page: int64, content: string, created: int64)

  /** The Go struct Post: what the index template shows of a row. */
  datatype Post = Post(content: string, created: int64)

  /** The table itself, which INSERT extends in place. */
  class Table {
    var rows: seq<Row>

    constructor (rows: seq<Row>)
      ensures this.rows == rows
    {
      this.rows := rows;
    }

    /** A successful INSERT appends one row. */
    method Insert(row: Row)
      modifies this
      ensures rows == old(rows) + [row]
    {
      rows := rows + [row];
    }
  }

  /** The value of `MAX(page)`: NULL (None) for an empty table. */
  function MaxPage(rows: seq<Row>): (m: Option<int64>)
    ensures m.None? <==> rows == []
    ensures m.Some? ==> forall i :: 0 <= i < |rows| ==> rows[i].page <= m.value
    ensures m.Some? ==> exists i :: 0 <= i < |rows| && rows[i].page == m.value
    decreases |rows|
  {
    if rows == [] then None
    else
      match MaxPage(rows[1..])
      case None => Some(rows[0].page)
      case Some(m) =>
        assert exists i :: 0 <= i < |rows[1..]| && rows[1..][i].page == m;
        if rows[0].page < m then Some(m) else Some(rows[0].page)
  }

  /** How often r occurs in rows: its multiplicity in the table, which has
      no key, so two posts may be equal in every column. */
  function Count(rows: seq<Row>, r: Row): nat
    decreases |rows|
  {
    if rows == [] then 0 else (if rows[0] == r then 1 else 0) + Count(rows[1..], r)
  }

  /** Count is the multiplicity of the multiset of the rows. */
  lemma {:induction false} CountIsMultiplicity(rows: seq<Row>, r: Row)
    ensures Count(rows, r) == multiset(rows)[r]
    decreases |rows|
  {
    if rows != [] {
      assert rows == [rows[0]] + rows[1..];
      CountIsMultiplicity(rows[1..], r);
    }
  }

  lemma {:induction false} CountAppend(a: seq<Row>, b: seq<Row>, r: Row)
    ensures Count(a + b, r) == Count(a, r) + Count(b, r)
    decreases |a|
  {
    if a != [] {
      assert (a + b)[1..] == a[1..] + b;
      CountAppend(a[1..], b, r);
    } else {
      assert a + b == b;
    }
  }

  /** A row occurs in rows exactly when it is at some position of rows. */
  lemma {:induction false} CountPositive(rows: seq<Row>, r: Row)
    ensures Count(rows, r) > 0 <==> exists j :: 0 <= j < |rows| && rows[j] == r
    decreases |rows|
  {
    if rows != [] {
      CountPositive(rows[1..], r);
      if Count(rows[1..], r) > 0 {
        var j :| 0 <= j < |rows[1..]| && rows[1..][j] == r;
        assert rows[j + 1] == r;
      }
      if exists j :: 0 <= j < |rows| && rows[j] == r {
        var j :| 0 <= j < |rows| && rows[j] == r;
        if j > 0 {
          assert rows[1..][j - 1] == r;
        }
      }
    }
  }

  /** `WHERE page <= bound`: the rows at or below the bound, in table order. */
  function Eligible(rows: seq<Row>, bound: int64): (kept: seq<Row>)
    ensures |kept| <= |rows|
    ensures forall i :: 0 <= i < |kept| ==> kept[i].page <= bound
    decreases |rows|
  {
    if rows == [] then []
    else if rows[0].page <= bound then [rows[0]] + Eligible(rows[1..], bound)
    else Eligible(rows[1..], bound)
  }

  /** Eligible keeps exactly the rows at or below the bound, each as often as
      it occurs in the table. */
  lemma {:induction false} EligibleIsFilter(rows: seq<Row>, bound: int64)
    ensures forall r :: Count(Eligible(rows, bound), r) == if r.page <= bound then Count(rows, r) else 0
    decreases |rows|
  {
    if rows != [] {
      EligibleIsFilter(rows[1..], bound);
      if rows[0].page <= bound {
        assert ([rows[0]] + Eligible(rows[1..], bound))[1..] == Eligible(rows[1..], bound);
      }
    }
  }

  /** When every row is at or below the bound, the filter keeps the table as it is. */
  lemma {:induction false} EligibleKeepsAll(rows: seq<Row>, bound: int64)
    requires forall i :: 0 <= i < |rows| ==> rows[i].page <= bound
    ensures Eligible(rows, bound) == rows
    decreases |rows|
  {
    if rows != [] {
      EligibleKeepsAll(rows[1..], bound);
      assert [rows[0]] + rows[1..] == rows;
    }
  }

  /** The filter keeps only rows of the table, so when every row is newer
      than some time, every kept row is too. */
  lemma {:induction false} EligibleNewerThan(rows: seq<Row>, bound: int64, time: int64)
    requires forall j :: 0 <= j < |rows| ==> time < rows[j].created
    ensures forall i :: 0 <= i < |Eligible(rows, bound)| ==> time < Eligible(rows, bound)[i].created
    decreases |rows|
  {
    if rows != [] {
      EligibleNewerThan(rows[1..], bound, time);
    }
  }

  /** The filter preserves creation order: when `created` strictly increases
      along the table, it strictly increases along the kept rows. */
  lemma {:induction false} EligibleKeepsChronological(rows: seq<Row>, bound: int64)
    requires Chronological(rows)
    ensures Chronological(Eligible(rows, bound))
    decreases |rows|
  {
    if rows != [] {
      var tail := Eligible(rows[1..], bound);
      EligibleKeepsChronological(rows[1..], bound);
      if rows[0].page <= bound {
        EligibleNewerThan(rows[1..], bound, rows[0].created);
        var kept := [rows[0]] + tail;
        forall i, j | 0 <= i < j < |kept|
          ensures kept[i].created < kept[j].created
        {
          assert kept[j] == tail[j - 1];
          if i > 0 {
            assert kept[i] == tail[i - 1];
          }
        }
      }
    }
  }

  /** Rows drawn from the filtered table are at or below the bound, and
      occur in the table at least as often. */
  lemma DrawnFromEligible(rows: seq<Row>, bound: int64, top: seq<Row>)
    requires forall r :: Count(top, r) <= Count(Eligible(rows, bound), r)
    ensures forall i :: 0 <= i < |top| ==> top[i].page <= bound
    ensures forall r :: Count(top, r) <= Count(rows, r)
  {
    EligibleIsFilter(rows, bound);
    forall i | 0 <= i < |top|
      ensures top[i].page <= bound
    {
      CountPositive(top, top[i]);
    }
  }

  /** The position of a row with the latest `created`; the first such on a tie. */
  function NewestIndex(rows: seq<Row>): (i: nat)
    requires rows != []
    ensures i < |rows|
    ensures forall j :: 0 <= j < |rows| ==> rows[j].created <= rows[i].created
    decreases |rows|
  {
    if |rows| == 1 then 0
    else
      var k := 1 + NewestIndex(rows[1..]);
      if rows[0].created >= rows[k].created then 0 else k
  }

  /** The rows without the one at position i. */
  function Without(rows: seq<Row>, i: nat): seq<Row>
    requires i < |rows|
  {
    rows[..i] + rows[i + 1..]
  }

  /** `ORDER BY created DESC LIMIT k`, evaluated by repeatedly taking the
      newest remaining row. SQL leaves the order of rows with equal `created`
      open; this evaluation takes them in table order. */
  function Newest(rows: seq<Row>, k: nat): (top: seq<Row>)
    ensures |top| == if k < |rows| then k else |rows|
    decreases k
  {
    if k == 0 || rows == [] then []
    else
      var i := NewestIndex(rows);
      [rows[i]] + Newest(Without(rows, i), k - 1)
  }

  /** What SQL promises of `ORDER BY created DESC LIMIT k` over rows: k rows
      (or all, if fewer), drawn from rows, newest first, and no row left out
      is newer than a row kept. */
  ghost predicate IsTopByCreated(rows: seq<Row>, k: nat, top: seq<Row>) {
    && |top| == (if k < |rows| then k else |rows|)
    && (forall r :: Count(top, r) <= Count(rows, r))
    && (forall i, j :: 0 <= i < j < |top| ==> top[j].created <= top[i].created)
    && (top != [] ==> forall r :: Count(top, r) < Count(rows, r) ==> r.created <= top[|top| - 1].created)
  }

  lemma {:induction false} NewestIsTopByCreated(rows: seq<Row>, k: nat)
    ensures IsTopByCreated(rows, k, Newest(rows, k))
    decreases k
  {
    if k != 0 && rows != [] {
      var i := NewestIndex(rows);
      var rest := Without(rows, i);
      NewestIsTopByCreated(rest, k - 1);
      TakeNewestFirst(rows, i, k, Newest(rest, k - 1));
    }
  }

  /** Putting the newest row in front of a top selection of the other rows
      gives a top selection of the whole table, one row longer. */
  lemma TakeNewestFirst(rows: seq<Row>, i: nat, k: nat, tail: seq<Row>)
    requires k > 0 && i < |rows|
    requires forall j :: 0 <= j < |rows| ==> rows[j].created <= rows[i].created
    requires IsTopByCreated(Without(rows, i), k - 1, tail)
    ensures IsTopByCreated(rows, k, [rows[i]] + tail)
  {
    var m, rest, top := rows[i], Without(rows, i), [rows[i]] + tail;
    RemoveOne(rows, i);
    forall r
      ensures Count(top, r) == Count(tail, r) + (if r == m then 1 else 0)
    {
      assert top[1..] == tail;
    }
    forall j | 0 <= j < |tail|
      ensures tail[j].created <= m.created
    {
      CountPositive(tail, tail[j]);
      CountPositive(rows, tail[j]);
    }
    PrependNewest(m, tail);
    forall r | Count(top, r) < Count(rows, r)
      ensures r.created <= top[|top| - 1].created
    {
      if tail == [] {
        CountPositive(rows, r);
      } else {
        assert top[|top| - 1] == tail[|tail| - 1];
      }
    }
  }

  /** A row no older than every row of a list in order, put in front of it,
      keeps the list in order. */
  lemma PrependNewest(m: Row, tail: seq<Row>)
    requires forall j :: 0 <= j < |tail| ==> tail[j].created <= m.created
    requires forall a, b :: 0 <= a < b < |tail| ==> tail[b].created <= tail[a].created
    ensures forall a, b :: 0 <= a < b < |[m] + tail| ==> ([m] + tail)[b].created <= ([m] + tail)[a].created
  {
  }

  /** Taking out the row at i takes one occurrence of it out of the count. */
  lemma RemoveOne(rows: seq<Row>, i: nat)
    requires i < |rows|
    ensures |Without(rows, i)| == |rows| - 1
    ensures forall r :: Count(rows, r) == Count(Without(rows, i), r) + (if r == rows[i] then 1 else 0)
  {
    assert rows == rows[..i] + ([rows[i]] + rows[i + 1..]);
    forall r
      ensures Count(rows, r) == Count(Without(rows, i), r) + (if r == rows[i] then 1 else 0)
    {
      CountAppend(rows[..i], [rows[i]] + rows[i + 1..], r);
      CountAppend(rows[..i], rows[i + 1..], r);
      assert ([rows[i]] + rows[i + 1..])[1..] == rows[i + 1..];
    }
  }

  /** Row order is creation order: each row is strictly newer than the one before. */
  predicate Chronological(rows: seq<Row>) {
    forall i, j :: 0 <= i < j < |rows| ==> rows[i].created < rows[j].created
  }

  /** The last k rows, last first. */
  function LatestFirst(rows: seq<Row>, k: nat): seq<Row>
    decreases k
  {
    if k == 0 || rows == [] then [] else [rows[|rows| - 1]] + LatestFirst(rows[..|rows| - 1], k - 1)
  }

  /** On a table whose rows were created one after another, the feed query
      gives the most recent rows in exact reverse insertion order. */
  lemma {:induction false} NewestOfChronological(rows: seq<Row>, k: nat)
    requires Chronological(rows)
    ensures Newest(rows, k) == LatestFirst(rows, k)
    decreases k
  {
    if k != 0 && rows != [] {
      var last := |rows| - 1;
      assert NewestIndex(rows) == last by {
        var i := NewestIndex(rows);
        assert rows[last].created <= rows[i].created;
      }
      assert Without(rows, last) == rows[..last];
      NewestOfChronological(rows[..last], k - 1);
    }
  }

  /** The columns the feed query returns of one row. */
  function ToPost(row: Row): Post {
    Post(row.content, row.created)
  }

  /** The columns the feed query returns, row by row. */
  function Project(rows: seq<Row>): (posts: seq<Post>)
    ensures |posts| == |rows|
    ensures forall i :: 0 <= i < |rows| ==> posts[i] == ToPost(rows[i])
    decreases |rows|
  {
    if rows == [] then [] else Project(rows[..|rows| - 1]) + [ToPost(rows[|rows| - 1])]
  }
}
