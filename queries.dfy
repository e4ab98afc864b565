/**
 * The data-view query
 *   SELECT date_posted, mood_score, stress_level, anxiety_level FROM checkins
 *   WHERE user_id = ? ORDER BY date_posted DESC LIMIT 10
 * as a filter, a sort and a take. The query names no tie-break, so SQLite
 * may return rows with equal timestamps in any order. `RecentCheckins`
 * settles such ties by table order, one of the orders SQLite may use;
 * `IsRecentPage`, which states what the query promises, leaves them open.
 */
module Queries {

  import opened Text
  import opened Tables

  /** The `LIMIT` of the query. */
  const PageSize := 10

  /** The columns the query selects. */
  datatype Summary = Summary(datePosted: string, moodScore: int, stressLevel: int, anxietyLevel: int)

  function Summarize(c: CheckIn): Summary {
    Summary(c.datePosted, c.moodScore, c.stressLevel, c.anxietyLevel)
  }

  /** `ORDER BY date_posted DESC`: every row is at least as recent as the rows after it. */
  ghost predicate NewestFirst(rows: seq<CheckIn>) {
    forall j, k :: 0 <= j < k < |rows| ==> TextLe(rows[k].datePosted, rows[j].datePosted)
  }

  /** `WHERE user_id = ?`: keeps every row of that user, with its multiplicity, and nothing else. */
  function OwnedBy(rows: seq<CheckIn>, uid: int): (r: seq<CheckIn>)
    ensures forall x :: multiset(r)[x] == if x.userId == uid then multiset(rows)[x] else 0
    ensures multiset(r) <= multiset(rows)
  {
    if rows == [] then []
    else
      assert rows == [rows[0]] + rows[1..];
      (if rows[0].userId == uid then [rows[0]] else []) + OwnedBy(rows[1..], uid)
  }

  function InsertNewestFirst(c: CheckIn, rows: seq<CheckIn>): (r: seq<CheckIn>)
    ensures multiset(r) == multiset(rows) + multiset{c}
  {
    if rows == [] || TextLe(rows[0].datePosted, c.datePosted) then [c] + rows
    else
      assert rows == [rows[0]] + rows[1..];
      [rows[0]] + InsertNewestFirst(c, rows[1..])
  }

  lemma {:induction false} InsertKeepsNewestFirst(c: CheckIn, rows: seq<CheckIn>)
    requires NewestFirst(rows)
    ensures NewestFirst(InsertNewestFirst(c, rows))
  {
    var r := InsertNewestFirst(c, rows);
    if rows == [] {
    } else if TextLe(rows[0].datePosted, c.datePosted) {
      forall j, k | 0 <= j < k < |r| ensures TextLe(r[k].datePosted, r[j].datePosted) {
        if j == 0 {
          if k == 1 {
          } else {
            TextLeTransitive(rows[k - 1].datePosted, rows[0].datePosted, c.datePosted);
          }
        }
      }
    } else {
      TextLeTotal(rows[0].datePosted, c.datePosted);
      var rest := InsertNewestFirst(c, rows[1..]);
      InsertKeepsNewestFirst(c, rows[1..]);
      assert r == [rows[0]] + rest;
      forall k | 0 <= k < |rest| ensures TextLe(rest[k].datePosted, rows[0].datePosted) {
        assert rest[k] in multiset(rest);
        if rest[k] != c {
          assert rest[k] in rows[1..];
          var m :| 0 <= m < |rows[1..]| && rows[1..][m] == rest[k];
          assert rows[m + 1] == rest[k];
        }
      }
    }
  }

  /** Insertion sort on `date_posted`, most recent first. */
  function SortNewestFirst(rows: seq<CheckIn>): (r: seq<CheckIn>)
    ensures multiset(r) == multiset(rows)
  {
    if rows == [] then []
    else
      assert rows == [rows[0]] + rows[1..];
      InsertNewestFirst(rows[0], SortNewestFirst(rows[1..]))
  }

  lemma {:induction false} SortIsNewestFirst(rows: seq<CheckIn>)
    ensures NewestFirst(SortNewestFirst(rows))
  {
    if rows != [] {
      SortIsNewestFirst(rows[1..]);
      InsertKeepsNewestFirst(rows[0], SortNewestFirst(rows[1..]));
    }
  }

  /** `LIMIT n`. */
  function Limit(rows: seq<CheckIn>, n: nat): (r: seq<CheckIn>)
  {
    if |rows| <= n then rows else rows[..n]
  }

  /** The rows the query returns, before the projection to `Summary`. */
  function RecentCheckins(rows: seq<CheckIn>, uid: int): (page: seq<CheckIn>)
    ensures IsRecentPage(rows, uid, page)
  {
    RecentCheckinsIsPage(rows, uid);
    Limit(SortNewestFirst(OwnedBy(rows, uid)), PageSize)
  }

  /**
   * What the SQL query means, independently of how it is computed: at most
   * `PageSize` rows, all of the user's rows when there are no more than
   * that, every one owned by the user and taken from the table, newest
   * first, and no row of the user left out that is newer than one kept.
   */
  ghost predicate IsRecentPage(rows: seq<CheckIn>, uid: int, page: seq<CheckIn>) {
    var owned := OwnedBy(rows, uid);
    && |page| == (if |owned| <= PageSize then |owned| else PageSize)
    && (forall k :: 0 <= k < |page| ==> page[k].userId == uid)
    && multiset(page) <= multiset(rows)
    && NewestFirst(page)
    && (forall x :: x in multiset(owned) - multiset(page) ==>
          forall k :: 0 <= k < |page| ==> TextLe(x.datePosted, page[k].datePosted))
  }

  /**
   * The first `n` rows of a newest-first sequence are newest first, are taken
   * from it, and are at least as recent as every row they leave out.
   */
  lemma LimitOfNewestFirst(sorted: seq<CheckIn>, n: nat)
    requires NewestFirst(sorted)
    ensures var page := Limit(sorted, n);
      && |page| == (if |sorted| <= n then |sorted| else n)
      && NewestFirst(page)
      && multiset(page) <= multiset(sorted)
      && forall x :: x in multiset(sorted) - multiset(page) ==>
           forall k :: 0 <= k < |page| ==> TextLe(x.datePosted, page[k].datePosted)
  {
    var page := Limit(sorted, n);
    var m := |page|;
    assert sorted == page + sorted[m..];
    assert multiset(sorted) == multiset(page) + multiset(sorted[m..]);
    forall x | x in multiset(sorted) - multiset(page)
      ensures forall k :: 0 <= k < m ==> TextLe(x.datePosted, page[k].datePosted)
    {
      assert x in multiset(sorted[m..]);
      var i :| 0 <= i < |sorted[m..]| && sorted[m..][i] == x;
      assert sorted[m + i] == x;
    }
  }

  /** Filtering, sorting and taking `PageSize` rows meets `IsRecentPage`. */
  lemma RecentCheckinsIsPage(rows: seq<CheckIn>, uid: int)
    ensures IsRecentPage(rows, uid, Limit(SortNewestFirst(OwnedBy(rows, uid)), PageSize))
  {
    var owned := OwnedBy(rows, uid);
    var sorted := SortNewestFirst(owned);
    var page := Limit(sorted, PageSize);
    SortIsNewestFirst(owned);
    LimitOfNewestFirst(sorted, PageSize);
    assert |sorted| == |owned| by {
      assert |multiset(sorted)| == |multiset(owned)|;
    }
    forall k | 0 <= k < |page| ensures page[k].userId == uid {
      assert multiset(owned)[page[k]] > 0;
    }
  }

  /** With no more than `PageSize` rows the query returns every one of the user's rows. */
  lemma RecentCheckinsAllWhenFew(rows: seq<CheckIn>, uid: int)
    requires |OwnedBy(rows, uid)| <= PageSize
    ensures multiset(RecentCheckins(rows, uid)) == multiset(OwnedBy(rows, uid))
  {
  }

  /** A user with no check-ins gets an empty result, not an error. */
  lemma RecentCheckinsEmpty(rows: seq<CheckIn>, uid: int)
    requires forall k :: 0 <= k < |rows| ==> rows[k].userId != uid
    ensures RecentCheckins(rows, uid) == []
  {
  }

  /**
   * Two rows a newest-first sequence lists out of `date_posted` order have
   * equal timestamps: the only freedom the ordering leaves is among ties.
   */
  lemma {:induction false} NewestFirstOnlyTies(rows: seq<CheckIn>, j: int, k: int)
    requires NewestFirst(rows) && 0 <= j < k < |rows|
    requires TextLe(rows[j].datePosted, rows[k].datePosted)
    ensures rows[j].datePosted == rows[k].datePosted
  {
    TextLeAntisymmetric(rows[j].datePosted, rows[k].datePosted);
  }

  /** A row strictly newer than every other row heads a newest-first sequence holding it. */
  lemma NewestHeadsNewestFirst(sorted: seq<CheckIn>, c: CheckIn)
    requires NewestFirst(sorted) && c in sorted
    requires forall x :: x in sorted && x != c ==> !TextLe(c.datePosted, x.datePosted)
    ensures sorted[0] == c
  {
    var m :| 0 <= m < |sorted| && sorted[m] == c;
    assert m == 0 || TextLe(c.datePosted, sorted[0].datePosted);
  }

  /**
   * A check-in posted strictly later than every other row of its user is the
   * first row the query returns.
   */
  lemma LatestCheckInFirst(rows: seq<CheckIn>, c: CheckIn)
    requires forall k :: 0 <= k < |rows| && rows[k].userId == c.userId ==>
      !TextLe(c.datePosted, rows[k].datePosted)
    ensures RecentCheckins(rows + [c], c.userId) != []
    ensures RecentCheckins(rows + [c], c.userId)[0] == c
  {
    var all := rows + [c];
    var owned := OwnedBy(all, c.userId);
    var sorted := SortNewestFirst(owned);
    SortIsNewestFirst(owned);
    assert multiset(all)[c] > 0 by {
      assert all[|rows|] == c;
    }
    assert c in sorted by {
      assert multiset(sorted)[c] == multiset(all)[c];
    }
    forall x | x in sorted && x != c
      ensures !TextLe(c.datePosted, x.datePosted)
    {
      assert multiset(owned)[x] > 0;
      assert x.userId == c.userId && multiset(all)[x] > 0;
      assert multiset(all) == multiset(rows) + multiset{c};
      assert x in multiset(rows);
      var i :| 0 <= i < |rows| && rows[i] == x;
    }
    NewestHeadsNewestFirst(sorted, c);
  }
}
