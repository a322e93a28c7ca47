/**
 The popularity report of `Recomenda.top_n`: the number of rows each user has
 in the ratings table joined with the catalog, most active users first, cut to
 the first `n` entries (`value_counts().head(n)`, kept as an ordered mapping).
 */
module Popularity {
  import opened Seqs
  import opened StableTopK
  import opened Catalog

  /** A report entry: a user and its row count. */
  type Entry = (UserId, nat)

  /** The user column of `rows`. */
  function UsersOf(rows: seq<Rating>): (users: seq<UserId>)
    ensures |users| == |rows|
    ensures forall i :: 0 <= i < |rows| ==> users[i] == rows[i].user
  {
    seq(|rows|, i requires 0 <= i < |rows| => rows[i].user)
  }

  /** Number of rows of `rows` by `u`. */
  function RowCount(rows: seq<Rating>, u: UserId): nat {
    if |rows| == 0 then 0
    else (if rows[0].user == u then 1 else 0) + RowCount(rows[1..], u)
  }

  /** Users with at least one rating row. */
  function RatingUsers(ratings: seq<Rating>): set<UserId> {
    set r | r in ratings :: r.user
  }

  /** The distinct elements of `s` in order of first appearance: the keys of a
      hash-table count over `s`. */
  function FirstSeen(s: seq<UserId>): (r: seq<UserId>)
    ensures Distinct(r)
    ensures forall u :: u in r <==> u in s
  {
    if |s| == 0 then []
    else
      var init := s[..|s| - 1];
      var last := s[|s| - 1];
      var r := FirstSeen(init);
      assert s == init + [last];
      if last in r then r else r + [last]
  }

  /** Each user of `users` paired with its number of rows in `rows`. */
  function Counted(users: seq<UserId>, rows: seq<Rating>): (entries: seq<Entry>)
    ensures |entries| == |users|
    ensures forall i :: 0 <= i < |users| ==> entries[i] == (users[i], RowCount(rows, users[i]))
  {
    seq(|users|, i requires 0 <= i < |users| => (users[i], RowCount(rows, users[i])))
  }

  /** The users a report lists, in report order. */
  function ReportUsers(report: seq<Entry>): (users: seq<UserId>)
    ensures |users| == |report|
    ensures forall i :: 0 <= i < |report| ==> users[i] == report[i].0
  {
    seq(|report|, i requires 0 <= i < |report| => report[i].0)
  }

  /** The sort key of `value_counts`: the count. */
  function CountKey(e: Entry): real {
    e.1 as real
  }

  /** The report: `value_counts()` of the joined table's user column, then
      `head(n)`. Equal counts keep first-appearance order. */
  function TopActiveUsers(ratings: seq<Rating>, catalog: seq<Book>, n: int): (report: seq<Entry>)
    ensures 0 <= n ==> |report| == Min(n, |RatingUsers(ratings)|)
    ensures SortedDesc(report, CountKey)
    ensures forall i :: 0 <= i < |report| ==>
              report[i].0 in RatingUsers(ratings) &&
              report[i].1 == RowCount(Joined(ratings, catalog), report[i].0)
    ensures forall i, j :: 0 <= i < j < |report| ==> report[i].0 != report[j].0
    ensures forall u, i ::
              (u in RatingUsers(ratings) && 0 <= i < |report| &&
               (forall j :: 0 <= j < |report| ==> report[j].0 != u)) ==>
              RowCount(Joined(ratings, catalog), u) <= report[i].1
  {
    var joined := Joined(ratings, catalog);
    var users := FirstSeen(UsersOf(joined));
    assert Elems(users) == RatingUsers(ratings) by {
      forall u ensures u in users <==> u in RatingUsers(ratings) {
        if u in RatingUsers(ratings) {
          var r :| r in ratings && r.user == u;
          var k :| 0 <= k < |joined| && joined[k] == r;
          assert UsersOf(joined)[k] == u;
        }
      }
    }
    DistinctCard(users);
    var entries := Counted(users, joined);
    var report := TopK(entries, CountKey, n);
    EntriesOfReport(users, joined, report);
    TopReportDropped(users, joined, report);
    report
  }

  /** The entries of a report drawn from `Counted(users, rows)` carry their
      true counts and distinct users. */
  lemma EntriesOfReport(users: seq<UserId>, rows: seq<Rating>, report: seq<Entry>)
    requires Distinct(users)
    requires multiset(report) <= multiset(Counted(users, rows))
    ensures forall i :: 0 <= i < |report| ==> report[i].1 == RowCount(rows, report[i].0) && report[i].0 in users
    ensures forall i, j :: 0 <= i < j < |report| ==> report[i].0 != report[j].0
  {
    var entries := Counted(users, rows);
    forall i | 0 <= i < |report|
      ensures report[i] in entries
    {
      assert report[i] in multiset(report);
    }
    assert Distinct(entries) by {
      forall i, j | 0 <= i < j < |entries|
        ensures entries[i] != entries[j]
      {
        assert entries[i].0 == users[i] && entries[j].0 == users[j];
      }
    }
    SubMultisetDistinct(report, entries);
    forall i | 0 <= i < |report|
      ensures report[i].1 == RowCount(rows, report[i].0) && report[i].0 in users
    {
      var m :| 0 <= m < |entries| && entries[m] == report[i];
    }
  }

  /** A user missing from a top report counts no more than any listed user. */
  lemma TopReportDropped(users: seq<UserId>, rows: seq<Rating>, report: seq<Entry>)
    requires forall x, i :: x in Counted(users, rows) && x !in report && 0 <= i < |report| ==>
               CountKey(x) <= CountKey(report[i])
    ensures forall u, i ::
              (u in users && 0 <= i < |report| &&
               (forall j :: 0 <= j < |report| ==> report[j].0 != u)) ==>
              RowCount(rows, u) <= report[i].1
  {
    var entries := Counted(users, rows);
    forall u, i | u in users && 0 <= i < |report| && (forall j :: 0 <= j < |report| ==> report[j].0 != u)
      ensures RowCount(rows, u) <= report[i].1
    {
      var m :| 0 <= m < |users| && users[m] == u;
      var x := entries[m];
      assert x in entries;
      assert forall j :: 0 <= j < |report| ==> report[j] != x by {
        assert x.0 == u;
      }
    }
  }

  /** The report as the source promises it on a catalog with unique ids: at
      most `n` entries, counts non-increasing, each count the user's number of
      rating rows, no unlisted user with more rating rows than a listed one,
      and every rating user listed once `n` covers them all. */
  lemma TopActiveUsersCountRatings(ratings: seq<Rating>, catalog: seq<Book>, n: int)
    requires UniqueIds(catalog)
    ensures var report := TopActiveUsers(ratings, catalog, n);
            && (forall i, j :: 0 <= i < j < |report| ==> report[i].1 >= report[j].1)
            && (forall i :: 0 <= i < |report| ==> report[i].1 == RowCount(ratings, report[i].0))
            && (forall u, i ::
                  (u in RatingUsers(ratings) && 0 <= i < |report| &&
                   (forall j :: 0 <= j < |report| ==> report[j].0 != u)) ==>
                  RowCount(ratings, u) <= report[i].1)
            && (n >= |RatingUsers(ratings)| ==>
                  forall u :: u in RatingUsers(ratings) ==> exists i :: 0 <= i < |report| && report[i].0 == u)
  {
    var report := TopActiveUsers(ratings, catalog, n);
    JoinedUniqueIsRatings(ratings, catalog);
    forall i, j | 0 <= i < j < |report|
      ensures report[i].1 >= report[j].1
    {
      assert CountKey(report[i]) >= CountKey(report[j]);
    }
    if n >= |RatingUsers(ratings)| {
      var listed := ReportUsers(report);
      assert Elems(listed) <= RatingUsers(ratings);
      DistinctCard(listed);
      SubsetCard(Elems(listed), RatingUsers(ratings));
      forall u | u in RatingUsers(ratings)
        ensures exists i :: 0 <= i < |report| && report[i].0 == u
      {
        assert u in Elems(listed);
      }
    }
  }
}
