/**
 * The two tables of the link shortener: the active alias table (the `url`
 * table of src/db.py) and the archive of expired aliases, as values, with the
 * queries over them that the request handlers and the sweep share.
 */
module Records {
  import opened Wrappers

  /** A user's identifier (a UUID in the source). */
  type UserId = string

  /** A point in time, in whole seconds. */
  type Time = int

  /** A row of the active alias table. */
  datatype Record = Record(
    userId: Option<UserId>,        // absent for aliases created anonymously
    initialUrl: string,
    shortenUrl: string,            // the short code
    openUrlCount: nat,             // number of redirects through this code
    createdAt: Time,
    lastUsedAt: Option<Time>,      // absent until the first redirect
    expiresAt: Option<Time>)       // absent means no explicit expiry

  /** A row of the archive table: an active row plus the moment it expired. */
  datatype ArchivedRecord = ArchivedRecord(
    userId: Option<UserId>,
    initialUrl: string,
    shortenUrl: string,
    openUrlCount: nat,
    createdAt: Time,
    lastUsedAt: Option<Time>,
    expiredAt: Option<Time>)

  /** The active row an archive row was made from. */
  function FromArchived(a: ArchivedRecord): Record {
    Record(a.userId, a.initialUrl, a.shortenUrl, a.openUrlCount, a.createdAt, a.lastUsedAt, a.expiredAt)
  }

  /** The archive row for an active row; no field of the active row is lost. */
  function ToArchived(r: Record): (a: ArchivedRecord)
    ensures FromArchived(a) == r
  {
    ArchivedRecord(r.userId, r.initialUrl, r.shortenUrl, r.openUrlCount, r.createdAt, r.lastUsedAt, r.expiresAt)
  }

  /** The set of codes in a table. */
  function Codes(xs: seq<Record>): set<string> {
    set i | 0 <= i < |xs| :: xs[i].shortenUrl
  }

  /** No two rows of the table share a code (the unique constraint on the code column). */
  predicate UniqueCodes(xs: seq<Record>) {
    forall i, j | 0 <= i < j < |xs| :: xs[i].shortenUrl != xs[j].shortenUrl
  }

  /** The position of the first row with the given code. */
  function IndexOf(xs: seq<Record>, code: string): (i: nat)
    requires code in Codes(xs)
    ensures i < |xs| && xs[i].shortenUrl == code
    ensures forall j | 0 <= j < i :: xs[j].shortenUrl != code
  {
    if xs[0].shortenUrl == code then 0
    else
      assert code in Codes(xs[1..]) by {
        var k :| 0 <= k < |xs| && xs[k].shortenUrl == code;
        assert xs[1..][k - 1] == xs[k];
      }
      1 + IndexOf(xs[1..], code)
  }

  /** In a table with unique codes, the row holding a code is the only one holding it. */
  lemma UniqueIndex(xs: seq<Record>, code: string, k: nat)
    requires UniqueCodes(xs)
    requires k < |xs| && xs[k].shortenUrl == code
    ensures code in Codes(xs) && IndexOf(xs, code) == k
  {
  }

  /** The rows satisfying `keep`, in table order (a SQL WHERE over the table). */
  function Filter(xs: seq<Record>, keep: Record -> bool): (ys: seq<Record>)
    ensures |ys| <= |xs|
    ensures forall r :: r in ys <==> r in xs && keep(r)
    ensures Codes(ys) <= Codes(xs)
  {
    if xs == [] then []
    else
      var rest := Filter(xs[1..], keep);
      assert forall r :: r in xs <==> r == xs[0] || r in xs[1..];
      assert Codes(xs[1..]) <= Codes(xs) by {
        forall c | c in Codes(xs[1..]) ensures c in Codes(xs) {
          var k :| 0 <= k < |xs[1..]| && xs[1..][k].shortenUrl == c;
          assert xs[k + 1].shortenUrl == c;
        }
      }
      if keep(xs[0]) then
        assert Codes([xs[0]] + rest) <= Codes(xs) by {
          forall c | c in Codes([xs[0]] + rest) ensures c in Codes(xs) {
            var k :| 0 <= k < |[xs[0]] + rest| && ([xs[0]] + rest)[k].shortenUrl == c;
            if k > 0 { assert rest[k - 1].shortenUrl == c; }
          }
        }
        [xs[0]] + rest
      else rest
  }

  lemma {:induction false} FilterAppend(xs: seq<Record>, ys: seq<Record>, keep: Record -> bool)
    ensures Filter(xs + ys, keep) == Filter(xs, keep) + Filter(ys, keep)
  {
    if xs == [] {
      assert xs + ys == ys;
    } else {
      assert (xs + ys)[1..] == xs[1..] + ys;
      FilterAppend(xs[1..], ys, keep);
    }
  }

  lemma {:induction false} FilterAll(xs: seq<Record>, keep: Record -> bool)
    requires forall i | 0 <= i < |xs| :: keep(xs[i])
    ensures Filter(xs, keep) == xs
  {
    if xs != [] {
      FilterAll(xs[1..], keep);
    }
  }

  lemma {:induction false} FilterNone(xs: seq<Record>, keep: Record -> bool)
    requires forall i | 0 <= i < |xs| :: !keep(xs[i])
    ensures Filter(xs, keep) == []
  {
    if xs != [] {
      FilterNone(xs[1..], keep);
    }
  }

  /** Filtering out one row that fails the test, among rows that all pass it, removes exactly that row. */
  lemma FilterDropOne(pre: seq<Record>, x: Record, post: seq<Record>, keep: Record -> bool)
    requires forall i | 0 <= i < |pre| :: keep(pre[i])
    requires forall i | 0 <= i < |post| :: keep(post[i])
    requires !keep(x)
    ensures Filter(pre + [x] + post, keep) == pre + post
  {
    assert Filter([x], keep) == [] by {
      assert [x][1..] == [];
    }
    assert Filter(pre, keep) == pre by {
      FilterAll(pre, keep);
    }
    assert Filter(post, keep) == post by {
      FilterAll(post, keep);
    }
    FilterAppend(pre + [x], post, keep);
    FilterAppend(pre, [x], keep);
    assert pre + [] == pre;
  }

  /** Dropping rows never makes two codes collide. */
  lemma {:induction false} FilterUnique(xs: seq<Record>, keep: Record -> bool)
    requires UniqueCodes(xs)
    ensures UniqueCodes(Filter(xs, keep))
  {
    if xs != [] {
      FilterUnique(xs[1..], keep);
      var rest := Filter(xs[1..], keep);
      if keep(xs[0]) {
        assert xs[0].shortenUrl !in Codes(xs[1..]) by {
          forall k | 0 <= k < |xs[1..]| ensures xs[1..][k].shortenUrl != xs[0].shortenUrl {
            assert xs[1..][k] == xs[k + 1];
          }
        }
        var ys := [xs[0]] + rest;
        forall i, j | 0 <= i < j < |ys| ensures ys[i].shortenUrl != ys[j].shortenUrl {
          if i == 0 {
            assert ys[j] == rest[j - 1];
            assert rest[j - 1].shortenUrl in Codes(rest);
          } else {
            assert ys[i] == rest[i - 1] && ys[j] == rest[j - 1];
          }
        }
      }
    }
  }

  /**
   * Every code present both before and after a change has a redirect count
   * that did not go down: the counter only grows while a record is active.
   */
  predicate CountsKept(before: seq<Record>, after: seq<Record>) {
    forall j, k | 0 <= j < |before| && 0 <= k < |after| && before[j].shortenUrl == after[k].shortenUrl ::
      before[j].openUrlCount <= after[k].openUrlCount
  }

  /**
   * Removing rows from a table with unique codes leaves every remaining row,
   * its counter included, exactly as it was.
   */
  lemma FilterCountsKept(xs: seq<Record>, keep: Record -> bool)
    requires UniqueCodes(xs)
    ensures forall j, k | 0 <= j < |xs| && 0 <= k < |Filter(xs, keep)| && xs[j].shortenUrl == Filter(xs, keep)[k].shortenUrl ::
      xs[j] == Filter(xs, keep)[k]
    ensures CountsKept(xs, Filter(xs, keep))
  {
    var ys := Filter(xs, keep);
    forall j, k | 0 <= j < |xs| && 0 <= k < |ys| && xs[j].shortenUrl == ys[k].shortenUrl
      ensures xs[j] == ys[k]
    {
      assert ys[k] in xs;
      var m :| 0 <= m < |xs| && xs[m] == ys[k];
      assert m == j;
    }
  }
}
