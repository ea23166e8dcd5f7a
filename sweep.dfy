/**
 * The expiry sweep (src/task.py): every alias past its explicit expiry, or
 * older than a number of whole days, is copied into the archive and then
 * deleted from the active table.
 */
module Sweep {
  import opened Wrappers
  import opened Records
  import opened Links

  /** Age in days after which an alias is swept even without an explicit expiry. */
  const DefaultDaysExpired := 30

  const SecondsPerDay := 86400

  /** The day field of an interval of `seconds`: whole days, truncated toward zero. */
  function WholeDays(seconds: int): (days: int)
    ensures 0 <= seconds ==> 0 <= days * SecondsPerDay <= seconds < (days + 1) * SecondsPerDay
    ensures seconds < 0 ==> (days - 1) * SecondsPerDay < seconds <= days * SecondsPerDay <= 0
  {
    if seconds >= 0 then seconds / SecondsPerDay else -((-seconds) / SecondsPerDay)
  }

  /**
   * The sweep's selection: the explicit expiry has passed, or the alias is more
   * than `nDaysExpired` whole days old. A missing expiry never selects.
   */
  predicate IsExpired(r: Record, now: Time, nDaysExpired: int)
    ensures r.expiresAt.Some? && r.expiresAt.value <= now ==> IsExpired(r, now, nDaysExpired)
    ensures r.expiresAt.None? && 0 <= nDaysExpired ==>
      (IsExpired(r, now, nDaysExpired) <==> now - r.createdAt >= (nDaysExpired + 1) * SecondsPerDay)
  {
    (r.expiresAt.Some? && r.expiresAt.value <= now) || WholeDays(now - r.createdAt) > nDaysExpired
  }

  function Expired(now: Time, nDaysExpired: int): Record -> bool {
    (r: Record) => IsExpired(r, now, nDaysExpired)
  }

  function NotExpired(now: Time, nDaysExpired: int): Record -> bool {
    (r: Record) => !IsExpired(r, now, nDaysExpired)
  }

  /** The rows the SELECT picks, in table order. */
  function Select(xs: seq<Record>, now: Time, nDaysExpired: int): seq<Record> {
    Filter(xs, Expired(now, nDaysExpired))
  }

  /** The rows the DELETE leaves, in table order. */
  function Keep(xs: seq<Record>, now: Time, nDaysExpired: int): seq<Record> {
    Filter(xs, NotExpired(now, nDaysExpired))
  }

  /** The sweep partitions the active table: every row is selected or kept, and none is both. */
  lemma {:induction false} Partition(xs: seq<Record>, now: Time, nDaysExpired: int)
    ensures multiset(Select(xs, now, nDaysExpired)) + multiset(Keep(xs, now, nDaysExpired)) == multiset(xs)
    ensures forall r | r in Keep(xs, now, nDaysExpired) :: !IsExpired(r, now, nDaysExpired)
    ensures forall r | r in Select(xs, now, nDaysExpired) :: IsExpired(r, now, nDaysExpired)
  {
    if xs != [] {
      Partition(xs[1..], now, nDaysExpired);
      assert xs == [xs[0]] + xs[1..];
    }
  }

  /** When nothing is selected, the delete leaves the table as it was. */
  lemma NothingSelected(xs: seq<Record>, now: Time, nDaysExpired: int)
    requires Select(xs, now, nDaysExpired) == []
    ensures Keep(xs, now, nDaysExpired) == xs
  {
    forall i | 0 <= i < |xs| ensures NotExpired(now, nDaysExpired)(xs[i]) {
      assert xs[i] !in Select(xs, now, nDaysExpired);
    }
    FilterAll(xs, NotExpired(now, nDaysExpired));
  }

  /** A second pass at the same `now` selects nothing and keeps everything. */
  lemma Idempotent(xs: seq<Record>, now: Time, nDaysExpired: int)
    ensures Select(Keep(xs, now, nDaysExpired), now, nDaysExpired) == []
    ensures Keep(Keep(xs, now, nDaysExpired), now, nDaysExpired) == Keep(xs, now, nDaysExpired)
  {
    var kept := Keep(xs, now, nDaysExpired);
    forall i | 0 <= i < |kept| ensures !Expired(now, nDaysExpired)(kept[i]) {
      assert kept[i] in kept;
    }
    FilterNone(kept, Expired(now, nDaysExpired));
    NothingSelected(kept, now, nDaysExpired);
  }

  /**
   * The archive rows the per-record inserts add, in selection order; the
   * insert of the selection's `i`-th row fails exactly when `i` is in `insertFails`.
   */
  function ArchiveRows(selected: seq<Record>, insertFails: set<nat>): (rows: seq<ArchivedRecord>)
    ensures |rows| <= |selected|
    ensures forall a | a in rows :: exists i | 0 <= i < |selected| && i !in insertFails :: a == ToArchived(selected[i])
  {
    if selected == [] then []
    else
      var last := |selected| - 1;
      var init := ArchiveRows(selected[..last], insertFails);
      assert forall i | 0 <= i < last :: selected[..last][i] == selected[i];
      init + (if last in insertFails then [] else [ToArchived(selected[last])])
  }

  /** One more turn of the insert loop adds the archive row of the next selected record, unless its insert fails. */
  lemma ArchiveRowsStep(selected: seq<Record>, insertFails: set<nat>, i: nat)
    requires i < |selected|
    ensures ArchiveRows(selected[..i + 1], insertFails) ==
      ArchiveRows(selected[..i], insertFails) + (if i in insertFails then [] else [ToArchived(selected[i])])
  {
    assert selected[..i + 1][..i] == selected[..i];
  }

  /**
   * The insert loop carries on past a failed insert: every selected record
   * whose own insert succeeds is archived, whichever others fail.
   */
  lemma {:induction false} ArchiveRowsKeepGoing(selected: seq<Record>, insertFails: set<nat>)
    ensures forall i | 0 <= i < |selected| && i !in insertFails :: ToArchived(selected[i]) in ArchiveRows(selected, insertFails)
  {
    if selected != [] {
      var last := |selected| - 1;
      ArchiveRowsKeepGoing(selected[..last], insertFails);
      forall i | 0 <= i < last && i !in insertFails ensures ToArchived(selected[i]) in ArchiveRows(selected, insertFails) {
        assert selected[..last][i] == selected[i];
      }
    }
  }

  /** When no insert fails, every selected row is archived, in order. */
  lemma {:induction false} ArchiveRowsComplete(selected: seq<Record>)
    ensures |ArchiveRows(selected, {})| == |selected|
    ensures forall i | 0 <= i < |selected| :: ArchiveRows(selected, {})[i] == ToArchived(selected[i])
  {
    if selected != [] {
      var last := |selected| - 1;
      ArchiveRowsComplete(selected[..last]);
    }
  }

  /**
   * An alias the sweep selects is gone from the active table afterwards and,
   * when no insert fails, its archive row holds the same code and URL.
   */
  lemma SweptAliasMoves(xs: seq<Record>, now: Time, nDaysExpired: int, k: nat)
    requires UniqueCodes(xs)
    requires k < |xs| && IsExpired(xs[k], now, nDaysExpired)
    ensures xs[k].shortenUrl !in Codes(Keep(xs, now, nDaysExpired))
    ensures ToArchived(xs[k]) in ArchiveRows(Select(xs, now, nDaysExpired), {})
  {
    var kept := Keep(xs, now, nDaysExpired);
    forall c | c in Codes(kept) ensures c != xs[k].shortenUrl {
      var m :| 0 <= m < |kept| && kept[m].shortenUrl == c;
      assert kept[m] in xs && kept[m] != xs[k];
      var j :| 0 <= j < |xs| && xs[j] == kept[m];
      assert j != k;
    }
    var sel := Select(xs, now, nDaysExpired);
    assert xs[k] in sel;
    var i :| 0 <= i < |sel| && sel[i] == xs[k];
    ArchiveRowsComplete(sel);
    assert ArchiveRows(sel, {})[i] == ToArchived(xs[k]);
  }

  /**
   * A selected alias whose archive insert fails is deleted all the same when
   * the final delete goes through: after the sweep its code is in neither table.
   */
  lemma FailedInsertLosesAlias(xs: seq<Record>, now: Time, nDaysExpired: int, insertFails: set<nat>, k: nat)
    requires UniqueCodes(xs)
    requires k < |Select(xs, now, nDaysExpired)| && k in insertFails
    ensures var lost := Select(xs, now, nDaysExpired)[k];
      lost.shortenUrl !in Codes(Keep(xs, now, nDaysExpired)) &&
      forall a | a in ArchiveRows(Select(xs, now, nDaysExpired), insertFails) :: a.shortenUrl != lost.shortenUrl
  {
    var sel := Select(xs, now, nDaysExpired);
    assert sel[k] in xs;
    var j :| 0 <= j < |xs| && xs[j] == sel[k];
    SweptAliasMoves(xs, now, nDaysExpired, j);
    FilterUnique(xs, Expired(now, nDaysExpired));
    forall a | a in ArchiveRows(sel, insertFails) ensures a.shortenUrl != sel[k].shortenUrl {
      var i :| 0 <= i < |sel| && i !in insertFails && a == ToArchived(sel[i]);
      assert FromArchived(a) == sel[i];
      assert i != k;
    }
  }

  /**
   * One sweep at time `now`. The archive inserts whose positions in the
   * selection are in `insertFails` fail and are skipped; `deleteFails` makes
   * the final bulk delete fail, leaving the active table as it was.
   */
  method DeleteExpired(store: Store, now: Time, insertFails: set<nat>, deleteFails: bool,
                       nDaysExpired: int := DefaultDaysExpired)
    requires store.Valid()
    modifies store
    ensures store.Valid()
    ensures store.archive == old(store.archive) + ArchiveRows(Select(old(store.active), now, nDaysExpired), insertFails)
    ensures store.active == if deleteFails then old(store.active) else Keep(old(store.active), now, nDaysExpired)
    ensures Select(old(store.active), now, nDaysExpired) == [] ==> store.active == old(store.active) && store.archive == old(store.archive)
    ensures CountsKept(old(store.active), store.active)
  {
    var selected := Select(store.active, now, nDaysExpired);
    if selected == [] {
      NothingSelected(store.active, now, nDaysExpired);
      FilterCountsKept(store.active, NotExpired(now, nDaysExpired));
      return;
    }
    var i := 0;
    while i < |selected|
      invariant 0 <= i <= |selected|
      invariant store.active == old(store.active)
      invariant store.archive == old(store.archive) + ArchiveRows(selected[..i], insertFails)
    {
      ArchiveRowsStep(selected, insertFails, i);
      if i !in insertFails {
        store.archive := store.archive + [ToArchived(selected[i])];
      }
      i := i + 1;
    }
    assert selected[..i] == selected;
    FilterUnique(store.active, NotExpired(now, nDaysExpired));
    FilterCountsKept(store.active, NotExpired(now, nDaysExpired));
    if !deleteFails {
      store.active := Keep(store.active, now, nDaysExpired);
    }
  }

  /**
   * As written, every alias is as old as the process: a sweep once the process
   * has run more than `nDaysExpired` whole days selects an alias created at
   * that very moment, which the intended insertion time would keep.
   */
  lemma AsWrittenSweepsNewAlias(user: Option<UserId>, url: string, code: string, loadedAt: Time, now: Time, nDaysExpired: nat)
    requires now - loadedAt >= (nDaysExpired + 1) * SecondsPerDay
    ensures IsExpired(NewRecordAsWritten(user, url, code, loadedAt), now, nDaysExpired)
    ensures !IsExpired(NewRecord(user, url, code, now), now, nDaysExpired)
  {
  }

  /** An alias stamped with its insertion time is not swept for age within its first `nDaysExpired` + 1 days. */
  lemma NewAliasSurvives(user: Option<UserId>, url: string, code: string, createdAt: Time, now: Time, nDaysExpired: nat)
    requires createdAt <= now < createdAt + (nDaysExpired + 1) * SecondsPerDay
    ensures !IsExpired(NewRecord(user, url, code, createdAt), now, nDaysExpired)
  {
  }
}
