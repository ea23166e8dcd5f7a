/**
 * Request sequences on a fresh store, proved from the operations' contracts
 * alone: what a client of the link shortener can rely on.
 */
module Scenarios {
  import opened Wrappers
  import opened ShortUrl
  import opened Records
  import opened Links
  import opened Sweep

  /** Create without an alias, redirect once, then read the statistics. */
  method CreateVisitStats(sha256: Sha256, url: string, now: Time)
    returns (code: string, target: string, stats: Result<CodeStats, Error>)
    ensures code == ShortenUrlHash(sha256, url) && |code| == CodeLength
    ensures target == url
    ensures stats == Success(CodeStats(url, 1, now, Some(now)))
  {
    var store := new Store();
    var created := store.Shorten(ShortenRequest(url, None, None), None, now, sha256, []);
    code := created.value;
    assert store.active[0].shortenUrl == code;
    var resolved := store.Resolve(code, now);
    target := resolved.value;
    StatsUnique(store.active, code, 0);
    stats := Stats(store.active, code);
  }

  /** The same custom alias requested twice: the second request is refused and changes nothing. */
  method CustomAliasTwice(sha256: Sha256, url: string, alias: string, now: Time)
    returns (first: Result<string, Error>, second: Result<string, Error>, codes: set<string>)
    requires alias != ""
    ensures first == Success(alias) && second == Failure(AliasTaken)
    ensures codes == {alias}
  {
    var store := new Store();
    first := store.Shorten(ShortenRequest(url, Some(alias), None), None, now, sha256, []);
    assert store.active == [NewRecord(None, url, alias, now)];
    assert store.active[0].shortenUrl == alias;
    second := store.Shorten(ShortenRequest(url, Some(alias), None), None, now, sha256, []);
    codes := Codes(store.active);
  }

  /** The owner deletes an alias; redirecting through it afterwards finds nothing. */
  method DeleteThenResolve(sha256: Sha256, url: string, user: UserId, now: Time)
    returns (deleted: Outcome<Error>, resolved: Result<string, Error>)
    ensures deleted == Pass && resolved == Failure(NotFound)
  {
    var store := new Store();
    var created := store.Shorten(ShortenRequest(url, None, None), Some(user), now, sha256, []);
    var code := created.value;
    assert store.active[0].shortenUrl == code && store.active[0].userId == Some(user);
    assert Some(user) in OwnersOf(store.active, code);
    deleted := store.Delete(code, user);
    assert store.active == [];
    resolved := store.Resolve(code, now);
  }

  /** An alias older than the age limit is archived by one sweep and no longer resolves. */
  method SweepStaleAlias(sha256: Sha256, url: string, now: Time)
    returns (resolved: Result<string, Error>, archived: seq<ArchivedRecord>)
    ensures resolved == Failure(NotFound)
    ensures archived == [ToArchived(NewRecord(None, url, ShortenUrlHash(sha256, url), now))]
  {
    var store := new Store();
    var created := store.Shorten(ShortenRequest(url, None, None), None, now, sha256, []);
    var later := now + (DefaultDaysExpired + 1) * SecondsPerDay;
    ghost var row := store.active[0];
    assert IsExpired(row, later, DefaultDaysExpired);
    assert Select(store.active, later, DefaultDaysExpired) == [row];
    SweptAliasMoves(store.active, later, DefaultDaysExpired, 0);
    DeleteExpired(store, later, {}, false);
    ArchiveRowsComplete([row]);
    resolved := store.Resolve(created.value, later);
    archived := store.archive;
  }

  /**
   * An expiry sent with the create request is not stored, so a sweep after
   * that moment leaves the alias in place and it still resolves.
   */
  method RequestExpiryIgnored(sha256: Sha256, url: string, now: Time)
    returns (resolved: Result<string, Error>)
    ensures resolved == Success(url)
  {
    var store := new Store();
    var created := store.Shorten(ShortenRequest(url, None, Some(now - 1)), None, now, sha256, []);
    assert !IsExpired(store.active[0], now, DefaultDaysExpired);
    assert Select(store.active, now, DefaultDaysExpired) == [];
    DeleteExpired(store, now, {}, false);
    resolved := store.Resolve(created.value, now);
  }
}
