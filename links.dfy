/**
 * The request handlers of the link shortener (src/router1.py): creating an
 * alias, redirecting through it, reading its statistics, searching by URL and
 * deleting it. The active and archive tables live in a `Store` object whose
 * methods change them in place; the reads are functions of the active table.
 */
module Links {
  import opened Wrappers
  import opened ShortUrl
  import opened Records

  /** Why a request is refused. */
  datatype Error =
    | AliasTaken      // the requested custom alias is already an active code
    | NotFound        // no active alias has this code
    | NoAliasesOwned  // the caller owns no alias at all
    | NotOwner        // the caller does not own an alias with this code
    | SaltsExhausted  // every supplied salt was tried and every code was taken

  /** The body of a create request. */
  datatype ShortenRequest = ShortenRequest(url: string, customAlias: Option<string>, expiresAt: Option<Time>)

  /** What the statistics request reports about one alias. */
  datatype CodeStats = CodeStats(initialUrl: string, redirectCount: nat, createdAt: Time, lastUsedAt: Option<Time>)

  /** Length of the random salt appended to a URL after a collision. */
  const SaltLength := 4

  predicate IsAsciiLetter(c: char) {
    'a' <= c <= 'z' || 'A' <= c <= 'Z'
  }

  /** A salt: four ASCII letters, as drawn after each collision. */
  type Salt = s: string | |s| == SaltLength && forall i | 0 <= i < |s| :: IsAsciiLetter(s[i]) witness "aaaa"

  /** The custom alias when the request carries one that is not empty (an empty one counts as absent). */
  function RequestedAlias(req: ShortenRequest): (alias: Option<string>)
    ensures alias.Some? <==> req.customAlias.Some? && req.customAlias.value != ""
    ensures alias.Some? ==> alias == req.customAlias
  {
    if req.customAlias.Some? && req.customAlias.value != "" then req.customAlias else None
  }

  /**
   * The code the collision loop settles on: starting from `candidate`, while
   * the code is taken, the next salt is appended to the original URL and the
   * result is hashed. `None` when the salts run out first.
   */
  function FreeCode(sha256: Sha256, url: string, taken: set<string>, candidate: string, salts: seq<Salt>): (r: Option<string>)
    ensures r.Some? ==> r.value !in taken
    ensures candidate !in taken ==> r == Some(candidate)
    ensures r.Some? && r.value != candidate ==>
      exists i | 0 <= i < |salts| :: r.value == ShortenUrlHash(sha256, url + salts[i])
    ensures r.None? ==> candidate in taken && forall i | 0 <= i < |salts| :: ShortenUrlHash(sha256, url + salts[i]) in taken
    decreases |salts|
  {
    if candidate !in taken then Some(candidate)
    else if salts == [] then None
    else
      assert forall i | 0 <= i < |salts[1..]| :: salts[1..][i] == salts[i + 1];
      FreeCode(sha256, url, taken, ShortenUrlHash(sha256, url + salts[0]), salts[1..])
  }

  /** The collision loop itself: rehash the URL with a fresh salt while the code is taken. */
  method PickCode(sha256: Sha256, url: string, taken: set<string>, first: string, salts: seq<Salt>)
    returns (code: Option<string>)
    ensures code == FreeCode(sha256, url, taken, first, salts)
  {
    var candidate := first;
    var i := 0;
    assert salts[i..] == salts;
    while candidate in taken && i < |salts|
      invariant 0 <= i <= |salts|
      invariant FreeCode(sha256, url, taken, candidate, salts[i..]) == FreeCode(sha256, url, taken, first, salts)
    {
      assert salts[i..][1..] == salts[i + 1..];
      candidate := ShortenUrlHash(sha256, url + salts[i]);
      i := i + 1;
    }
    code := if candidate in taken then None else Some(candidate);
  }

  /** The code a create request ends up with, given the codes taken when it started. */
  function ChooseCode(sha256: Sha256, taken: set<string>, req: ShortenRequest, salts: seq<Salt>): (r: Result<string, Error>)
    ensures r.Success? ==> r.value !in taken
    ensures r == Failure(AliasTaken) <==> RequestedAlias(req).Some? && RequestedAlias(req).value in taken
    ensures RequestedAlias(req).Some? && RequestedAlias(req).value !in taken ==> r == Success(RequestedAlias(req).value)
    ensures RequestedAlias(req).None? && r.Success? ==>
      r.value == ShortenUrlHash(sha256, req.url) ||
      exists i | 0 <= i < |salts| :: r.value == ShortenUrlHash(sha256, req.url + salts[i])
    ensures RequestedAlias(req).None? && ShortenUrlHash(sha256, req.url) !in taken ==>
      r == Success(ShortenUrlHash(sha256, req.url))
    ensures r == Failure(SaltsExhausted) <==>
      RequestedAlias(req).None? && ShortenUrlHash(sha256, req.url) in taken &&
      forall i | 0 <= i < |salts| :: ShortenUrlHash(sha256, req.url + salts[i]) in taken
    ensures r.Failure? ==> r.error == AliasTaken || r.error == SaltsExhausted
  {
    var first := if RequestedAlias(req).Some? then RequestedAlias(req).value else ShortenUrlHash(sha256, req.url);
    if RequestedAlias(req).Some? && first in taken then Failure(AliasTaken)
    else
      match FreeCode(sha256, req.url, taken, first, salts)
      case Some(code) => Success(code)
      case None => Failure(SaltsExhausted)
  }

  /** The row a create request inserts: no visits yet, and the requested expiry is not stored. */
  function NewRecord(user: Option<UserId>, url: string, code: string, now: Time): (r: Record)
    ensures r.userId == user && r.initialUrl == url && r.shortenUrl == code && r.createdAt == now
    ensures r.openUrlCount == 0 && r.lastUsedAt.None? && r.expiresAt.None?
  {
    Record(user, url, code, 0, now, None, None)
  }

  /**
   * The row the source actually inserts: `created_at` takes the column default,
   * the moment the table declaration was loaded, not the moment of insertion.
   */
  function NewRecordAsWritten(user: Option<UserId>, url: string, code: string, loadedAt: Time): (r: Record)
    ensures forall now :: r == NewRecord(user, url, code, now).(createdAt := loadedAt)
  {
    Record(user, url, code, 0, loadedAt, None, None)
  }

  /** Appending a row with a fresh code keeps codes unique and every old row, its counter included, as it was. */
  lemma AppendFresh(xs: seq<Record>, r: Record)
    requires UniqueCodes(xs) && r.shortenUrl !in Codes(xs)
    ensures UniqueCodes(xs + [r])
    ensures forall j, k | 0 <= j < |xs| && 0 <= k < |xs + [r]| && xs[j].shortenUrl == (xs + [r])[k].shortenUrl ::
      xs[j] == (xs + [r])[k]
    ensures CountsKept(xs, xs + [r])
    ensures Codes(xs + [r]) == Codes(xs) + {r.shortenUrl}
  {
    var ys := xs + [r];
    forall i, j | 0 <= i < j < |ys| ensures ys[i].shortenUrl != ys[j].shortenUrl {
      if j == |xs| {
        assert ys[i] == xs[i];
        assert xs[i].shortenUrl in Codes(xs);
      }
    }
    forall j, k | 0 <= j < |xs| && 0 <= k < |ys| && xs[j].shortenUrl == ys[k].shortenUrl
      ensures xs[j] == ys[k]
    {
      assert xs[j].shortenUrl in Codes(xs);
      assert k < |xs| && ys[k] == xs[k];
      assert j == k;
    }
    forall c | c in Codes(xs) ensures c in Codes(ys) {
      var k :| 0 <= k < |xs| && xs[k].shortenUrl == c;
      assert ys[k] == xs[k];
    }
    assert ys[|xs|] == r;
  }

  /** One redirect through a row: one more visit, last used now. */
  function Visit(r: Record, now: Time): Record {
    r.(openUrlCount := r.openUrlCount + 1, lastUsedAt := Some(now))
  }

  /** The table after the redirect's UPDATE ... WHERE code = `code`. */
  function Visited(xs: seq<Record>, code: string, now: Time): (ys: seq<Record>)
    ensures |ys| == |xs|
    ensures forall j | 0 <= j < |xs| && xs[j].shortenUrl != code :: ys[j] == xs[j]
    ensures forall j | 0 <= j < |xs| && xs[j].shortenUrl == code ::
      ys[j].openUrlCount == xs[j].openUrlCount + 1 && ys[j].lastUsedAt == Some(now) &&
      ys[j].(openUrlCount := xs[j].openUrlCount, lastUsedAt := xs[j].lastUsedAt) == xs[j]
  {
    seq(|xs|, j requires 0 <= j < |xs| => if xs[j].shortenUrl == code then Visit(xs[j], now) else xs[j])
  }

  /**
   * With unique codes the redirect's update touches exactly the one row with
   * the code: its counter goes up by one and its last use becomes `now`.
   */
  lemma VisitedAt(xs: seq<Record>, code: string, now: Time, k: nat)
    requires UniqueCodes(xs)
    requires k < |xs| && xs[k].shortenUrl == code
    ensures Visited(xs, code, now) == xs[k := Visit(xs[k], now)]
    ensures UniqueCodes(Visited(xs, code, now)) && Codes(Visited(xs, code, now)) == Codes(xs)
    ensures CountsKept(xs, Visited(xs, code, now))
  {
    var ys := Visited(xs, code, now);
    forall j | 0 <= j < |xs| ensures ys[j] == xs[k := Visit(xs[k], now)][j] {
      if j != k {
        assert xs[j].shortenUrl != xs[k].shortenUrl by {
          if j < k {
            assert xs[j].shortenUrl != xs[k].shortenUrl;
          } else {
            assert xs[k].shortenUrl != xs[j].shortenUrl;
          }
        }
      }
    }
    assert forall j | 0 <= j < |xs| :: ys[j].shortenUrl == xs[j].shortenUrl;
    assert Codes(ys) == Codes(xs) by {
      forall c | c in Codes(xs) ensures c in Codes(ys) {
        var m :| 0 <= m < |xs| && xs[m].shortenUrl == c;
        assert ys[m].shortenUrl == c;
      }
    }
  }

  /** The rows whose original URL is `url`. */
  function HasUrl(url: string): Record -> bool {
    (r: Record) => r.initialUrl == url
  }

  /** The codes of the rows whose original URL is `url`, in table order. */
  function Search(records: seq<Record>, url: string): (codes: seq<string>)
    ensures |codes| == |Filter(records, HasUrl(url))|
    ensures forall i | 0 <= i < |codes| :: codes[i] == Filter(records, HasUrl(url))[i].shortenUrl
    ensures forall c :: c in codes <==>
      exists i | 0 <= i < |records| :: records[i].initialUrl == url && records[i].shortenUrl == c
  {
    if records == [] then []
    else
      assert forall i | 0 <= i < |records[1..]| :: records[1..][i] == records[i + 1];
      (if records[0].initialUrl == url then [records[0].shortenUrl] else []) + Search(records[1..], url)
  }

  /** The statistics reported for a row. */
  function StatsOf(r: Record): CodeStats {
    CodeStats(r.initialUrl, r.openUrlCount, r.createdAt, r.lastUsedAt)
  }

  /** The last row with the code: the loop over the query's rows keeps the last one it sees. */
  function LastWithCode(xs: seq<Record>, code: string): (r: Option<Record>)
    ensures r.Some? <==> code in Codes(xs)
    ensures r.Some? ==> exists i | 0 <= i < |xs| :: xs[i] == r.value && xs[i].shortenUrl == code
  {
    if xs == [] then None
    else
      var init := xs[..|xs| - 1];
      assert forall i | 0 <= i < |init| :: init[i] == xs[i];
      assert code in Codes(xs) <==> code in Codes(init) || xs[|xs| - 1].shortenUrl == code by {
        if code in Codes(xs) {
          var k :| 0 <= k < |xs| && xs[k].shortenUrl == code;
          if k < |init| { assert init[k].shortenUrl == code; }
        }
      }
      if xs[|xs| - 1].shortenUrl == code then Some(xs[|xs| - 1])
      else LastWithCode(init, code)
  }

  /** The statistics request: the row's URL, redirect count, creation and last use. */
  function Stats(records: seq<Record>, code: string): (r: Result<CodeStats, Error>)
    ensures r.Failure? <==> code !in Codes(records)
    ensures r.Failure? ==> r.error == NotFound
    ensures r.Success? ==> exists i | 0 <= i < |records| :: records[i].shortenUrl == code && r.value == StatsOf(records[i])
  {
    match LastWithCode(records, code)
    case Some(row) => Success(StatsOf(row))
    case None => Failure(NotFound)
  }

  /** With unique codes, statistics report the row a redirect resolves through. */
  lemma StatsUnique(xs: seq<Record>, code: string, k: nat)
    requires UniqueCodes(xs)
    requires k < |xs| && xs[k].shortenUrl == code
    ensures Stats(xs, code) == Success(StatsOf(xs[k]))
  {
  }

  /** After one redirect through a code, its statistics report one more visit, last used now. */
  lemma StatsAfterVisit(xs: seq<Record>, code: string, now: Time)
    requires UniqueCodes(xs)
    requires code in Codes(xs)
    ensures var r := xs[IndexOf(xs, code)];
      Stats(Visited(xs, code, now), code) == Success(CodeStats(r.initialUrl, r.openUrlCount + 1, r.createdAt, Some(now)))
  {
    var k := IndexOf(xs, code);
    var ys := Visited(xs, code, now);
    VisitedAt(xs, code, now, k);
    assert ys[k] == Visit(xs[k], now);
    StatsUnique(ys, code, k);
  }

  /** Everyone who owns some alias (anonymous aliases contribute `None`). */
  function Owners(xs: seq<Record>): set<Option<UserId>> {
    set i | 0 <= i < |xs| :: xs[i].userId
  }

  /**
   * The owners of the aliases with the code: none for an unknown code, and
   * under unique codes exactly the owner of the one row holding it.
   */
  function OwnersOf(xs: seq<Record>, code: string): (owners: set<Option<UserId>>)
    ensures owners <= Owners(xs)
    ensures owners == {} <==> code !in Codes(xs)
    ensures UniqueCodes(xs) ==> forall k | 0 <= k < |xs| && xs[k].shortenUrl == code :: owners == {xs[k].userId}
  {
    var owners := set i | 0 <= i < |xs| && xs[i].shortenUrl == code :: xs[i].userId;
    assert code in Codes(xs) ==> owners != {} by {
      if code in Codes(xs) {
        var k :| 0 <= k < |xs| && xs[k].shortenUrl == code;
        assert xs[k].userId in owners;
      }
    }
    owners
  }

  /** The rows a DELETE ... WHERE owner = `user` AND code = `code` leaves in place. */
  function Survives(code: string, user: UserId): Record -> bool {
    (r: Record) => !(r.userId == Some(user) && r.shortenUrl == code)
  }

  /** The table after that DELETE: every row but the caller's rows with the code. */
  function RemoveOwned(xs: seq<Record>, code: string, user: UserId): (ys: seq<Record>)
    ensures forall r | r in ys :: r.userId != Some(user) || r.shortenUrl != code
    ensures forall j | 0 <= j < |xs| && (xs[j].userId != Some(user) || xs[j].shortenUrl != code) :: xs[j] in ys
    ensures Codes(ys) <= Codes(xs)
  {
    Filter(xs, Survives(code, user))
  }

  /** With unique codes, deleting an owned alias removes exactly its row and keeps the rest in order. */
  lemma RemoveOwnedAt(xs: seq<Record>, code: string, user: UserId, k: nat)
    requires UniqueCodes(xs)
    requires k < |xs| && xs[k].shortenUrl == code && xs[k].userId == Some(user)
    ensures RemoveOwned(xs, code, user) == xs[..k] + xs[k + 1..]
    ensures code !in Codes(RemoveOwned(xs, code, user))
  {
    var keep := Survives(code, user);
    var pre, post := xs[..k], xs[k + 1..];
    var ys: seq<Record> := pre + post;
    assert RemoveOwned(xs, code, user) == ys by {
      forall i | 0 <= i < |pre| ensures keep(pre[i]) {
        assert pre[i] == xs[i];
      }
      forall i | 0 <= i < |post| ensures keep(post[i]) {
        assert post[i] == xs[k + 1 + i];
      }
      assert xs == pre + [xs[k]] + post;
      FilterDropOne(pre, xs[k], post, keep);
    }
    forall c | c in Codes(ys) ensures c != code {
      var m :| 0 <= m < |ys| && ys[m].shortenUrl == c;
      if m < k {
        assert ys[m] == xs[m];
      } else {
        assert ys[m] == xs[m + 1];
      }
    }
  }

  /** The owner's delete keeps the table well formed: codes stay unique and no counter goes down. */
  lemma RemoveOwnedKeeps(xs: seq<Record>, code: string, user: UserId)
    requires UniqueCodes(xs) && Some(user) in OwnersOf(xs, code)
    ensures code in Codes(xs)
    ensures var i := IndexOf(xs, code);
      RemoveOwned(xs, code, user) == xs[..i] + xs[i + 1..] && code !in Codes(RemoveOwned(xs, code, user))
    ensures UniqueCodes(RemoveOwned(xs, code, user)) && CountsKept(xs, RemoveOwned(xs, code, user))
  {
    var k :| 0 <= k < |xs| && xs[k].shortenUrl == code && xs[k].userId == Some(user);
    UniqueIndex(xs, code, k);
    RemoveOwnedAt(xs, code, user, k);
    FilterUnique(xs, Survives(code, user));
    FilterCountsKept(xs, Survives(code, user));
  }

  /** Both tables: active aliases and the archive of expired ones. */
  class Store {
    var active: seq<Record>
    var archive: seq<ArchivedRecord>

    /** Active codes are pairwise distinct. */
    predicate Valid()
      reads this
    {
      UniqueCodes(active)
    }

    constructor ()
      ensures Valid() && active == [] && archive == []
    {
      active := [];
      archive := [];
    }

    /**
     * Create an alias for `req.url` on behalf of `user` (absent when
     * anonymous). `salts` stands for the random salts drawn one per collision.
     */
    method Shorten(req: ShortenRequest, user: Option<UserId>, now: Time, sha256: Sha256, salts: seq<Salt>)
      returns (res: Result<string, Error>)
      requires Valid()
      modifies this
      ensures Valid() && archive == old(archive)
      ensures res == ChooseCode(sha256, Codes(old(active)), req, salts)
      ensures res.Success? ==> active == old(active) + [NewRecord(user, req.url, res.value, now)]
      ensures res.Failure? ==> active == old(active)
      ensures CountsKept(old(active), active)
    {
      var taken := Codes(active);
      var first;
      match RequestedAlias(req) {
        case Some(alias) =>
          if alias in taken {
            res := Failure(AliasTaken);
            assert CountsKept(active, active);
            return;
          }
          first := alias;
        case None =>
          first := ShortenUrlHash(sha256, req.url);
      }
      var code := PickCode(sha256, req.url, taken, first, salts);
      if code.None? {
        res := Failure(SaltsExhausted);
        assert CountsKept(active, active);
        return;
      }
      AppendFresh(active, NewRecord(user, req.url, code.value, now));
      active := active + [NewRecord(user, req.url, code.value, now)];
      res := Success(code.value);
    }

    /** Redirect through `code`: the original URL, and one more visit recorded at `now`. */
    method Resolve(code: string, now: Time) returns (res: Result<string, Error>)
      requires Valid()
      modifies this
      ensures Valid() && archive == old(archive)
      ensures res.Failure? <==> code !in Codes(old(active))
      ensures res.Failure? ==> res.error == NotFound && active == old(active)
      ensures res.Success? ==>
        var i := IndexOf(old(active), code);
        res.value == old(active)[i].initialUrl && active == old(active)[i := Visit(old(active)[i], now)]
      ensures CountsKept(old(active), active)
    {
      if code !in Codes(active) {
        res := Failure(NotFound);
        assert CountsKept(active, active);
        return;
      }
      var i := IndexOf(active, code);
      var url := active[i].initialUrl;
      VisitedAt(active, code, now, i);
      active := Visited(active, code, now);
      res := Success(url);
    }

    /** Delete the alias `code` on behalf of the signed-in `user`. */
    method Delete(code: string, user: UserId) returns (res: Outcome<Error>)
      requires Valid()
      modifies this
      ensures Valid() && archive == old(archive)
      ensures res == Fail(NoAliasesOwned) <==> Some(user) !in Owners(old(active))
      ensures res == Fail(NotOwner) <==>
        Some(user) in Owners(old(active)) && Some(user) !in OwnersOf(old(active), code)
      ensures res.Pass? <==> Some(user) in OwnersOf(old(active), code)
      ensures res.Fail? ==> active == old(active)
      ensures res.Pass? ==>
        var i := IndexOf(old(active), code);
        active == old(active)[..i] + old(active)[i + 1..] && code !in Codes(active)
      ensures CountsKept(old(active), active)
    {
      if Some(user) !in Owners(active) {
        res := Fail(NoAliasesOwned);
        assert CountsKept(active, active);
        return;
      }
      if Some(user) !in OwnersOf(active, code) {
        res := Fail(NotOwner);
        assert CountsKept(active, active);
        return;
      }
      RemoveOwnedKeeps(active, code, user);
      active := RemoveOwned(active, code, user);
      res := Pass;
    }
  }
}
