/** The favourites store's data and pure logic, from favorites.php: the
    configuration values, a saved link, the blacklist test, the duplicate
    check and append of add_favorite, deletion by URL, the retention marks
    of cleanup_old_data, the search filter, the pagination arithmetic and
    one step of the 60-second rate limiter. */
module Favorites {
  import opened Seqs
  import opened Text

  // Configuration values (favconfig.php, blacklist.php).
  const MAX_LINKS_PER_PAGE := 25
  const MAX_TITLE_LENGTH := 200
  const MAX_DAYS_TO_KEEP := 365
  const DAYS_BEFORE_DELETION := 7
  const MAX_REQUESTS_PER_MINUTE := 50
  const SECRET_VALUE := "<YOUR_SECRET_VALUE>"
  const BLACKLIST := ["google.com", "google.de"]

  const SECONDS_PER_DAY := 86400
  const MAX_URL_LENGTH := 2048
  const RATE_WINDOW := 60

  const BLACKLISTED_MESSAGE := "The URL is on the blacklist."
  const DUPLICATE_MESSAGE := "The URL is already in favorites."

  /** A saved link. Times are whole seconds since the epoch; `deleteAt` is
      the JSON `null` until the entry is marked for deletion. */
  datatype Favorite = Favorite(timestamp: int, title: string, url: string, deleteAt: Option<int>)

  predicate HasUrl(favorites: seq<Favorite>, url: string) {
    exists i :: 0 <= i < |favorites| && favorites[i].url == url
  }

  /** No two entries share a url (compared exactly, as `===` does). */
  predicate UrlsDistinct(favorites: seq<Favorite>) {
    forall i, j :: 0 <= i < j < |favorites| ==> favorites[i].url != favorites[j].url
  }

  // ---------------------------------------------------------------- blacklist

  /** The loop of is_blacklisted: does some domain, trimmed, occur in the
      host, ignoring case? */
  function AnyDomainIn(host: string, domains: seq<string>): (r: bool)
    ensures r <==> exists i :: 0 <= i < |domains| && StrIPos(host, Trim(domains[i])).Some?
  {
    if domains == [] then false
    else if StrIPos(host, Trim(domains[0])).Some? then true
    else
      var r := AnyDomainIn(host, domains[1..]);
      assert forall i :: 1 <= i < |domains| ==> domains[i] == domains[1..][i - 1];
      r
  }

  /** is_blacklisted: false for a URL without a host, otherwise whether
      some listed domain occurs in the host, ignoring case. */
  function IsBlacklisted(url: string, domains: seq<string>): (r: bool)
    ensures Host(url).None? ==> !r
    ensures Host(url).Some? ==>
      (r <==> exists i :: 0 <= i < |domains| && StrIPos(Host(url).value, Trim(domains[i])).Some?)
  {
    match Host(url)
    case None => false
    case Some(host) => AnyDomainIn(host, domains)
  }

  /** A list entry that is blank after trimming occurs in every host, so it
      blacklists every URL that has one. */
  lemma BlankDomainBlocksEveryHost(url: string, domains: seq<string>, i: int)
    requires 0 <= i < |domains| && Trim(domains[i]) == ""
    requires Host(url).Some?
    ensures IsBlacklisted(url, domains)
  {
    assert OccursAt(Lower(Host(url).value), Lower(Trim(domains[i])), 0);
  }

  // The blacklist example below, step by step.
  lemma ExampleDomainIsTrimmed()
    ensures Trim("google.com") == "google.com"
  {
    TrimKeepsTrimmedString("google.com");
  }

  lemma ExampleHostHoldsDomain()
    ensures OccursAt(Lower("MAPS.Google.com"), Lower("google.com"), 5)
  {
    var host := "MAPS.Google.com";
    LowerOfSlice(host, 5, 15);
    assert host[5..15] == "Google.com";
    assert Lower("Google.com") == Lower("google.com") by {
      forall k | 0 <= k < 10
        ensures Lower("Google.com")[k] == Lower("google.com")[k]
      {
      }
    }
  }

  lemma ExampleMatch()
    ensures StrIPos("MAPS.Google.com", Trim("google.com")).Some?
  {
    ExampleDomainIsTrimmed();
    ExampleHostHoldsDomain();
  }

  /** The blacklist matches the host whatever its case. */
  lemma BlacklistIgnoresCase()
    ensures IsBlacklisted("https://MAPS.Google.com/x", ["google.com"])
  {
    ExampleHost();
    ExampleMatch();
    assert ["google.com"][0] == "google.com";
  }

  /** A URL whose first ':' is not followed by "//" has no host, so it is
      never blacklisted, whatever follows. */
  lemma MailtoIsNotBlacklisted()
    ensures !IsBlacklisted("mailto:a?b://google.com", BLACKLIST)
  {
    MailtoHasNoHost();
  }

  // -------------------------------------------------------------- add, delete

  /** add_favorite: refuses a blacklisted URL first, then a URL already
      present (exact comparison); otherwise appends one entry created at
      `now` with no deletion date and returns the empty message. The list
      is passed by reference in the source; here it goes in and comes out. */
  method AddFavorite(favorites: seq<Favorite>, url: string, title: string, domains: seq<string>, now: int)
    returns (error: string, favorites': seq<Favorite>)
    ensures IsBlacklisted(url, domains) ==> error == BLACKLISTED_MESSAGE && favorites' == favorites
    ensures !IsBlacklisted(url, domains) && HasUrl(favorites, url) ==>
      error == DUPLICATE_MESSAGE && favorites' == favorites
    ensures !IsBlacklisted(url, domains) && !HasUrl(favorites, url) ==>
      error == "" && favorites' == favorites + [Favorite(now, title, url, None)]
    ensures error == "" <==> favorites' != favorites
    ensures UrlsDistinct(favorites) ==> UrlsDistinct(favorites')
  {
    if IsBlacklisted(url, domains) {
      return BLACKLISTED_MESSAGE, favorites;
    }
    var i := 0;
    while i < |favorites|
      invariant 0 <= i <= |favorites|
      invariant forall j :: 0 <= j < i ==> favorites[j].url != url
    {
      if favorites[i].url == url {
        return DUPLICATE_MESSAGE, favorites;
      }
      i := i + 1;
    }
    favorites' := favorites + [Favorite(now, title, url, None)];
    assert |favorites'| != |favorites|;
    return "", favorites';
  }

  /** delete_favorite_by_url: keeps, in order, the entries whose url differs. */
  function DeleteFavoriteByUrl(favorites: seq<Favorite>, url: string): (r: seq<Favorite>)
    ensures forall i :: 0 <= i < |r| ==> r[i].url != url
    ensures forall f :: f in favorites && f.url != url ==> f in r
    ensures forall f :: f in r ==> f in favorites
    ensures IsSubsequence(r, favorites)
  {
    var keep := (f: Favorite) => f.url != url;
    FilterIsSubsequence(favorites, keep);
    Filter(favorites, keep)
  }

  /** Deletion keeps every entry with another url as many times as the
      list holds it, and no entry with the url. */
  lemma DeleteKeepsCopies(favorites: seq<Favorite>, url: string)
    ensures forall f :: multiset(DeleteFavoriteByUrl(favorites, url))[f] ==
                        if f.url != url then multiset(favorites)[f] else 0
  {
    var r := Filter(favorites, (f: Favorite) => f.url != url);
    FilterCounts(favorites, (f: Favorite) => f.url != url);
    assert DeleteFavoriteByUrl(favorites, url) == r;
  }

  lemma DeleteIsIdempotent(favorites: seq<Favorite>, url: string)
    ensures DeleteFavoriteByUrl(DeleteFavoriteByUrl(favorites, url), url) == DeleteFavoriteByUrl(favorites, url)
  {
    FilterIdempotent(favorites, (f: Favorite) => f.url != url);
  }

  lemma DeleteOfAbsentUrlChangesNothing(favorites: seq<Favorite>, url: string)
    requires !HasUrl(favorites, url)
    ensures DeleteFavoriteByUrl(favorites, url) == favorites
  {
    FilterKeepsAll(favorites, (f: Favorite) => f.url != url);
  }

  /** Keeping a subsequence of a list with distinct urls keeps them distinct. */
  lemma {:induction false} SubsequenceKeepsUrlsDistinct(r: seq<Favorite>, s: seq<Favorite>)
    requires IsSubsequence(r, s) && UrlsDistinct(s)
    ensures UrlsDistinct(r)
    decreases |s|
  {
    if r != [] {
      if r[0] == s[0] && IsSubsequence(r[1..], s[1..]) {
        SubsequenceKeepsUrlsDistinct(r[1..], s[1..]);
        SubsequenceMembers(r[1..], s[1..]);
        forall j | 0 < j < |r| ensures r[0].url != r[j].url {
          assert r[j] == r[1..][j - 1];
          var k :| 0 <= k < |s[1..]| && s[1..][k] == r[j];
          assert s[k + 1] == r[j];
        }
      } else {
        SubsequenceKeepsUrlsDistinct(r, s[1..]);
      }
    }
  }

  lemma {:induction false} SubsequenceMembers<T>(r: seq<T>, s: seq<T>)
    requires IsSubsequence(r, s)
    ensures forall i :: 0 <= i < |r| ==> exists k :: 0 <= k < |s| && s[k] == r[i]
    decreases |s|
  {
    if r != [] {
      if r[0] == s[0] && IsSubsequence(r[1..], s[1..]) {
        SubsequenceMembers(r[1..], s[1..]);
        forall i | 1 <= i < |r| ensures exists k :: 0 <= k < |s| && s[k] == r[i] {
          assert r[i] == r[1..][i - 1];
          var k :| 0 <= k < |s[1..]| && s[1..][k] == r[i];
          assert s[k + 1] == r[i];
        }
      } else {
        SubsequenceMembers(r, s[1..]);
        forall i | 0 <= i < |r| ensures exists k :: 0 <= k < |s| && s[k] == r[i] {
          var k :| 0 <= k < |s[1..]| && s[1..][k] == r[i];
          assert s[k + 1] == r[i];
        }
      }
    }
  }

  lemma ReverseKeepsUrlsDistinct(s: seq<Favorite>)
    requires UrlsDistinct(s)
    ensures UrlsDistinct(Reverse(s))
  {
    var r := Reverse(s);
    forall i, j | 0 <= i < j < |r| ensures r[i].url != r[j].url {
      assert r[i] == s[|s| - 1 - i] && r[j] == s[|s| - 1 - j];
    }
  }

  // ------------------------------------------------------------ retention

  function Abs(x: int): nat {
    if x < 0 then -x else x
  }

  /** Whole days between two instants, as `DateTime::diff(...)->days`
      counts them: the absolute difference, rounded down. */
  function AgeInDays(now: int, t: int): nat {
    Abs(now - t) / SECONDS_PER_DAY
  }

  /** The marking condition of cleanup_old_data. */
  predicate DueForMarking(f: Favorite, now: int) {
    AgeInDays(now, f.timestamp) > MAX_DAYS_TO_KEEP && f.deleteAt.None?
  }

  /** One iteration of cleanup_old_data's loop. Its second branch, meant to
      purge an entry whose deletion date has passed, only unsets the loop
      reference, so it leaves the entry as it is. */
  function Marked(f: Favorite, now: int): Favorite {
    if DueForMarking(f, now)
    then f.(deleteAt := Some(now + DAYS_BEFORE_DELETION * SECONDS_PER_DAY))
    else f
  }

  /** The list cleanup_old_data leaves behind: the same entries in the same
      order, each marked when due. The final `array_filter` without a
      callback drops only falsy elements, and no entry is falsy. */
  function Swept(favorites: seq<Favorite>, now: int): (r: seq<Favorite>)
    ensures |r| == |favorites|
    ensures forall i :: 0 <= i < |r| ==>
      r[i].timestamp == favorites[i].timestamp && r[i].title == favorites[i].title && r[i].url == favorites[i].url
    ensures forall i :: 0 <= i < |r| && favorites[i].deleteAt.Some? ==> r[i].deleteAt == favorites[i].deleteAt
    ensures forall i :: 0 <= i < |r| && favorites[i].deleteAt.None? ==>
      (r[i].deleteAt.Some? <==> AgeInDays(now, favorites[i].timestamp) > MAX_DAYS_TO_KEEP) &&
      (r[i].deleteAt.Some? ==> r[i].deleteAt.value == now + DAYS_BEFORE_DELETION * SECONDS_PER_DAY)
  {
    seq(|favorites|, i requires 0 <= i < |favorites| => Marked(favorites[i], now))
  }

  predicate AnyDueForMarking(favorites: seq<Favorite>, now: int) {
    exists i :: 0 <= i < |favorites| && DueForMarking(favorites[i], now)
  }

  /** The backup is sent exactly when the sweep changes something. */
  lemma SweepChangesIffSomeEntryIsDue(favorites: seq<Favorite>, now: int)
    ensures Swept(favorites, now) != favorites <==> AnyDueForMarking(favorites, now)
  {
    var r := Swept(favorites, now);
    if AnyDueForMarking(favorites, now) {
      var i :| 0 <= i < |favorites| && DueForMarking(favorites[i], now);
      assert r[i].deleteAt != favorites[i].deleteAt;
    } else {
      assert forall i :: 0 <= i < |r| ==> r[i] == favorites[i];
    }
  }

  /** A second sweep at the same instant changes nothing. */
  lemma SweepIsIdempotent(favorites: seq<Favorite>, now: int)
    ensures Swept(Swept(favorites, now), now) == Swept(favorites, now)
  {
    var r := Swept(favorites, now);
    assert forall i :: 0 <= i < |r| ==> Swept(r, now)[i] == r[i];
  }

  /** Nothing is ever purged: an entry whose deletion date has passed is
      kept, unchanged, at its position. */
  lemma ExpiredEntriesAreKept(favorites: seq<Favorite>, now: int, i: int)
    requires 0 <= i < |favorites|
    requires favorites[i].deleteAt.Some? && favorites[i].deleteAt.value <= now
    ensures |Swept(favorites, now)| == |favorites| && Swept(favorites, now)[i] == favorites[i]
  {
  }

  lemma SweptKeepsUrlsDistinct(favorites: seq<Favorite>, now: int)
    requires UrlsDistinct(favorites)
    ensures UrlsDistinct(Swept(favorites, now))
  {
  }

  // ------------------------------------------------------ search, pagination

  /** The search callback: the query occurs, ignoring case, in the title, in
      the url or in the timestamp as `stamp` formats it ('Y-m-d H:i:s'). */
  predicate Matches(f: Favorite, query: string, stamp: int -> string) {
    StrIPos(f.title, query).Some? || StrIPos(f.url, query).Some? || StrIPos(stamp(f.timestamp), query).Some?
  }

  /** The search filter: an empty query keeps the list; any other keeps, in
      order, exactly the entries it matches. */
  function Search(favorites: seq<Favorite>, query: string, stamp: int -> string): (r: seq<Favorite>)
    ensures query == "" ==> r == favorites
    ensures query != "" ==> forall f :: f in r <==> f in favorites && Matches(f, query, stamp)
    ensures IsSubsequence(r, favorites)
  {
    if query == "" then
      IsSubsequenceReflexive(favorites);
      favorites
    else
      var matching := (f: Favorite) => Matches(f, query, stamp);
      FilterIsSubsequence(favorites, matching);
      Filter(favorites, matching)
  }

  /** A search keeps every matching entry as many times as the list holds
      it, and no other entry. */
  lemma SearchKeepsCopies(favorites: seq<Favorite>, query: string, stamp: int -> string)
    requires query != ""
    ensures forall f :: multiset(Search(favorites, query, stamp))[f] ==
                        if Matches(f, query, stamp) then multiset(favorites)[f] else 0
  {
    var r := Filter(favorites, (f: Favorite) => Matches(f, query, stamp));
    FilterCounts(favorites, (f: Favorite) => Matches(f, query, stamp));
    assert Search(favorites, query, stamp) == r;
  }

  function Min(a: int, b: int): int {
    if a <= b then a else b
  }

  function Max(a: int, b: int): int {
    if a >= b then a else b
  }

  /** `ceil(count / MAX_LINKS_PER_PAGE)`: the fewest pages that hold every
      entry, and 0 for an empty list. */
  function TotalPages(count: nat): (t: nat)
    ensures t * MAX_LINKS_PER_PAGE >= count
    ensures t == 0 || (t - 1) * MAX_LINKS_PER_PAGE < count
  {
    (count + MAX_LINKS_PER_PAGE - 1) / MAX_LINKS_PER_PAGE
  }

  /** `max(1, min(total_pages, page))`: the requested page clamped. */
  function CurrentPage(totalPages: nat, requested: int): (p: int)
    ensures p >= 1
    ensures totalPages >= 1 ==> p <= totalPages
    ensures 1 <= requested <= totalPages ==> p == requested
    ensures requested < 1 ==> p == 1
    ensures totalPages >= 1 && requested > totalPages ==> p == totalPages
    ensures totalPages == 0 ==> p == 1
  {
    Max(1, Min(totalPages, requested))
  }

  /** `array_slice(s, offset, length)` for a non-negative offset and length. */
  function Slice<T>(s: seq<T>, offset: nat, length: nat): (r: seq<T>)
    ensures |r| <= length && (r == [] || offset + |r| <= |s|)
    ensures |r| == if offset >= |s| then 0 else Min(length, |s| - offset)
    ensures forall k :: 0 <= k < |r| ==> r[k] == s[offset + k]
  {
    if offset >= |s| then [] else s[offset..Min(offset + length, |s|)]
  }

  datatype Page = Page(links: seq<Favorite>, currentPage: int, totalPages: nat)

  /** The pagination block: the clamped page and the entries shown on it. */
  function Paginate(favorites: seq<Favorite>, requested: int): (pg: Page)
    ensures pg.totalPages == TotalPages(|favorites|)
    ensures pg.currentPage == CurrentPage(pg.totalPages, requested)
    ensures |pg.links| <= MAX_LINKS_PER_PAGE
    ensures |pg.links| == Min(MAX_LINKS_PER_PAGE, |favorites| - (pg.currentPage - 1) * MAX_LINKS_PER_PAGE)
    ensures favorites != [] ==> pg.links != []
    ensures pg.links == [] || (pg.currentPage - 1) * MAX_LINKS_PER_PAGE + |pg.links| <= |favorites|
    ensures forall k :: 0 <= k < |pg.links| ==>
      pg.links[k] == favorites[(pg.currentPage - 1) * MAX_LINKS_PER_PAGE + k]
  {
    var total := TotalPages(|favorites|);
    var current := CurrentPage(total, requested);
    var offset := (current - 1) * MAX_LINKS_PER_PAGE;
    Page(Slice(favorites, offset, MAX_LINKS_PER_PAGE), current, total)
  }

  /** Every entry is shown: entry `i` is item `i % 25` of page `i / 25 + 1`. */
  lemma EveryEntryIsOnItsPage(favorites: seq<Favorite>, i: int)
    requires 0 <= i < |favorites|
    ensures var pg := Paginate(favorites, i / MAX_LINKS_PER_PAGE + 1);
      pg.currentPage == i / MAX_LINKS_PER_PAGE + 1 &&
      i % MAX_LINKS_PER_PAGE < |pg.links| && pg.links[i % MAX_LINKS_PER_PAGE] == favorites[i]
  {
    var p := i / MAX_LINKS_PER_PAGE + 1;
    var total := TotalPages(|favorites|);
    assert p <= total;
    var pg := Paginate(favorites, p);
    assert pg.currentPage == p;
    assert (p - 1) * MAX_LINKS_PER_PAGE + i % MAX_LINKS_PER_PAGE == i;
  }

  // ------------------------------------------------------------ rate limiter

  /** The per-client record kept in the rate-limit file. */
  datatype RateRecord = RateRecord(requests: int, timestamp: int)

  /** One pass of the rate-limit block for a client whose file holds
      `stored` (None: no file yet). Returns whether the request may proceed
      and the record the file holds afterwards: a refused request does not
      rewrite the file. */
  function Admit(stored: Option<RateRecord>, now: int): (res: (bool, RateRecord))
    ensures res.0 <==>
      stored.None? || now - stored.value.timestamp >= RATE_WINDOW || stored.value.requests < MAX_REQUESTS_PER_MINUTE
    ensures res.0 ==> res.1.requests <= MAX_REQUESTS_PER_MINUTE
    ensures res.0 ==>
      (res.1 == if stored.Some? && now - stored.value.timestamp < RATE_WINDOW
                then RateRecord(stored.value.requests + 1, stored.value.timestamp)
                else RateRecord(1, now))
    ensures !res.0 ==> stored == Some(res.1)
  {
    var r := stored.GetOr(RateRecord(0, now));
    if now - r.timestamp < RATE_WINDOW then
      if r.requests + 1 > MAX_REQUESTS_PER_MINUTE then (false, r)
      else (true, RateRecord(r.requests + 1, r.timestamp))
    else (true, RateRecord(1, now))
  }

  /** The answers to a client's requests at the given times, starting from
      the record `stored`. */
  function Admissions(stored: Option<RateRecord>, times: seq<int>): (r: seq<bool>)
    ensures |r| == |times|
    decreases |times|
  {
    if times == [] then []
    else
      var (allowed, kept) := Admit(stored, times[0]);
      [allowed] + Admissions(Some(kept), times[1..])
  }

  /** Within one window, request `k` is allowed exactly when fewer than the
      maximum were counted before it. */
  lemma {:induction false} WindowAdmitsUpToMaximum(count: int, start: int, times: seq<int>)
    requires forall k :: 0 <= k < |times| ==> times[k] - start < RATE_WINDOW
    ensures forall k :: 0 <= k < |times| ==>
      Admissions(Some(RateRecord(count, start)), times)[k] == (count + k < MAX_REQUESTS_PER_MINUTE)
    decreases |times|
  {
    if times != [] {
      var (allowed, kept) := Admit(Some(RateRecord(count, start)), times[0]);
      var next := if allowed then count + 1 else count;
      assert kept == RateRecord(next, start);
      WindowAdmitsUpToMaximum(next, start, times[1..]);
      var all := Admissions(Some(RateRecord(count, start)), times);
      assert all == [allowed] + Admissions(Some(kept), times[1..]);
      forall k | 1 <= k < |times|
        ensures all[k] == (count + k < MAX_REQUESTS_PER_MINUTE)
      {
        assert all[k] == Admissions(Some(kept), times[1..])[k - 1];
        assert times[1..][k - 1] == times[k];
      }
    }
  }

  /** A client without a record gets its first 50 requests of a minute and
      is refused from the 51st on. */
  lemma FreshClientGetsMaximumPerWindow(times: seq<int>)
    requires times != []
    requires forall k :: 0 <= k < |times| ==> times[k] - times[0] < RATE_WINDOW
    ensures forall k :: 0 <= k < |times| ==> Admissions(None, times)[k] == (k < MAX_REQUESTS_PER_MINUTE)
  {
    var all := Admissions(None, times);
    assert Admit(None, times[0]) == (true, RateRecord(1, times[0]));
    WindowAdmitsUpToMaximum(1, times[0], times[1..]);
    forall k | 1 <= k < |times|
      ensures all[k] == (k < MAX_REQUESTS_PER_MINUTE)
    {
      assert all[k] == Admissions(Some(RateRecord(1, times[0])), times[1..])[k - 1];
    }
  }

  /** However many requests a window counted, or refused, the first request
      at least RATE_WINDOW seconds after the window started is allowed. */
  lemma {:induction false} WindowResetsAfterAMinute(count: int, start: int, times: seq<int>, t: int)
    requires forall k :: 0 <= k < |times| ==> times[k] - start < RATE_WINDOW
    requires t - start >= RATE_WINDOW
    ensures Admissions(Some(RateRecord(count, start)), times + [t])[|times|]
    decreases |times|
  {
    if times != [] {
      var (allowed, kept) := Admit(Some(RateRecord(count, start)), times[0]);
      var next := if allowed then count + 1 else count;
      assert kept == RateRecord(next, start);
      WindowResetsAfterAMinute(next, start, times[1..], t);
      assert (times + [t])[1..] == times[1..] + [t];
      assert Admissions(Some(RateRecord(count, start)), times + [t])
          == [allowed] + Admissions(Some(kept), times[1..] + [t]);
    }
  }

  /** A new client is allowed again once RATE_WINDOW seconds have passed
      since its first request, whatever happened in between. */
  lemma FreshClientIsAllowedAfterAMinute(times: seq<int>, t: int)
    requires times != []
    requires forall k :: 0 <= k < |times| ==> times[k] - times[0] < RATE_WINDOW
    requires t - times[0] >= RATE_WINDOW
    ensures Admissions(None, times + [t])[|times|]
  {
    assert Admit(None, times[0]) == (true, RateRecord(1, times[0]));
    assert (times + [t])[1..] == times[1..] + [t];
    assert Admissions(None, times + [t]) == [true] + Admissions(Some(RateRecord(1, times[0])), times[1..] + [t]);
    WindowResetsAfterAMinute(1, times[0], times[1..], t);
  }

  /** The window does not slide: the 50th request of a window does not
      move its start, so a request 100 s after the start is allowed. */
  lemma WindowDoesNotSlide()
    ensures Admissions(Some(RateRecord(49, 0)), [50, 100]) == [true, true]
  {
    assert Admit(Some(RateRecord(49, 0)), 50) == (true, RateRecord(50, 0));
    assert [50, 100][1..] == [100];
  }

  /** Once the window has run out, a record acts as no record at all, which
      is why deleting stale rate-limit files changes no answer. */
  lemma ExpiredRecordActsAsAbsent(r: RateRecord, now: int)
    requires now - r.timestamp >= RATE_WINDOW
    ensures Admit(Some(r), now) == Admit(None, now) == (true, RateRecord(1, now))
  {
  }
}
