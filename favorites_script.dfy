/** The favourites script (favorites.php) as one object holding what it
    keeps between requests: the favourites file, its cache file, the
    per-client rate-limit files and the intruder log, plus the backups it
    mails. One method per step of a request, and one for the whole request
    in the order the script runs its steps. Each locked read-modify-write is
    one atomic method. */
module FavoritesScript {
  import opened Seqs
  import opened Text
  import opened Favorites

  /** The cache file: a copy of the favourites and when it was written. */
  datatype CacheEntry = CacheEntry(snapshot: seq<Favorite>, writtenAt: int)

  /** One record of the intruder log. */
  datatype Intrusion = Intrusion(
    timestamp: int, sessionId: string, ipAddress: string,
    usedSecret: string, submittedTitle: string, submittedUrl: string)

  /** The query parameters of a request (None: absent) and who sent it. */
  datatype Request = Request(
    secret: Option<string>, sort: Option<string>, backup: Option<string>,
    delete: Option<string>, search: Option<string>, page: Option<int>,
    url: Option<string>, title: Option<string>,
    sessionId: string, ipAddress: string)

  /** Library behaviour the script relies on and this model leaves
      abstract: URL validation (`FILTER_VALIDATE_URL`), the cleaning of a
      submitted title (`FILTER_SANITIZE_STRING`, then `htmlspecialchars`
      twice) and the 'Y-m-d H:i:s' rendering of a time. */
  datatype Library = Library(isValidUrl: string -> bool, cleanTitle: string -> string, stamp: int -> string)

  /** How a request ends. */
  datatype Outcome =
    | Unauthorized
    | Added
    | AddRefused(message: string)
    | AddInvalid
    | TooManyRequests
    | Listing(page: Page, total: nat)

  /** PHP truthiness of a string: neither "" nor "0". */
  predicate Truthy(s: string) {
    s != "" && s != "0"
  }

  function Oriented(favorites: seq<Favorite>, reverse: bool): seq<Favorite> {
    if reverse then Reverse(favorites) else favorites
  }

  function AttemptOf(req: Request, now: int): Intrusion {
    Intrusion(now, req.sessionId, req.ipAddress, req.secret.GetOr(""), req.title.GetOr(""), req.url.GetOr(""))
  }

  function StoredRecord(records: map<string, RateRecord>, ip: string): Option<RateRecord> {
    if ip in records then Some(records[ip]) else None
  }

  // The working list of a request after each step, given the favourites
  // file at its start.

  /** The default sort, 'desc', shows the newest first by reversing the list. */
  predicate NewestFirst(req: Request) {
    req.sort.GetOr("desc") == "desc"
  }

  function Loaded(file: seq<Favorite>, req: Request): seq<Favorite> {
    Oriented(file, NewestFirst(req))
  }

  predicate DeletesUrl(req: Request, lib: Library) {
    req.delete.Some? && lib.isValidUrl(req.delete.value)
  }

  function AfterDelete(favorites: seq<Favorite>, req: Request, lib: Library): seq<Favorite> {
    if DeletesUrl(req, lib) then DeleteFavoriteByUrl(favorites, req.delete.value) else favorites
  }

  /** What the file holds after the sweep and any deletion. */
  function Kept(file: seq<Favorite>, req: Request, lib: Library, now: int): seq<Favorite> {
    AfterDelete(Swept(Loaded(file, req), now), req, lib)
  }

  /** The working list the page and an addition see: Kept, filtered by
      the search query. */
  function Shown(file: seq<Favorite>, req: Request, lib: Library, now: int): seq<Favorite> {
    Search(Kept(file, req, lib, now), req.search.GetOr(""), lib.stamp)
  }

  predicate IsAddRequest(req: Request) {
    req.url.Some? && req.title.Some?
  }

  /** The validity test of the add branch on the url and the cleaned title. */
  predicate AddIsValid(req: Request, lib: Library)
    requires IsAddRequest(req)
  {
    var url := req.url.value;
    var title := lib.cleanTitle(req.title.value);
    lib.isValidUrl(url) && Truthy(url) && |url| <= MAX_URL_LENGTH && Truthy(title) && |title| <= MAX_TITLE_LENGTH
  }

  /** A request with the default sort that deletes nothing and finds
      nothing due writes the file back reversed: the stored order flips
      with every such request. */
  lemma DefaultListingStoresReversedFile(file: seq<Favorite>, req: Request, lib: Library, now: int)
    requires NewestFirst(req) && !DeletesUrl(req, lib)
    requires !AnyDueForMarking(Reverse(file), now)
    ensures Kept(file, req, lib, now) == Reverse(file)
  {
    SweepChangesIffSomeEntryIsDue(Reverse(file), now);
  }

  /** Two such requests in a row restore the stored order. */
  lemma TwoDefaultListingsRestoreTheFile(file: seq<Favorite>, req: Request, lib: Library, now: int)
    requires NewestFirst(req) && !DeletesUrl(req, lib)
    requires !AnyDueForMarking(Reverse(file), now) && !AnyDueForMarking(file, now)
    ensures Kept(Kept(file, req, lib, now), req, lib, now) == file
  {
    DefaultListingStoresReversedFile(file, req, lib, now);
    ReverseInvolution(file);
    DefaultListingStoresReversedFile(Reverse(file), req, lib, now);
  }

  /** An addition made while a search query is given stores only the
      entries that match the query, plus the new one: every other entry of
      the file is lost. */
  lemma AddDuringSearchDropsNonMatches(file: seq<Favorite>, req: Request, lib: Library, now: int, f: Favorite)
    requires req.search.Some? && req.search.value != ""
    requires f in Kept(file, req, lib, now) && !Matches(f, req.search.value, lib.stamp)
    requires IsAddRequest(req) && f.url != req.url.value
    ensures f !in Shown(file, req, lib, now) + [Favorite(now, lib.cleanTitle(req.title.value), req.url.value, None)]
  {
  }

  class Tracker {
    var file: seq<Favorite>
    var cache: Option<CacheEntry>
    var rateLimits: map<string, RateRecord>
    var intruders: seq<Intrusion>
    /** The backup mails sent, each with the favourites file it attached. */
    var backups: seq<seq<Favorite>>
    /** CACHE_TIME, in seconds. */
    const cacheTime: int

    /** What every request preserves: the file never holds two entries
        with the same url, the cache never disagrees with the file, and no
        stored request count exceeds the maximum. */
    ghost predicate Valid()
      reads this
    {
      && UrlsDistinct(file)
      && (cache.Some? ==> cache.value.snapshot == file)
      && forall ip :: ip in rateLimits ==> rateLimits[ip].requests <= MAX_REQUESTS_PER_MINUTE
    }

    /** A fresh installation: an empty favourites file and intruder log
        (create_file_if_not_exists), no cache and no rate-limit files. */
    constructor (cacheTime: int)
      ensures Valid()
      ensures file == [] && cache == None && rateLimits == map[] && intruders == [] && backups == []
      ensures this.cacheTime == cacheTime
    {
      file := [];
      cache := None;
      rateLimits := map[];
      intruders := [];
      backups := [];
      this.cacheTime := cacheTime;
    }

    /** The secret check: a missing or wrong secret appends one record to
        the intruder log and ends the request. */
    method CheckSecret(req: Request, now: int) returns (ok: bool)
      modifies this`intruders
      ensures ok <==> req.secret == Some(SECRET_VALUE)
      ensures intruders == if ok then old(intruders) else old(intruders) + [AttemptOf(req, now)]
    {
      if req.secret.None? || req.secret.value != SECRET_VALUE {
        intruders := intruders + [AttemptOf(req, now)];
        return false;
      }
      return true;
    }

    /** read_favorites: serves the cache while it is younger than
        CACHE_TIME, otherwise reads the file and rewrites the cache; the
        result is reversed on request. While the cache agrees with the file
        the result is the file's. */
    method ReadFavorites(now: int, reverse: bool) returns (favorites: seq<Favorite>)
      modifies this`cache
      ensures var hit := old(cache).Some? && now - old(cache).value.writtenAt < cacheTime;
        && cache == (if hit then old(cache) else Some(CacheEntry(file, now)))
        && favorites == Oriented(if hit then old(cache).value.snapshot else file, reverse)
      ensures old(Valid()) ==> Valid() && favorites == Oriented(file, reverse)
    {
      if cache.Some? && now - cache.value.writtenAt < cacheTime {
        favorites := cache.value.snapshot;
      } else {
        favorites := file;
        cache := Some(CacheEntry(file, now));
      }
      if reverse {
        favorites := Reverse(favorites);
      }
    }

    /** cleanup_old_data: marks every due entry, mails one backup of the
        file as it was when at least one entry was newly marked, and writes
        the list, in the order it was given, to the file and the cache. */
    method CleanupOldData(favorites: seq<Favorite>, now: int) returns (favorites': seq<Favorite>)
      modifies this`file, this`cache, this`backups
      ensures favorites' == Swept(favorites, now)
      ensures file == favorites' && cache == Some(CacheEntry(favorites', now))
      ensures backups == old(backups) + (if AnyDueForMarking(favorites, now) then [old(file)] else [])
    {
      var list := favorites;
      var sendEmail := false;
      var i := 0;
      while i < |list|
        invariant 0 <= i <= |list| == |favorites|
        invariant forall j :: 0 <= j < i ==> list[j] == Marked(favorites[j], now)
        invariant forall j :: i <= j < |list| ==> list[j] == favorites[j]
        invariant sendEmail <==> exists j :: 0 <= j < i && DueForMarking(favorites[j], now)
      {
        var f := list[i];
        if AgeInDays(now, f.timestamp) > MAX_DAYS_TO_KEEP && f.deleteAt.None? {
          list := list[i := f.(deleteAt := Some(now + DAYS_BEFORE_DELETION * SECONDS_PER_DAY))];
          sendEmail := true;
        }
        // The purge branch unsets only the loop's reference: the entry stays.
        i := i + 1;
      }
      if sendEmail {
        backups := backups + [file];
      }
      // The callback-less array_filter drops only falsy elements: none here.
      file := list;
      cache := Some(CacheEntry(list, now));
      favorites' := list;
    }

    /** The manual backup: mails the favourites file as it is now. */
    method SendBackup()
      modifies this`backups
      ensures backups == old(backups) + [file]
    {
      backups := backups + [file];
    }

    /** The locked deletion: removes every entry with the url and writes the
        rest to the file and the cache. */
    method DeleteLocked(favorites: seq<Favorite>, url: string, now: int) returns (favorites': seq<Favorite>)
      modifies this`file, this`cache
      ensures favorites' == DeleteFavoriteByUrl(favorites, url)
      ensures file == favorites' && cache == Some(CacheEntry(favorites', now))
    {
      favorites' := DeleteFavoriteByUrl(favorites, url);
      file := favorites';
      cache := Some(CacheEntry(favorites', now));
    }

    /** The locked addition: add_favorite against the configured blacklist;
        only a successful addition is written to the file and the cache. */
    method AddLocked(favorites: seq<Favorite>, url: string, title: string, now: int)
      returns (error: string, favorites': seq<Favorite>)
      modifies this`file, this`cache
      ensures error == "" <==> !IsBlacklisted(url, BLACKLIST) && !HasUrl(favorites, url)
      ensures error != "" ==>
        error == (if IsBlacklisted(url, BLACKLIST) then BLACKLISTED_MESSAGE else DUPLICATE_MESSAGE) &&
        favorites' == favorites && file == old(file) && cache == old(cache)
      ensures error == "" ==>
        favorites' == favorites + [Favorite(now, title, url, None)] &&
        file == favorites' && cache == Some(CacheEntry(favorites', now))
      ensures UrlsDistinct(favorites) ==> UrlsDistinct(favorites')
    {
      error, favorites' := AddFavorite(favorites, url, title, BLACKLIST, now);
      if error == "" {
        file := favorites';
        cache := Some(CacheEntry(favorites', now));
      }
    }

    /** The add branch on the working list `favorites`: an invalid url or
        title is refused without a lock; a valid one is added as
        add_favorite decides, blacklist first, and only a successful
        addition is written. */
    method SubmitFavorite(req: Request, lib: Library, favorites: seq<Favorite>, now: int) returns (out: Outcome)
      requires IsAddRequest(req)
      modifies this`file, this`cache
      ensures out == AddInvalid <==> !AddIsValid(req, lib)
      ensures out == Added <==>
        AddIsValid(req, lib) && !IsBlacklisted(req.url.value, BLACKLIST) && !HasUrl(favorites, req.url.value)
      ensures out == AddRefused(BLACKLISTED_MESSAGE) <==> AddIsValid(req, lib) && IsBlacklisted(req.url.value, BLACKLIST)
      ensures out.Added? || out == AddInvalid || out == AddRefused(BLACKLISTED_MESSAGE) || out == AddRefused(DUPLICATE_MESSAGE)
      ensures out.Added? ==>
        && file == favorites + [Favorite(now, lib.cleanTitle(req.title.value), req.url.value, None)]
        && cache == Some(CacheEntry(file, now))
        && (UrlsDistinct(favorites) ==> UrlsDistinct(file))
      ensures !out.Added? ==> file == old(file) && cache == old(cache)
    {
      var url := req.url.value;
      var title := lib.cleanTitle(req.title.value);
      if lib.isValidUrl(url) && Truthy(url) && |url| <= MAX_URL_LENGTH && Truthy(title) && |title| <= MAX_TITLE_LENGTH {
        var error, favorites' := AddLocked(favorites, url, title, now);
        if error == "" {
          return Added;
        }
        return AddRefused(error);
      }
      return AddInvalid;
    }

    /** The rate-limit block for one client: Admit on its stored record; an
        allowed request rewrites the record, a refused one leaves it. */
    method CheckRateLimit(ip: string, now: int) returns (allowed: bool)
      modifies this`rateLimits
      ensures var res := Admit(StoredRecord(old(rateLimits), ip), now);
        allowed == res.0 && rateLimits == if allowed then old(rateLimits)[ip := res.1] else old(rateLimits)
    {
      var record := if ip in rateLimits then rateLimits[ip] else RateRecord(0, now);
      if now - record.timestamp < RATE_WINDOW {
        record := record.(requests := record.requests + 1);
        if record.requests > MAX_REQUESTS_PER_MINUTE {
          return false;
        }
      } else {
        record := RateRecord(1, now);
      }
      rateLimits := rateLimits[ip := record];
      return true;
    }

    /** The steps between the secret check and the page: load the list
        (newest first unless another sort is asked for), sweep it, mail a
        requested backup, apply a requested deletion, and filter the
        working list by the search query. The file then holds the swept
        list less the deletion, never the filtered one. */
    method PrepareList(req: Request, lib: Library, now: int) returns (favorites: seq<Favorite>)
      requires Valid()
      modifies this`file, this`cache, this`backups
      ensures Valid() && rateLimits == old(rateLimits)
      ensures file == Kept(old(file), req, lib, now)
      ensures favorites == Shown(old(file), req, lib, now)
      ensures UrlsDistinct(favorites)
      ensures backups == old(backups)
        + (if AnyDueForMarking(Loaded(old(file), req), now) then [old(file)] else [])
        + (if req.backup == Some("true") then [Swept(Loaded(old(file), req), now)] else [])
    {
      ghost var file0 := file;
      favorites := ReadFavorites(now, NewestFirst(req));
      ReverseKeepsUrlsDistinct(file0);
      favorites := CleanupOldData(favorites, now);
      SweptKeepsUrlsDistinct(Loaded(file0, req), now);
      if req.backup == Some("true") {
        SendBackup();
      }
      if DeletesUrl(req, lib) {
        favorites := DeleteLocked(favorites, req.delete.value, now);
        SubsequenceKeepsUrlsDistinct(favorites, Swept(Loaded(file0, req), now));
      }
      ghost var kept := favorites;
      // An empty query leaves the list as it is.
      favorites := Search(favorites, req.search.GetOr(""), lib.stamp);
      SubsequenceKeepsUrlsDistinct(favorites, kept);
    }

    /** One request, in the script's order. A wrong secret is only logged.
        Otherwise the list is prepared (PrepareList) and the page computed;
        then an addition is handled against the FILTERED list without
        consulting the rate limiter, or the rate limiter is consulted and
        the page shown. */
    method HandleRequest(req: Request, lib: Library, now: int) returns (out: Outcome)
      requires Valid()
      modifies this
      ensures Valid()
      ensures req.secret != Some(SECRET_VALUE) ==>
        && out == Unauthorized
        && intruders == old(intruders) + [AttemptOf(req, now)]
        && file == old(file) && cache == old(cache)
        && rateLimits == old(rateLimits) && backups == old(backups)
      ensures req.secret == Some(SECRET_VALUE) ==>
        && intruders == old(intruders)
        && backups == old(backups)
             + (if AnyDueForMarking(Loaded(old(file), req), now) then [old(file)] else [])
             + (if req.backup == Some("true") then [Swept(Loaded(old(file), req), now)] else [])
      ensures req.secret == Some(SECRET_VALUE) && IsAddRequest(req) ==>
        var shown := Shown(old(file), req, lib, now);
        && rateLimits == old(rateLimits)
        && (out == AddInvalid <==> !AddIsValid(req, lib))
        && (out == Added <==>
              AddIsValid(req, lib) && !IsBlacklisted(req.url.value, BLACKLIST) && !HasUrl(shown, req.url.value))
        && (out == AddRefused(BLACKLISTED_MESSAGE) <==> AddIsValid(req, lib) && IsBlacklisted(req.url.value, BLACKLIST))
        && (out.Added? || out == AddInvalid || out == AddRefused(BLACKLISTED_MESSAGE) || out == AddRefused(DUPLICATE_MESSAGE))
        && file == (if out.Added?
                    then shown + [Favorite(now, lib.cleanTitle(req.title.value), req.url.value, None)]
                    else Kept(old(file), req, lib, now))
      ensures req.secret == Some(SECRET_VALUE) && !IsAddRequest(req) ==>
        var shown := Shown(old(file), req, lib, now);
        var res := Admit(StoredRecord(old(rateLimits), req.ipAddress), now);
        && file == Kept(old(file), req, lib, now)
        && rateLimits == (if res.0 then old(rateLimits)[req.ipAddress := res.1] else old(rateLimits))
        && out == (if res.0 then Listing(Paginate(shown, req.page.GetOr(1)), |shown|) else TooManyRequests)
    {
      var ok := CheckSecret(req, now);
      if !ok {
        return Unauthorized;
      }
      var favorites := PrepareList(req, lib, now);
      var page := Paginate(favorites, req.page.GetOr(1));
      if req.url.Some? && req.title.Some? {
        out := SubmitFavorite(req, lib, favorites, now);
        return;
      }
      var allowed := CheckRateLimit(req.ipAddress, now);
      if !allowed {
        return TooManyRequests;
      }
      return Listing(page, |favorites|);
    }
  }
}
