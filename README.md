# WebTracker favourites store and download proxy, in Dafny

WebTracker is a small PHP bookmarklet service. `favorites.php` keeps a list
of saved links in a JSON file and answers each request from that file. It
first turns away, without logging, any request not made over HTTPS
(favorites.php:51-54); the model starts after that gate. The steps then run
in this order:

1. check the secret; a wrong one is appended to an intruder log;
2. load the list through a time-limited cache, reversed for the default
   newest-first sort;
3. run a retention sweep that marks links older than a year for deletion,
   mailing a backup of the file as it was only when a link was newly
   marked;
4. mail a backup of the swept list when the request asks for one
   (`backup=true`);
5. apply a requested deletion;
6. filter by a search query and cut out one page;
7. either add a submitted link (refusing blacklisted hosts and duplicates),
   or consult a per-client 60-second rate limiter and show the page.

`proxy.php` serves four named files to a caller who knows the secret. It
sits behind a per-session limit of 10 requests per 120-second window and
logs every refusal.

The model is in five files:

- `seqs.dfy` (`Seqs`): an option type, the order-preserving filter behind
  `array_filter`, `array_reverse`, and the subsequence relation.
- `text.dfy` (`Text`): the string functions the blacklist and search need.
  These are ASCII case folding, `stripos`, `trim` with PHP's default
  character set, and the host that `parse_url` finds in an absolute URL.
- `favorites.dfy` (`Favorites`): the configuration values and a saved link.
  It also holds the pure logic:
  - the blacklist test;
  - `add_favorite`, as a method with its duplicate-scan loop;
  - deletion by URL and the retention marks;
  - the search filter and the pagination arithmetic;
  - one step of the rate limiter.
- `favorites_script.dfy` (`FavoritesScript`): the class `Tracker`. Its
  fields are the state the script keeps between requests: the favourites
  file, the cache file, the rate-limit files by client address, the
  intruder log, and the backups mailed. It has one method per step of a
  request and `HandleRequest` for the whole request. Each locked
  read-modify-write is one method.
- `proxy.dfy` (`Proxy`): the file allow-list, the session rate limiter as a
  function with a step-by-step method proved against it, and the ordered
  request checks 405, 429, 403, 404 in the class `Endpoint`.

Time is whole seconds. A link's age in days is `|now - t| / 86400`, as
`DateInterval::days` counts it.

The model follows the code, not the comments, in these places:

- **Nothing is ever purged.** `unset($favorite)` only drops the loop's
  reference, and the callback-less `array_filter` drops only falsy
  elements, so a marked link stays in the file after its deletion date
  (`Favorites.ExpiredEntriesAreKept`). The comments "Delete if delete_at
  date is reached" (favorites.php:172) and "Remove null entries from array"
  (favorites.php:186) describe a purge that never happens.
- **The reversed list is written back.** The default sort loads the list
  reversed, and the sweep writes that list to the file. The stored order
  therefore flips with every such request
  (`FavoritesScript.DefaultListingStoresReversedFile`,
  `FavoritesScript.TwoDefaultListingsRestoreTheFile`).
- **An addition made while searching loses data.** The search filter
  replaces the working list before the addition runs, and the addition
  writes that list back. So the file then keeps only the links matching
  the query, plus the new one (`FavoritesScript.AddDuringSearchDropsNonMatches`).
  The duplicate check also sees only the matching links.
- **Additions are never rate-limited.** The add branch exits before the
  rate limiter runs.
- **Zero pages for an empty list.** The page count is `ceil(n / 25)`,
  which is 0 for an empty list, while `max(1, ...)` still makes the
  current page 1 (`Favorites.CurrentPage`).
- **The cache test is strict.** The cache is fresh while its age is
  strictly less than `CACHE_TIME`; at exactly `CACHE_TIME` seconds the
  file is read again.
- **The host of a URL follows `parse_url`'s rules.** The scheme ends at
  the first ':', and a host exists only when "//" follows it; the port is
  cut at the last ':' of the authority. So `mailto:a?b://google.com` has
  no host and is never blacklisted (`Favorites.MailtoIsNotBlacklisted`),
  and the host of `ftp://x:google.com:21/` is `x:google.com`
  (`Text.PortIsCutAtLastColon`).
- **The sweep's backup is the file before the sweep.** The backup mailed
  by the sweep attaches the file as it was before the sweep rewrote it. A
  manual backup attaches the swept file.

## Model

| member | source | states |
|---|---|---|
| Seqs.Filter | favorites.php:151-153 | `array_filter` with a callback: at most as many items, exactly the items of the input that satisfy the callback, each satisfying it |
| Seqs.FilterCounts | favorites.php:151-153 | each item that satisfies the callback is kept as many times as the input holds it; no other item is kept |
| Seqs.FilterIsSubsequence | favorites.php:151-153 | the filter keeps the input's order |
| Seqs.Reverse | favorites.php:127 | `array_reverse`: same length, item i is the input's item n-1-i |
| Seqs.ReverseInvolution | favorites.php:127 | reversing twice gives the input back |
| Text.AfterLast | proxy.php:106 | `basename` for names without a trailing '/': the suffix after the last '/', holding no '/'; the whole name when it has none |
| Text.StrIPos | favorites.php:293 | found iff the lowered needle occurs in the lowered haystack, and the position returned is the first occurrence; an empty needle is found |
| Text.Trim | favorites.php:293 | the result is the input less a leading and a trailing run of PHP whitespace, neither of its ends is whitespace, and it is empty iff the input is all whitespace |
| Text.AuthorityStart | favorites.php:287 | the authority starts just after "://" exactly when the URL's first ':' is followed by "//"; otherwise there is none |
| Text.HostRange | favorites.php:287-291 | within the authority, the host starts right after the last '@' (at the start when there is none) and ends at the last ':' (at the end when there is none) |
| Text.LayoutIsComputed | favorites.php:287-291 | a URL has at most one layout: scheme separator at the first ':', authority up to the first '/', '?' or '#', host after the authority's last '@' and up to its last ':' |
| Text.HostLayoutExists | favorites.php:287-291 | every URL whose first ':' is followed by "//" has such a layout |
| Text.Host | favorites.php:287-291 | no host unless the first ':' is followed by "//"; otherwise the host is exactly the host range of the URL's layout, and none when that range is empty |
| Text.HostOfAuthority | favorites.php:287-291 | the host of scheme "://" [user "@"] host [":" port] rest is `host`: user information is skipped up to its last '@', and a ':' inside `host` stays when a port follows the last ':' |
| Text.UserInfoIsSkipped | favorites.php:287-291 | the host of `https://u:p@google.com/` is `google.com` |
| Text.ExampleHost | favorites.php:287-291 | the host of `https://MAPS.Google.com/x` is `MAPS.Google.com` |
| Text.PortIsCutAtLastColon | favorites.php:287-291 | the host of `ftp://x:google.com:21/` is `x:google.com` |
| Text.MailtoHasNoHost | favorites.php:287-290 | `mailto:a?b://google.com` has no host: its first ':' is not followed by "//" |
| Favorites.AnyDomainIn | favorites.php:292-297 | true iff some trimmed domain occurs in the host, ignoring case |
| Favorites.IsBlacklisted | favorites.php:286-298 | false for a URL without a host; otherwise true iff the host contains some trimmed listed domain, ignoring case |
| Favorites.BlankDomainBlocksEveryHost | favorites.php:292-294 | a blank entry in the list blacklists every URL that has a host |
| Favorites.MailtoIsNotBlacklisted | favorites.php:287-290 | a URL without a host, such as `mailto:a?b://google.com`, is not blacklisted |
| Favorites.BlacklistIgnoresCase | favorites.php:286-298 | `https://MAPS.Google.com/x` is blacklisted by the entry `google.com` |
| Favorites.AddFavorite | favorites.php:131-147 | blacklisted: that message, list unchanged; else an exactly equal url present: the duplicate message, list unchanged; else "" and exactly one entry (now, title, url, no deletion date) appended; the list changes iff the message is ""; distinct urls stay distinct |
| Favorites.DeleteFavoriteByUrl | favorites.php:150-154 | no entry has the url, every entry with another url is kept, nothing new appears, and the result is an order-preserving subsequence |
| Favorites.DeleteKeepsCopies | favorites.php:150-154 | every entry with another url is kept as many times as the list holds it |
| Favorites.DeleteIsIdempotent | favorites.php:150-154 | deleting the same url twice equals deleting it once |
| Favorites.DeleteOfAbsentUrlChangesNothing | favorites.php:150-154 | deleting a url no entry has returns the list unchanged |
| Favorites.SubsequenceKeepsUrlsDistinct | favorites.php:150-154 | deleting and filtering keep the urls pairwise distinct |
| Favorites.ReverseKeepsUrlsDistinct | favorites.php:127 | reversal keeps the urls pairwise distinct |
| Favorites.Swept | favorites.php:162-179 | same length and order, same time, title and url per entry; an existing deletion date is kept; a missing one is set, to now plus 7 days, iff the entry is more than 365 whole days old |
| Favorites.SweepChangesIffSomeEntryIsDue | favorites.php:162-184 | the sweep changes the list iff some entry was due, which is exactly when the backup is mailed |
| Favorites.SweepIsIdempotent | favorites.php:167 | a second sweep at the same time changes nothing: a date is set once |
| Favorites.ExpiredEntriesAreKept | favorites.php:172-178 | an entry whose deletion date has passed is still in the swept list, unchanged |
| Favorites.SweptKeepsUrlsDistinct | favorites.php:162-179 | the sweep keeps the urls pairwise distinct |
| Favorites.Search | favorites.php:339-346 | empty query: the list unchanged; otherwise exactly the entries whose title, url or formatted time contains the query ignoring case, in order |
| Favorites.SearchKeepsCopies | favorites.php:339-346 | a non-empty query keeps every matching entry as many times as the list holds it, and nothing else |
| Favorites.TotalPages | favorites.php:349 | the fewest pages of 25 that hold every entry (0 for none) |
| Favorites.CurrentPage | favorites.php:350 | at least 1, at most the page count when there are pages, and 1 when there are none; an in-range request is kept, others are clamped to the nearest end |
| Favorites.Slice | favorites.php:352 | exactly min(length, items after offset) items, none past the end, item k being the input's item offset+k |
| Favorites.Paginate | favorites.php:349-352 | page count and clamped page as above; exactly min(25, n - (page-1)*25) links, the contiguous run starting at (page-1)*25; a non-empty list shows a non-empty page |
| Favorites.EveryEntryIsOnItsPage | favorites.php:349-352 | entry i is item i mod 25 of page i div 25 + 1 |
| Favorites.Admit | favorites.php:389-403 | allowed iff there is no record, the window of 60 s has run out, or fewer than 50 requests were counted; an allowed request inside the window stores the count plus one with the window's start kept, any other allowed request stores (1, now); a refused one leaves the record as it was |
| Favorites.WindowAdmitsUpToMaximum | favorites.php:391-398 | within one window, the k-th further request is allowed iff count + k < 50 |
| Favorites.FreshClientGetsMaximumPerWindow | favorites.php:389-403 | a new client's requests within 60 s of its first: the first 50 are allowed, the rest refused |
| Favorites.WindowResetsAfterAMinute | favorites.php:391-401 | after any run of requests inside a window, the first request at least 60 s after the window's start is allowed |
| Favorites.FreshClientIsAllowedAfterAMinute | favorites.php:389-403 | a new client is allowed again 60 s after its first request, whatever happened in between |
| Favorites.WindowDoesNotSlide | favorites.php:391-401 | from a record of 49 requests started at 0, requests at 50 and 100 are both allowed: the window start does not move |
| Favorites.ExpiredRecordActsAsAbsent | favorites.php:399-402 | a record whose window ran out is treated as no record: the request is allowed with a fresh count of 1 |
| FavoritesScript.DefaultListingStoresReversedFile | favorites.php:301-305 | with the default sort, no deletion and nothing due, the file is written back reversed |
| FavoritesScript.TwoDefaultListingsRestoreTheFile | favorites.php:301-305 | two such requests restore the stored order |
| FavoritesScript.AddDuringSearchDropsNonMatches | favorites.php:339-369 | an addition made with a search query writes back no entry that fails to match the query |
| FavoritesScript.Tracker.constructor | favorites.php:104-106 | a fresh installation: empty favourites file and intruder log, no cache, no rate-limit files |
| FavoritesScript.Tracker.CheckSecret | favorites.php:261-275 | passes iff the secret is present and equal; otherwise appends exactly one intrusion record (time, session, address, submitted secret, title, url) |
| FavoritesScript.Tracker.ReadFavorites | favorites.php:118-128 | a cache younger than CACHE_TIME is served as is; otherwise the file is served and the cache rewritten; reversed on request; while the cache agrees with the file the result is the file's |
| FavoritesScript.Tracker.CleanupOldData | favorites.php:157-192 | returns the swept list, writes it to file and cache unconditionally, and mails one backup of the previous file iff an entry was newly marked |
| FavoritesScript.Tracker.SendBackup | favorites.php:308-311 | mails one backup of the current file |
| FavoritesScript.Tracker.DeleteLocked | favorites.php:314-336 | writes the list without the url to file and cache |
| FavoritesScript.Tracker.AddLocked | favorites.php:361-376 | the outcome of add_favorite against the configured blacklist; only a successful addition is written to file and cache |
| FavoritesScript.Tracker.SubmitFavorite | favorites.php:355-383 | invalid url or title: refused, nothing written; otherwise blacklisted iff the url is, else added iff no entry of the working list has the url; only an addition writes the list plus the new entry to file and cache, keeping urls distinct |
| FavoritesScript.Tracker.CheckRateLimit | favorites.php:387-403 | answers as Admit on the client's stored record; an allowed request stores the new record, a refused one stores nothing |
| FavoritesScript.Tracker.PrepareList | favorites.php:300-346 | the file ends up as the loaded, swept list less any deletion; the list returned is that filtered by the query; the backups mailed are the sweep's and the manual one; the store's invariant is kept |
| FavoritesScript.Tracker.HandleRequest | favorites.php:261-403 | a wrong secret only logs an intrusion; an addition is refused as blacklisted iff it is valid and its URL is blacklisted, before any duplicate check; otherwise the file, backups, rate-limit records and outcome as the steps above compose them, including the addition against the filtered list, no rate limiting for additions, and the clamped page of the filtered list; urls stay distinct and the cache never disagrees with the file |
| Proxy.IsAllowedFilename | proxy.php:22-30 | true iff the name is one of favorites.json, intruder.json, blacklist.txt, proxy.log; such a name is non-empty and holds no '/' |
| Proxy.BasenameOfPlainName | proxy.php:106 | the basename of a name without '/' is the name itself |
| Proxy.AllowedNamesAreTheirOwnBasename | proxy.php:102-106 | an allowed name reaches the file system unchanged |
| Proxy.Current | proxy.php:35-47 | a session without a window, or one whose window started strictly more than 120 s ago, starts a new window (now, 0); otherwise the window is kept |
| Proxy.RateCheck | proxy.php:33-56 | refused iff the current window has counted at least 10; a refusal leaves the count alone, an admission adds exactly one; a count of at most 10 stays at most 10 |
| Proxy.LimitsWithinWindow | proxy.php:44-55 | within one window, the k-th further request is refused iff count + k >= 10 |
| Proxy.NewSessionGetsTenRequestsPerWindow | proxy.php:33-56 | a new session's requests within 120 s of its first: the first 10 pass, the rest are refused |
| Proxy.ExpiredWindowAdmits | proxy.php:43-47 | strictly more than 120 s after the window start, a request passes and starts a window with count 1 |
| Proxy.Endpoint.constructor | proxy.php:11 | a new session has no rate-limit window and logs to the given shared log |
| Proxy.Endpoint.IsRateLimited | proxy.php:33-56 | updates the two session fields as RateCheck says and returns its answer; the count bound is kept |
| Proxy.AccessLog.constructor | proxy.php:67-71 | a missing log is created empty |
| Proxy.Endpoint.LogFailedAttempt | proxy.php:63-80 | appends exactly one record (time, session, address, secret, file) to the shared log |
| Proxy.Endpoint.HandleRequest | proxy.php:91-111 | non-GET: 405 with the session untouched; otherwise the rate check always updates the session, then 429, 403 (wrong secret or name not allowed), 404 (not available), in that order; every refusal logs one record; a served file had the right secret, an allowed name and rate budget |

## Left out

- HTML output, messages, headers, response timing and `exit` are left out: they are presentation. Each request's result is an `Outcome` or `Response` value instead.
- Mail is left out. `send_backup_email` is modelled as appending the attached file's content to `backups`, and MIME assembly and header sanitising are not modelled.
- Files, JSON and the lock file are left out. Each file is a field, and each locked read-modify-write is one atomic method. Concurrent requests, lost updates, a lock file that cannot be opened, and unreadable or malformed JSON are not modelled. The key-preserving effect of `array_filter` on the JSON shape is not modelled either.
- `clean_old_files` is left out. Deleting a cache file only forces a reload of the same content, and deleting a stale rate-limit file changes no answer (`Favorites.ExpiredRecordActsAsAbsent`).
- Library calls are parameters of `FavoritesScript.Library`: URL validation (`FILTER_VALIDATE_URL`), title cleaning (`FILTER_SANITIZE_STRING`, then `htmlspecialchars`) and the 'Y-m-d H:i:s' formatting of a time. The `(int)` cast of the page parameter is taken as already applied. The proxy's `secret` and `file` parameters are taken as already sanitised.
- The proxy's `realpath`, base-path and `is_readable` test is a parameter `available` of `Proxy.Endpoint.HandleRequest`.
- Sessions, CSRF tokens and their random generation are left out. The session id is a parameter.
- Dates and time zones are left out: times are integer seconds.
- Text.Host: models `parse_url` only for URLs whose first ':' is followed by "//". It does not check the scheme's characters, and it accepts an empty scheme (`://host`), which `parse_url` does not. It does not reject a URL whose text after the authority's last ':' is not a port number. It does not handle bracketed IPv6 hosts, and it leaves out `parse_url`'s other forms (scheme-relative URLs, `host:port` without a scheme).
- The HTTPS gate (favorites.php:51-54) is left out: a plain-HTTP request ends before the secret check and logs nothing, and the model starts after that gate.
- Proxy.Endpoint.LogFailedAttempt: the log is a sequence of records. proxy.log is text, with tab-separated fields ending in a line break. A secret or file name holding a line break therefore writes several lines, and one holding a tab shifts the fields; the model does not capture that.
- FavoritesScript.Tracker.HandleRequest: the 2048 and 200 length limits are compared with the number of characters, while `strlen` counts bytes.
- FavoritesScript.Tracker.constructor: `CACHE_TIME` and the cache directory are read from a configuration section that favconfig.php does not define, so the cache lifetime is a constructor parameter.
- Text.AfterLast: models `basename` only for names that do not end in '/'; `basename` first strips trailing slashes (and a suffix, when given one). The proxy only passes on names that hold no '/' at all (`Proxy.AllowedNamesAreTheirOwnBasename`).
- Text.StrIPos: folds ASCII case only, like PHP 8's `stripos`.
