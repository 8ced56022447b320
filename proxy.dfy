/** The download proxy (proxy.php): it serves one of four files to a
    client that knows the secret, behind a per-session rate limit, and it
    appends one record to its log for every refused request. */
module Proxy {
  import opened Seqs
  import opened Text

  const MAGIC_WORD: string := "<YOUR_SECRET_VALUE>"
  const RATE_LIMIT_COUNT: int := 10
  /** The window length in seconds; a window ends only once strictly more
      than this has passed since it started. */
  const RATE_LIMIT_WINDOW: int := 120
  const ALLOWED_FILES: seq<string> := ["favorites.json", "intruder.json", "blacklist.txt", "proxy.log"]

  // ------------------------------------------------------------ file names

  /** isAllowedFilename: the requested name is one of the four allowed
      names. A missing parameter is never allowed. No allowed name holds a
      '/', so each is its own `basename`. */
  function IsAllowedFilename(file: Option<string>): (r: bool)
    ensures r <==> file == Some("favorites.json") || file == Some("intruder.json") ||
                   file == Some("blacklist.txt") || file == Some("proxy.log")
    ensures r ==> file.value != [] && '/' !in file.value
  {
    file.Some? && file.value in ALLOWED_FILES
  }

  /** `basename` of a name without '/': the name itself. */
  lemma BasenameOfPlainName(name: string)
    requires '/' !in name
    ensures AfterLast(name, '/') == name
  {
  }

  /** Every allowed name reaches the file system unchanged by `basename`. */
  lemma AllowedNamesAreTheirOwnBasename(file: Option<string>)
    requires IsAllowedFilename(file)
    ensures AfterLast(file.value, '/') == file.value
  {
    BasenameOfPlainName(file.value);
  }

  // ---------------------------------------------------------- rate limiting

  /** The session's rate-limit fields: when the current window started and
      how many requests it has counted. */
  datatype Window = Window(start: int, count: int)

  /** The window a check at `now` counts against: a new one for a session
      without a window, and a new one once strictly more than
      RATE_LIMIT_WINDOW seconds have passed since the start. */
  function Current(w: Option<Window>, now: int): (c: Window)
    ensures c == Window(now, 0) || Some(c) == w
    ensures c.start == now <== w.None?
    ensures w.Some? && now - w.value.start > RATE_LIMIT_WINDOW ==> c == Window(now, 0)
    ensures w.Some? && now - w.value.start <= RATE_LIMIT_WINDOW ==> c == w.value
  {
    var start := if w.None? then Window(now, 0) else w.value;
    if now - start.start > RATE_LIMIT_WINDOW then Window(now, 0) else start
  }

  /** isRateLimited as a function of the session: whether the request is
      refused, and the session's window afterwards. A refused request
      leaves the count alone; an admitted one adds exactly one. */
  function RateCheck(w: Option<Window>, now: int): (res: (bool, Window))
    ensures res.0 <==> Current(w, now).count >= RATE_LIMIT_COUNT
    ensures res.1.start == Current(w, now).start
    ensures res.1.count == Current(w, now).count + (if res.0 then 0 else 1)
    ensures (w.None? || w.value.count <= RATE_LIMIT_COUNT) ==> res.1.count <= RATE_LIMIT_COUNT
  {
    var c := Current(w, now);
    if c.count >= RATE_LIMIT_COUNT then (true, c) else (false, c.(count := c.count + 1))
  }

  /** The answers to a run of checks at the given times (non-decreasing in
      practice), starting from a session in state `w`. */
  function Limits(w: Option<Window>, times: seq<int>): (r: seq<bool>)
    ensures |r| == |times|
    decreases |times|
  {
    if times == [] then []
    else
      var res := RateCheck(w, times[0]);
      [res.0] + Limits(Some(res.1), times[1..])
  }

  /** Within one window, the k-th further check is refused exactly when the
      window had already counted RATE_LIMIT_COUNT - k requests: at most
      RATE_LIMIT_COUNT requests per window get through. */
  lemma {:induction false} LimitsWithinWindow(w: Window, times: seq<int>)
    requires forall i :: 0 <= i < |times| ==> times[i] - w.start <= RATE_LIMIT_WINDOW
    ensures forall k :: 0 <= k < |times| ==> Limits(Some(w), times)[k] == (w.count + k >= RATE_LIMIT_COUNT)
    decreases |times|
  {
    if times != [] {
      var res := RateCheck(Some(w), times[0]);
      assert Current(Some(w), times[0]) == w;
      var w' := res.1;
      assert w'.start == w.start;
      LimitsWithinWindow(w', times[1..]);
      forall k | 0 <= k < |times|
        ensures Limits(Some(w), times)[k] == (w.count + k >= RATE_LIMIT_COUNT)
      {
        if k > 0 {
          assert Limits(Some(w), times)[k] == Limits(Some(w'), times[1..])[k - 1];
        }
      }
    }
  }

  /** A new session that makes all its requests within RATE_LIMIT_WINDOW
      seconds of its first one gets exactly its first RATE_LIMIT_COUNT
      requests through. */
  lemma NewSessionGetsTenRequestsPerWindow(times: seq<int>)
    requires times != []
    requires forall i :: 0 <= i < |times| ==> times[i] - times[0] <= RATE_LIMIT_WINDOW
    ensures forall k :: 0 <= k < |times| ==> Limits(None, times)[k] == (k >= RATE_LIMIT_COUNT)
  {
    var w := Window(times[0], 0);
    assert RateCheck(None, times[0]) == RateCheck(Some(w), times[0]);
    assert Limits(None, times) == Limits(Some(w), times);
    LimitsWithinWindow(w, times);
  }

  /** After strictly more than RATE_LIMIT_WINDOW seconds, a session that
      was refused is admitted again. */
  lemma ExpiredWindowAdmits(w: Window, now: int)
    requires now - w.start > RATE_LIMIT_WINDOW
    ensures !RateCheck(Some(w), now).0 && RateCheck(Some(w), now).1 == Window(now, 1)
  {
  }

  // --------------------------------------------------------------- requests

  /** One record of proxy.log: time, session id, client address, and the
      secret and file name as submitted ("" when absent). */
  datatype LogEntry = LogEntry(timestamp: int, sessionId: string, ipAddress: string, secret: string, file: string)

  /** The answer to a request: an error status or the named file. */
  datatype Response = Status(code: int) | Serve(name: string)

  /** proxy.log, shared by every session. */
  class AccessLog {
    var entries: seq<LogEntry>

    /** The log as logFailedAttempt creates it when it is missing: empty. */
    constructor ()
      ensures entries == []
    {
      entries := [];
    }
  }

  /** One client session of the proxy, writing to the shared log. */
  class Endpoint {
    /** `$_SESSION['rate_limit_timestamp']`, None while unset. */
    var rateLimitTimestamp: Option<int>
    /** `$_SESSION['rate_limit_count']`. */
    var rateLimitCount: int
    const log: AccessLog

    /** The session's window, when it has one. */
    function Session(): Option<Window>
      reads this
    {
      if rateLimitTimestamp.None? then None else Some(Window(rateLimitTimestamp.value, rateLimitCount))
    }

    /** A session never counts more than RATE_LIMIT_COUNT requests. */
    ghost predicate Valid()
      reads this
    {
      rateLimitTimestamp.Some? ==> rateLimitCount <= RATE_LIMIT_COUNT
    }

    /** A new session, logging to `log`. */
    constructor (log: AccessLog)
      ensures Valid() && Session() == None && this.log == log
    {
      rateLimitTimestamp := None;
      rateLimitCount := 0;
      this.log := log;
    }

    /** isRateLimited: updates the two session fields step by step as
        RateCheck says and answers whether the request is refused. */
    method IsRateLimited(now: int) returns (limited: bool)
      modifies this`rateLimitTimestamp, this`rateLimitCount
      ensures limited == RateCheck(old(Session()), now).0
      ensures Session() == Some(RateCheck(old(Session()), now).1)
      ensures old(Valid()) ==> Valid()
    {
      if rateLimitTimestamp.None? {
        rateLimitTimestamp := Some(now);
        rateLimitCount := 0;
      }
      var timeDiff := now - rateLimitTimestamp.value;
      if timeDiff > RATE_LIMIT_WINDOW {
        rateLimitTimestamp := Some(now);
        rateLimitCount := 0;
      }
      if rateLimitCount >= RATE_LIMIT_COUNT {
        return true;
      }
      rateLimitCount := rateLimitCount + 1;
      return false;
    }

    /** logFailedAttempt: appends one record to the shared log. */
    method LogFailedAttempt(secret: Option<string>, file: Option<string>, sessionId: string, ipAddress: string, now: int)
      modifies log
      ensures log.entries == old(log.entries) + [LogEntry(now, sessionId, ipAddress, secret.GetOr(""), file.GetOr(""))]
    {
      log.entries := log.entries + [LogEntry(now, sessionId, ipAddress, secret.GetOr(""), file.GetOr(""))];
    }

    /** One request, checked in order: a method other than GET (405), the
        rate limit (429), the secret and the file name (403), and whether
        the named file resolves inside the base path and is readable
        (404). Each refusal logs one record; only a request that passes
        every check is served. `available` stands for the file system's
        answer for a name. */
    method HandleRequest(requestMethod: string, secret: Option<string>, file: Option<string>,
                         sessionId: string, ipAddress: string, now: int, available: string -> bool)
      returns (resp: Response)
      requires Valid()
      modifies this, log
      ensures Valid()
      ensures log.entries == old(log.entries) +
        (if resp.Serve? then [] else [LogEntry(now, sessionId, ipAddress, secret.GetOr(""), file.GetOr(""))])
      ensures requestMethod != "GET" ==> resp == Status(405) && Session() == old(Session())
      ensures requestMethod == "GET" ==>
        var res := RateCheck(old(Session()), now);
        && Session() == Some(res.1)
        && resp == (if res.0 then Status(429)
                    else if secret != Some(MAGIC_WORD) || !IsAllowedFilename(file) then Status(403)
                    else if !available(file.value) then Status(404)
                    else Serve(file.value))
      ensures resp.Serve? ==>
        requestMethod == "GET" && secret == Some(MAGIC_WORD) && Some(resp.name) == file &&
        resp.name in ALLOWED_FILES && available(resp.name) && !RateCheck(old(Session()), now).0
    {
      if requestMethod != "GET" {
        LogFailedAttempt(secret, file, sessionId, ipAddress, now);
        return Status(405);
      }
      var limited := IsRateLimited(now);
      if limited {
        LogFailedAttempt(secret, file, sessionId, ipAddress, now);
        return Status(429);
      }
      if secret != Some(MAGIC_WORD) || !IsAllowedFilename(file) {
        LogFailedAttempt(secret, file, sessionId, ipAddress, now);
        return Status(403);
      }
      // An allowed name is its own basename (AllowedNamesAreTheirOwnBasename).
      if !available(file.value) {
        LogFailedAttempt(secret, file, sessionId, ipAddress, now);
        return Status(404);
      }
      return Serve(file.value);
    }
  }
}
