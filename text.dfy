/** The string operations the favourites script relies on, written out:
    ASCII case folding and the position search behind `stripos`, the
    whitespace set stripped by `trim`, and the host that `parse_url`
    extracts from a URL with an authority. */
module Text {
  import opened Seqs

  /** ASCII case folding, as PHP's case-insensitive string functions do. */
  function LowerChar(c: char): char {
    if 'A' <= c <= 'Z' then (c as int + 32) as char else c
  }

  function Lower(s: string): string {
    seq(|s|, i requires 0 <= i < |s| => LowerChar(s[i]))
  }

  /** `needle` occurs in `hay` starting at index `i`. */
  predicate OccursAt(hay: string, needle: string, i: int) {
    0 <= i && i + |needle| <= |hay| && hay[i..i + |needle|] == needle
  }

  /** The first index at or after `from` where `needle` occurs, or None
      (the scan `strpos` performs). */
  function IndexFrom(hay: string, needle: string, from: nat): (r: Option<nat>)
    ensures r.Some? ==> from <= r.value && OccursAt(hay, needle, r.value)
    ensures forall j :: from <= j && (r.None? || j < r.value) ==> !OccursAt(hay, needle, j)
    decreases |hay| - from
  {
    if from + |needle| > |hay| then None
    else if hay[from..from + |needle|] == needle then Some(from)
    else IndexFrom(hay, needle, from + 1)
  }

  /** `stripos(hay, needle)`: the first position of `needle` in `hay`,
      ignoring ASCII case; None stands for PHP's `false`. An empty needle
      is found at position 0, as in PHP 8. */
  function StrIPos(hay: string, needle: string): (r: Option<nat>)
    ensures r.Some? <==> exists i :: OccursAt(Lower(hay), Lower(needle), i)
    ensures r.Some? ==> OccursAt(Lower(hay), Lower(needle), r.value) &&
                        forall j :: 0 <= j < r.value ==> !OccursAt(Lower(hay), Lower(needle), j)
  {
    IndexFrom(Lower(hay), Lower(needle), 0)
  }

  /** The characters PHP's `trim` removes by default: space, tab, line
      feed, carriage return, NUL and vertical tab. */
  predicate IsTrimmable(c: char) {
    c == ' ' || c == '\t' || c == '\n' || c == '\r' || c == '\0' || c as int == 11
  }

  function TrimStart(s: string): (r: string)
    ensures |r| <= |s| && r == s[|s| - |r|..]
    ensures r == [] || !IsTrimmable(r[0])
    ensures forall i :: 0 <= i < |s| - |r| ==> IsTrimmable(s[i])
  {
    if s != [] && IsTrimmable(s[0]) then TrimStart(s[1..]) else s
  }

  function TrimEnd(s: string): (r: string)
    ensures |r| <= |s| && r == s[..|r|]
    ensures r == [] || !IsTrimmable(r[|r| - 1])
    ensures forall i :: |r| <= i < |s| ==> IsTrimmable(s[i])
  {
    if s != [] && IsTrimmable(s[|s| - 1]) then TrimEnd(s[..|s| - 1]) else s
  }

  /** `trim(s)`: `s` without its leading and trailing whitespace. */
  function Trim(s: string): (r: string)
    ensures exists k ::
              && OccursAt(s, r, k)
              && (forall i :: 0 <= i < k ==> IsTrimmable(s[i]))
              && (forall i :: k + |r| <= i < |s| ==> IsTrimmable(s[i]))
    ensures r == [] || (!IsTrimmable(r[0]) && !IsTrimmable(r[|r| - 1]))
    ensures r == [] <==> forall i :: 0 <= i < |s| ==> IsTrimmable(s[i])
  {
    TrimmedPartOf(s);
    TrimEnd(TrimStart(s))
  }

  /** Where the trimmed part sits: after the leading whitespace that
      TrimStart drops, and before the trailing whitespace TrimEnd drops. */
  lemma {:induction false} TrimmedPartOf(s: string)
    ensures OccursAt(s, TrimEnd(TrimStart(s)), |s| - |TrimStart(s)|)
    ensures forall i :: 0 <= i < |s| - |TrimStart(s)| ==> IsTrimmable(s[i])
    ensures forall i :: |s| - |TrimStart(s)| + |TrimEnd(TrimStart(s))| <= i < |s| ==> IsTrimmable(s[i])
  {
    var t := TrimStart(s);
    var r := TrimEnd(t);
    var k := |s| - |t|;
    PrefixOfSuffix(s, t, r);
  }

  /** A prefix `r` of a suffix `t` of `s` occurs in `s` where `t` starts,
      and what follows it in `s` is what follows it in `t`. */
  lemma PrefixOfSuffix(s: string, t: string, r: string)
    requires |t| <= |s| && t == s[|s| - |t|..]
    requires |r| <= |t| && r == t[..|r|]
    ensures OccursAt(s, r, |s| - |t|)
    ensures forall i :: |s| - |t| + |r| <= i < |s| ==> s[i] == t[i - (|s| - |t|)]
  {
    var k := |s| - |t|;
    assert s[k..k + |r|] == s[k..][..|r|];
  }

  /** `trim` leaves a string whose ends are not whitespace unchanged. */
  lemma TrimKeepsTrimmedString(s: string)
    requires s != [] && !IsTrimmable(s[0]) && !IsTrimmable(s[|s| - 1])
    ensures Trim(s) == s
  {
    assert TrimStart(s) == s;
  }

  /** Case folding commutes with taking a slice. */
  lemma LowerOfSlice(s: string, i: int, j: int)
    requires 0 <= i <= j <= |s|
    ensures Lower(s)[i..j] == Lower(s[i..j])
  {
  }

  /** The part of `s` after the last occurrence of `c` (all of `s` when
      `c` does not occur). */
  function AfterLast(s: string, c: char): (r: string)
    ensures |r| <= |s| && r == s[|s| - |r|..]
    ensures c !in r
    ensures forall d :: d in r ==> d in s
    ensures |r| < |s| ==> s[|s| - |r| - 1] == c
  {
    if s == [] || s[|s| - 1] == c then []
    else AfterLast(s[..|s| - 1], c) + [s[|s| - 1]]
  }

  // The host `parse_url` reports for an absolute URL. The scheme ends at
  // the first ':', which must be followed by "//"; the authority runs from
  // there to the first '/', '?' or '#'; the host is what follows the last
  // '@' of the authority, up to its last ':' (the port separator).

  /** `url`'s first ':' is at `i` and is followed by "//". */
  predicate SchemeSeparatorAt(url: string, i: int) {
    && 0 <= i && i + 3 <= |url|
    && url[i] == ':' && url[i + 1] == '/' && url[i + 2] == '/'
    && forall j :: 0 <= j < i ==> url[j] != ':'
  }

  /** The index of the first `c` in `s` at or after `from`, or None. */
  function FirstIndexOf(s: string, c: char, from: nat): (r: Option<nat>)
    ensures r.Some? ==> from <= r.value < |s| && s[r.value] == c
    ensures forall j :: from <= j < |s| && (r.None? || j < r.value) ==> s[j] != c
    decreases |s| - from
  {
    if from >= |s| then None
    else if s[from] == c then Some(from)
    else FirstIndexOf(s, c, from + 1)
  }

  /** Where the authority starts: just after the "://" that ends the scheme. */
  function AuthorityStart(url: string): (r: Option<nat>)
    ensures r.None? <==> forall i :: !SchemeSeparatorAt(url, i)
    ensures forall i :: SchemeSeparatorAt(url, i) ==> r == Some(i + 3)
  {
    match FirstIndexOf(url, ':', 0)
    case None => None
    case Some(i) =>
      if i + 3 <= |url| && url[i + 1] == '/' && url[i + 2] == '/' then
        assert SchemeSeparatorAt(url, i);
        Some(i + 3)
      else
        None
  }

  /** The first index at or after `from` that holds one of `stops`, or the
      end of `s`. */
  function NextStop(s: string, stops: set<char>, from: nat): (e: nat)
    requires from <= |s|
    ensures from <= e <= |s|
    ensures forall j :: from <= j < e ==> s[j] !in stops
    ensures e < |s| ==> s[e] in stops
    decreases |s| - from
  {
    if from == |s| || s[from] in stops then from else NextStop(s, stops, from + 1)
  }

  /** The last index in [lo, hi) that holds `c`, or None. */
  function LastIndexIn(s: string, c: char, lo: nat, hi: nat): (r: Option<nat>)
    requires lo <= hi <= |s|
    ensures r.Some? ==> lo <= r.value < hi && s[r.value] == c
    ensures forall j :: (if r.Some? then r.value < j else lo <= j) && j < hi ==> s[j] != c
    decreases hi - lo
  {
    if hi == lo then None
    else if s[hi - 1] == c then Some(hi - 1)
    else LastIndexIn(s, c, lo, hi - 1)
  }

  /** The layout `parse_url` reads from an absolute URL: the scheme
      separator at `s`; the authority [s + 3, end), which ends at the first
      '/', '?' or '#' or at the end of the URL; and the host [k, e), which
      starts after the authority's last '@' (or at its start) and ends at
      its last ':' (or at its end). */
  predicate HostLayout(url: string, s: int, end: int, k: int, e: int) {
    && SchemeSeparatorAt(url, s)
    && s + 3 <= k <= e <= end <= |url|
    && (forall j :: s + 3 <= j < end ==> url[j] !in {'/', '?', '#'})
    && (end == |url| || url[end] in {'/', '?', '#'})
    && (k == s + 3 || url[k - 1] == '@')
    && (forall j :: k <= j < end ==> url[j] != '@')
    && (e == end || url[e] == ':')
    && (forall j :: k <= j < end && (e < end ==> e < j) ==> url[j] != ':')
  }

  /** The host's index range [k, e) within the authority [start, end):
      after the authority's last '@' and up to its last ':'. */
  function HostRange(url: string, start: nat, end: nat): (b: (nat, nat))
    requires start <= end <= |url|
    ensures start <= b.0 <= b.1 <= end
    ensures b.0 > start ==> url[b.0 - 1] == '@'
    ensures forall j :: b.0 <= j < end ==> url[j] != '@'
    ensures b.1 < end ==> url[b.1] == ':'
    ensures forall j :: b.0 <= j < end && (b.1 < end ==> b.1 < j) ==> url[j] != ':'
  {
    var k := match LastIndexIn(url, '@', start, end) case None => start case Some(a) => a + 1;
    var e := match LastIndexIn(url, ':', k, end) case None => end case Some(p) => p;
    (k, e)
  }

  /** A layout of `url` is the one the scan finds: the authority starts
      after the first ':', ends at the first stop, and the host range is
      HostRange's. So a URL has at most one layout. */
  lemma LayoutIsComputed(url: string, s: int, end: int, k: int, e: int)
    requires HostLayout(url, s, end, k, e)
    ensures AuthorityStart(url) == Some(s + 3)
    ensures NextStop(url, {'/', '?', '#'}, s + 3) == end
    ensures HostRange(url, s + 3, end) == (k, e)
  {
  }

  /** Every URL whose first ':' is followed by "//" has a layout. */
  lemma HostLayoutExists(url: string, s: int)
    requires SchemeSeparatorAt(url, s)
    ensures exists end, k, e :: HostLayout(url, s, end, k, e)
  {
    var end := NextStop(url, {'/', '?', '#'}, s + 3);
    var b := HostRange(url, s + 3, end);
    assert HostLayout(url, s, end, b.0, b.1);
  }

  /** The host `parse_url` reports for an absolute URL: None when the
      first ':' is not followed by "//"; otherwise the host range of the
      URL's layout (which exists, HostLayoutExists), or None when that
      range is empty. */
  function Host(url: string): (h: Option<string>)
    ensures (forall i :: !SchemeSeparatorAt(url, i)) ==> h.None?
    ensures forall s, end, k, e :: HostLayout(url, s, end, k, e) ==>
              h == if k < e then Some(url[k..e]) else None
  {
    match AuthorityStart(url)
    case None => None
    case Some(start) =>
      var end := NextStop(url, {'/', '?', '#'}, start);
      var (k, e) := HostRange(url, start, end);
      assert forall s, end', k', e' :: HostLayout(url, s, end', k', e') ==> (end', k', e') == (end, k, e) by {
        forall s, end', k', e' | HostLayout(url, s, end', k', e')
          ensures (end', k', e') == (end, k, e)
        {
          LayoutIsComputed(url, s, end', k', e');
        }
      }
      if k == e then None else Some(url[k..e])
  }

  /** The characters of `url` after `start`, when that suffix is `a + b + c`. */
  lemma SuffixChars(url: string, start: nat, a: string, b: string, c: string)
    requires start <= |url| && url[start..] == a + b + c
    ensures start + |a| + |b| + |c| == |url|
    ensures forall t :: 0 <= t < |a| ==> url[start + t] == a[t]
    ensures forall t :: 0 <= t < |b| ==> url[start + |a| + t] == b[t]
    ensures c != [] ==> url[start + |a| + |b|] == c[0]
  {
    forall t | 0 <= t < |a|
      ensures url[start + t] == a[t]
    {
      assert url[start..][t] == a[t];
    }
    forall t | 0 <= t < |b|
      ensures url[start + |a| + t] == b[t]
    {
      assert url[start..][|a| + t] == b[t];
    }
    if c != [] {
      assert url[start..][|a| + |b|] == c[0];
    }
  }

  /** A URL whose authority is optional user information ending in '@',
      then `host`, then optionally ':' and a port, has host `host`: the
      user information is skipped up to its last '@', and a ':' inside the
      host stays in it when a port follows the last ':'. */
  lemma HostOfAuthority(url: string, s: nat, user: string, host: string, port: string, rest: string)
    requires SchemeSeparatorAt(url, s)
    requires url[s + 3..] == user + host + (if port == [] then [] else [':'] + port) + rest
    requires forall i :: 0 <= i < |user| ==> user[i] !in {'/', '?', '#'}
    requires user == [] || user[|user| - 1] == '@'
    requires host != [] && forall i :: 0 <= i < |host| ==> host[i] !in {'/', '?', '#', '@'}
    requires port == [] ==> ':' !in host
    requires forall i :: 0 <= i < |port| ==> port[i] !in {'/', '?', '#', '@', ':'}
    requires rest == [] || rest[0] in {'/', '?', '#'}
    ensures Host(url) == Some(host)
  {
    var tail := if port == [] then [] else [':'] + port;
    var start := s + 3;
    var k := start + |user|;
    var mid := k + |host|;
    var end := mid + |tail|;
    SuffixChars(url, start, user + host, tail, rest);
    forall j | start <= j < end
      ensures url[j] !in {'/', '?', '#'}
      ensures k <= j ==> url[j] != '@'
      ensures k <= j && (if port != [] then mid + 1 else k) <= j ==> url[j] != ':'
    {
      if j < k {
        assert url[j] == (user + host)[j - start] == user[j - start];
      } else if j < mid {
        assert url[j] == (user + host)[j - start] == host[j - k];
      } else {
        assert url[j] == tail[j - mid];
        assert j > mid ==> tail[j - mid] == port[j - mid - 1];
      }
    }
    assert k > start ==> url[k - 1] == user[|user| - 1];
    var e := if port == [] then end else mid;
    assert HostLayout(url, s, end, k, e);
    assert url[k..mid] == host by {
      forall t | 0 <= t < |host|
        ensures url[k + t] == host[t]
      {
        assert url[k + t] == (user + host)[|user| + t];
      }
    }
  }

  /** The host of the URL in the blacklist example. */
  lemma ExampleHost()
    ensures Host("https://MAPS.Google.com/x") == Some("MAPS.Google.com")
  {
    var url := "https://MAPS.Google.com/x";
    assert SchemeSeparatorAt(url, 5);
    assert url[8..] == [] + "MAPS.Google.com" + [] + "/x";
    HostOfAuthority(url, 5, [], "MAPS.Google.com", "", "/x");
  }

  /** The port is cut at the LAST ':' of the authority, so a ':' before it
      stays in the host. */
  lemma PortIsCutAtLastColon()
    ensures Host("ftp://x:google.com:21/") == Some("x:google.com")
  {
    var url := "ftp://x:google.com:21/";
    assert SchemeSeparatorAt(url, 3);
    assert url[6..] == [] + "x:google.com" + ([':'] + "21") + "/";
    HostOfAuthority(url, 3, [], "x:google.com", "21", "/");
  }

  /** User information before the last '@' is not part of the host. */
  lemma UserInfoIsSkipped()
    ensures Host("https://u:p@google.com/") == Some("google.com")
  {
    var url := "https://u:p@google.com/";
    assert SchemeSeparatorAt(url, 5);
    assert url[8..] == "u:p@" + "google.com" + [] + "/";
    HostOfAuthority(url, 5, "u:p@", "google.com", "", "/");
  }

  /** A '://' after the first ':' does not start an authority. */
  lemma MailtoHasNoHost()
    ensures Host("mailto:a?b://google.com") == None
  {
    var url := "mailto:a?b://google.com";
    assert url[6] == ':' && url[7] == 'a';
    assert AuthorityStart(url) == None by {
      assert FirstIndexOf(url, ':', 0) == Some(6);
    }
  }
}
