/** The stateless helpers of the application: duration and percentage
    formatting, tag lists, text truncation, the redirect-target check, the
    client address behind a proxy, language names, and the two code
    statistics (imported modules and a complexity score). */
module Utils {
  import opened Strings
  import CodeExecutor

  // ---------------------------------------------------------------------
  // Durations and percentages

  /** A number of seconds as "<s>s" below a minute, "<m>m <s>s" below an
      hour and "<h>h <m>m" from an hour on; the hour form drops the
      seconds. Negative inputs take the first form. */
  function FormatDuration(seconds: int): (r: string)
    ensures seconds < 60 ==> r == IntToString(seconds) + "s"
    ensures 60 <= seconds < 3600 ==>
      exists m: nat, s: nat :: s < 60 && 60 * m + s == seconds && r == NatToString(m) + "m " + NatToString(s) + "s"
    ensures 3600 <= seconds ==>
      exists h: nat, m: nat :: m < 60 && 3600 * h + 60 * m <= seconds < 3600 * h + 60 * m + 60
                               && r == NatToString(h) + "h " + NatToString(m) + "m"
  {
    if seconds < 60 then
      IntToString(seconds) + "s"
    else if seconds < 3600 then
      var m: nat, s: nat := seconds / 60, seconds % 60;
      assert 60 * m + s == seconds;
      NatToString(m) + "m " + NatToString(s) + "s"
    else
      var h: nat, m: nat := seconds / 3600, (seconds % 3600) / 60;
      assert 3600 * h + 60 * m <= seconds < 3600 * h + 60 * m + 60;
      NatToString(h) + "h " + NatToString(m) + "m"
  }

  /** The hour and minute read off a time of day written as h:m:s. */
  lemma HourParts(x: int, h: nat, m: nat, s: nat)
    requires x == 3600 * h + 60 * m + s && m < 60 && s < 60
    ensures x / 3600 == h && (x % 3600) / 60 == m
  {
    var r := 60 * m + s;
    assert 0 <= r < 3600;
    assert x == 3600 * h + r;
    assert x / 3600 == h && x % 3600 == r;
    assert r / 60 == m;
  }

  /** From an hour on, the printed form depends on the hour and the minute
      only. */
  lemma HourForm(x: int)
    requires x >= 3600
    ensures FormatDuration(x) == NatToString(x / 3600) + "h " + NatToString((x % 3600) / 60) + "m"
  {
  }

  /** From an hour on, durations in the same minute print the same: the
      seconds are dropped. */
  lemma SecondsDroppedFromAnHour(x: int)
    requires x >= 3600
    ensures FormatDuration(x) == FormatDuration(x - x % 60)
  {
    var y := x - x % 60;
    var q := x / 60;
    assert x == 60 * q + x % 60;
    assert y == 60 * q && q >= 60;
    assert y / 3600 == x / 3600 && (y % 3600) / 60 == (x % 3600) / 60;
    HourForm(x);
    HourForm(y);
  }

  /** The score as a percentage of the maximum, and 0 for a maximum that is
      not positive. */
  function CalculateScorePercentage(score: real, maxScore: real): (p: real)
    ensures maxScore > 0.0 ==> p * maxScore == score * 100.0
    ensures maxScore <= 0.0 ==> p == 0.0
  {
    if maxScore <= 0.0 then 0.0 else (score / maxScore) * 100.0
  }

  /** A score inside [0, max] gives a percentage inside [0, 100], and the
      full score gives exactly 100. */
  lemma ScorePercentageBounds(score: real, maxScore: real)
    requires maxScore > 0.0 && 0.0 <= score <= maxScore
    ensures 0.0 <= CalculateScorePercentage(score, maxScore) <= 100.0
    ensures score == maxScore ==> CalculateScorePercentage(score, maxScore) == 100.0
  {
    var p := CalculateScorePercentage(score, maxScore);
    assert p * maxScore == score * 100.0;
  }

  // ---------------------------------------------------------------------
  // Tags

  /** Strip applied to every piece. */
  function StripEach(pieces: seq<string>): (r: seq<string>)
    ensures |r| == |pieces|
    ensures forall i :: 0 <= i < |r| ==> r[i] == Strip(pieces[i])
  {
    seq(|pieces|, i requires 0 <= i < |pieces| => Strip(pieces[i]))
  }

  /** The non-empty strings of `tags`, in order. */
  function NonEmpty(tags: seq<string>): (r: seq<string>)
    ensures |r| <= |tags|
    ensures forall t :: t in r <==> t in tags && t != ""
  {
    if |tags| == 0 then []
    else
      var init := NonEmpty(tags[..|tags| - 1]);
      var last := tags[|tags| - 1];
      assert tags == tags[..|tags| - 1] + [last];
      if last != "" then init + [last] else init
  }

  /** A comma-separated tag list: the pieces between commas, stripped, with
      the empty ones dropped. */
  function ParseTags(tagsString: string): (tags: seq<string>)
    ensures forall t :: t in tags ==> t != "" && IsStripped(t)
  {
    if tagsString == "" then [] else NonEmpty(StripEach(Split(tagsString, ',')))
  }

  /** The tags joined with ", ". */
  function FormatTags(tags: seq<string>): (r: string)
    ensures |tags| == 0 ==> r == ""
    ensures |tags| == 1 ==> r == tags[0]
  {
    Join(tags, ", ")
  }

  /** A tag that survives a round trip through the comma-separated form. */
  predicate CleanTag(t: string) {
    t != "" && IsStripped(t) && ',' !in t
  }

  /** No piece of a split contains the separator. */
  lemma {:induction false} SplitPiecesLackSeparator(s: string, sep: char)
    ensures forall p :: p in Split(s, sep) ==> sep !in p
  {
    if |s| > 0 {
      SplitPiecesLackSeparator(s[1..], sep);
      var rest := Split(s[1..], sep);
      if s[0] != sep {
        assert rest[0] in rest;
        assert forall p :: p in rest[1..] ==> p in rest;
      }
    }
  }

  /** Stripping takes out a piece of the string, so it adds no character. */
  lemma StripAddsNothing(s: string, c: char)
    requires c !in s
    ensures c !in Strip(s)
  {
    StripCutsSpace(s);
    var a :| 0 <= a <= |s| - |Strip(s)| && StartsWith(s[a..], Strip(s));
    forall i | 0 <= i < |Strip(s)|
      ensures Strip(s)[i] != c
    {
      assert Strip(s)[i] == s[a + i];
    }
  }

  /** Every parsed tag is clean: non-empty, stripped and free of commas. */
  lemma ParsedTagsAreClean(tagsString: string)
    ensures forall t :: t in ParseTags(tagsString) ==> CleanTag(t)
  {
    if tagsString != "" {
      var pieces := Split(tagsString, ',');
      SplitPiecesLackSeparator(tagsString, ',');
      forall t | t in ParseTags(tagsString)
        ensures ',' !in t
      {
        var i :| 0 <= i < |pieces| && StripEach(pieces)[i] == t;
        assert pieces[i] in pieces;
        StripAddsNothing(pieces[i], ',');
      }
    }
  }

  /** `ts` with a blank put in front of every tag. */
  function Spaced(ts: seq<string>): (r: seq<string>)
    ensures |r| == |ts|
    ensures forall i :: 0 <= i < |ts| ==> r[i] == " " + ts[i]
  {
    seq(|ts|, i requires 0 <= i < |ts| => " " + ts[i])
  }

  /** Splitting the ", "-joined form on commas gives back the tags, all but
      the first with their blank in front. */
  lemma {:induction false} SplitJoined(pad: string, ts: seq<string>)
    requires |ts| >= 1 && ',' !in pad
    requires forall i :: 0 <= i < |ts| ==> ',' !in ts[i]
    ensures Split(pad + Join(ts, ", "), ',') == [pad + ts[0]] + Spaced(ts[1..])
    decreases |ts|
  {
    var first := pad + ts[0];
    assert ',' !in first by {
      forall i | 0 <= i < |first| ensures first[i] != ',' {
        if i < |pad| {
          assert first[i] == pad[i] && pad[i] in pad;
        } else {
          assert first[i] == ts[0][i - |pad|] && ts[0][i - |pad|] in ts[0];
        }
      }
    }
    if |ts| == 1 {
      assert pad + Join(ts, ", ") == first;
      SplitNoSeparator(first, ',');
      assert Spaced(ts[1..]) == [];
    } else {
      var rest := Join(ts[1..], ", ");
      assert Join(ts, ", ") == ts[0] + ", " + rest;
      assert ", " + rest == [','] + (" " + rest);
      assert pad + Join(ts, ", ") == first + [','] + (" " + rest);
      SplitAtSeparator(first, ',', " " + rest);
      SplitJoined(" ", ts[1..]);
      assert ts[1..][1..] == ts[2..];
      assert Spaced(ts[1..]) == [" " + ts[1]] + Spaced(ts[2..]);
    }
  }

  lemma {:induction false} NonEmptyKeepsAll(tags: seq<string>)
    requires forall i :: 0 <= i < |tags| ==> tags[i] != ""
    ensures NonEmpty(tags) == tags
  {
    if |tags| > 0 {
      NonEmptyKeepsAll(tags[..|tags| - 1]);
      assert tags == tags[..|tags| - 1] + [tags[|tags| - 1]];
    }
  }

  /** Stripping the split pieces of the formatted list removes the blanks
      the join put in front of each tag. */
  lemma StripSpacedPieces(ts: seq<string>)
    requires |ts| >= 1
    requires forall i :: 0 <= i < |ts| ==> CleanTag(ts[i])
    ensures StripEach([ts[0]] + Spaced(ts[1..])) == ts
  {
    var pieces := [ts[0]] + Spaced(ts[1..]);
    StripOfStripped(ts[0]);
    forall i | 1 <= i < |ts|
      ensures Strip(pieces[i]) == ts[i]
    {
      assert pieces[i] == " " + ts[i];
      StripLeadingSpace(" ", ts[i]);
    }
  }

  lemma {:induction false} JoinStartsWithFirst(ts: seq<string>, sep: string)
    requires |ts| >= 1
    ensures StartsWith(Join(ts, sep), ts[0])
  {
    if |ts| > 1 {
      assert Join(ts, sep) == ts[0] + (sep + Join(ts[1..], sep));
    }
  }

  /** Parsing the formatted list gives the list back when every tag is
      clean. */
  lemma ParseFormatRoundTrip(ts: seq<string>)
    requires forall i :: 0 <= i < |ts| ==> CleanTag(ts[i])
    ensures ParseTags(FormatTags(ts)) == ts
  {
    if |ts| > 0 {
      var formatted := FormatTags(ts);
      JoinStartsWithFirst(ts, ", ");
      assert formatted != "";
      var pieces := [ts[0]] + Spaced(ts[1..]);
      assert Split(formatted, ',') == pieces by {
        SplitJoined("", ts);
        assert "" + formatted == formatted;
        assert "" + ts[0] == ts[0];
      }
      StripSpacedPieces(ts);
      NonEmptyKeepsAll(ts);
      assert ParseTags(formatted) == NonEmpty(StripEach(pieces));
    }
  }

  // ---------------------------------------------------------------------
  // Truncation

  /** Where Python's `text[:end]` stops: a negative end counts from the back,
      and the index is clamped to the text. */
  function SliceEnd(length: nat, end: int): (e: nat)
    ensures e <= length
    ensures 0 <= end <= length ==> e == end
  {
    if end < 0 then (if length + end < 0 then 0 else length + end)
    else if end > length then length
    else end
  }

  /** Text no longer than `maxLength` unchanged; otherwise its first
      `maxLength - |suffix|` characters, in Python's slice semantics,
      followed by the suffix. */
  function TruncateText(text: string, maxLength: int, suffix: string): (r: string)
    ensures |text| <= maxLength ==> r == text
    ensures |text| > maxLength ==> |r| >= |suffix| && r[|r| - |suffix|..] == suffix
                                   && StartsWith(text, r[..|r| - |suffix|])
    ensures |text| > maxLength && maxLength >= |suffix| ==> |r| == maxLength
  {
    if |text| <= maxLength then text
    else text[..SliceEnd(|text|, maxLength - |suffix|)] + suffix
  }

  /** With a suffix longer than the limit the slice end is negative and
      counts from the back of the text: the result is longer than the
      limit, and can even be longer than the text. */
  lemma TruncateOverlongSuffix()
    ensures TruncateText("abcdef", 2, "...") == "abcde..."
    ensures |TruncateText("abcdef", 2, "...")| > 2
  {
    assert "abcdef"[..5] == "abcde";
  }

  /** The truncation the helper is meant to perform: never longer than the
      limit; when the suffix does not fit, as much of it as fits. */
  function TruncateTextBounded(text: string, maxLength: int, suffix: string): (r: string)
    ensures |text| <= maxLength ==> r == text
    ensures |text| > maxLength ==> |r| <= (if maxLength < 0 then 0 else maxLength)
    ensures |text| > maxLength && maxLength >= |suffix| ==>
      |r| == maxLength && r[|r| - |suffix|..] == suffix && StartsWith(text, r[..|r| - |suffix|])
  {
    if |text| <= maxLength then text
    else if maxLength >= |suffix| then text[..maxLength - |suffix|] + suffix
    else if maxLength <= 0 then ""
    else suffix[..maxLength]
  }

  /** Wherever the suffix fits, the bounded truncation and the helper agree. */
  lemma TruncationsAgreeWhenSuffixFits(text: string, maxLength: int, suffix: string)
    requires maxLength >= |suffix|
    ensures TruncateTextBounded(text, maxLength, suffix) == TruncateText(text, maxLength, suffix)
  {
  }

  // ---------------------------------------------------------------------
  // Redirect targets

  /** The URL names `host` right after an http or https scheme (a prefix
      test on the whole URL). */
  predicate StartsWithHost(url: string, host: string) {
    StartsWith(url, "http://" + host) || StartsWith(url, "https://" + host)
  }

  /** Which redirect targets the helper accepts: any non-empty URL that
      starts with '/', or one that starts with an allowed host after an
      http or https scheme. */
  predicate SafeRedirect(url: string, allowedHosts: seq<string>) {
    url != "" && (url[0] == '/' || exists h :: h in allowedHosts && StartsWithHost(url, h))
  }

  /** Checks a redirect target against the allowed hosts, in list order. */
  method IsSafeRedirectUrl(url: string, allowedHosts: seq<string>) returns (safe: bool)
    ensures safe <==> SafeRedirect(url, allowedHosts)
  {
    if url == "" {
      return false;
    }
    if StartsWith(url, "/") {
      return true;
    }
    var i := 0;
    while i < |allowedHosts|
      invariant 0 <= i <= |allowedHosts|
      invariant forall j :: 0 <= j < i ==> !StartsWithHost(url, allowedHosts[j])
    {
      if StartsWithHost(url, allowedHosts[i]) {
        return true;
      }
      i := i + 1;
    }
    return false;
  }

  /** Three kinds of target the helper lets through although they lead to
      another site: a host that merely begins with an allowed host name,
      user info that spells an allowed host name, and a scheme-relative URL
      ("//host/..."), which starts with '/'. */
  lemma RedirectLookalikes()
    ensures SafeRedirect("http://example.com.evil.org/", ["example.com"])
    ensures SafeRedirect("//evil.org/", ["example.com"])
    ensures SafeRedirect("/\\evil.org/", ["example.com"])
    ensures SafeRedirect("http://example.com:x@evil.org/", ["example.com"])
  {
    PrefixedHostAccepted("http://example.com.evil.org/", "example.com", ".evil.org/");
    PrefixedHostAccepted("http://example.com:x@evil.org/", "example.com", ":x@evil.org/");
  }

  /** The helper accepts any text after an allowed host. */
  lemma PrefixedHostAccepted(url: string, host: string, rest: string)
    requires url == "http://" + host + rest
    ensures SafeRedirect(url, [host])
  {
    assert url[..|"http://" + host|] == "http://" + host;
    assert StartsWithHost(url, host);
  }

  /** A character that ends the host part of a URL. */
  predicate EndsHost(c: char) {
    c == '/' || c == ':' || c == '?' || c == '#'
  }

  /** A character that ends the authority part (user info, host, port) of
      a URL. */
  predicate EndsAuthority(c: char) {
    c == '/' || c == '?' || c == '#'
  }

  /** The length of the authority part at the start of `s`: up to the first
      '/', '?' or '#'. */
  function AuthorityEnd(s: string): (n: nat)
    ensures n <= |s|
    ensures forall i :: 0 <= i < n ==> !EndsAuthority(s[i])
    ensures n < |s| ==> EndsAuthority(s[n])
  {
    if |s| == 0 || EndsAuthority(s[0]) then 0 else 1 + AuthorityEnd(s[1..])
  }

  /** The authority at the start of `s` carries no user info (no '@'), so
      what follows the scheme is the host. */
  predicate NoUserinfo(s: string) {
    '@' !in s[..AuthorityEnd(s)]
  }

  /** The URL's host, after an http or https scheme, is exactly `host`: the
      host name is followed by the end of the URL, a port, a path, a query or
      a fragment, and no user info comes before it. */
  predicate HasHost(url: string, host: string) {
    exists scheme :: scheme in ["http://", "https://"] && StartsWith(url, scheme + host)
      && (|url| == |scheme + host| || EndsHost(url[|scheme + host|]))
      && NoUserinfo(url[|scheme|..])
  }

  /** An '@' before the first '/', '?' or '#' is user info. */
  lemma UserinfoBeforePath(a: string, b: string)
    requires '/' !in a && '?' !in a && '#' !in a
    ensures !NoUserinfo(a + "@" + b)
  {
    var s := a + "@" + b;
    forall i | 0 <= i <= |a| ensures !EndsAuthority(s[i]) {
      if i < |a| {
        assert s[i] == a[i] && a[i] in a;
      }
    }
    var n := AuthorityEnd(s);
    assert n > |a|;
    assert s[..n][|a|] == '@';
  }

  /** An http URL with user info does not name `host`. */
  lemma UserinfoNoHost(url: string, host: string, a: string, b: string)
    requires url == "http://" + (a + "@" + b)
    requires '/' !in a && '?' !in a && '#' !in a
    ensures !HasHost(url, host)
  {
    assert !StartsWith(url, "https://" + host) by {
      assert url[4] == ':' && ("https://" + host)[4] == 's';
    }
    assert url[|"http://"|..] == a + "@" + b;
    UserinfoBeforePath(a, b);
  }

  /** A lookalike with user info: the host of this URL is evil.org. */
  lemma UserinfoHostRejected()
    ensures !HasHost("http://example.com:x@evil.org/", "example.com")
  {
    var a, b := "example.com:x", "evil.org/";
    assert "http://example.com:x@evil.org/" == "http://" + (a + "@" + b);
    UserinfoNoHost("http://example.com:x@evil.org/", "example.com", a, b);
  }

  /** A character that browsers read as a second '/' right after a leading
      one: a '/', a '\\', or a tab or line break, which they drop. */
  predicate SlashLike(c: char) {
    c == '/' || c == '\\' || c == '\t' || c == '\n' || c == '\r'
  }

  /** The check the helper is meant to make: a path on this site (one '/',
      not followed by anything a browser reads as a second one), or an http
      or https URL whose host is an allowed host. */
  predicate SafeRedirectStrict(url: string, allowedHosts: seq<string>) {
    url != ""
    && ((url[0] == '/' && (|url| == 1 || !SlashLike(url[1])))
        || exists h :: h in allowedHosts && HasHost(url, h))
  }

  /** An http URL whose host name only begins with `host` does not name
      `host`. */
  lemma LongerHostNoHost(url: string, host: string, c: char, rest: string)
    requires url == "http://" + host + [c] + rest
    requires !EndsHost(c)
    ensures !HasHost(url, host)
  {
    assert !StartsWith(url, "https://" + host) by {
      assert url[4] == ':' && ("https://" + host)[4] == 's';
    }
    assert url[|"http://" + host|] == c;
  }

  lemma LookalikeHostRejected()
    ensures !HasHost("http://example.com.evil.org/", "example.com")
  {
    assert "http://example.com.evil.org/" == "http://" + "example.com" + ['.'] + "evil.org/";
    LongerHostNoHost("http://example.com.evil.org/", "example.com", '.', "evil.org/");
  }

  /** An https URL made of a host name and a path names that host. */
  lemma HostUrlHasHost(h: string)
    requires '@' !in h
    ensures HasHost("https://" + h + "/", h)
  {
    var url := "https://" + h + "/";
    assert StartsWith(url, "https://" + h);
    assert url[|"https://" + h|] == '/';
    var rest := url[|"https://"|..];
    assert rest == h + "/";
    assert rest[|h|] == '/';
    var n := AuthorityEnd(rest);
    assert n <= |h|;
    assert rest[..n] == h[..n];
  }

  /** A leading '/' followed by anything read as a second '/' is rejected,
      whatever the allowed hosts: such a URL names no host after a scheme. */
  lemma SlashTrickRejected(url: string, allowedHosts: seq<string>)
    requires |url| >= 2 && url[0] == '/' && SlashLike(url[1])
    ensures !SafeRedirectStrict(url, allowedHosts)
  {
    forall h | h in allowedHosts ensures !HasHost(url, h) {
      assert !StartsWith(url, "http://" + h) by {
        assert ("http://" + h)[0] == 'h';
      }
      assert !StartsWith(url, "https://" + h) by {
        assert ("https://" + h)[0] == 'h';
      }
    }
  }

  lemma StrictRejectsLookalikes()
    ensures !SafeRedirectStrict("http://example.com.evil.org/", ["example.com"])
    ensures !SafeRedirectStrict("//evil.org/", ["example.com"])
    ensures !SafeRedirectStrict("/\\evil.org/", ["example.com"])
    ensures !SafeRedirectStrict("/\t/evil.org", ["example.com"])
    ensures !SafeRedirectStrict("http://example.com:x@evil.org/", ["example.com"])
  {
    LookalikeHostRejected();
    UserinfoHostRejected();
    SlashTrickRejected("//evil.org/", ["example.com"]);
    SlashTrickRejected("/\\evil.org/", ["example.com"]);
    SlashTrickRejected("/\t/evil.org", ["example.com"]);
  }

  /** The strict check rejects both lookalikes, accepts only what the helper
      accepts, and still accepts paths and allowed hosts. */
  lemma StrictRedirectCheck(url: string, allowedHosts: seq<string>)
    ensures SafeRedirectStrict(url, allowedHosts) ==> SafeRedirect(url, allowedHosts)
    ensures !SafeRedirectStrict("http://example.com.evil.org/", ["example.com"])
    ensures !SafeRedirectStrict("//evil.org/", ["example.com"])
    ensures !SafeRedirectStrict("/\\evil.org/", ["example.com"])
    ensures !SafeRedirectStrict("/\t/evil.org", ["example.com"])
    ensures !SafeRedirectStrict("http://example.com:x@evil.org/", ["example.com"])
    ensures SafeRedirectStrict("/dashboard", allowedHosts)
    ensures forall h :: h in allowedHosts && '@' !in h ==> SafeRedirectStrict("https://" + h + "/", allowedHosts)
  {
    if SafeRedirectStrict(url, allowedHosts) && url[0] != '/' {
      var h :| h in allowedHosts && HasHost(url, h);
      assert StartsWithHost(url, h);
    }
    StrictRejectsLookalikes();
    assert "/dashboard"[1] == 'd';
    forall h | h in allowedHosts && '@' !in h
      ensures SafeRedirectStrict("https://" + h + "/", allowedHosts)
    {
      HostUrlHasHost(h);
    }
  }

  // ---------------------------------------------------------------------
  // Client address

  const FORWARDED_FOR: string := "X-Forwarded-For"
  const REAL_IP: string := "X-Real-IP"

  /** A header's value, with a missing header read as empty (both are false
      in the helper's tests). */
  function Header(headers: map<string, string>, name: string): string {
    if name in headers then headers[name] else ""
  }

  /** The client's address: the first hop of X-Forwarded-For, stripped; else
      X-Real-IP; else the peer address of the connection, if there is one. */
  function GetClientIp(headers: map<string, string>, peer: Option<string>): (ip: Option<string>)
    ensures Header(headers, FORWARDED_FOR) != "" ==> ip.Some? && IsStripped(ip.value)
    ensures Header(headers, FORWARDED_FOR) == "" && Header(headers, REAL_IP) != "" ==> ip == Some(headers[REAL_IP])
    ensures Header(headers, FORWARDED_FOR) == "" && Header(headers, REAL_IP) == "" ==> ip == peer
  {
    var forwardedFor := Header(headers, FORWARDED_FOR);
    if forwardedFor != "" then Some(Strip(Split(forwardedFor, ',')[0]))
    else
      var realIp := Header(headers, REAL_IP);
      if realIp != "" then Some(realIp) else peer
  }

  /** Behind a proxy chain the client is the first listed hop, with the
      blanks around it dropped, whatever the other headers and the peer
      say. A single hop ("1.2.3.4") is the case of an empty tail. */
  lemma ForwardedForFirstHop(headers: map<string, string>, peer: Option<string>,
                             pad: string, hop: string, pad2: string, tail: string)
    requires forall i :: 0 <= i < |pad| ==> IsSpace(pad[i])
    requires forall i :: 0 <= i < |pad2| ==> IsSpace(pad2[i])
    requires hop != "" && IsStripped(hop) && ',' !in hop
    requires tail == "" || tail[0] == ','
    requires FORWARDED_FOR in headers && headers[FORWARDED_FOR] == pad + hop + pad2 + tail
    ensures GetClientIp(headers, peer) == Some(hop)
  {
    var first := pad + hop + pad2;
    assert ',' !in first by {
      forall i | 0 <= i < |first| ensures first[i] != ',' {
        if i < |pad| {
          assert IsSpace(pad[i]);
        } else if i < |pad| + |hop| {
          assert first[i] == hop[i - |pad|];
        } else {
          assert IsSpace(pad2[i - |pad| - |hop|]);
        }
      }
    }
    if tail == "" {
      assert headers[FORWARDED_FOR] == first;
      SplitNoSeparator(first, ',');
    } else {
      assert headers[FORWARDED_FOR] == first + [','] + tail[1..];
      SplitAtSeparator(first, ',', tail[1..]);
    }
    StripPadded(pad, hop, pad2);
  }

  /** The most common form: a single hop. */
  lemma ForwardedForSingleHop(peer: Option<string>)
    ensures GetClientIp(map[FORWARDED_FOR := "1.2.3.4"], peer) == Some("1.2.3.4")
  {
    var headers := map[FORWARDED_FOR := "1.2.3.4"];
    assert headers[FORWARDED_FOR] == "" + "1.2.3.4" + "" + "";
    ForwardedForFirstHop(headers, peer, "", "1.2.3.4", "", "");
  }

  /** A hop with a blank before the comma. */
  lemma ForwardedForBlankBeforeComma(peer: Option<string>)
    ensures GetClientIp(map[FORWARDED_FOR := "1.2.3.4 , 5.6.7.8"], peer) == Some("1.2.3.4")
  {
    var headers := map[FORWARDED_FOR := "1.2.3.4 , 5.6.7.8"];
    assert headers[FORWARDED_FOR] == "" + "1.2.3.4" + " " + ", 5.6.7.8";
    ForwardedForFirstHop(headers, peer, "", "1.2.3.4", " ", ", 5.6.7.8");
  }

  // ---------------------------------------------------------------------
  // Language names

  /** The names the submission form accepts, in lower case. */
  const SUPPORTED_LANGUAGES: set<string> := {"python", "cpp", "c", "java", "javascript", "js"}

  /** Whether a language name is accepted, ignoring case. */
  function ValidateProgrammingLanguage(language: string): (ok: bool)
    // an accepted name is one to ten characters long
    ensures ok ==> 1 <= |language| <= 10
  {
    Lower(language) in SUPPORTED_LANGUAGES
  }

  /** The answer does not depend on case: names that lower-case alike are
      accepted alike. */
  lemma ValidationIgnoresCase(a: string, b: string)
    requires Lower(a) == Lower(b)
    ensures ValidateProgrammingLanguage(a) == ValidateProgrammingLanguage(b)
  {
  }

  /** A name is accepted exactly when its lower-cased form is. */
  lemma ValidationOfLowered(language: string)
    ensures ValidateProgrammingLanguage(language) == ValidateProgrammingLanguage(Lower(language))
  {
    LowerIdempotent(language);
    ValidationIgnoresCase(language, Lower(language));
  }

  /** A name with no capital letter is accepted exactly when it is listed. */
  lemma ValidationOfLowerCase(language: string)
    requires forall i :: 0 <= i < |language| ==> IsLowerChar(language[i])
    ensures ValidateProgrammingLanguage(language) <==> language in SUPPORTED_LANGUAGES
  {
    LowerOfLowerCase(language);
  }

  /** Every listed name is accepted in any mix of case, and nothing else
      is: an accepted name lower-cases to a listed one. */
  lemma ValidationMeaning(language: string)
    ensures ValidateProgrammingLanguage(language)
            <==> exists listed :: listed in SUPPORTED_LANGUAGES && Lower(listed) == Lower(language)
  {
    if ValidateProgrammingLanguage(language) {
      var listed := Lower(language);
      LowerIdempotent(language);
      assert listed in SUPPORTED_LANGUAGES && Lower(listed) == Lower(language);
    }
    if exists listed :: listed in SUPPORTED_LANGUAGES && Lower(listed) == Lower(language) {
      var listed :| listed in SUPPORTED_LANGUAGES && Lower(listed) == Lower(language);
      ValidationOfLowerCase(listed);
      ValidationIgnoresCase(listed, language);
    }
  }

  /** Every language the runner knows is accepted, but acceptance is wider
      than what the runner can execute: JavaScript is accepted and has no
      runner entry, and the runner looks names up without folding case. */
  lemma ValidationWiderThanRunner(language: string)
    ensures CodeExecutor.LookupLanguage(language).Some? ==> ValidateProgrammingLanguage(language)
    ensures ValidateProgrammingLanguage("javascript") && CodeExecutor.LookupLanguage("javascript").None?
    ensures ValidateProgrammingLanguage("Python") && CodeExecutor.LookupLanguage("Python").None?
  {
    if CodeExecutor.LookupLanguage(language).Some? {
      assert language in {"python", "cpp", "c", "java"};
      LowerOfLowerCase(language);
    }
    LowerOfLowerCase("javascript");
    assert Lower("Python") == "python";
  }

  /** Lower-casing a name with no capital letter changes nothing. */
  lemma LowerOfLowerCase(s: string)
    requires forall i :: 0 <= i < |s| ==> IsLowerChar(s[i])
    ensures Lower(s) == s
  {
  }

  /** The language aliases and their canonical names. */
  function LanguageAlias(name: string): Option<string> {
    if name == "js" then Some("javascript")
    else if name == "py" then Some("python")
    else if name == "c++" then Some("cpp")
    else None
  }

  /** The canonical names are lower-case, stripped, and not aliases
      themselves. */
  lemma AliasTargetsAreCanonical(name: string)
    ensures LanguageAlias(name).Some? ==>
      var canonical := LanguageAlias(name).value;
      IsStripped(canonical) && LanguageAlias(canonical).None?
      && forall i :: 0 <= i < |canonical| ==> IsLowerChar(canonical[i])
  {
  }

  /** A language name lower-cased and stripped, then mapped through the
      aliases; a name that is not an alias is kept. */
  function NormalizeLanguageName(language: string): (r: string)
    ensures IsStripped(r)
    ensures forall i :: 0 <= i < |r| ==> IsLowerChar(r[i])
    ensures LanguageAlias(r).None?
  {
    var name := Strip(Lower(language));
    StripKeepsLowerCase(Lower(language));
    AliasTargetsAreCanonical(name);
    match LanguageAlias(name)
    case Some(canonical) => canonical
    case None => name
  }

  lemma StripKeepsLowerCase(s: string)
    requires forall i :: 0 <= i < |s| ==> IsLowerChar(s[i])
    ensures forall i :: 0 <= i < |Strip(s)| ==> IsLowerChar(Strip(s)[i])
  {
    StripCutsSpace(s);
    var a :| 0 <= a <= |s| - |Strip(s)| && StartsWith(s[a..], Strip(s));
    forall i | 0 <= i < |Strip(s)|
      ensures IsLowerChar(Strip(s)[i])
    {
      assert Strip(s)[i] == s[a + i];
    }
  }

  /** Normalising twice is normalising once. */
  lemma NormalizeIdempotent(language: string)
    ensures NormalizeLanguageName(NormalizeLanguageName(language)) == NormalizeLanguageName(language)
  {
    var r := NormalizeLanguageName(language);
    LowerOfLowerCase(r);
    StripOfStripped(r);
  }

  /** The aliases reach the runner's names whatever their case and
      leading blanks. */
  lemma NormalizeJavaScriptAlias()
    ensures NormalizeLanguageName(" JS") == "javascript"
  {
    assert Lower(" JS") == " " + "js";
    StripLeadingSpace(" ", "js");
  }

  lemma NormalizePythonAlias()
    ensures NormalizeLanguageName("PY") == "python"
  {
    assert Lower("PY") == "py";
    StripOfStripped("py");
  }

  /** A name that is already canonical (stripped, lower-case, not an alias)
      is kept as it is. */
  lemma NormalizeKeepsCanonical(language: string)
    requires IsStripped(language)
    requires forall i :: 0 <= i < |language| ==> IsLowerChar(language[i])
    requires LanguageAlias(language).None?
    ensures NormalizeLanguageName(language) == language
  {
    LowerOfLowerCase(language);
    StripOfStripped(language);
  }

  /** Normalising only looks at the lower-cased, stripped name. */
  lemma NormalizeThroughCanonical(language: string)
    ensures NormalizeLanguageName(language) == NormalizeLanguageName(Strip(Lower(language)))
  {
    var name := Strip(Lower(language));
    StripKeepsLowerCase(Lower(language));
    LowerOfLowerCase(name);
    StripOfStripped(name);
  }

  /** Names that differ only in case normalise alike. */
  lemma NormalizeIgnoresCase(a: string, b: string)
    requires Lower(a) == Lower(b)
    ensures NormalizeLanguageName(a) == NormalizeLanguageName(b)
  {
  }

  lemma NormalizeCppAlias()
    ensures NormalizeLanguageName("C++") == "cpp"
  {
    assert Lower("C++") == "c++";
    StripOfStripped("c++");
  }

  // ---------------------------------------------------------------------
  // Code statistics

  /** The line prefixes that mark an import, per language. */
  function ImportPrefixes(language: string): seq<string> {
    if language == "python" then ["import ", "from "]
    else if language == "cpp" || language == "c" then ["#include"]
    else if language == "java" then ["import "]
    else []
  }

  predicate HasAnyPrefix(line: string, prefixes: seq<string>) {
    exists p :: p in prefixes && StartsWith(line, p)
  }

  /** The stripped lines that start with one of the prefixes, in order. */
  function ImportLines(lines: seq<string>, prefixes: seq<string>): (r: seq<string>)
    ensures |r| <= |lines|
    ensures forall x :: x in r ==> IsStripped(x) && HasAnyPrefix(x, prefixes)
    ensures prefixes == [] ==> r == []
  {
    if |lines| == 0 then []
    else
      var init := ImportLines(lines[..|lines| - 1], prefixes);
      var line := Strip(lines[|lines| - 1]);
      if HasAnyPrefix(line, prefixes) then init + [line] else init
  }

  /** A string is among the import lines exactly when it is the stripped form
      of some line and carries a prefix. */
  lemma {:induction false} ImportLinesMeaning(lines: seq<string>, prefixes: seq<string>, x: string)
    ensures x in ImportLines(lines, prefixes)
            <==> HasAnyPrefix(x, prefixes) && exists i :: 0 <= i < |lines| && Strip(lines[i]) == x
  {
    if |lines| > 0 {
      var init := lines[..|lines| - 1];
      ImportLinesMeaning(init, prefixes, x);
      if exists i :: 0 <= i < |lines| && Strip(lines[i]) == x {
        var i :| 0 <= i < |lines| && Strip(lines[i]) == x;
        if i < |lines| - 1 {
          assert init[i] == lines[i];
        }
      }
      if exists i :: 0 <= i < |init| && Strip(init[i]) == x {
        var i :| 0 <= i < |init| && Strip(init[i]) == x;
        assert lines[i] == init[i];
      }
    }
  }

  /** The stripped lines of the code that start with the language's import
      keyword, in source order; nothing for a language without one. */
  method ExtractImports(code: string, language: string) returns (imports: seq<string>)
    ensures imports == ImportLines(Split(code, '\n'), ImportPrefixes(language))
    ensures ImportPrefixes(language) == [] ==> imports == []
  {
    imports := [];
    var lines := Split(code, '\n');
    var prefixes := ImportPrefixes(language);
    var i := 0;
    while i < |lines|
      invariant 0 <= i <= |lines|
      invariant imports == ImportLines(lines[..i], prefixes)
    {
      var line := Strip(lines[i]);
      assert lines[..i + 1][..i] == lines[..i];
      if HasAnyPrefix(line, prefixes) {
        imports := imports + [line];
      }
      i := i + 1;
    }
    assert lines[..|lines|] == lines;
  }

  /** The keywords whose appearance in a line counts as a control
      structure. */
  const CONTROL_KEYWORDS: seq<string> := ["if", "else", "elif", "for", "while", "try", "except", "finally"]

  /** The lines that are not blank, in order. */
  function NonBlankLines(lines: seq<string>): (r: seq<string>)
    ensures |r| <= |lines|
    ensures forall l :: l in r <==> l in lines && Strip(l) != ""
  {
    if |lines| == 0 then []
    else
      var init := NonBlankLines(lines[..|lines| - 1]);
      var last := lines[|lines| - 1];
      assert lines == lines[..|lines| - 1] + [last];
      if Strip(last) != "" then init + [last] else init
  }

  /** How many of the keywords occur in the lower-cased line. */
  function KeywordHits(line: string, keywords: seq<string>): (n: nat)
    ensures n <= |keywords|
  {
    if |keywords| == 0 then 0
    else KeywordHits(line, keywords[..|keywords| - 1])
         + (if Contains(Lower(line), keywords[|keywords| - 1]) then 1 else 0)
  }

  /** The keywords of `keywords` that occur in the lower-cased line. */
  function Present(line: string, keywords: seq<string>): set<string> {
    set k | k in keywords && Contains(Lower(line), k)
  }

  predicate NoDuplicates(keywords: seq<string>) {
    forall i, j :: 0 <= i < j < |keywords| ==> keywords[i] != keywords[j]
  }

  /** With no keyword listed twice, the hits of a line are the number of
      distinct keywords present in it. */
  lemma {:induction false} KeywordHitsCountsPresent(line: string, keywords: seq<string>)
    requires NoDuplicates(keywords)
    ensures KeywordHits(line, keywords) == |Present(line, keywords)|
  {
    if |keywords| > 0 {
      var init := keywords[..|keywords| - 1];
      var last := keywords[|keywords| - 1];
      assert keywords == init + [last];
      KeywordHitsCountsPresent(line, init);
      assert last !in init by {
        forall i | 0 <= i < |init| ensures init[i] != last {
          assert keywords[i] != keywords[|keywords| - 1];
        }
      }
      if Contains(Lower(line), last) {
        assert Present(line, keywords) == Present(line, init) + {last};
        assert last !in Present(line, init);
      } else {
        assert Present(line, keywords) == Present(line, init);
      }
    }
  }

  lemma ControlKeywordsDistinct()
    ensures NoDuplicates(CONTROL_KEYWORDS)
  {
  }

  /** What one line contributes to the score: a point for being there and
      two for each control keyword present in it; nothing when blank. */
  function LineScore(line: string): nat {
    if Strip(line) == "" then 0 else 1 + 2 * |Present(line, CONTROL_KEYWORDS)|
  }

  /** The score as a sum over the lines, line by line. */
  function ScoreOfLines(lines: seq<string>): nat {
    if |lines| == 0 then 0
    else ScoreOfLines(lines[..|lines| - 1]) + LineScore(lines[|lines| - 1])
  }

  /** The (line, keyword) pairs with the keyword inside the line. */
  function ControlCount(lines: seq<string>): nat {
    if |lines| == 0 then 0
    else ControlCount(lines[..|lines| - 1]) + KeywordHits(lines[|lines| - 1], CONTROL_KEYWORDS)
  }

  /** The number of non-blank lines plus two for every control keyword hit
      in them. */
  function CalculateComplexityScore(code: string): (score: nat)
    // one point per non-blank line, and two per keyword hit (at most 8 a line)
    ensures var n := |NonBlankLines(Split(code, '\n'))|;
      n <= score <= 17 * n && score % 2 == n % 2
  {
    var lines := NonBlankLines(Split(code, '\n'));
    ControlCountBound(lines);
    LinesPlusHits(|lines|, ControlCount(lines))
  }

  /** One point per line and two per keyword hit; with at most 8 hits a
      line, n lines score between n and 17 n, with the parity of n. */
  function LinesPlusHits(n: nat, hits: nat): (score: nat)
    requires hits <= |CONTROL_KEYWORDS| * n
    ensures n <= score <= 17 * n && score % 2 == n % 2
  {
    n + 2 * hits
  }

  lemma {:induction false} ControlCountBound(lines: seq<string>)
    ensures ControlCount(lines) <= |CONTROL_KEYWORDS| * |lines|
  {
    if |lines| > 0 {
      ControlCountBound(lines[..|lines| - 1]);
    }
  }

  lemma {:induction false} NoKeywordNoCount(lines: seq<string>)
    requires forall l, k :: l in lines && k in CONTROL_KEYWORDS ==> !Contains(Lower(l), k)
    ensures ControlCount(lines) == 0
  {
    if |lines| > 0 {
      var init := lines[..|lines| - 1];
      assert forall l :: l in init ==> l in lines;
      NoKeywordNoCount(init);
      NoHits(lines[|lines| - 1], CONTROL_KEYWORDS);
    }
  }

  lemma {:induction false} NoHits(line: string, keywords: seq<string>)
    requires forall k :: k in keywords ==> !Contains(Lower(line), k)
    ensures KeywordHits(line, keywords) == 0
  {
    if |keywords| > 0 {
      var init := keywords[..|keywords| - 1];
      assert forall k :: k in init ==> k in keywords;
      NoHits(line, init);
    }
  }

  /** The score is the sum over the lines of each line's contribution. */
  lemma ComplexityPerLine(code: string)
    ensures CalculateComplexityScore(code) == ScoreOfLines(Split(code, '\n'))
  {
    ControlKeywordsDistinct();
    ScoreOfLinesMeaning(Split(code, '\n'));
  }

  /** A first line adds its own contribution to the score of the rest. */
  lemma FirstLineAdds(line: string, rest: string)
    requires '\n' !in line
    ensures CalculateComplexityScore(line + "\n" + rest) == LineScore(line) + CalculateComplexityScore(rest)
  {
    SplitAtSeparator(line, '\n', rest);
    assert line + "\n" + rest == line + ['\n'] + rest;
    ComplexityPerLine(line + "\n" + rest);
    ComplexityPerLine(rest);
    ScoreOfLinesConcat([line], Split(rest, '\n'));
    assert ScoreOfLines([line]) == LineScore(line) by {
      assert [line][..0] == [];
    }
  }

  lemma {:induction false} ScoreOfLinesConcat(a: seq<string>, b: seq<string>)
    ensures ScoreOfLines(a + b) == ScoreOfLines(a) + ScoreOfLines(b)
  {
    if |b| == 0 {
      assert a + b == a;
    } else {
      var init := b[..|b| - 1];
      ScoreOfLinesConcat(a, init);
      assert (a + b)[..|a + b| - 1] == a + init;
    }
  }

  lemma {:induction false} ScoreOfLinesMeaning(lines: seq<string>)
    requires NoDuplicates(CONTROL_KEYWORDS)
    ensures ScoreOfLines(lines) == |NonBlankLines(lines)| + 2 * ControlCount(NonBlankLines(lines))
  {
    if |lines| > 0 {
      var init := lines[..|lines| - 1];
      var last := lines[|lines| - 1];
      ScoreOfLinesMeaning(init);
      var kept := NonBlankLines(init);
      if Strip(last) != "" {
        assert NonBlankLines(lines) == kept + [last];
        assert (kept + [last])[..|kept|] == kept;
        KeywordHitsCountsPresent(last, CONTROL_KEYWORDS);
      }
    }
  }

  /** The score lies between the number of non-blank lines n and 17 n, and
      it is exactly n when no line mentions a control keyword. */
  lemma ComplexityBounds(code: string)
    ensures var n := |NonBlankLines(Split(code, '\n'))|;
      n <= CalculateComplexityScore(code) <= 17 * n
    ensures (forall l, k :: l in Split(code, '\n') && k in CONTROL_KEYWORDS ==> !Contains(Lower(l), k))
            ==> CalculateComplexityScore(code) == |NonBlankLines(Split(code, '\n'))|
  {
    var lines := NonBlankLines(Split(code, '\n'));
    ControlCountBound(lines);
    if forall l, k :: l in Split(code, '\n') && k in CONTROL_KEYWORDS ==> !Contains(Lower(l), k) {
      NoKeywordNoCount(lines);
    }
  }
}
