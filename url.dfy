/** The href/src rewrite of backend/app.py:
    `re.sub(r"(http[s]?://)?(www\.)?", "", url).split('/')[0]`. */
module Url {
  import opened Words

  /** Length of the `(http[s]?://)?` part of a match at the start of `s`
      (the optional `s` is greedy, so `https://` is tried before `http://`). */
  function SchemeLength(s: string): nat {
    if "https://" <= s then 8 else if "http://" <= s then 7 else 0
  }

  /** Length of the whole pattern's match at the start of `s`; 0 for the empty match. */
  function MatchLength(s: string): (n: nat)
    ensures n <= |s|
  {
    var k := SchemeLength(s);
    k + (if "www." <= s[k..] then 4 else 0)
  }

  /** `re.sub` of the unanchored pattern with "": the scan tries a match at each
      position, deletes a non-empty one and otherwise keeps one character. */
  function StripPrefixes(s: string): (r: string)
    ensures |r| <= |s|
    decreases |s|
  {
    if s == [] then []
    else
      var n := MatchLength(s);
      if n > 0 then StripPrefixes(s[n..]) else [s[0]] + StripPrefixes(s[1..])
  }

  /** `.split('/')[0]`: everything before the first '/'. */
  function HostPart(s: string): (h: string)
    ensures h <= s && '/' !in h
    ensures |h| == |s| || s[|h|] == '/'
  {
    if s == [] || s[0] == '/' then [] else [s[0]] + HostPart(s[1..])
  }

  /** The rewritten href or src value. */
  function ShortenUrl(url: string): (r: string)
    ensures '/' !in r && |r| <= |url|
  {
    HostPart(StripPrefixes(url))
  }

  /** `p` occurs somewhere in `s`. */
  predicate Occurs(p: string, s: string) {
    exists i :: 0 <= i <= |s| && p <= s[i..]
  }

  /** A value with no '/', no "http://", no "https://" and no "www." anywhere is left as it is. */
  lemma ShortenKeepsPlainHost(url: string)
    requires '/' !in url
    requires !Occurs("http://", url) && !Occurs("https://", url) && !Occurs("www.", url)
    ensures ShortenUrl(url) == url
  {
    NoMatchInside(url);
  }

  /** `s` holds no 'h' and no 'w', so no match of the pattern can start inside it. */
  predicate NoMatchStart(s: string) {
    'h' !in s && 'w' !in s
  }

  /** No match of the pattern starts at any position of `h` in `h + t`. */
  predicate Quiet(h: string, t: string) {
    forall i :: 0 <= i < |h| ==> MatchLength((h + t)[i..]) == 0
  }

  /** A host name as it appears in a URL: no '/', and none of "http:", "https:" and "www."
      inside it. */
  predicate PlainHost(host: string) {
    '/' !in host && !Occurs("http:", host) && !Occurs("https:", host) && !Occurs("www.", host)
  }

  /** The prefixes a URL may start with: an optional scheme, then an optional "www.". */
  predicate Scheme(p: string) {
    p == "https://www." || p == "http://www." || p == "https://" || p == "http://" || p == "www." || p == ""
  }

  /** No match starts at a character other than 'h' or 'w'. */
  lemma NoMatchHere(s: string)
    requires s != [] && s[0] != 'h' && s[0] != 'w'
    ensures MatchLength(s) == 0
  {
    assert "https://"[0] == 'h' && "http://"[0] == 'h' && "www."[0] == 'w';
    assert SchemeLength(s) == 0;
    assert s[0..] == s;
  }

  /** Where nothing matches, the scan keeps one character and moves on. */
  lemma StripSkip(s: string)
    requires s != [] && MatchLength(s) == 0
    ensures StripPrefixes(s) == [s[0]] + StripPrefixes(s[1..])
  {
  }

  /** A head in which no match starts is kept as it is. */
  lemma {:induction false} StripKeepsHead(h: string, t: string)
    requires Quiet(h, t)
    ensures StripPrefixes(h + t) == h + StripPrefixes(t)
    decreases |h|
  {
    if h == [] {
      assert h + t == t;
    } else {
      var s := h + t;
      HeadTail(h, t);
      assert s[0..] == s;
      StripSkip(s);
      forall i | 0 <= i < |h[1..]| ensures MatchLength((h[1..] + t)[i..]) == 0 {
        assert (h[1..] + t)[i..] == s[i + 1..];
      }
      StripKeepsHead(h[1..], t);
      HeadTail(h, StripPrefixes(t));
    }
  }

  /** A head with no 'h' and no 'w' is one in which no match starts. */
  lemma NoMatchStartQuiet(h: string, t: string)
    requires NoMatchStart(h)
    ensures Quiet(h, t)
  {
    forall i | 0 <= i < |h| ensures MatchLength((h + t)[i..]) == 0 {
      assert (h + t)[i..][0] == h[i] && h[i] in h;
      NoMatchHere((h + t)[i..]);
    }
  }

  /** A word with no '/' that does not occur in `host` starts nowhere in `host` followed by
      nothing or by a '/'. */
  lemma NoPrefixInHost(p: string, host: string, t: string, i: nat)
    requires p != [] && '/' !in p && !Occurs(p, host)
    requires t == [] || t[0] == '/'
    requires i <= |host|
    ensures !(p <= (host + t)[i..])
  {
    var s := (host + t)[i..];
    assert s == host[i..] + t;
    if |p| <= |host| - i {
      assert s[..|p|] == host[i..][..|p|];
      assert !(p <= host[i..]);
    } else if t != [] {
      var k := |host| - i;
      assert s[k] == '/';
      assert p[k] in p;
    }
  }

  /** Nothing matches where neither a scheme nor "www." begins. */
  lemma NoSchemeAt(s: string)
    requires !("http:" <= s) && !("https:" <= s) && !("www." <= s)
    ensures MatchLength(s) == 0
  {
    if |s| >= 8 {
      assert s[..8][..6] == s[..6];
      assert s[..7][..5] == s[..5];
    } else if |s| >= 7 {
      assert s[..7][..5] == s[..5];
    }
    assert SchemeLength(s) == 0;
    assert s[0..] == s;
  }

  /** A plain host, followed by nothing or by a path, holds no match start. */
  lemma PlainHostQuiet(host: string, t: string)
    requires PlainHost(host) && (t == [] || t[0] == '/')
    ensures Quiet(host, t)
  {
    forall i | 0 <= i < |host| ensures MatchLength((host + t)[i..]) == 0 {
      NoPrefixInHost("http:", host, t, i);
      NoPrefixInHost("https:", host, t, i);
      NoPrefixInHost("www.", host, t, i);
      NoSchemeAt((host + t)[i..]);
    }
  }

  /** Nothing matches where no "http://", "https://" or "www." begins. */
  lemma NoMatchAt(s: string)
    requires !("http://" <= s) && !("https://" <= s) && !("www." <= s)
    ensures MatchLength(s) == 0
  {
    assert SchemeLength(s) == 0;
    assert s[0..] == s;
  }

  /** A value holding none of the three words anywhere is left by the scan as it is. */
  lemma NoMatchInside(s: string)
    requires !Occurs("http://", s) && !Occurs("https://", s) && !Occurs("www.", s)
    ensures StripPrefixes(s) == s
  {
    assert s + [] == s;
    forall i | 0 <= i < |s| ensures MatchLength((s + [])[i..]) == 0 {
      NoMatchAt(s[i..]);
    }
    StripKeepsHead(s, []);
  }

  /** A word that holds a character absent from `s` does not occur in `s`. */
  lemma AbsentChar(p: string, s: string, c: char)
    requires c in p && c !in s
    ensures !Occurs(p, s)
  {
    var k :| 0 <= k < |p| && p[k] == c;
    forall i | 0 <= i <= |s| ensures !(p <= s[i..]) {
      if k < |s| - i {
        assert s[i..][k] == s[i + k] && s[i + k] in s;
      }
    }
  }

  lemma HttpsWwwMatch(rest: string)
    ensures MatchLength("https://www." + rest) == 12
  {
    var s := "https://www." + rest;
    assert s[..8] == "https://";
    assert s[8..][..4] == "www.";
  }

  lemma HttpWwwMatch(rest: string)
    ensures MatchLength("http://www." + rest) == 11
  {
    var s := "http://www." + rest;
    assert s[4] == ':' && "https://"[4] == 's';
    assert s[..7] == "http://";
    assert s[7..][..4] == "www.";
  }

  lemma HttpsMatch(rest: string)
    requires !("www." <= rest)
    ensures MatchLength("https://" + rest) == 8
  {
    var s := "https://" + rest;
    assert s[..8] == "https://";
    assert s[8..] == rest;
  }

  lemma HttpMatch(rest: string)
    requires !("www." <= rest)
    ensures MatchLength("http://" + rest) == 7
  {
    var s := "http://" + rest;
    assert s[4] == ':' && "https://"[4] == 's';
    assert s[..7] == "http://";
    assert s[7..] == rest;
  }

  lemma WwwMatch(rest: string)
    ensures MatchLength("www." + rest) == 4
  {
    var s := "www." + rest;
    assert s[0] == 'w' && "https://"[0] == 'h' && "http://"[0] == 'h';
    assert SchemeLength(s) == 0 && s[0..] == s;
    assert s[..4] == "www.";
  }

  /** A leading scheme and "www." go in one match, provided no second "www." follows. */
  lemma StripScheme(scheme: string, rest: string)
    requires Scheme(scheme) && !("www." <= rest)
    ensures StripPrefixes(scheme + rest) == StripPrefixes(rest)
  {
    var s := scheme + rest;
    if scheme == "" {
      assert s == rest;
    } else {
      if scheme == "https://www." {
        HttpsWwwMatch(rest);
      } else if scheme == "http://www." {
        HttpWwwMatch(rest);
      } else if scheme == "https://" {
        HttpsMatch(rest);
      } else if scheme == "http://" {
        HttpMatch(rest);
      } else {
        WwwMatch(rest);
      }
      assert s[|scheme|..] == rest;
    }
  }

  lemma SlashKept(path: string)
    ensures StripPrefixes("/" + path) == "/" + StripPrefixes(path)
  {
    var tail := "/" + path;
    assert tail[0] == '/' && tail[1..] == path;
    NoMatchHere(tail);
    StripSkip(tail);
  }

  /** `.split('/')[0]` of a host followed by '/' is the host. */
  lemma {:induction false} HostOfSlashed(host: string, rest: string)
    requires '/' !in host
    ensures HostPart(host + ("/" + rest)) == host
    decreases |host|
  {
    if host == [] {
      assert host + ("/" + rest) == "/" + rest;
    } else {
      HeadTail(host, "/" + rest);
      assert host[0] in host;
      HostOfSlashed(host[1..], rest);
      assert host == [host[0]] + host[1..];
    }
  }

  /** The scan deletes the leading scheme and "www." and keeps a plain host. */
  lemma StripToHost(scheme: string, host: string, tail: string)
    requires Scheme(scheme) && PlainHost(host)
    requires tail == [] || tail[0] == '/'
    ensures StripPrefixes(scheme + (host + tail)) == host + StripPrefixes(tail)
  {
    NoPrefixInHost("www.", host, tail, 0);
    assert (host + tail)[0..] == host + tail;
    StripScheme(scheme, host + tail);
    PlainHostQuiet(host, tail);
    StripKeepsHead(host, tail);
  }

  /** The cut at '/' keeps the host before an empty or '/'-led remainder. */
  lemma CutAtPath(host: string, tail: string)
    requires '/' !in host && (tail == [] || tail[0] == '/')
    ensures HostPart(host + StripPrefixes(tail)) == host
  {
    if tail == [] {
      assert host + StripPrefixes(tail) == host;
    } else {
      assert tail == "/" + tail[1..];
      SlashKept(tail[1..]);
      HostOfSlashed(host, StripPrefixes(tail[1..]));
    }
  }

  /** A URL made of an optional scheme, an optional "www.", a host and then nothing or a '/'
      and any path is cut down to the host. */
  lemma ShortenFullUrl(scheme: string, host: string, tail: string)
    requires Scheme(scheme) && PlainHost(host)
    requires tail == [] || tail[0] == '/'
    ensures ShortenUrl(scheme + host + tail) == host
  {
    assert scheme + host + tail == scheme + (host + tail);
    StripToHost(scheme, host, tail);
    CutAtPath(host, tail);
  }

  /** A typical tracking link, `https://www.example.com/path/to/page?q=1`, becomes
      `example.com`; a brand link whose host holds an 'h', `https://github.com/login`, keeps
      the brand's host `github.com`. */
  lemma ShortenExample(url: string, brand: string)
    requires url == "https://www.example.com/path/to/page?q=1"
    requires brand == "https://github.com/login"
    ensures ShortenUrl(url) == "example.com"
    ensures ShortenUrl(brand) == "github.com"
  {
    ExampleHosts();
    ExampleParts();
    ShortenLink(url, "https://www.", "example.com", "/path/to/page?q=1");
    ShortenLink(brand, "https://", "github.com", "/login");
  }

  /** `ShortenFullUrl` for a URL given whole, split into its parts by the caller. */
  lemma ShortenLink(url: string, scheme: string, host: string, tail: string)
    requires url == scheme + host + tail
    requires Scheme(scheme) && PlainHost(host) && (tail == [] || tail[0] == '/')
    ensures ShortenUrl(url) == host
  {
    ShortenFullUrl(scheme, host, tail);
  }

  lemma ExampleParts()
    ensures "https://www.example.com/path/to/page?q=1" == "https://www." + "example.com" + "/path/to/page?q=1"
    ensures "https://github.com/login" == "https://" + "github.com" + "/login"
  {
  }

  lemma ExampleHosts()
    ensures PlainHost("example.com") && PlainHost("github.com")
  {
    var host, brand := "example.com", "github.com";
    assert 'h' !in host && 'w' !in host && '/' !in host;
    AbsentChar("http:", host, 'h');
    AbsentChar("https:", host, 'h');
    AbsentChar("www.", host, 'w');
    assert ':' !in brand && 'w' !in brand && '/' !in brand;
    AbsentChar("http:", brand, ':');
    AbsentChar("https:", brand, ':');
    AbsentChar("www.", brand, 'w');
  }

  /** The pattern is not anchored: a `w` that is "www." in the middle of a value is deleted as well. */
  lemma StripRemovesInnerWww(h: string, w: string, t: string)
    requires NoMatchStart(h) && w == "www."
    ensures StripPrefixes(h + w + t) == h + StripPrefixes(t)
  {
    var u := w + t;
    assert h + w + t == h + u;
    NoMatchStartQuiet(h, u);
    StripKeepsHead(h, u);
    assert u[0] == 'w' && "https://"[0] == 'h' && "http://"[0] == 'h';
    assert SchemeLength(u) == 0 && u[0..] == u;
    assert MatchLength(u) == 4 && u[4..] == t;
  }

  /** Removal is a deletion of characters from the value. */
  lemma {:induction false} StripIsSub(s: string)
    ensures Sub(StripPrefixes(s), s)
    decreases |s|
  {
    if s != [] {
      var n := MatchLength(s);
      if n > 0 {
        StripIsSub(s[n..]);
        SubSuffix(StripPrefixes(s[n..]), s, n);
      } else {
        StripIsSub(s[1..]);
        assert ([s[0]] + StripPrefixes(s[1..]))[1..] == StripPrefixes(s[1..]);
      }
    }
  }

  lemma {:induction false} SubSuffix(t: string, s: string, n: nat)
    requires n <= |s| && Sub(t, s[n..])
    ensures Sub(t, s)
    decreases n
  {
    if n > 0 {
      assert s[1..][n - 1..] == s[n..];
      SubSuffix(t, s[1..], n - 1);
    } else {
      assert s[0..] == s;
    }
  }

  lemma {:induction false} HostIsSub(s: string)
    ensures Sub(HostPart(s), s)
  {
    if s != [] {
      HostIsSub(s[1..]);
      if s[0] == '/' {
        SubEmpty(s[1..]);
      } else {
        assert ([s[0]] + HostPart(s[1..]))[1..] == HostPart(s[1..]);
      }
    }
  }

  /** The rewritten value is obtained by deleting characters of the original. */
  lemma ShortenIsSub(url: string)
    ensures Sub(ShortenUrl(url), url)
  {
    StripIsSub(url);
    HostIsSub(StripPrefixes(url));
    SubTrans(ShortenUrl(url), StripPrefixes(url), url);
  }
}
