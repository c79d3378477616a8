/** Where the harness finds the backend: `get_backend_url` reads the
    frontend's environment file line by line, `API_BASE` appends `/api`, and
    the WebSocket test rewrites the scheme of `API_BASE + "/ws"`. Strings are
    Python `str` values, sequences of characters. */
module Urls {
  import opened Bytes

  const BackendUrlPrefix: string := "REACT_APP_BACKEND_URL="
  const DefaultBackendUrl: string := "http://localhost:8001"

  // ---------------------------------------------------------------------
  // The Python string operations the lookup and the rewrite use

  /** `c.isspace()`: the characters Python counts as whitespace. */
  predicate IsSpace(c: char) {
    c in {'\U{9}', '\U{A}', '\U{B}', '\U{C}', '\U{D}', '\U{1C}', '\U{1D}', '\U{1E}',
          '\U{1F}', ' ', '\U{85}', '\U{A0}', '\U{1680}', '\U{2000}', '\U{2001}', '\U{2002}',
          '\U{2003}', '\U{2004}', '\U{2005}', '\U{2006}', '\U{2007}', '\U{2008}', '\U{2009}', '\U{200A}',
          '\U{2028}', '\U{2029}', '\U{202F}', '\U{205F}', '\U{3000}'}
  }

  predicate AllSpace(s: string) {
    forall i :: 0 <= i < |s| ==> IsSpace(s[i])
  }

  /** `s.startswith(p)`. */
  predicate StartsWith(s: string, p: string) {
    |p| <= |s| && s[..|p|] == p
  }

  /** `s.lstrip()`: drops the leading whitespace and nothing else. */
  function TrimStart(s: string): (r: string)
    ensures |r| <= |s| && r == s[|s| - |r|..]
    ensures AllSpace(s[..|s| - |r|])
    ensures r != [] ==> !IsSpace(r[0])
  {
    if s != [] && IsSpace(s[0]) then
      var r := TrimStart(s[1..]);
      assert s[..|s| - |r|] == [s[0]] + s[1..][..|s[1..]| - |r|];
      r
    else s
  }

  /** `s.rstrip()`: drops the trailing whitespace and nothing else. */
  function TrimEnd(s: string): (r: string)
    ensures |r| <= |s| && r == s[..|r|]
    ensures AllSpace(s[|r|..])
    ensures r != [] ==> !IsSpace(r[|r| - 1])
  {
    if s != [] && IsSpace(s[|s| - 1]) then
      var r := TrimEnd(s[..|s| - 1]);
      assert s[|r|..] == s[..|s| - 1][|r|..] + [s[|s| - 1]];
      r
    else s
  }

  /** `s.strip()`. */
  function Strip(s: string): string {
    TrimEnd(TrimStart(s))
  }

  /** The position of the first `c` in `s`. */
  function FirstIndex(s: string, c: char): (i: nat)
    requires c in s
    ensures i < |s| && s[i] == c
    ensures forall k :: 0 <= k < i ==> s[k] != c
  {
    if s[0] == c then 0 else 1 + FirstIndex(s[1..], c)
  }

  /** `s.split(c, 1)[1]`: everything after the first `c`. */
  function AfterFirst(s: string, c: char): string
    requires c in s
  {
    s[FirstIndex(s, c) + 1..]
  }

  /** Whether `p` occurs in `s`. */
  predicate Occurs(s: string, p: string)
    decreases |s|
  {
    StartsWith(s, p) || (s != [] && Occurs(s[1..], p))
  }

  /** `s.replace(p, rep)`: every occurrence of `p`, found left to right
      without overlap, replaced by `rep`. */
  function Replace(s: string, p: string, rep: string): (r: string)
    requires p != []
    ensures !Occurs(s, p) ==> r == s
    decreases |s|
  {
    if s == [] then []
    else if StartsWith(s, p) then rep + Replace(s[|p|..], p, rep)
    else [s[0]] + Replace(s[1..], p, rep)
  }

  // ---------------------------------------------------------------------
  // Properties of strip

  /** Stripping recovers a text from any whitespace padding around it, as
      long as the text itself neither starts nor ends with whitespace. */
  lemma {:induction false} StripPadded(pre: string, core: string, post: string)
    requires AllSpace(pre) && AllSpace(post)
    requires core != [] ==> !IsSpace(core[0]) && !IsSpace(core[|core| - 1])
    ensures Strip(pre + core + post) == core
  {
    if core == [] {
      assert pre + core + post == pre + post + [];
      TrimStartPadded(pre + post, []);
    } else {
      TrimStartPadded(pre, core + post);
      assert pre + core + post == pre + (core + post);
      TrimEndPadded(core, post);
    }
  }

  lemma {:induction false} TrimStartPadded(pre: string, s: string)
    requires AllSpace(pre)
    requires s != [] ==> !IsSpace(s[0])
    ensures TrimStart(pre + s) == s
  {
    if pre != [] {
      assert (pre + s)[1..] == pre[1..] + s;
      TrimStartPadded(pre[1..], s);
    } else {
      assert pre + s == s;
    }
  }

  lemma {:induction false} TrimEndPadded(s: string, post: string)
    requires AllSpace(post)
    requires s != [] ==> !IsSpace(s[|s| - 1])
    ensures TrimEnd(s + post) == s
  {
    if post != [] {
      var last := |post| - 1;
      assert (s + post)[..|s + post| - 1] == s + post[..last];
      TrimEndPadded(s, post[..last]);
    } else {
      assert s + post == s;
    }
  }

  /** Whatever strip returns has no whitespace at either end, and it is
      empty exactly when the input was all whitespace. */
  lemma StripResult(s: string)
    ensures var r := Strip(s);
      (r != [] ==> !IsSpace(r[0]) && !IsSpace(r[|r| - 1])) &&
      (r == [] <==> AllSpace(s))
  {
    var t := TrimStart(s);
    var r := TrimEnd(t);
    if r != [] {
      assert r[0] == t[0];
    }
    if r == [] {
      assert t == [];
      assert s[..|s|] == s;
    }
  }

  // ---------------------------------------------------------------------
  // get_backend_url

  /** The backend URL the environment file's lines name: the stripped value
      of the first line that starts with `REACT_APP_BACKEND_URL=`, or the
      local default when no line does. */
  function BackendUrl(lines: seq<string>): string {
    if lines == [] then DefaultBackendUrl
    else if StartsWith(lines[0], BackendUrlPrefix) then
      PrefixHasEquals(lines[0]);
      Strip(AfterFirst(lines[0], '='))
    else BackendUrl(lines[1..])
  }

  /** A line that starts with the prefix contains `=`, and the prefix's only
      `=` is its last character. */
  lemma PrefixHasEquals(line: string)
    requires StartsWith(line, BackendUrlPrefix)
    ensures '=' in line && FirstIndex(line, '=') == |BackendUrlPrefix| - 1
  {
    var n := |BackendUrlPrefix|;
    assert line[n - 1] == BackendUrlPrefix[n - 1] == '=';
    forall k | 0 <= k < n - 1 ensures line[k] != '=' {
      assert line[k] == BackendUrlPrefix[k];
    }
    FirstIndexUnique(line, '=', n - 1);
  }

  lemma {:induction false} FirstIndexUnique(s: string, c: char, i: nat)
    requires i < |s| && s[i] == c
    requires forall k :: 0 <= k < i ==> s[k] != c
    ensures c in s && FirstIndex(s, c) == i
  {
    if i > 0 {
      FirstIndexUnique(s[1..], c, i - 1);
    }
  }

  /** `line.split('=', 1)[1]` on a matching line is the line with the
      prefix removed: the value may itself contain `=`. */
  lemma ValueAfterPrefix(line: string)
    requires StartsWith(line, BackendUrlPrefix)
    ensures '=' in line && AfterFirst(line, '=') == line[|BackendUrlPrefix|..]
  {
    PrefixHasEquals(line);
  }

  /** The first matching line decides: lines after it are never read. */
  lemma {:induction false} BackendUrlFirstMatch(lines: seq<string>, i: nat)
    requires i < |lines| && StartsWith(lines[i], BackendUrlPrefix)
    requires forall k :: 0 <= k < i ==> !StartsWith(lines[k], BackendUrlPrefix)
    ensures BackendUrl(lines) == Strip(lines[i][|BackendUrlPrefix|..])
  {
    if i == 0 {
      ValueAfterPrefix(lines[0]);
    } else {
      assert !StartsWith(lines[0], BackendUrlPrefix);
      BackendUrlFirstMatch(lines[1..], i - 1);
    }
  }

  /** Without a matching line the result is the local default. */
  lemma {:induction false} BackendUrlDefault(lines: seq<string>)
    requires forall k :: 0 <= k < |lines| ==> !StartsWith(lines[k], BackendUrlPrefix)
    ensures BackendUrl(lines) == DefaultBackendUrl
  {
    if lines != [] {
      assert !StartsWith(lines[0], BackendUrlPrefix);
      BackendUrlDefault(lines[1..]);
    }
  }

  /** `get_backend_url` after the file has been opened: scans the lines and
      returns at the first match. */
  method GetBackendUrl(lines: seq<string>) returns (url: string)
    ensures url == BackendUrl(lines)
  {
    var i := 0;
    while i < |lines|
      invariant 0 <= i <= |lines|
      invariant BackendUrl(lines[i..]) == BackendUrl(lines)
    {
      var line := lines[i];
      if StartsWith(line, BackendUrlPrefix) {
        PrefixHasEquals(line);
        var parts := line[FirstIndex(line, '=') + 1..];
        url := Strip(parts);
        return;
      }
      assert lines[i..][1..] == lines[i + 1..];
      i := i + 1;
    }
    url := DefaultBackendUrl;
  }

  // ---------------------------------------------------------------------
  // API_BASE and the WebSocket URL

  /** `f"{BACKEND_URL}/api"`. */
  function ApiBase(backendUrl: string): (r: string)
    ensures StartsWith(r, backendUrl) && r[|backendUrl|..] == "/api"
  {
    backendUrl + "/api"
  }

  /** `f"{API_BASE}/ws".replace('https://', 'wss://').replace('http://', 'ws://')`. */
  function WsUrl(apiBase: string): string {
    Replace(Replace(apiBase + "/ws", "https://", "wss://"), "http://", "ws://")
  }

  /** Replacing skips over a stretch none of whose characters can start
      the pattern. */
  lemma {:induction false} ReplaceSkip(a: string, t: string, p: string, rep: string)
    requires p != []
    requires forall i :: 0 <= i < |a| ==> a[i] != p[0]
    ensures Replace(a + t, p, rep) == a + Replace(t, p, rep)
    decreases |a|
  {
    if a == [] {
      assert a + t == t;
    } else {
      var s := a + t;
      assert s[0] != p[0];
      assert s[1..] == a[1..] + t;
      ReplaceSkip(a[1..], t, p, rep);
      assert [a[0]] + (a[1..] + Replace(t, p, rep)) == a + Replace(t, p, rep);
    }
  }

  /** A pattern at the front is replaced, and the rest is processed on. */
  lemma ReplaceFront(t: string, p: string, rep: string)
    requires p != []
    ensures Replace(p + t, p, rep) == rep + Replace(t, p, rep)
  {
    assert (p + t)[..|p|] == p;
    assert (p + t)[|p|..] == t;
  }

  /** `http://` at the front is not `https://`; the rest holds no `h`. */
  lemma HttpIsNotHttps(t: string)
    ensures Replace("http://" + t, "https://", "wss://") == "http://" + Replace(t, "https://", "wss://")
  {
    var s := "http://" + t;
    assert s[4] == ':';
    assert !StartsWith(s, "https://");
    assert s[1..] == "ttp://" + t;
    ReplaceSkip("ttp://", t, "https://", "wss://");
  }

  /** Whatever follows `https://`, the WebSocket URL starts with `wss://`;
      the rest of `API_BASE + "/ws"` goes through both rewrites. */
  lemma WsUrlHttpsAny(rest: string)
    ensures WsUrl(ApiBase("https://" + rest)) ==
      "wss://" + Replace(Replace(rest + "/api/ws", "https://", "wss://"), "http://", "ws://")
  {
    var t := rest + "/api/ws";
    WsInput("https://", rest);
    ReplaceFront(t, "https://", "wss://");
    ReplaceSkip("wss://", Replace(t, "https://", "wss://"), "http://", "ws://");
  }

  /** Whatever follows `http://`, the WebSocket URL starts with `ws://`;
      the rest of `API_BASE + "/ws"` goes through both rewrites. */
  lemma WsUrlHttpAny(rest: string)
    ensures WsUrl(ApiBase("http://" + rest)) ==
      "ws://" + Replace(Replace(rest + "/api/ws", "https://", "wss://"), "http://", "ws://")
  {
    var t := rest + "/api/ws";
    WsInput("http://", rest);
    HttpIsNotHttps(t);
    ReplaceFront(Replace(t, "https://", "wss://"), "http://", "ws://");
  }

  /** An `https` backend gets a `wss` WebSocket URL, with the rest of the
      URL unchanged, when the rest names no further scheme. */
  lemma WsUrlHttps(rest: string)
    requires !Occurs(rest + "/api/ws", "https://") && !Occurs(rest + "/api/ws", "http://")
    ensures WsUrl(ApiBase("https://" + rest)) == "wss://" + rest + "/api/ws"
  {
    WsUrlHttpsAny(rest);
    AppendAssoc("wss://", rest, "/api/ws");
  }

  /** An `http` backend gets a `ws` WebSocket URL, with the rest of the URL
      unchanged, when the rest names no further scheme. */
  lemma WsUrlHttp(rest: string)
    requires !Occurs(rest + "/api/ws", "https://") && !Occurs(rest + "/api/ws", "http://")
    ensures WsUrl(ApiBase("http://" + rest)) == "ws://" + rest + "/api/ws"
  {
    WsUrlHttpAny(rest);
    AppendAssoc("ws://", rest, "/api/ws");
  }

  /** The text the rewrite starts from: `API_BASE + "/ws"`. */
  lemma WsInput(scheme: string, rest: string)
    ensures ApiBase(scheme + rest) + "/ws" == scheme + (rest + "/api/ws")
  {
    assert "/api" + "/ws" == "/api/ws";
  }

  /** With the default backend the WebSocket URL is
      `ws://localhost:8001/api/ws`. */
  lemma DefaultWsUrl()
    ensures WsUrl(ApiBase(DefaultBackendUrl)) == "ws://localhost:8001/api/ws"
  {
    var rest := "localhost:8001";
    DefaultSplits();
    LocalNoScheme();
    WsUrlHttp(rest);
    DefaultWsText();
  }

  lemma DefaultWsText()
    ensures "ws://" + "localhost:8001" + "/api/ws" == "ws://localhost:8001/api/ws"
  {
  }

  lemma DefaultSplits()
    ensures DefaultBackendUrl == "http://" + "localhost:8001"
  {
  }

  lemma LocalNoScheme()
    ensures !Occurs("localhost:8001" + "/api/ws", "https://") && !Occurs("localhost:8001" + "/api/ws", "http://")
  {
    var t := "localhost:8001" + "/api/ws";
    assert t == "localhost:8001/api/ws";
    NoSchemeIn(t);
  }

  /** A text in which no `h` is followed by `t` holds neither scheme. */
  lemma {:induction false} NoSchemeIn(s: string)
    requires forall i :: 0 <= i < |s| - 1 ==> !(s[i] == 'h' && s[i + 1] == 't')
    ensures !Occurs(s, "https://") && !Occurs(s, "http://")
    decreases |s|
  {
    if |s| >= 7 {
      assert s[..7][0] == s[0] && s[..7][1] == s[1];
    }
    if |s| >= 8 {
      assert s[..8][0] == s[0] && s[..8][1] == s[1];
    }
    if s != [] {
      NoSchemeIn(s[1..]);
    }
  }
}
