/**
 * `EnforceHTTPS`: a request that a proxy reports as having arrived over plain
 * HTTP (X-Forwarded-Proto exactly "http") is answered with a permanent
 * redirect to the same host, path and query over HTTPS; every other request
 * goes on to the next handler untouched.
 */
module Middleware {
  import opened Wrappers

  /** `http.StatusPermanentRedirect`. */
  const StatusPermanentRedirect: int := 308

  /** The parts of a request the middleware reads; `forwardedProto` is "" when the header is
      absent, as `Header.Get` reports it. */
  datatype Request = Request(forwardedProto: string, host: string, path: string, rawQuery: string)

  /** `target` is the URL handed to `http.Redirect`, before it percent-escapes the
      non-ASCII bytes for the Location header. */
  datatype Decision = Redirect(status: int, target: string) | Next(request: Request)

  function RedirectTarget(r: Request): string
  {
    var target := "https://" + r.host + r.path;
    if |r.rawQuery| > 0 then target + "?" + r.rawQuery else target
  }

  function EnforceHTTPS(r: Request): (d: Decision)
    ensures d.Redirect? <==> r.forwardedProto == "http"
    ensures d.Redirect? ==> d.status == StatusPermanentRedirect && d.target == RedirectTarget(r)
    ensures d.Next? ==> d.request == r
  {
    if r.forwardedProto == "http" then Redirect(StatusPermanentRedirect, RedirectTarget(r))
    else Next(r)
  }

  /** Splits a string at its first occurrence of `c`: the text before it, and the text after
      it if it occurs at all. */
  function CutAt(s: string, c: char): (string, Option<string>)
  {
    if |s| == 0 then (s, None)
    else if s[0] == c then ("", Some(s[1..]))
    else
      var (before, after) := CutAt(s[1..], c);
      ([s[0]] + before, after)
  }

  lemma {:induction false} CutAtFirst(a: string, c: char, b: string)
    requires c !in a
    ensures CutAt(a + [c] + b, c) == (a, Some(b))
  {
    if |a| > 0 {
      assert (a + [c] + b)[1..] == a[1..] + [c] + b;
      assert a[0] in a;
      assert forall x :: x in a[1..] ==> x in a;
      CutAtFirst(a[1..], c, b);
      assert a == [a[0]] + a[1..];
    } else {
      assert a + [c] + b == [c] + b;
    }
  }

  lemma {:induction false} CutAtAbsent(a: string, c: char)
    requires c !in a
    ensures CutAt(a, c) == (a, None)
  {
    if |a| > 0 {
      assert a[0] in a;
      assert forall x :: x in a[1..] ==> x in a;
      CutAtAbsent(a[1..], c);
      assert a == [a[0]] + a[1..];
    }
  }

  /** The redirect target is "https://" followed by host and path, and the query can be read
      back from it: it carries "?" + RawQuery if and only if RawQuery is non-empty (when
      neither host nor path contains a '?'). */
  lemma RedirectTargetParts(r: Request)
    requires '?' !in r.host + r.path
    ensures var t := RedirectTarget(r);
      && "https://" <= t
      && CutAt(t[8..], '?') == (r.host + r.path, if |r.rawQuery| > 0 then Some(r.rawQuery) else None)
  {
    var t := RedirectTarget(r);
    var hp := r.host + r.path;
    if |r.rawQuery| > 0 {
      assert t[8..] == hp + ['?'] + r.rawQuery;
      CutAtFirst(hp, '?', r.rawQuery);
    } else {
      assert t[8..] == hp;
      CutAtAbsent(hp, '?');
    }
  }

  /** `path` is the decoded path, so a '?' in it (sent as "%3F") reaches the target
      undecoded and the client reads the rest as query: GET /a%3Fb?x=1 on host "h" is sent
      to https://h/a?b?x=1, whose path is "/a" and whose query is "b?x=1". */
  lemma RedirectTargetAmbiguous()
    ensures var t := RedirectTarget(Request("http", "h", "/a?b", "x=1"));
      && t == "https://h/a?b?x=1"
      && CutAt(t[8..], '?') == ("h/a", Some("b?x=1"))
  {
    var t := RedirectTarget(Request("http", "h", "/a?b", "x=1"));
    assert t[8..] == "h/a" + ['?'] + "b?x=1";
    CutAtFirst("h/a", '?', "b?x=1");
  }

  /** The escaping `URL.EscapedPath` applies to the characters that would otherwise end
      the path of a URL or start an escape: '%', '?' and '#'. */
  function EscapePath(p: string): string
  {
    if |p| == 0 then ""
    else EscapeChar(p[0]) + EscapePath(p[1..])
  }

  function EscapeChar(c: char): string
  {
    match c
    case '%' => "%25"
    case '?' => "%3F"
    case '#' => "%23"
    case _ => [c]
  }

  /** How a client decodes those three escapes again. */
  function UnescapePath(e: string): string
  {
    if |e| >= 3 && e[0] == '%' && e[1..3] == "25" then ['%'] + UnescapePath(e[3..])
    else if |e| >= 3 && e[0] == '%' && e[1..3] == "3F" then ['?'] + UnescapePath(e[3..])
    else if |e| >= 3 && e[0] == '%' && e[1..3] == "23" then ['#'] + UnescapePath(e[3..])
    else if |e| == 0 then ""
    else [e[0]] + UnescapePath(e[1..])
  }

  lemma {:induction false} EscapeRoundTrip(p: string)
    ensures UnescapePath(EscapePath(p)) == p
    ensures '?' !in EscapePath(p)
  {
    if |p| > 0 {
      EscapeRoundTrip(p[1..]);
      var rest := EscapePath(p[1..]);
      var e := EscapeChar(p[0]) + rest;
      assert EscapePath(p) == e;
      if p[0] == '%' || p[0] == '?' || p[0] == '#' {
        assert e[1..3] == EscapeChar(p[0])[1..3];
        assert e[3..] == rest;
      } else {
        assert e[1..] == rest;
      }
      assert p == [p[0]] + p[1..];
    }
  }

  /** The target built from the escaped path, as `r.URL.EscapedPath()` would give it. */
  function EscapedRedirectTarget(r: Request): (t: string)
    ensures "https://" <= t
  {
    var target := "https://" + r.host + EscapePath(r.path);
    if |r.rawQuery| > 0 then target + "?" + r.rawQuery else target
  }

  /** With the path escaped, the target reads back as the same host, path and query: only
      a '?' in the host (which Go's server rejects in a Host header) could split it wrongly. */
  lemma EscapedTargetParts(r: Request)
    requires '?' !in r.host
    ensures var t := EscapedRedirectTarget(r);
      && CutAt(t[8..], '?') == (r.host + EscapePath(r.path), if |r.rawQuery| > 0 then Some(r.rawQuery) else None)
      && UnescapePath(EscapePath(r.path)) == r.path
  {
    var t := EscapedRedirectTarget(r);
    var hp := r.host + EscapePath(r.path);
    EscapeRoundTrip(r.path);
    NotInEither(r.host, EscapePath(r.path), '?');
    if |r.rawQuery| > 0 {
      assert t[8..] == hp + ['?'] + r.rawQuery;
      CutAtFirst(hp, '?', r.rawQuery);
    } else {
      assert t[8..] == hp;
      CutAtAbsent(hp, '?');
    }
  }

  lemma NotInEither(a: string, b: string, c: char)
    requires c !in a && c !in b
    ensures c !in a + b
  {
  }

  /** Only the exact lower-case value redirects: "HTTP", "https" and an absent header pass. */
  lemma OtherProtocolsPass(host: string, path: string, query: string)
    ensures EnforceHTTPS(Request("HTTP", host, path, query)).Next?
    ensures EnforceHTTPS(Request("https", host, path, query)).Next?
    ensures EnforceHTTPS(Request("", host, path, query)).Next?
  {
  }
}
