/**
 * The front controller's rewrite of `REQUEST_URI` for requests that reach
 * the application through the `/api` prefix.
 */
module RequestUri {
  import opened Wrappers
  import opened Php

  const FrontPrefix: string := "/api/public/index.php/"

  predicate NoNewline(t: string)
  {
    forall i :: 0 <= i < |t| ==> t[i] != '\n'
  }

  /**
   * The group `(.+)` of `^/api/public/index\.php/(.+)$`: `.` does not match a
   * newline, and `$` also matches just before a final newline.
   */
  function FrontMatch(uri: string): (m: Option<string>)
    ensures m.Some? ==> m.value != "" && NoNewline(m.value) && StartsWith(uri, FrontPrefix)
    ensures m.Some? ==> uri == FrontPrefix + m.value || uri == FrontPrefix + m.value + "\n"
  {
    if !StartsWith(uri, FrontPrefix) then None
    else
      var rest := uri[|FrontPrefix|..];
      assert uri == FrontPrefix + rest;
      if rest != "" && NoNewline(rest) then Some(rest)
      else if |rest| >= 2 && rest[|rest| - 1] == '\n' && NoNewline(rest[..|rest| - 1]) then
        assert rest == rest[..|rest| - 1] + "\n";
        Some(rest[..|rest| - 1])
      else None
  }

  /** The rewritten URI. */
  function Normalize(uri: string): (r: string)
    ensures FrontMatch(uri).Some? ==> r == "/" + FrontMatch(uri).value
    ensures FrontMatch(uri).None? && StartsWith(uri, "/api/") ==> r == uri[4..]
    ensures !StartsWith(uri, "/api/") ==> r == uri
    ensures StartsWith(uri, "/api/") ==> r != "" && r[0] == '/'
  {
    var m := FrontMatch(uri);
    if m.Some? then "/" + m.value else if StartsWith(uri, "/api/") then uri[4..] else uri
  }

  /** A remainder without newline after the front-controller prefix is kept, behind a single slash. */
  lemma FrontPrefixStripped(r: string)
    requires r != "" && NoNewline(r)
    ensures Normalize(FrontPrefix + r) == "/" + r
  {
    assert (FrontPrefix + r)[..|FrontPrefix|] == FrontPrefix;
    assert (FrontPrefix + r)[|FrontPrefix|..] == r;
  }

  /** Any other URI under `/api/` only loses the `/api` part. */
  lemma ApiPrefixStripped(s: string)
    requires FrontMatch("/api/" + s).None?
    ensures Normalize("/api/" + s) == "/" + s
  {
    assert ("/api/" + s)[..5] == "/api/";
    assert ("/api/" + s)[4..] == "/" + s;
  }

  /** With nothing after it, the front-controller prefix falls to the second rule. */
  lemma EmptyRemainderFallsThrough()
    ensures Normalize(FrontPrefix) == "/public/index.php/"
  {
    assert FrontPrefix[..|FrontPrefix|] == FrontPrefix;
    assert FrontPrefix[..5] == "/api/";
  }

  /** `/api` itself is not under `/api/` and is kept. */
  lemma BareApiKept()
    ensures Normalize("/api") == "/api"
  {
  }

  /** A final newline after the remainder is dropped with the prefix. */
  lemma FinalNewlineDropped(r: string)
    requires r != "" && NoNewline(r)
    ensures Normalize(FrontPrefix + r + "\n") == "/" + r
  {
    var u := FrontPrefix + r + "\n";
    assert u[..|FrontPrefix|] == FrontPrefix;
    var rest := u[|FrontPrefix|..];
    assert rest == r + "\n";
    assert rest[..|rest| - 1] == r;
    assert !NoNewline(rest) by { assert rest[|rest| - 1] == '\n'; }
  }

  /** `if (isset($_SERVER['REQUEST_URI']))`: an absent URI stays absent. */
  function NormalizeServer(uri: Option<string>): (r: Option<string>)
    ensures r.Some? <==> uri.Some?
    ensures uri.Some? ==> r.value == Normalize(uri.value)
  {
    if uri.Some? then Some(Normalize(uri.value)) else None
  }
}
