/** Parsing a URI and printing its request part again (fasthttp/uri.go, `parse`, `splitHostURI` and
    `RequestURI`), with path normalising on. The syntax check of the host (`parseHost`) is a parameter. */
module Uri {
  import opened Basics
  import opened Segments
  import opened PathFold
  import opened Percent
  import opened QueryArgs
  import opened NormalizePath

  // ---------------------------------------------------------------- meaning

  datatype Parts = Parts(
    scheme: string, username: string, password: string, host: string,
    pathOriginal: string, path: string, queryString: string, hash: string)

  predicate IsCTL(c: char) {
    c < ' ' || c == 0x7f as char
  }

  ghost predicate NoCTL(s: string) {
    forall i :: 0 <= i < |s| ==> !IsCTL(s[i])
  }

  function Lower(s: string): string {
    seq(|s|, i requires 0 <= i < |s| => if 'A' <= s[i] <= 'Z' then (s[i] as int + 32) as char else s[i])
  }

  lemma LowerNothing()
    ensures Lower("") == ""
  {
  }

  /** `splitHostURI`: scheme, host and the rest of an absolute URI. */
  function SplitHostURI(host: string, uri: string): (string, string, string) {
    var slashes := Find(uri, "//");
    if slashes.None? || '/' in uri[..slashes.value] then ("http", host, uri)
    else
      var n := slashes.value;
      var scheme := if n > 0 && uri[n - 1] == ':' then uri[..n - 1] else uri[..n];
      var (newHost, newURI) := SplitHost(uri[n + 2..]);
      (scheme, newHost, newURI)
  }

  /** The host ends at the first '/' or '?'. */
  function SplitHost(s: string): (string, string) {
    var slash, query := IndexOf(s, '/'), IndexOf(s, '?');
    var end := if query < slash then query else slash;
    if end == |s| then (s, "/") else (s[..end], s[end..])
  }

  lemma SplitHostParts(s: string)
    ensures var (h, rest) := SplitHost(s);
            NoSlash(h) && '?' !in h && rest != "" && (s == h + rest || (s == h && rest == "/"))
  {
    hide IndexOf;
  }

  /** User name, password and what follows the first '@'. */
  function SplitAuth(host: string): (string, string, string) {
    var at := IndexOf(host, '@');
    if at == |host| then ("", "", host)
    else
      var auth, rest := host[..at], host[at + 1..];
      var colon := IndexOf(auth, ':');
      if colon == |auth| then (auth, "", rest) else (auth[..colon], auth[colon + 1..], rest)
  }

  /** What follows the first `c`, and what precedes it. */
  function UpTo(s: string, c: char): string {
    s[..IndexOf(s, c)]
  }

  function After(s: string, c: char): string {
    if IndexOf(s, c) == |s| then "" else s[IndexOf(s, c) + 1..]
  }

  /** The URI reference without scheme and host: hash after the first '#', query after the first '?'
      before it. */
  function PathAndQuery(uri: string): (string, string, string) {
    var b := UpTo(uri, '#');
    (UpTo(b, '?'), After(b, '?'), After(uri, '#'))
  }

  /** Does the URI bring its own host? */
  predicate Absolute(host: string, uri: string) {
    host == "" || Find(uri, "://").Some?
  }

  /** `parse`; `None` is an error. */
  ghost function ParseURI(parseHost: string -> Option<string>, host: string, uri: string, isTLS: bool): Option<Parts> {
    if !NoCTL(uri) then None
    else
      var (scheme, newHost, newURI) := if Absolute(host, uri) then SplitHostURI(host, uri) else ("", host, uri);
      var (username, password, bare) := SplitAuth(newHost);
      var parsedHost := parseHost(bare);
      if parsedHost.None? then None
      else
        var (original, query, hash) := PathAndQuery(newURI);
        Some(Parts(Lower(if isTLS then "https" else scheme), username, password, Lower(parsedHost.value),
                   original, Normal(Prepared(original)), query, hash))
  }

  /** Is the host acceptable as it stands? */
  predicate Accepted(parseHost: string -> Option<string>, host: string) {
    parseHost(SplitAuth(host).2).Some?
  }

  /** `RequestURI`: the quoted path, then the printed arguments if there are any, else the query. */
  function RequestURIOf(path: string, query: string, args: Option<seq<Arg>>): string
    requires IsBytes(path) && (args.Some? ==> AllBytes(args.value))
  {
    if args.Some? && args.value != [] then QuotedPath(path) + Tail(true, Printed(args.value))
    else QuotedPath(path) + Tail(query != "", query)
  }

  function Tail(mark: bool, query: string): string {
    if mark then "?" + query else ""
  }

  // ---------------------------------------------------------------- pieces of the input

  /** Slashes that start an authority: nothing but a scheme precedes them. */
  predicate HostAt(uri: string, n: int) {
    OccursAt(uri, "//", n) && NoSlash(uri[..n])
  }

  function Composed(scheme: string, colon: bool, host: string, path: string): string {
    scheme + (if colon then ":" else "") + "//" + (host + path)
  }

  /** Without an authority the URI is kept; otherwise it is put together from the pieces. */
  lemma SplitHostPieces(host: string, uri: string)
    ensures var (scheme, h, rest) := SplitHostURI(host, uri);
            if forall n :: !HostAt(uri, n) then scheme == "http" && h == host && rest == uri
            else
              && NoSlash(scheme) && NoSlash(h) && '?' !in h && rest != ""
              && exists colon, path :: uri == Composed(scheme, colon, h, path)
                                       && (path == rest || (path == "" && rest == "/"))
  {
    var slashes := Find(uri, "//");
    if slashes.Some? && NoSlash(uri[..slashes.value]) {
      assert HostAt(uri, slashes.value);
      SplitHostAbsolute(host, uri, slashes.value);
    } else {
      forall n
        ensures !HostAt(uri, n)
      {
        if HostAt(uri, n) {
          OnlyFirstSlashes(uri, n);
        }
      }
    }
  }

  lemma OnlyFirstSlashes(uri: string, n: int)
    requires HostAt(uri, n)
    ensures Find(uri, "//") == Some(n)
  {
    var f := Find(uri, "//");
    assert OccursAt(uri, "//", n);
    if f.Some? && f.value < n {
      SlashBefore(uri, f.value, n);
    }
  }

  lemma SlashBefore(s: string, k: nat, n: nat)
    requires OccursAt(s, "//", k) && k < n <= |s|
    ensures '/' in s[..n]
  {
    assert s[k..k + 2][0] == '/';
    assert s[..n][k] == s[k];
  }

  lemma SplitHostAbsolute(host: string, uri: string, n: nat)
    requires Find(uri, "//") == Some(n) && NoSlash(uri[..n])
    ensures var (scheme, h, rest) := SplitHostURI(host, uri);
            && NoSlash(scheme) && NoSlash(h) && '?' !in h && rest != ""
            && exists colon, path :: uri == Composed(scheme, colon, h, path)
                                     && (path == rest || (path == "" && rest == "/"))
  {
    assert OccursAt(uri, "//", n);
    hide SplitHost, Find;
    SplitAtSlashes(uri, n);
    var (scheme, h, rest) := SplitHostURI(host, uri);
    var colon := n > 0 && uri[n - 1] == ':';
    assert uri[..n] == scheme + if colon then ":" else "";
    var tail := uri[n + 2..];
    SplitHostParts(tail);
    var path := if tail == h + rest then rest else "";
    assert tail == h + path;
    assert uri == Composed(scheme, colon, h, path);
  }

  lemma SplitAtSlashes(uri: string, n: nat)
    requires OccursAt(uri, "//", n)
    ensures n + 2 <= |uri| && uri == uri[..n] + "//" + uri[n + 2..]
  {
    assert uri == uri[..n] + uri[n..n + 2] + uri[n + 2..];
  }

  lemma UpToLacks(s: string, c: char)
    ensures c !in UpTo(s, c)
  {
  }

  /** Path, query and hash hold characters of the URI only; the path no '?', neither of them a '#'. */
  lemma PathAndQueryPieces(uri: string)
    ensures var (path, query, hash) := PathAndQuery(uri);
            AllOf(path, uri) && AllOf(query, uri) && '?' !in path && '#' !in path && '#' !in query
  {
    var b := UpTo(uri, '#');
    assert AllOf(b, uri);
    UpToLacks(uri, '#');
    UpToLacks(b, '?');
    assert AllOf(UpTo(b, '?'), b) && AllOf(After(b, '?'), b);
  }

  lemma SplitHostChars(host: string, uri: string)
    ensures AllOf(SplitHostURI(host, uri).2, uri + "/")
  {
  }

  lemma SplitHostBytes(host: string, uri: string)
    requires IsBytes(uri)
    ensures IsBytes(SplitHostURI(host, uri).2)
  {
  }

  lemma AllOfBytes(s: string, of: string)
    requires AllOf(s, of)
    ensures IsBytes(of) ==> IsBytes(s)
    ensures NoCTL(of) ==> NoCTL(s)
  {
    forall i | 0 <= i < |s|
      ensures s[i] in of
    {
      assert s[i] in s;
    }
  }

  /** What holds of every parsed URI. */
  ghost predicate Sound(p: Parts) {
    && IsBytes(p.path) && Rooted(p.path) && Normal(p.path) == p.path
    && IsBytes(p.queryString) && NoCTL(p.queryString) && '#' !in p.queryString
  }

  lemma PreparedIsBytes(s: string)
    requires IsBytes(s)
    ensures IsBytes(Prepared(s))
  {
    DecodedIsBytes(s, false);
  }

  lemma ParsedIsSound(parseHost: string -> Option<string>, host: string, uri: string, isTLS: bool)
    requires IsBytes(uri) && ParseURI(parseHost, host, uri, isTLS).Some?
    ensures Sound(ParseURI(parseHost, host, uri, isTLS).value)
  {
    hide SplitHostURI, PathAndQuery, Normal, Prepared, SplitAuth, Lower;
    var newURI := if Absolute(host, uri) then SplitHostURI(host, uri).2 else uri;
    SplitHostChars(host, uri);
    assert AllOf(newURI, uri + "/");
    PathAndQueryPieces(newURI);
    var (original, query, hash) := PathAndQuery(newURI);
    AllOfBytes(original, uri + "/");
    AllOfBytes(query, uri + "/");
    PreparedIsBytes(original);
    NormalIdempotent(Prepared(original));
    NormalChars(Prepared(original));
    AllOfBytes(Normal(Prepared(original)), Prepared(original));
  }

  // ---------------------------------------------------------------- reparsing

  lemma QuotedPathStart(path: string)
    requires IsBytes(path) && Rooted(path)
    ensures |QuotedPath(path)| >= 1 && QuotedPath(path)[0] == '/'
    ensures |QuotedPath(path)| >= 2 && QuotedPath(path)[1] == '/' ==> |path| >= 2 && path[1] == '/'
  {
    if |path| == 1 {
      assert path[..0] == "";
    } else {
      QuotedPathStart(path[..|path| - 1]);
      if |path| == 2 {
        assert path[..1][..0] == "";
      }
    }
  }

  lemma {:induction false} PrintedChars(args: seq<Arg>, c: char)
    requires AllBytes(args) && c in Printed(args)
    ensures !IsCTL(c) && c != '#' && c as int < 256
  {
    hide QuotedArg;
    var a := args[0];
    if c in QuotedArg(a.key) {
      QuotedArgChar(a.key, c);
    } else if c in QuotedArg(a.value) {
      QuotedArgChar(a.value, c);
    } else if |args| > 1 && c in Printed(args[1..]) {
      PrintedChars(args[1..], c);
    }
  }

  lemma QuotedArgChar(s: string, c: char)
    requires IsBytes(s) && c in QuotedArg(s)
    ensures !IsCTL(c) && c != '#' && c as int < 256
  {
    var i :| 0 <= i < |QuotedArg(s)| && QuotedArg(s)[i] == c;
    QuotedArgChars(s, i);
  }

  lemma QuotedPathChar(s: string, c: char)
    requires IsBytes(s) && c in QuotedPath(s)
    ensures !IsCTL(c) && c != '#' && c != '?'
  {
    var i :| 0 <= i < |QuotedPath(s)| && QuotedPath(s)[i] == c;
    QuotedPathChars(s, i);
  }

  /** The path and query of a byte string are byte strings, and so is the normal path. */
  lemma PiecesAreBytes(b: string)
    requires IsBytes(b)
    ensures var (p, q, _) := PathAndQuery(b); IsBytes(p) && IsBytes(q) && IsBytes(Normal(Prepared(p)))
  {
    hide Normal, Prepared, PathAndQuery;
    var (p, q, _) := PathAndQuery(b);
    PathAndQueryPieces(b);
    AllOfBytes(p, b);
    AllOfBytes(q, b);
    PreparedIsBytes(p);
    NormalChars(Prepared(p));
    AllOfBytes(Normal(Prepared(p)), Prepared(p));
  }

  /** The parts of a request URI: nothing in the quoted path ends it early. */
  lemma RequestPieces(path: string, mark: bool, query: string)
    requires (!mark ==> query == "") && IsBytes(path) && '#' !in query
    ensures PathAndQuery(QuotedPath(path) + Tail(mark, query)) == (QuotedPath(path), query, "")
  {
    hide QuotedPath, IndexOf, After;
    var p := QuotedPath(path);
    forall c | c in p
      ensures c != '#' && c != '?'
    {
      QuotedPathChar(path, c);
    }
    MarkedPieces(p, mark, query);
  }

  lemma MarkedPieces(p: string, mark: bool, query: string)
    requires (!mark ==> query == "") && '#' !in query && '#' !in p && '?' !in p
    ensures PathAndQuery(p + Tail(mark, query)) == (p, query, "")
  {
    hide IndexOf, After;
    var uri := p + Tail(mark, query);
    assert forall i :: 0 <= i < |p| ==> uri[i] == p[i] && uri[i] in p;
    IndexOfUnique(uri, '#', |uri|);
    AfterAt(uri, '#', |uri|);
    assert uri[..|uri|] == uri;
    IndexOfUnique(uri, '?', |p|);
    AfterAt(uri, '?', |p|);
    assert uri[..|p|] == p;
    assert mark ==> uri[|p| + 1..] == query;
  }

  /** A request URI has no authority, even with "://" in the query. */
  lemma RequestIsRelative(host: string, path: string, mark: bool, query: string)
    requires IsBytes(path) && Rooted(path) && Normal(path) == path
    ensures SplitHostURI(host, QuotedPath(path) + Tail(mark, query)) == ("http", host, QuotedPath(path) + Tail(mark, query))
  {
    hide QuotedPath, SplitHostURI;
    var uri := QuotedPath(path) + Tail(mark, query);
    QuotedPathStart(path);
    NormalStart(path);
    assert uri[0] == '/' && !(|uri| >= 2 && uri[1] == '/');
    forall n
      ensures !HostAt(uri, n)
    {
      if n == 0 {
        assert |uri| >= 2 ==> uri[0..2][1] == uri[1];
      } else if 0 < n && OccursAt(uri, "//", n) {
        assert uri[..n][0] == '/';
      }
    }
    SplitHostPieces(host, uri);
  }

  lemma RequestNoCTL(path: string, mark: bool, query: string)
    requires IsBytes(path) && NoCTL(query)
    ensures NoCTL(QuotedPath(path) + Tail(mark, query))
  {
    hide QuotedPath;
    forall c | c in QuotedPath(path)
      ensures !IsCTL(c)
    {
      QuotedPathChar(path, c);
    }
  }

  /** Decoding and normalising the quoted form of a normal path gives it back. */
  lemma RequestPath(path: string)
    requires IsBytes(path) && Rooted(path) && Normal(path) == path
    ensures Normal(Prepared(QuotedPath(path))) == path
  {
    hide Normal, QuotedPath, Decoded;
    QuotedPathStart(path);
    PathRoundTrip(path, "");
    assert QuotedPath(path) + "" == QuotedPath(path);
    DecodedNothing();
    assert path + "" == path;
    assert "" + path == path;
  }

  lemma DecodedNothing()
    ensures Decoded("", false) == ""
  {
  }

  lemma ReparseQuery(
      parseHost: string -> Option<string>, host: string, path: string, mark: bool, query: string, isTLS: bool)
    requires !mark ==> query == ""
    requires IsBytes(path) && Rooted(path) && Normal(path) == path && NoCTL(query) && '#' !in query
    requires host != "" && Accepted(parseHost, host)
    ensures var q := ParseURI(parseHost, host, QuotedPath(path) + Tail(mark, query), isTLS);
            q.Some? && q.value.path == path && q.value.queryString == query && q.value.hash == ""
  {
    hide QuotedPath, SplitHostURI, PathAndQuery, SplitAuth, Normal, Prepared, NoCTL, Tail, Lower;
    RequestNoCTL(path, mark, query);
    RequestIsRelative(host, path, mark, query);
    RequestPieces(path, mark, query);
    RequestPath(path);
  }

  /** Reparsing the request URI of a parsed URI under any accepted host keeps path and query; with
      parsed arguments it keeps the argument list, and the query too if that is empty. */
  lemma Reparse(
      parseHost: string -> Option<string>, host: string, uri: string, isTLS: bool,
      parseHost': string -> Option<string>, host': string, isTLS': bool)
    requires IsBytes(uri) && ParseURI(parseHost, host, uri, isTLS).Some?
    requires host' != "" && Accepted(parseHost', host')
    ensures var p := ParseURI(parseHost, host, uri, isTLS).value;
            && Sound(p) && AllBytes(Parsed(p.queryString))
            && var q := ParseURI(parseHost', host', RequestURIOf(p.path, p.queryString, None), isTLS');
            && q.Some? && q.value.path == p.path && q.value.queryString == p.queryString
            && var r := ParseURI(parseHost', host', RequestURIOf(p.path, p.queryString, Some(Parsed(p.queryString))), isTLS');
            && r.Some? && r.value.path == p.path && Parsed(r.value.queryString) == Parsed(p.queryString)
            && r.value.queryString == if Parsed(p.queryString) == [] then p.queryString else Printed(Parsed(p.queryString))
  {
    ParsedIsSound(parseHost, host, uri, isTLS);
    hide ParseURI, Parsed, Printed, Normal, QuotedPath;
    var p := ParseURI(parseHost, host, uri, isTLS).value;
    ReparseQuery(parseHost', host', p.path, p.queryString != "", p.queryString, isTLS');
    ParsePrintParse(p.queryString);
    var args := Parsed(p.queryString);
    PrintedSafe(args);
    ReparseQuery(parseHost', host', p.path, true, Printed(args), isTLS');
  }

  lemma PrintedSafe(args: seq<Arg>)
    requires AllBytes(args)
    ensures NoCTL(Printed(args)) && '#' !in Printed(args) && IsBytes(Printed(args))
  {
    forall c | c in Printed(args)
      ensures !IsCTL(c) && c != '#' && c as int < 256
    {
      PrintedChars(args, c);
    }
  }

  // ---------------------------------------------------------------- the object

  /** `stringContainsCTLByte`. */
  method ContainsCTL(s: string) returns (r: bool)
    ensures r == !NoCTL(s)
  {
    for i := 0 to |s|
      invariant forall j :: 0 <= j < i ==> !IsCTL(s[j])
    {
      if s[i] < ' ' || s[i] == 0x7f as char {
        return true;
      }
    }
    return false;
  }

  /** `URI`, without `DisablePathNormalizing` and the cached strings. */
  class URI {
    var scheme: string
    var username: string
    var password: string
    var host: string
    var pathOriginal: string
    var path: string
    var queryString: string
    var hash: string
    const queryArgs: Args
    var parsedQueryArgs: bool

    ghost predicate Valid()
      reads this, queryArgs
    {
      && queryArgs.Valid()
      && IsBytes(queryString)
      && (path == "" || (Rooted(path) && IsBytes(path)))
      && (parsedQueryArgs ==> queryArgs.Contents() == Parsed(queryString))
    }

    ghost function Fields(): Parts
      reads this
    {
      Parts(scheme, username, password, host, pathOriginal, path, queryString, hash)
    }

    /** The argument list, once it has been asked for. */
    ghost function Arguments(): Option<seq<Arg>>
      requires Valid()
      reads this, queryArgs
    {
      if parsedQueryArgs then Some(queryArgs.Contents()) else None
    }

    /** `Path`. */
    function Path(): (r: string)
      requires Valid()
      reads this, queryArgs
      ensures Rooted(r) && IsBytes(r)
    {
      if path == "" then "/" else path
    }

    constructor ()
      ensures Valid() && fresh(queryArgs) && Arguments() == None
    {
      queryArgs := new Args();
      scheme, username, password, host, pathOriginal, path, queryString, hash := "", "", "", "", "", "", "", "";
      parsedQueryArgs := false;
    }

    method Reset()
      requires Valid()
      modifies this, queryArgs
      ensures Valid() && Arguments() == None && Fields() == Parts("", "", "", "", "", "", "", "")
    {
      scheme, username, password, host, pathOriginal, path, queryString, hash := "", "", "", "", "", "", "", "";
      queryArgs.n := 0;
      parsedQueryArgs := false;
    }

    /** `parse`. */
    method Parse(parseHost: string -> Option<string>, host0: string, uri0: string, isTLS: bool) returns (ok: bool)
      requires Valid() && IsBytes(uri0)
      modifies this, queryArgs
      ensures Valid() && Arguments() == None
      ensures ok == ParseURI(parseHost, host0, uri0, isTLS).Some?
      ensures ok ==> Fields() == ParseURI(parseHost, host0, uri0, isTLS).value
    {
      hide Normal, Prepared, NoCTL, Parsed, SplitHostURI, SplitAuth, PathAndQuery, Lower, Find, IndexOf;
      Reset();
      var ctl := ContainsCTL(uri0);
      if ctl {
        return false;
      }
      var host1, uri := host0, uri0;
      if |host1| == 0 || Find(uri, "://").Some? {
        SplitHostBytes(host1, uri);
        var (scheme', newHost, newURI) := SplitHostURI(host1, uri);
        scheme := Lower(scheme');
        host1, uri := newHost, newURI;
      }
      if isTLS {
        scheme := Lower("https");
      }
      LowerNothing();
      host1 := SetAuth(host1);
      var parsedHost := parseHost(host1);
      if parsedHost.None? {
        return false;
      }
      host := Lower(parsedHost.value);
      SplitPath(uri);
      return true;
    }

    /** User name and password. */
    method SetAuth(host0: string) returns (bare: string)
      requires username == "" && password == ""
      modifies this`username, this`password
      ensures (username, password, bare) == SplitAuth(host0)
    {
      bare := host0;
      var at := IndexOf(bare, '@');
      if at < |bare| {
        var auth := bare[..at];
        bare := bare[at + 1..];
        var colon := IndexOf(auth, ':');
        if colon < |auth| {
          username, password := auth[..colon], auth[colon + 1..];
        } else {
          username, password := auth, "";
        }
      }
    }

    /** The end of `parse`: path, query and hash. */
    method SplitPath(b: string)
      requires Valid() && Arguments() == None && queryString == "" && hash == ""
      requires IsBytes(b)
      modifies this
      ensures Valid() && Arguments() == None
      ensures (pathOriginal, queryString, hash) == PathAndQuery(b) && path == Normal(Prepared(pathOriginal))
      ensures (scheme, username, password, host) == old((scheme, username, password, host))
    {
      hide Normal, Prepared, PathAndQuery, Parsed, IndexOf;
      var query, fragment := IndexOf(b, '?'), IndexOf(b, '#');
      if fragment < |b| && query > fragment {
        query := |b|;
      }
      SplitPathAt(b, query, fragment);
      assert b[..|b|] == b;
      if query == |b| && fragment == |b| {
        pathOriginal := b;
      } else if query < |b| {
        pathOriginal := b[..query];
        if fragment == |b| {
          queryString := b[query + 1..];
        } else {
          queryString := b[query + 1..fragment];
          hash := b[fragment + 1..];
        }
      } else {
        pathOriginal := b[..fragment];
        hash := b[fragment + 1..];
      }
      path := NormalizedPath(pathOriginal);
      PiecesAreBytes(b);
    }

    /** `QueryArgs`. */
    method ParseQueryArgs()
      requires Valid()
      modifies this, queryArgs
      ensures Valid() && Fields() == old(Fields()) && Arguments() == Some(Parsed(queryString))
    {
      if !parsedQueryArgs {
        queryArgs.ParseBytes(queryString);
        parsedQueryArgs := true;
      }
    }

    /** `RequestURI`. */
    method RequestURI() returns (r: string)
      requires Valid()
      ensures Arguments().Some? ==> AllBytes(Arguments().value)
      ensures r == RequestURIOf(Path(), queryString, Arguments())
    {
      hide Printed, QuotedPath, Parsed;
      ParsedIsBytes(queryString);
      r := AppendQuotedPath("", Path());
      if parsedQueryArgs && queryArgs.n > 0 {
        r := r + "?";
        r := queryArgs.AppendBytes(r);
        assert r == QuotedPath(Path()) + ("?" + Printed(queryArgs.Contents()));
      } else if |queryString| > 0 {
        r := r + "?";
        r := r + queryString;
        assert r == QuotedPath(Path()) + ("?" + queryString);
      }
    }
  }

  lemma AfterAt(s: string, c: char, i: nat)
    requires i == IndexOf(s, c)
    ensures After(s, c) == if i < |s| then s[i + 1..] else ""
  {
    hide IndexOf;
  }

  /** The two cuts of a URI reference, by the positions of the first '?' and '#'. */
  lemma SplitPathAt(b: string, query: nat, fragment: nat)
    requires fragment == IndexOf(b, '#')
    requires query == (if fragment < |b| && IndexOf(b, '?') > fragment then |b| else IndexOf(b, '?'))
    ensures fragment < |b| ==> query < fragment || query == |b|
    ensures PathAndQuery(b) ==
            if query < |b| then
              (b[..query], b[query + 1..fragment], if fragment < |b| then b[fragment + 1..] else "")
            else (b[..fragment], "", if fragment < |b| then b[fragment + 1..] else "")
  {
    hide IndexOf, After;
    var c := b[..fragment];
    assert c == UpTo(b, '#');
    assert After(b, '#') == if fragment < |b| then b[fragment + 1..] else "" by {
      AfterAt(b, '#', fragment);
    }
    if query < |b| {
      IndexOfUnique(c, '?', query);
      AfterAt(c, '?', query);
      assert c[..query] == b[..query] && c[query + 1..] == b[query + 1..fragment];
    } else {
      IndexOfUnique(c, '?', fragment);
      AfterAt(c, '?', fragment);
      assert c[..fragment] == b[..fragment];
    }
  }

  /** The request URI of one parsed URI, read by another under its own host. */
  method ReadBack(u: URI, v: URI, parseHost: string -> Option<string>, host: string, isTLS: bool) returns (ok: bool)
    requires u.Valid() && v.Valid() && u != v && u.queryArgs != v.queryArgs
    requires Sound(u.Fields()) && host != "" && Accepted(parseHost, host)
    modifies v, v.queryArgs
    ensures u.Valid() && v.Valid() && ok && v.path == u.path
    ensures Parsed(v.queryString) == Parsed(u.queryString)
    ensures !u.parsedQueryArgs || Parsed(u.queryString) == [] ==> v.queryString == u.queryString
  {
    hide ParseURI, Normal, QuotedPath, Printed, Parsed;
    var r := u.RequestURI();
    ghost var query := u.queryString;
    ghost var mark := query != "";
    if u.parsedQueryArgs && Parsed(query) != [] {
      ParsePrintParse(query);
      PrintedSafe(Parsed(query));
      query, mark := Printed(Parsed(query)), true;
    }
    ReparseQuery(parseHost, host, u.path, mark, query, isTLS);
    RequestIsBytes(u.path, mark, query);
    ok := v.Parse(parseHost, host, r, isTLS);
  }

  lemma RequestIsBytes(path: string, mark: bool, query: string)
    requires IsBytes(path) && IsBytes(query)
    ensures IsBytes(QuotedPath(path) + Tail(mark, query))
  {
    hide QuotedPath;
    var p := QuotedPath(path);
    forall i | 0 <= i < |p|
      ensures p[i] as int < 256
    {
      QuotedPathChars(path, i);
    }
  }
}
