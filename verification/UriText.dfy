/** Parsing a URI (fasthttp/uri.go, `parse`), on the text of the URI: which part of it becomes which
    field, with and without a host of its own. */
module UriText {
  import opened Basics
  import opened Ascii
  import opened Segments
  import opened PathFold
  import opened NormalizePath
  import Percent
  import opened PercentText
  import opened Uri

  // ---------------------------------------------------------------- the text of a URI

  /** An optional part behind its mark. */
  function Marked(mark: char, part: Option<string>): string {
    if part.Some? then [mark] + part.value else ""
  }

  function Given(part: Option<string>): string {
    if part.Some? then part.value else ""
  }

  /** User name and password, if there are any, and the host. */
  function Authority(user: Option<string>, password: Option<string>, h: string): string {
    (if user.Some? then user.value + Marked(':', password) + "@" else "") + h
  }

  /** Path, query and hash. */
  function Reference(path: string, query: Option<string>, hash: Option<string>): string {
    path + Marked('?', query) + Marked('#', hash)
  }

  predicate AuthorityOk(user: Option<string>, password: Option<string>, h: string) {
    && (user.Some? ==> ':' !in user.value && '@' !in user.value)
    && (password.Some? ==> user.Some? && '@' !in password.value)
    && '@' !in h
  }

  predicate ReferenceOk(path: string, query: Option<string>) {
    '?' !in path && '#' !in path && (query.Some? ==> '#' !in query.value)
  }

  // ---------------------------------------------------------------- the cuts

  lemma FirstIn(a: string, c: char, b: string)
    requires c !in a && (b == "" || b[0] == c)
    ensures IndexOf(a + b, c) == |a|
  {
    var s := a + b;
    assert forall j :: 0 <= j < |a| ==> s[j] == a[j];
    IndexOfUnique(s, c, |a|);
  }

  lemma UpToMark(a: string, c: char, part: Option<string>)
    requires c !in a
    ensures UpTo(a + Marked(c, part), c) == a && After(a + Marked(c, part), c) == Given(part)
  {
    hide IndexOf;
    FirstIn(a, c, Marked(c, part));
    var s := a + Marked(c, part);
    assert s[..|a|] == a;
    if part.Some? {
      assert s[|a| + 1..] == part.value;
    }
  }

  lemma ReferenceCut(path: string, query: Option<string>, hash: Option<string>)
    requires ReferenceOk(path, query)
    ensures PathAndQuery(Reference(path, query, hash)) == (path, Given(query), Given(hash))
  {
    hide UpTo, After;
    assert '#' !in path + Marked('?', query);
    UpToMark(path + Marked('?', query), '#', hash);
    UpToMark(path, '?', query);
  }

  lemma AuthorityCut(user: Option<string>, password: Option<string>, h: string)
    requires AuthorityOk(user, password, h)
    ensures SplitAuth(Authority(user, password, h)) == (Given(user), Given(password), h)
  {
    hide IndexOf;
    var s := Authority(user, password, h);
    if user.None? {
      assert s == h && h + "" == h;
      FirstIn(h, '@', "");
    } else {
      var auth := user.value + Marked(':', password);
      assert s == auth + ("@" + h);
      FirstIn(auth, '@', "@" + h);
      assert s[..|auth|] == auth && s[|auth| + 1..] == h;
      UserCut(user.value, password);
    }
  }

  lemma UserCut(user: string, password: Option<string>)
    requires ':' !in user
    ensures var auth := user + Marked(':', password);
            && IndexOf(auth, ':') == |user| && auth[..|user|] == user
            && (password.Some? ==> |auth| > |user| && auth[|user| + 1..] == password.value)
            && (password.None? ==> auth == user)
  {
    FirstIn(user, ':', Marked(':', password));
  }

  /** The rest of an absolute URI starts with a slash or a question mark, or is missing. */
  predicate RestOk(rest: string) {
    rest == "" || rest[0] == '/' || rest[0] == '?'
  }

  lemma HostCut(auth: string, rest: string)
    requires NoSlash(auth) && '?' !in auth && RestOk(rest)
    ensures SplitHost(auth + rest) == (auth, if rest == "" then "/" else rest)
  {
    var s := auth + rest;
    assert forall j :: 0 <= j < |auth| ==> s[j] == auth[j];
    hide IndexOf;
    var slash, query := IndexOf(s, '/'), IndexOf(s, '?');
    assert s[..|auth|] == auth && s[|auth|..] == rest;
    if rest == "" {
      IndexOfUnique(s, '/', |s|);
      IndexOfUnique(s, '?', |s|);
      assert s == auth;
    } else if rest[0] == '/' {
      IndexOfUnique(s, '/', |auth|);
      assert s[|auth|] == '/';
    } else {
      IndexOfUnique(s, '?', |auth|);
      assert s[|auth|] == '?';
    }
  }

  /** Where scheme and authority of an absolute URI are. */
  lemma SchemeCut(host: string, scheme: string, tail: string)
    requires NoSlash(scheme)
    ensures Absolute(host, scheme + "://" + tail)
    ensures SplitHostURI(host, scheme + "://" + tail) == (scheme, SplitHost(tail).0, SplitHost(tail).1)
  {
    hide SplitHost, Find;
    var uri, n := scheme + "://" + tail, |scheme| + 1;
    assert OccursAt(uri, "://", |scheme|);
    assert uri[..n] == scheme + ":" && uri[n + 2..] == tail && uri[..n - 1] == scheme;
    assert HostAt(uri, n) by {
      assert uri[n..n + 2] == "//";
    }
    OnlyFirstSlashes(uri, n);
    FoundSomewhere(uri, "://", |scheme|);
  }

  lemma FoundSomewhere(s: string, pat: string, i: nat)
    requires OccursAt(s, pat, i)
    ensures Find(s, pat).Some?
  {
  }

  // ---------------------------------------------------------------- absolute and relative URIs

  /** For every absolute URI, whatever host was given with it: the scheme, the user, the host, the
      path, the query and the hash of the URI itself become the fields. */
  lemma AbsoluteParsed(
      parseHost: string -> Option<string>, given: string, scheme: string, user: Option<string>, password: Option<string>,
      h: string, path: string, query: Option<string>, hash: Option<string>, isTLS: bool)
    requires NoSlash(scheme) && AuthorityOk(user, password, h) && ReferenceOk(path, query)
    requires NoSlash(Authority(user, password, h)) && '?' !in Authority(user, password, h)
    requires Rooted(path) || (path == "" && (query.Some? || hash.None?))
    requires NoCTL(scheme + "://" + (Authority(user, password, h) + Reference(path, query, hash)))
    ensures var uri := scheme + "://" + (Authority(user, password, h) + Reference(path, query, hash));
            var original := if path == "" && query.None? then "/" else path;
            ParseURI(parseHost, given, uri, isTLS) ==
            if parseHost(h).None? then None
            else Some(Parts(Lower(if isTLS then "https" else scheme), Given(user), Given(password), Lower(parseHost(h).value),
                            original, Normal(Prepared(original)), Given(query), Given(hash)))
  {
    hide Normal, Prepared, NoCTL, Lower, SplitAuth, PathAndQuery, Authority, SplitHostURI, SplitHost, Absolute;
    var auth, rest := Authority(user, password, h), Reference(path, query, hash);
    SchemeCut(given, scheme, auth + rest);
    HostCut(auth, rest);
    AuthorityCut(user, password, h);
    ReferenceCut(path, query, hash);
    ReferenceCut("/", None, None);
    assert "/" + "" + "" == "/";
  }

  /** For every URI without a host of its own, under a given host: no scheme but that of TLS, the user
      and host that were given, and the path, query and hash of the URI. */
  lemma RelativeParsed(
      parseHost: string -> Option<string>, user: Option<string>, password: Option<string>, h: string,
      path: string, query: Option<string>, hash: Option<string>, isTLS: bool)
    requires AuthorityOk(user, password, h) && ReferenceOk(path, query) && Authority(user, password, h) != ""
    requires Absent(Reference(path, query, hash), "://") && NoCTL(Reference(path, query, hash))
    ensures ParseURI(parseHost, Authority(user, password, h), Reference(path, query, hash), isTLS) ==
            if parseHost(h).None? then None
            else Some(Parts(Lower(if isTLS then "https" else ""), Given(user), Given(password), Lower(parseHost(h).value),
                            path, Normal(Prepared(path)), Given(query), Given(hash)))
  {
    hide Normal, Prepared, NoCTL, Lower, SplitAuth, PathAndQuery, Authority, Reference, Find;
    AuthorityCut(user, password, h);
    ReferenceCut(path, query, hash);
    var uri := Reference(path, query, hash);
    assert Find(uri, "://").None?;
  }

  /** Without any host the scheme is http. */
  lemma HostlessParsed(
      parseHost: string -> Option<string>, path: string, query: Option<string>, hash: Option<string>, isTLS: bool)
    requires ReferenceOk(path, query)
    requires Absent(Reference(path, query, hash), "//") && NoCTL(Reference(path, query, hash))
    ensures ParseURI(parseHost, "", Reference(path, query, hash), isTLS) ==
            if parseHost("").None? then None
            else Some(Parts(Lower(if isTLS then "https" else "http"), "", "", Lower(parseHost("").value),
                            path, Normal(Prepared(path)), Given(query), Given(hash)))
  {
    hide Normal, Prepared, NoCTL, Lower, SplitAuth, PathAndQuery, Reference, Find;
    AuthorityCut(None, None, "");
    assert Authority(None, None, "") == "";
    ReferenceCut(path, query, hash);
    var uri := Reference(path, query, hash);
    assert Find(uri, "//").None?;
  }

  /** A control byte anywhere makes it fail. */
  lemma ControlRefused(parseHost: string -> Option<string>, host: string, uri: string, isTLS: bool, i: nat)
    requires i < |uri| && (uri[i] as int < 32 || uri[i] as int == 127)
    ensures ParseURI(parseHost, host, uri, isTLS) == None
  {
  }

  /** Lowering a scheme or a host changes the 26 capital letters only. */
  lemma LowerText(s: string, i: nat)
    requires i < |s|
    ensures |Lower(s)| == |s|
    ensures forall k :: 0 <= k < 26 && s[i] == UPPER[k] ==> Lower(s)[i] == LOWER[k]
    ensures s[i] !in UPPER ==> Lower(s)[i] == s[i]
  {
    Alphabet();
    hide UPPER, LOWER;
    if 'A' <= s[i] <= 'Z' {
      assert s[i] == UPPER[s[i] as int - 'A' as int];
    }
  }

  // ---------------------------------------------------------------- paths

  /** A path is decoded behind the slash it starts with, or behind one put in front of it. */
  lemma PreparedText(s: string)
    ensures Prepared("/" + s) == "/" + Percent.Decoded(s, false)
    ensures !Rooted(s) ==> Prepared(s) == "/" + Percent.Decoded(s, false)
  {
    hide Percent.Decoded;
    Percent.DecodedAt("/" + s, 0, false);
    assert ("/" + s)[0..] == "/" + s && ("/" + s)[1..] == s;
    assert "" + ("/" + Percent.Decoded(s, false)) == "/" + Percent.Decoded(s, false);
  }

  /** The example of the documentation. */
  lemma DocumentedPath()
    ensures Normal(Prepared("//f%20obar/baz/../zzz")) == "/f obar/zzz"
  {
    hide Normal, Prepared, Percent.Decoded;
    PreparedText("/f%20obar/baz/../zzz");
    assert "/" + "/f%20obar/baz/../zzz" == "//f%20obar/baz/../zzz";
    DecodedExample();
    DropSegment("", "", "f obar/baz/../zzz");
    assert "" + "/" + "" + "/" + "f obar/baz/../zzz" == "/" + "/f obar/baz/../zzz";
    CancelSegment("/f obar", "baz", "zzz");
    assert "/f obar" + "/" + "baz" + "/../" + "zzz" == "" + "/" + "f obar/baz/../zzz";
    assert "/f obar" + "/" + "zzz" == "/f obar/zzz";
    PlainExample();
  }

  lemma DecodedExample()
    ensures Percent.Decoded("/f%20obar/baz/../zzz", false) == "/f obar/baz/../zzz"
  {
    hide Percent.Decoded;
    var rest := "obar/baz/../zzz";
    PlainCat("/f", "%20" + rest);
    DecodedText('2', '0', rest, false);
    PlainCat(rest, "");
    EncodedExample();
  }

  lemma EncodedExample()
    ensures "/f" + ("%20" + "obar/baz/../zzz") == "/f%20obar/baz/../zzz"
    ensures "/f" + (" " + "obar/baz/../zzz") == "/f obar/baz/../zzz"
  {
  }

  lemma PlainExample()
    ensures Normal("/f obar/zzz") == "/f obar/zzz"
  {
    hide Split, Folded, Join;
    SplitFirst("f obar", "zzz");
    SplitWhole("zzz");
    assert "/f obar/zzz"[1..] == "f obar" + "/" + "zzz";
    assert SegmentsOf("/f obar/zzz") == ["f obar", "zzz"];
    SettledNormal("/f obar/zzz");
  }
}
