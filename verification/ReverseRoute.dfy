/** Building URLs from routes (fasthttp-routing/route.go): the template of a route path, the URL for
    parameter values, and when the router takes that URL back to the route with the same values. */
module ReverseRoute {
  import opened Basics
  import opened RouteKeys
  import opened RouteSearch
  import opened RouteStore
  import RouteTree

  // ---------------------------------------------------------------- templates

  datatype Part = Literal(text: string) | Token(tok: string)

  /** Literal text and tokens by turns; nothing for an empty end. */
  function Parts(key: string): seq<Part>
    decreases |key|
  {
    var i := IndexOf(key, '<');
    if i == |key| then (if key == "" then [] else [Literal(key)])
    else if !StartsWithToken(key[i..]) then [Literal(key)]
    else
      var tok := FirstToken(key[i..]);
      [Literal(key[..i]), Token(tok)] + Parts(key[i + |tok|..])
  }

  /** The segments of a route: one, even if empty, when there is no parameter. */
  function Segments(key: string): seq<Part> {
    if key == "" then [Literal("")] else Parts(key)
  }

  ghost predicate PartOk(p: Part) {
    if p.Literal? then IsLiteral(p.text) else IsToken(p.tok)
  }

  /** How a segment is written down: a token without its pattern. */
  function Text(p: Part): string
    requires p.Token? ==> IsToken(p.tok)
  {
    match p case Literal(s) => s case Token(tok) => "<" + NameOf(tok) + ">"
  }

  function Texts(parts: seq<Part>): seq<string>
    requires forall i :: 0 <= i < |parts| ==> PartOk(parts[i])
  {
    seq(|parts|, i requires 0 <= i < |parts| => assert PartOk(parts[i]); Text(parts[i]))
  }

  /** The patterns of a key's tokens, "" for a plain one. */
  function Patterns(key: string): seq<string>
    decreases |key|
  {
    if key == "" then []
    else if StartsWithToken(key) then
      [PatternOf(FirstToken(key))] + Patterns(key[|FirstToken(key)|..])
    else Patterns(key[1..])
  }

  /** `newRoute`: a final asterisk becomes the catch-all token. */
  function KeyOf(path: string): string {
    if path != "" && path[|path| - 1] == '*' then path[..|path| - 1] + "<*:.*>" else path
  }

  lemma CatchAllIsToken()
    ensures IsToken("<*:.*>") && NameOf("<*:.*>") == "*" && PatternOf("<*:.*>") == ".*"
  {
    IndexOfUnique("<*:.*>", '>', 5);
    assert Inner("<*:.*>") == "*:.*";
    IndexOfUnique("*:.*", ':', 1);
  }

  /** A literal and a token in front of a key. */
  lemma PartsStep(lit: string, tok: string, rest: string)
    requires IsLiteral(lit) && IsToken(tok)
    ensures Parts(lit + tok + rest) == [Literal(lit), Token(tok)] + Parts(rest)
    ensures Names(lit + tok + rest) == [NameOf(tok)] + Names(rest)
    ensures Patterns(lit + tok + rest) == [PatternOf(tok)] + Patterns(rest)
    ensures WellFormed(lit + tok + rest) == WellFormed(rest)
  {
    hide *;
    PartsFront(lit, tok, rest);
    assert lit + (tok + rest) == lit + tok + rest;
    MatchLiteral((p, s) => None, lit, tok + rest, "");
    MatchToken((p, s) => None, tok, rest, "");
    LiteralPrefix(lit, tok + rest);
    TokenPrefix(tok, rest);
  }

  lemma {:induction false} PartsFront(lit: string, tok: string, rest: string)
    requires IsLiteral(lit) && IsToken(tok)
    ensures Parts(lit + tok + rest) == [Literal(lit), Token(tok)] + Parts(rest)
  {
    hide IsToken, IsLiteral, IndexOf, StartsWithToken, FirstToken;
    FirstTokenAt(lit, tok, rest);
  }

  /** Where the first token of such a key is. */
  lemma FirstTokenAt(lit: string, tok: string, rest: string)
    requires IsLiteral(lit) && IsToken(tok)
    ensures var key := lit + tok + rest;
            && IndexOf(key, '<') == |lit| < |key| && key[..|lit|] == lit && key[|lit|..] == tok + rest
            && key[|lit| + |tok|..] == rest && StartsWithToken(tok + rest) && FirstToken(tok + rest) == tok
  {
    var key := lit + tok + rest;
    assert forall j :: 0 <= j < |lit| ==> key[j] == lit[j];
    IndexOfUnique(key, '<', |lit|);
    assert key[|lit|..] == tok + rest;
    TokenThenRest(tok, rest);
    assert key[|lit| + |tok|..] == rest;
  }

  lemma TokenPrefix(tok: string, rest: string)
    requires IsToken(tok)
    ensures Patterns(tok + rest) == [PatternOf(tok)] + Patterns(rest) && WellFormed(tok + rest) == WellFormed(rest)
  {
    TokenThenRest(tok, rest);
    hide IsToken, PatternOf;
  }

  lemma {:induction false} LiteralPrefix(lit: string, rest: string)
    requires IsLiteral(lit)
    ensures Patterns(lit + rest) == Patterns(rest) && WellFormed(lit + rest) == WellFormed(rest)
  {
    if lit == "" {
      assert lit + rest == rest;
    } else {
      assert (lit + rest)[1..] == lit[1..] + rest;
      LiteralPrefix(lit[1..], rest);
    }
  }

  lemma LiteralKey(lit: string)
    requires IsLiteral(lit)
    ensures Parts(lit) == (if lit == "" then [] else [Literal(lit)]) && Names(lit) == [] && Patterns(lit) == []
  {
    IndexOfUnique(lit, '<', |lit|);
    assert lit + "" == lit;
    MatchLiteral((p, s) => None, lit, "", "");
    LiteralPrefix(lit, "");
  }

  /** The first literal and token of a well-formed key, or the whole of it. */
  lemma Decompose(key: string) returns (lit: string, tok: string, rest: string)
    requires WellFormed(key)
    ensures IsLiteral(lit)
    ensures if tok == "" then key == lit && rest == "" else IsToken(tok) && key == lit + tok + rest && WellFormed(rest)
  {
    hide WellFormed, Names, IndexOf, IsToken;
    RouteTree.LiteralRunWellFormed(key);
    var i := IndexOf(key, '<');
    lit := key[..i];
    if i == |key| {
      tok, rest := "", "";
      assert lit == key;
    } else {
      AfterToken(key[i..]);
      tok := FirstToken(key[i..]);
      rest := key[i..][|tok|..];
      assert key[i..] == tok + rest;
      assert key == lit + tok + rest;
    }
  }

  /** Every token of a route path closed, so is every token of its key. */
  lemma {:induction false} KeyOfWellFormed(path: string)
    requires WellFormed(path)
    ensures WellFormed(KeyOf(path))
    decreases |path|
  {
    hide WellFormed, IsToken, Parts, Names, Patterns, IsLiteral;
    var lit, tok, rest := Decompose(path);
    if tok == "" {
      LiteralKeyOf(lit);
    } else if rest == "" {
      TokenIsLast(lit, tok);
    } else {
      KeyOfWellFormed(rest);
      assert KeyOf(path) == lit + tok + KeyOf(rest);
      PartsStep(lit, tok, KeyOf(rest));
    }
  }

  lemma LiteralKeyOf(lit: string)
    requires IsLiteral(lit) && WellFormed(lit)
    ensures WellFormed(KeyOf(lit))
  {
    hide WellFormed, IsToken, Parts, Names, Patterns;
    if lit != "" && lit[|lit| - 1] == '*' {
      var front := lit[..|lit| - 1];
      CatchAllIsToken();
      PartsStep(front, "<*:.*>", "");
      NothingWellFormed();
      assert front + "<*:.*>" + "" == KeyOf(lit);
    }
  }

  lemma NothingWellFormed()
    ensures WellFormed("")
  {
  }

  lemma TokenIsLast(lit: string, tok: string)
    requires IsToken(tok)
    ensures KeyOf(lit + tok + "") == lit + tok + ""
  {
    var path := lit + tok + "";
    assert path[|path| - 1] == tok[|tok| - 1] == '>';
  }

  lemma {:induction false} PartsOk(key: string)
    requires WellFormed(key)
    ensures forall i :: 0 <= i < |Parts(key)| ==> PartOk(Parts(key)[i])
    ensures |Names(key)| == |Patterns(key)| == Tokens(Parts(key))
    decreases |key|
  {
    hide Parts, Names, Patterns, WellFormed, IsToken;
    var lit, tok, rest := Decompose(key);
    if tok == "" {
      LiteralKey(lit);
    } else {
      PartsStep(lit, tok, rest);
      PartsOk(rest);
      var p := Parts(rest);
      assert ([Literal(lit), Token(tok)] + p)[1..] == [Token(tok)] + p;
      assert ([Token(tok)] + p)[1..] == p;
    }
  }

  function Tokens(parts: seq<Part>): nat {
    if parts == [] then 0 else (if parts[0].Token? then 1 else 0) + Tokens(parts[1..])
  }

  // ---------------------------------------------------------------- building

  datatype Built = Url(url: string) | Refused | Panic

  /** May the value stand for a parameter with this pattern? */
  predicate Acceptable(re: Matcher, pattern: string, value: string) {
    if pattern == "" then '/' !in value else FindEnd(re, "^" + pattern, value).Some?
  }

  predicate AllAcceptable(re: Matcher, patterns: seq<string>, params: seq<string>) {
    |params| == |patterns| && forall i :: 0 <= i < |params| ==> Acceptable(re, patterns[i], params[i])
  }

  /** The parts with the parameters put in. */
  function Fill(parts: seq<Part>, params: seq<string>): string
    requires Tokens(parts) <= |params|
  {
    if parts == [] then ""
    else if parts[0].Literal? then parts[0].text + Fill(parts[1..], params)
    else params[0] + Fill(parts[1..], params[1..])
  }

  /** `URLByIndex`: it indexes the first byte of every segment, so an empty one makes it panic. */
  function URLOf(re: Matcher, key: string, params: seq<string>): Built
    requires WellFormed(key)
  {
    PartsOk(key);
    if !AllAcceptable(re, Patterns(key), params) then Refused
    else if Literal("") in Segments(key) then Panic
    else Url(Fill(Parts(key), params))
  }

  lemma FillStep(lit: string, tok: string, rest: seq<Part>, params: seq<string>)
    requires params != [] && Tokens(rest) <= |params| - 1
    ensures var p := [Literal(lit), Token(tok)] + rest;
            Tokens(p) == 1 + Tokens(rest) && Fill(p, params) == lit + (params[0] + Fill(rest, params[1..]))
  {
    var p := [Literal(lit), Token(tok)] + rest;
    assert p[1..] == [Token(tok)] + rest;
    assert p[1..][1..] == rest;
  }

  lemma FillLiteral(lit: string, params: seq<string>)
    ensures Fill([Literal(lit)], params) == lit && Fill([], params) == ""
  {
    assert lit + "" == lit;
  }

  ghost predicate AllOk(parts: seq<Part>) {
    forall i :: 0 <= i < |parts| ==> PartOk(parts[i])
  }

  /** Every token takes exactly its parameter off the rest of the URL. */
  ghost predicate Exact(re: Matcher, parts: seq<Part>, params: seq<string>)
    requires AllOk(parts) && Tokens(parts) == |params|
  {
    if parts == [] then true
    else
      assert PartOk(parts[0]);
      if parts[0].Literal? then Exact(re, parts[1..], params)
      else
        && Consumed(re, parts[0].tok, params[0] + Fill(parts[1..], params[1..])) == Some(|params[0]|)
        && Exact(re, parts[1..], params[1..])
  }

  lemma ExactStep(re: Matcher, lit: string, tok: string, rest: seq<Part>, params: seq<string>)
    requires params != [] && Tokens(rest) == |params| - 1 && IsLiteral(lit) && IsToken(tok) && AllOk(rest)
    ensures var p := [Literal(lit), Token(tok)] + rest;
            && AllOk(p) && Tokens(p) == |params|
            && (Exact(re, p, params) <==>
                Consumed(re, tok, params[0] + Fill(rest, params[1..])) == Some(|params[0]|) && Exact(re, rest, params[1..]))
  {
    var p := [Literal(lit), Token(tok)] + rest;
    FillStep(lit, tok, rest, params);
    hide Consumed, IsToken, IsLiteral;
    assert p[1..] == [Token(tok)] + rest;
    assert p[1..][1..] == rest;
  }

  /** A built URL matches its key with the same parameters exactly when every token takes off its own. */
  lemma {:induction false} MatchBuilt(re: Matcher, key: string, params: seq<string>)
    requires WellFormed(key) && |params| == |Names(key)|
    ensures AllOk(Parts(key)) && Tokens(Parts(key)) == |params|
    ensures Match(re, key, Fill(Parts(key), params)) == Some(params) <==> Exact(re, Parts(key), params)
    decreases |key|
  {
    hide Parts, Names, Match, Consumed, Patterns, WellFormed, Exact, Fill;
    PartsOk(key);
    var lit, tok, rest := Decompose(key);
    if tok == "" {
      LiteralKey(lit);
      FillLiteral(lit, params);
      MatchWhole(re, lit);
      ExactLiteral(re, lit);
    } else {
      PartsStep(lit, tok, rest);
      PartsOk(rest);
      var v, params' := params[0], params[1..];
      var u := Fill(Parts(rest), params');
      FillStep(lit, tok, Parts(rest), params);
      ExactStep(re, lit, tok, Parts(rest), params);
      MatchBuilt(re, rest, params');
      MatchParts(re, lit, tok, rest, v, u, params');
      assert params == [v] + params';
    }
  }

  lemma MatchWhole(re: Matcher, lit: string)
    requires IsLiteral(lit)
    ensures Match(re, lit, lit) == Some([])
  {
    MatchLiteral(re, lit, "", lit);
    assert lit + "" == lit && lit[|lit|..] == "";
  }

  lemma ExactLiteral(re: Matcher, lit: string)
    requires IsLiteral(lit)
    ensures AllOk([Literal(lit)]) && Exact(re, [Literal(lit)], []) && Exact(re, [], [])
  {
    assert [Literal(lit)][1..] == [];
  }

  lemma MatchParts(re: Matcher, lit: string, tok: string, rest: string, v: string, u: string, params: seq<string>)
    requires IsLiteral(lit) && IsToken(tok)
    ensures Match(re, lit + tok + rest, lit + (v + u)) == Some([v] + params) <==>
            Consumed(re, tok, v + u) == Some(|v|) && Match(re, rest, u) == Some(params)
  {
    hide Match, Consumed;
    var url := lit + (v + u);
    assert lit + tok + rest == lit + (tok + rest);
    MatchLiteral(re, lit, tok + rest, url);
    assert lit <= url && url[|lit|..] == v + u;
    MatchToken(re, tok, rest, v + u);
    var n := Consumed(re, tok, v + u);
    if n.Some? {
      CaptureIs(v, u, n.value, Match(re, rest, (v + u)[n.value..]), params);
    }
  }

  lemma CaptureIs(v: string, u: string, n: nat, r: Option<seq<string>>, params: seq<string>)
    requires n <= |v + u|
    ensures Capture((v + u)[..n], r) == Some([v] + params) <==> n == |v| && r == Some(params)
    ensures (v + u)[|v|..] == u
  {
    assert (v + u)[..|v|] == v;
    assert |(v + u)[..n]| == n;
    if r.Some? {
      var a, b := [(v + u)[..n]] + r.value, [v] + params;
      assert a[0] == (v + u)[..n] && b[0] == v && a[1..] == r.value && b[1..] == params;
    }
  }

  // ---------------------------------------------------------------- routes that can be reversed

  /** A plain token before a slash or the end, or a catch-all at the end. */
  predicate EndsBefore(tok: string, rest: string)
    requires IsToken(tok)
  {
    if PatternOf(tok) == "" then rest == "" || rest[0] == '/' else PatternOf(tok) == ".*" && rest == ""
  }

  /** Plain tokens stand before a slash or the end, and a catch-all may be the last. */
  predicate Reversible(key: string)
    decreases |key|
  {
    var i := IndexOf(key, '<');
    i < |key| && StartsWithToken(key[i..]) ==>
      var tok := FirstToken(key[i..]);
      var rest := key[i + |tok|..];
      && EndsBefore(tok, rest)
      && Reversible(rest)
  }

  lemma ReversibleStep(lit: string, tok: string, rest: string)
    requires IsLiteral(lit) && IsToken(tok)
    ensures Reversible(lit + tok + rest) <==>
            && EndsBefore(tok, rest)
            && Reversible(rest)
  {
    FirstTokenAt(lit, tok, rest);
    hide IsToken, PatternOf;
  }

  lemma FillTokens(lit: string, tok: string, rest: seq<Part>, params: seq<string>)
    requires Tokens([Literal(lit), Token(tok)] + rest) <= |params|
    ensures lit <= Fill([Literal(lit), Token(tok)] + rest, params)
  {
    var p := [Literal(lit), Token(tok)] + rest;
    assert p[1..] == [Token(tok)] + rest;
  }

  lemma TokenTakes(re: Matcher, tok: string, v: string, u: string)
    requires IsToken(tok) && Acceptable(re, PatternOf(tok), v)
    requires EndsBefore(tok, u)
    ensures Consumed(re, tok, v + u) == Some(|v|)
  {
    if PatternOf(tok) == "" {
      assert forall j :: 0 <= j < |v| ==> (v + u)[j] == v[j] && v[j] in v;
      IndexOfUnique(v + u, '/', |v|);
    }
  }

  /** Every token is plain or a catch-all. */
  predicate WithoutPatterns(key: string) {
    forall i :: 0 <= i < |Patterns(key)| ==> Patterns(key)[i] == "" || Patterns(key)[i] == ".*"
  }

  /** For every route without regular expressions: a URL built from it leads back to its parameters
      if and only if plain tokens stand before a slash or the end and a catch-all is the last. */
  lemma ReversedIff(re: Matcher, key: string, params: seq<string>)
    requires WellFormed(key) && WithoutPatterns(key) && URLOf(re, key, params).Url?
    ensures Match(re, key, URLOf(re, key, params).url) == Some(params) <==> Reversible(key)
  {
    hide Parts, Match, Exact, Fill, Reversible, WellFormed, Touching, Patterns, WithoutPatterns;
    PartsOk(key);
    PanicIff(re, key, params);
    ExactIff(re, key, params);
    MatchBuilt(re, key, params);
  }

  lemma {:induction false} ExactIff(re: Matcher, key: string, params: seq<string>)
    requires WellFormed(key) && WithoutPatterns(key) && !Touching(key) && AllAcceptable(re, Patterns(key), params)
    ensures AllOk(Parts(key)) && Tokens(Parts(key)) == |params|
    ensures Exact(re, Parts(key), params) <==> Reversible(key)
    decreases |key|
  {
    hide Parts, Names, Consumed, Patterns, WellFormed, Exact, Fill, Reversible, Touching, IsToken, IsLiteral, Acceptable;
    PartsOk(key);
    var lit, tok, rest := Decompose(key);
    if tok == "" {
      LiteralKey(lit);
      ExactLiteral(re, lit);
      LiteralReversible(lit);
    } else {
      PartsStep(lit, tok, rest);
      ReversibleStep(lit, tok, rest);
      TouchingStep(lit, tok, rest);
      PartsOk(rest);
      AcceptableTail(re, PatternOf(tok), Patterns(rest), params);
      PatternsTail(key, PatternOf(tok), rest);
      ExactIff(re, rest, params[1..]);
      ExactStep(re, lit, tok, Parts(rest), params);
      FilledStart(rest, params[1..]);
      TokenTakesIff(re, tok, params[0], Fill(Parts(rest), params[1..]));
    }
  }

  lemma LiteralReversible(lit: string)
    requires IsLiteral(lit)
    ensures Reversible(lit)
  {
    IndexOfUnique(lit, '<', |lit|);
  }

  lemma AcceptableTail(re: Matcher, pattern: string, patterns: seq<string>, params: seq<string>)
    requires AllAcceptable(re, [pattern] + patterns, params)
    ensures params != [] && Acceptable(re, pattern, params[0]) && AllAcceptable(re, patterns, params[1..])
  {
    hide Acceptable;
    var all := [pattern] + patterns;
    assert all[0] == pattern && Acceptable(re, all[0], params[0]);
    forall i | 0 <= i < |patterns|
      ensures Acceptable(re, patterns[i], params[1..][i])
    {
      assert all[i + 1] == patterns[i] && Acceptable(re, all[i + 1], params[i + 1]);
    }
  }

  lemma PatternsTail(key: string, pattern: string, rest: string)
    requires WithoutPatterns(key) && Patterns(key) == [pattern] + Patterns(rest)
    ensures (pattern == "" || pattern == ".*") && WithoutPatterns(rest)
  {
    hide Patterns;
    assert Patterns(key)[0] == pattern;
    forall i | 0 <= i < |Patterns(rest)|
      ensures Patterns(rest)[i] == "" || Patterns(rest)[i] == ".*"
    {
      assert Patterns(key)[i + 1] == Patterns(rest)[i];
    }
  }

  /** Where no tokens touch, what follows a token in the URL starts like what follows it in the key. */
  lemma FilledStart(rest: string, params: seq<string>)
    requires WellFormed(rest) && !Touching(rest) && Tokens(Parts(rest)) <= |params|
    ensures rest == "" <==> Fill(Parts(rest), params) == ""
    ensures rest != "" ==> Fill(Parts(rest), params)[0] == rest[0]
  {
    hide WellFormed, Parts, Names, Patterns, Touching, IsToken, IsLiteral, Fill;
    var lit, tok, rest' := Decompose(rest);
    if tok == "" {
      LiteralKey(lit);
      FillLiteral(lit, params);
    } else {
      PartsStep(lit, tok, rest');
      TouchingStep(lit, tok, rest');
      FillTokens(lit, tok, Parts(rest'), params);
    }
  }

  /** An acceptable parameter is taken off exactly if and only if its token ends there. */
  lemma TokenTakesIff(re: Matcher, tok: string, v: string, u: string)
    requires IsToken(tok) && Acceptable(re, PatternOf(tok), v) && (PatternOf(tok) == "" || PatternOf(tok) == ".*")
    ensures Consumed(re, tok, v + u) == Some(|v|) <==> EndsBefore(tok, u)
  {
    if EndsBefore(tok, u) {
      TokenTakes(re, tok, v, u);
    } else if PatternOf(tok) == "" {
      assert (v + u)[|v|] == u[0];
    }
  }

  /** A URL built for a reversible route matches it, with the same parameters. */
  lemma BuiltMatches(re: Matcher, key: string, params: seq<string>)
    requires WellFormed(key) && Reversible(key) && URLOf(re, key, params).Url?
    ensures Match(re, key, URLOf(re, key, params).url) == Some(params)
  {
    hide Match, URLOf, Reversible, WellFormed, WithoutPatterns;
    ReversibleHasNoPatterns(key);
    ReversedIff(re, key, params);
  }

  lemma {:induction false} ReversibleHasNoPatterns(key: string)
    requires WellFormed(key) && Reversible(key)
    ensures WithoutPatterns(key)
    decreases |key|
  {
    hide Parts, Names, Patterns, WellFormed, Reversible;
    var lit, tok, rest := Decompose(key);
    if tok == "" {
      LiteralKey(lit);
    } else {
      PartsStep(lit, tok, rest);
      ReversibleStep(lit, tok, rest);
      ReversibleHasNoPatterns(rest);
    }
  }

  /** A token with text behind it takes that text off as well, so the URL built does not match. */
  lemma TextBehindTokenIsLost(re: Matcher)
    ensures WellFormed("/<a>x") && URLOf(re, "/<a>x", ["1"]) == Url("/1x") && Match(re, "/<a>x", "/1x") == None
  {
    BuiltWithText(re);
    LostText(re);
  }

  lemma TokenA()
    ensures IsToken("<a>") && NameOf("<a>") == "a" && PatternOf("<a>") == ""
  {
    PlainToken("a");
    assert "<" + "a" + ">" == "<a>";
  }

  lemma BuiltWithText(re: Matcher)
    ensures WellFormed("/<a>x") && URLOf(re, "/<a>x", ["1"]) == Url("/1x")
  {
    hide Parts, Names, Patterns, WellFormed, Fill, IsToken, NameOf, PatternOf;
    TokenA();
    assert "/" + "<a>" + "x" == "/<a>x";
    OneLetter("x");
    OneLetter("/");
    PartsStep("/", "<a>", "x");
    LiteralKey("x");
    FillStep("/", "<a>", [Literal("x")], ["1"]);
    FillLiteral("x", []);
    assert ["1"][1..] == [] && "/" + ("1" + "x") == "/1x";
    assert Patterns("/<a>x") == [""] && AllAcceptable(re, [""], ["1"]);
  }

  lemma LostText(re: Matcher)
    ensures Match(re, "/<a>x", "/1x") == None
  {
    hide Names, Match, IsToken, NameOf, PatternOf;
    TokenA();
    assert "/" + ("<a>" + "x") == "/<a>x";
    MatchLiteral(re, "/", "<a>" + "x", "/1x");
    assert "/" <= "/1x" && "/1x"[1..] == "1x";
    MatchToken(re, "<a>", "x", "1x");
    IndexOfUnique("1x", '/', 2);
    assert "1x"[2..] == "" && "x" + "" == "x";
    MatchLiteral(re, "x", "", "");
  }

  lemma OneLetter(s: string)
    requires |s| == 1 && s[0] != '<'
    ensures WellFormed(s) && IsLiteral(s)
  {
    assert s[1..] == "";
  }

  /** It is found again unless an earlier route takes it. */
  lemma BuiltIsFound<D>(re: Matcher, adds: seq<Added<D>>, i: nat, params: seq<string>)
    requires i < |adds| && WellFormed(adds[i].key) && Reversible(adds[i].key)
    requires URLOf(re, adds[i].key, params).Url?
    requires forall j :: 0 <= j < i ==> Match(re, adds[j].key, URLOf(re, adds[i].key, params).url).None?
    ensures Expected(re, adds, URLOf(re, adds[i].key, params).url) ==
            Some(Hit(adds[i].data, i + 1, Names(adds[i].key), params))
  {
    BuiltMatches(re, adds[i].key, params);
    hide URLOf, Match, Reversible, WellFormed, Names;
    var u := URLOf(re, adds[i].key, params).url;
    var k := FirstMatch(re, adds, u);
    assert k <= i;
    assert k == i;
  }

  /** A reversible route that starts with a slash never makes it panic. */
  lemma {:induction false} NoPanic(re: Matcher, key: string, params: seq<string>)
    requires WellFormed(key) && Reversible(key) && key != "" && key[0] == '/'
    ensures URLOf(re, key, params) != Panic
  {
    NoEmptySegment(key);
  }

  /** The route starts with a token, or somewhere a token follows another one directly. */
  predicate Touching(key: string)
    decreases |key|
  {
    var i := IndexOf(key, '<');
    i < |key| && StartsWithToken(key[i..]) && (i == 0 || Touching(key[i + |FirstToken(key[i..])|..]))
  }

  lemma TouchingStep(lit: string, tok: string, rest: string)
    requires IsLiteral(lit) && IsToken(tok)
    ensures Touching(lit + tok + rest) <==> lit == "" || Touching(rest)
  {
    FirstTokenAt(lit, tok, rest);
    hide IsToken, PatternOf;
  }

  lemma LiteralTouchesNothing(lit: string)
    requires IsLiteral(lit)
    ensures !Touching(lit)
  {
    IndexOfUnique(lit, '<', |lit|);
  }

  /** Acceptable parameters make it panic exactly on the empty route and where tokens touch. */
  lemma PanicIff(re: Matcher, key: string, params: seq<string>)
    requires WellFormed(key) && AllAcceptable(re, Patterns(key), params)
    ensures URLOf(re, key, params) == Panic <==> key == "" || Touching(key)
  {
    hide Parts, Patterns, WellFormed, Touching, AllAcceptable;
    TouchingIff(key);
  }

  lemma {:induction false} TouchingIff(key: string)
    requires WellFormed(key)
    ensures Literal("") in Parts(key) <==> Touching(key)
    decreases |key|
  {
    hide Parts, Names, Patterns, WellFormed, Touching, IsToken, IsLiteral;
    var lit, tok, rest := Decompose(key);
    if tok == "" {
      LiteralKey(lit);
      LiteralTouchesNothing(lit);
    } else {
      PartsStep(lit, tok, rest);
      TouchingStep(lit, tok, rest);
      TouchingIff(rest);
      var two := [Literal(lit), Token(tok)];
      assert Literal("") in two <==> lit == "";
      assert Literal("") in two + Parts(rest) <==> Literal("") in two || Literal("") in Parts(rest);
    }
  }

  /** For example, a route that is just a parameter. */
  lemma LoneTokenPanics(re: Matcher)
    ensures WellFormed("<a>") && URLOf(re, "<a>", ["x"]) == Panic
  {
    hide Parts, Names, Patterns, WellFormed, Touching, IsToken, NameOf, PatternOf;
    TokenA();
    assert "" + "<a>" + "" == "<a>";
    PartsStep("", "<a>", "");
    NothingWellFormed();
    LiteralKey("");
    TouchingStep("", "<a>", "");
    assert Patterns("<a>") == [""];
    PanicIff(re, "<a>", ["x"]);
  }

  // ---------------------------------------------------------------- on the text of routes

  /** Parameters are refused if and only if their number is wrong, or one holds a slash where the
      token is plain or is not matched by "^" and the expression where it has one. */
  lemma RefusedIff(re: Matcher, key: string, params: seq<string>)
    requires WellFormed(key)
    ensures |Patterns(key)| == |Names(key)|
    ensures URLOf(re, key, params) == Refused <==>
            || |params| != |Names(key)|
            || exists i :: 0 <= i < |params| && Misfits(re, Patterns(key)[i], params[i])
  {
    hide Parts, Names, Patterns, WellFormed, Segments, Fill;
    PartsOk(key);
    if |params| == |Names(key)| {
      assert forall i :: 0 <= i < |params| ==> (Misfits(re, Patterns(key)[i], params[i]) <==> !Acceptable(re, Patterns(key)[i], params[i]));
    }
  }

  /** A slash in the value of a plain token, or no match of "^" and the expression within the value. */
  ghost predicate Misfits(re: Matcher, pattern: string, value: string) {
    if pattern == "" then '/' in value
    else re("^" + pattern, value).None? || re("^" + pattern, value).value > |value|
  }

  /** The expressions of a route, on its text. */
  lemma PatternsText(lit: string, name: string, e: string, rest: string)
    requires IsLiteral(lit) && ':' !in name && '>' !in name && '>' !in e
    ensures Patterns(lit) == []
    ensures Patterns(lit + ("<" + name + ":" + e + ">" + rest)) == [e] + Patterns(rest)
    ensures Patterns(lit + ("<" + name + ">" + rest)) == [""] + Patterns(rest)
  {
    hide IsToken, NameOf, PatternOf, Patterns, WellFormed;
    PatternToken(name, e);
    PlainToken(name);
    LiteralKey(lit);
    TokenPrefix("<" + name + ":" + e + ">", rest);
    TokenPrefix("<" + name + ">", rest);
    LiteralPrefix(lit, "<" + name + ":" + e + ">" + rest);
    LiteralPrefix(lit, "<" + name + ">" + rest);
  }

  /** The URL of a route without tokens is the route. */
  lemma BuiltLiteral(re: Matcher, lit: string)
    requires IsLiteral(lit) && lit != "" && WellFormed(lit)
    ensures URLOf(re, lit, []) == Url(lit)
  {
    hide Parts, Names, Patterns, WellFormed;
    LiteralKey(lit);
    FillLiteral(lit, []);
  }

  /** In a URL the text in front of the first token stays and the first parameter takes the place of
      the token; behind it comes the URL of the rest of the route. */
  lemma BuiltText(re: Matcher, lit: string, tok: string, rest: string, v: string, params: seq<string>)
    requires IsLiteral(lit) && IsToken(tok) && WellFormed(rest) && WellFormed(lit + tok + rest)
    requires URLOf(re, lit + tok + rest, [v] + params).Url?
    ensures rest != "" ==> URLOf(re, rest, params).Url?
    ensures URLOf(re, lit + tok + rest, [v] + params).url ==
            lit + (v + if rest == "" then "" else URLOf(re, rest, params).url)
  {
    hide Parts, Names, Patterns, WellFormed, IsToken, IsLiteral, Fill, Acceptable;
    var key, all := lit + tok + rest, [v] + params;
    PartsStep(lit, tok, rest);
    PartsOk(key);
    PartsOk(rest);
    assert all[0] == v && all[1..] == params;
    assert Patterns(key)[1..] == Patterns(rest);
    forall i | 0 <= i < |params|
      ensures Acceptable(re, Patterns(rest)[i], params[i])
    {
      assert Acceptable(re, Patterns(key)[i + 1], all[i + 1]);
    }
    FillStep(lit, tok, Parts(rest), all);
    if rest == "" {
      LiteralKey("");
      FillLiteral("", params);
    } else {
      forall i | 0 <= i < |Parts(rest)|
        ensures Parts(rest)[i] != Literal("")
      {
        assert Parts(key)[i + 2] == Parts(rest)[i];
      }
    }
  }

  /** The segments of a template, on the text of its route: tokens lose their expressions. */
  lemma TemplateText(lit: string, name: string, e: string, rest: string)
    requires IsLiteral(lit) && ':' !in name && '>' !in name && '>' !in e && WellFormed(rest)
    ensures AllOk(Segments(lit + ("<" + name + ":" + e + ">" + rest))) && AllOk(Parts(rest))
    ensures Texts(Segments(lit + ("<" + name + ":" + e + ">" + rest))) == [lit, "<" + name + ">"] + Texts(Parts(rest))
  {
    hide Parts, Names, Patterns, WellFormed, IsToken, IsLiteral, NameOf, PatternOf, Texts;
    var tok := "<" + name + ":" + e + ">";
    PatternToken(name, e);
    PartsStep(lit, tok, rest);
    assert lit + tok + rest == lit + (tok + rest);
    PartsOk(rest);
    TokenTexts(lit, tok);
    TextsCat([Literal(lit), Token(tok)], Parts(rest));
  }

  /** A route that ends in an asterisk, on its text, and what it matches: everything behind the text
      in front of the asterisk, which becomes the one parameter. */
  lemma AsteriskText(front: string)
    ensures KeyOf(front + "*") == front + "<*:.*>"
    ensures front == "" || front[|front| - 1] != '*' ==> KeyOf(front) == front
  {
  }

  lemma AsteriskMatches(re: Matcher, lit: string, path: string)
    requires IsLiteral(lit)
    ensures Match(re, KeyOf(lit + "*"), path) == if lit <= path then Some([path[|lit|..]]) else None
  {
    hide Match, IsLiteral;
    AsteriskText(lit);
    assert "<*:.*>" == "<" + "*" + ":.*>" + "";
    MatchLiteral(re, lit, "<*:.*>", path);
    if lit <= path {
      var v := path[|lit|..];
      MatchCatchAll(re, "*", "", v);
      MatchNothing(re, "");
      assert [v] + [] == [v];
    }
  }

  lemma {:induction false} NoEmptySegment(key: string)
    requires WellFormed(key) && Reversible(key) && (key == "" || key[0] == '/')
    ensures Literal("") !in Parts(key)
    decreases |key|
  {
    hide Parts, Names, Patterns, WellFormed, Reversible;
    var lit, tok, rest := Decompose(key);
    if tok == "" {
      LiteralKey(lit);
    } else {
      PartsStep(lit, tok, rest);
      ReversibleStep(lit, tok, rest);
      NoEmptySegment(rest);
      if lit == "" {
        assert false;
      }
    }
  }

  // ---------------------------------------------------------------- the route

  lemma TextsCat(a: seq<Part>, b: seq<Part>)
    requires AllOk(a) && AllOk(b)
    ensures AllOk(a + b) && Texts(a + b) == Texts(a) + Texts(b)
  {
    hide Text, PartOk;
    var c := a + b;
    forall i | 0 <= i < |c|
      ensures PartOk(c[i])
    {
      assert c[i] == if i < |a| then a[i] else b[i - |a|];
      assert if i < |a| then PartOk(a[i]) else PartOk(b[i - |a|]);
    }
  }

  /** The scan is at position `e`, behind a token or at the start. */
  ghost predicate Scanned(path: string, e: int, segments: seq<string>, names: seq<string>, patterns: seq<string>) {
    && 0 <= e <= |path| && WellFormed(path[e..]) && WellFormed(path)
    && AllOk(Parts(path)) && AllOk(Parts(path[e..]))
    && segments + Texts(Parts(path[e..])) == Texts(Parts(path))
    && names + Names(path[e..]) == Names(path) && patterns + Patterns(path[e..]) == Patterns(path)
  }

  lemma ScanStart(path: string)
    requires WellFormed(path)
    ensures Scanned(path, 0, [], [], []) && Reading(path, 0, -1, 0)
  {
    PartsOk(path);
    hide Parts, Names, Patterns, WellFormed, Texts;
    assert path[0..] == path;
    assert [] + Texts(Parts(path)) == Texts(Parts(path)) && [] + Names(path) == Names(path);
    assert [] + Patterns(path) == Patterns(path);
  }

  lemma ScanStep(path: string, e: int, segments: seq<string>, names: seq<string>, patterns: seq<string>, start: int, i: int)
    requires Scanned(path, e, segments, names, patterns) && e <= start < i < |path|
    requires IsLiteral(path[e..start]) && IsToken(path[start..i + 1])
    ensures var lit, tok := path[e..start], path[start..i + 1];
            Scanned(path, i + 1, segments + [lit, "<" + NameOf(tok) + ">"], names + [NameOf(tok)], patterns + [PatternOf(tok)])
  {
    hide Parts, Names, Patterns, WellFormed, Texts, NameOf, PatternOf, IsToken, IsLiteral;
    var lit, tok, rest := path[e..start], path[start..i + 1], path[i + 1..];
    assert path[e..] == lit + tok + rest;
    PartsStep(lit, tok, rest);
    PartsOk(rest);
    TokenTexts(lit, tok);
    TextsCat([Literal(lit), Token(tok)], Parts(rest));
    var two := [lit, "<" + NameOf(tok) + ">"];
    assert segments + (two + Texts(Parts(rest))) == segments + two + Texts(Parts(rest));
    assert names + ([NameOf(tok)] + Names(rest)) == names + [NameOf(tok)] + Names(rest);
    assert patterns + ([PatternOf(tok)] + Patterns(rest)) == patterns + [PatternOf(tok)] + Patterns(rest);
  }

  lemma TokenTexts(lit: string, tok: string)
    requires IsLiteral(lit) && IsToken(tok)
    ensures AllOk([Literal(lit), Token(tok)])
    ensures Texts([Literal(lit), Token(tok)]) == [lit, "<" + NameOf(tok) + ">"]
  {
  }

  lemma LiteralTexts(lit: string)
    requires IsLiteral(lit)
    ensures AllOk([Literal(lit)]) && Texts([Literal(lit)]) == [lit] && Texts([]) == []
  {
  }

  lemma ScanEnd(path: string, e: int, segments: seq<string>, names: seq<string>, patterns: seq<string>)
    requires Scanned(path, e, segments, names, patterns) && IsLiteral(path[e..])
    ensures names == Names(path) && patterns == Patterns(path)
    ensures segments + (if e < |path| then [path[e..]] else []) == Texts(Parts(path))
  {
    hide Parts, Names, Patterns, WellFormed, IsLiteral;
    LiteralKey(path[e..]);
    assert names + [] == names && patterns + [] == patterns;
    LiteralTexts(path[e..]);
  }

  /** The reading at `i`: the literal from `e` on ends at the open token, if there is one. */
  predicate Reading(path: string, e: int, start: int, i: int) {
    && 0 <= e <= i <= |path|
    && (start == -1 || (e <= start < i && path[start] == '<' && '>' !in path[start..i]))
    && IsLiteral(path[e..if start < 0 then i else start])
  }

  lemma ReadOn(path: string, e: int, start: int, i: int)
    requires Reading(path, e, start, i) && i < |path| && !(path[i] == '>' && start >= 0)
    ensures Reading(path, e, if path[i] == '<' && start < 0 then i else start, i + 1)
  {
    if start >= 0 {
      assert path[start..i + 1] == path[start..i] + [path[i]];
    } else {
      assert path[e..i + 1] == path[e..i] + [path[i]];
      assert path[i..i + 1] == [path[i]];
    }
  }

  /** `buildURLTemplate2`. */
  method BuildTemplate(path: string) returns (segments: seq<string>, names: seq<string>, patterns: seq<string>)
    requires WellFormed(path)
    ensures AllOk(Segments(path)) && segments == Texts(Segments(path))
    ensures names == Names(path) && patterns == Patterns(path)
  {
    hide Scanned, Reading, WellFormed, Names, Patterns, Parts, IsToken, IsLiteral, NameOf, PatternOf, Texts, Segments, AllOk;
    segments, names, patterns := [], [], [];
    var start, end := -1, -1;
    ScanStart(path);
    for i := 0 to |path|
      invariant Scanned(path, end + 1, segments, names, patterns) && -1 <= end < i && (end < 0 ==> segments == [])
      invariant -1 <= start < i && Reading(path, end + 1, start, i)
    {
      if path[i] == '<' && start < 0 {
        ReadOn(path, end + 1, start, i);
        start := i;
      } else if path[i] == '>' && start >= 0 {
        segments, names, patterns := CloseToken(path, end, start, i, segments, names, patterns);
        end, start := i, -1;
      } else {
        ReadOn(path, end + 1, start, i);
      }
    }
    ScanDone(path, end, start, segments, names, patterns);
    if end < 0 {
      segments := segments + [path];
    } else if end < |path| - 1 {
      segments := segments + [path[end + 1..]];
    }
  }

  /** The end of a token: its literal and its name are written down. */
  method CloseToken(
      path: string, end: int, start: int, i: int, segments: seq<string>, names: seq<string>, patterns: seq<string>)
    returns (segments': seq<string>, names': seq<string>, patterns': seq<string>)
    requires Scanned(path, end + 1, segments, names, patterns) && Reading(path, end + 1, start, i)
    requires 0 <= start && 0 <= i < |path| && path[i] == '>'
    ensures Scanned(path, i + 1, segments', names', patterns') && Reading(path, i + 1, -1, i + 1)
  {
    hide Scanned, Reading, IsToken, IsLiteral, NameOf, PatternOf;
    TokenBetween(path, end + 1, start, i);
    ScanStep(path, end + 1, segments, names, patterns, start, i);
    var name, pattern := SplitToken(path[start..i + 1]);
    segments' := segments + [path[end + 1..start], "<" + name + ">"];
    names', patterns' := names + [name], patterns + [pattern];
  }

  lemma ScanDone(path: string, end: int, start: int, segments: seq<string>, names: seq<string>, patterns: seq<string>)
    requires Scanned(path, end + 1, segments, names, patterns) && -1 <= end < |path| && (end < 0 ==> segments == [])
    requires Reading(path, end + 1, start, |path|) && WellFormed(path)
    ensures names == Names(path) && patterns == Patterns(path) && AllOk(Segments(path))
    ensures Texts(Segments(path)) ==
            if end < 0 then [path] else if end < |path| - 1 then segments + [path[end + 1..]] else segments
  {
    hide Scanned, Reading, WellFormed, Names, Patterns, Parts, Texts, Segments, AllOk, IsLiteral, PartOk;
    NothingOpen(path, end + 1, start, segments, names, patterns);
    ScanEnd(path, end + 1, segments, names, patterns);
    assert path[0..] == path;
    SegmentsAre(path);
  }

  lemma SegmentsAre(path: string)
    requires WellFormed(path)
    ensures AllOk(Segments(path)) && Texts(Segments(path)) == if path == "" then [""] else Texts(Parts(path))
  {
    PartsOk(path);
    hide Parts, WellFormed;
    assert PartOk(Literal(""));
  }

  lemma TokenBetween(path: string, e: int, start: int, i: int)
    requires Reading(path, e, start, i) && 0 <= start && i < |path| && path[i] == '>'
    ensures 0 <= e <= start < i && IsLiteral(path[e..start]) && IsToken(path[start..i + 1])
    ensures Reading(path, i + 1, -1, i + 1)
  {
    var tok, front := path[start..i + 1], path[start..i];
    assert forall k :: 0 <= k < |front| ==> tok[k] == front[k] && front[k] in front;
    IndexOfUnique(tok, '>', |tok| - 1);
    assert path[i + 1..i + 1] == "";
  }

  /** No token is open at the end of a well-formed path. */
  lemma NothingOpen(path: string, e: int, start: int, segments: seq<string>, names: seq<string>, patterns: seq<string>)
    requires Scanned(path, e, segments, names, patterns) && Reading(path, e, start, |path|)
    ensures start == -1 && IsLiteral(path[e..])
  {
    hide Scanned, Parts, Names, Patterns, WellFormed, IsLiteral;
    ScannedRest(path, e, segments, names, patterns);
    assert path[e..|path|] == path[e..];
    if start >= 0 {
      assert path[start..|path|] == path[start..];
      assert path[e..] == path[e..start] + path[start..];
      OpenTokenEnds(path[e..start], path[start..]);
      assert false;
    }
  }

  lemma OpenTokenEnds(lit: string, open: string)
    requires IsLiteral(lit) && open != "" && open[0] == '<' && '>' !in open
    ensures !WellFormed(lit + open)
  {
    LiteralPrefix(lit, open);
  }

  lemma ScannedRest(path: string, e: int, segments: seq<string>, names: seq<string>, patterns: seq<string>)
    requires Scanned(path, e, segments, names, patterns)
    ensures 0 <= e <= |path| && WellFormed(path[e..])
  {
    hide Parts, Names, Patterns, WellFormed;
  }

  /** `Route`, as far as building URLs goes; a pattern stands for its compiled expression. */
  datatype Route = Route(name: string, path: string, segments: seq<string>, names: seq<string>, patterns: seq<string>)

  /** The template belongs to the path. */
  ghost predicate IsRoute(r: Route) {
    && WellFormed(r.path) && AllOk(Segments(r.path)) && r.segments == Texts(Segments(r.path))
    && r.names == Names(r.path) && r.patterns == Patterns(r.path)
  }

  /** `newRoute`. */
  method NewRoute(prefix: string, path: string) returns (r: Route)
    requires WellFormed(prefix + path)
    ensures IsRoute(r) && r.name == prefix + path && r.path == KeyOf(prefix + path)
  {
    hide Parts, Names, Patterns, WellFormed, Segments, Texts;
    var name := prefix + path;
    var key := name;
    if name != "" && name[|name| - 1] == '*' {
      key := name[..|name| - 1] + "<*:.*>";
    }
    KeyOfWellFormed(name);
    var segments, names, patterns := BuildTemplate(key);
    r := Route(name, key, segments, names, patterns);
  }

  /** `URLByIndex`. */
  method URLByIndex(re: Matcher, route: Route, params: seq<string>) returns (r: Built)
    requires IsRoute(route)
    ensures r == URLOf(re, route.path, params)
  {
    hide Parts, Names, Patterns, WellFormed, Segments, Texts, Acceptable;
    PartsOk(route.path);
    if |params| != |route.names| {
      return Refused;
    }
    var ok := CheckParams(re, route.patterns, params);
    if !ok {
      return Refused;
    }
    FillSegments(route.path, params);
    r := FillIn(Segments(route.path), route.segments, params);
  }

  /** Each parameter against its pattern. */
  method CheckParams(re: Matcher, patterns: seq<string>, params: seq<string>) returns (ok: bool)
    requires |params| == |patterns|
    ensures ok == AllAcceptable(re, patterns, params)
  {
    for i := 0 to |params|
      invariant forall k :: 0 <= k < i ==> Acceptable(re, patterns[k], params[k])
    {
      if patterns[i] == "" {
        if '/' in params[i] {
          assert !Acceptable(re, patterns[i], params[i]);
          return false;
        }
      } else if FindEnd(re, "^" + patterns[i], params[i]).None? {
        assert !Acceptable(re, patterns[i], params[i]);
        return false;
      }
    }
    return true;
  }

  /** The segments with the parameters in the place of the tokens. */
  method FillIn(ghost parts: seq<Part>, segments: seq<string>, params: seq<string>) returns (r: Built)
    requires AllOk(parts) && segments == Texts(parts) && Tokens(parts) == |params|
    ensures r == if Literal("") in parts then Panic else Url(Fill(parts, params))
  {
    hide IsToken, NameOf, Fill;
    var url, j := "", 0;
    ghost var goal := Fill(parts, params);
    assert parts[0..] == parts && params[0..] == params;
    for i := 0 to |segments|
      invariant 0 <= j <= |params| && Tokens(parts[i..]) == |params| - j
      invariant url + Fill(parts[i..], params[j..]) == goal
      invariant forall k :: 0 <= k < i ==> parts[k] != Literal("")
    {
      var s := segments[i];
      assert PartOk(parts[i]) && s == Text(parts[i]);
      if s == "" {
        assert parts[i] == Literal("");
        return Panic;
      }
      FillOne(parts[i..], params[j..], url);
      assert parts[i..][1..] == parts[i + 1..];
      if s[0] == '<' {
        assert parts[i].Token?;
        assert params[j..][1..] == params[j + 1..];
        url := url + params[j];
        j := j + 1;
      } else {
        assert parts[i].Literal?;
        url := url + s;
      }
    }
    FillLiteral("", params[j..]);
    assert url + "" == url;
    return Url(url);
  }

  lemma FillOne(parts: seq<Part>, params: seq<string>, url: string)
    requires parts != [] && Tokens(parts) <= |params|
    ensures url + Fill(parts, params) ==
            if parts[0].Literal? then url + parts[0].text + Fill(parts[1..], params)
            else url + params[0] + Fill(parts[1..], params[1..])
  {
    if parts[0].Literal? {
      assert url + (parts[0].text + Fill(parts[1..], params)) == url + parts[0].text + Fill(parts[1..], params);
    } else {
      assert url + (params[0] + Fill(parts[1..], params[1..])) == url + params[0] + Fill(parts[1..], params[1..]);
    }
  }

  lemma FillSegments(key: string, params: seq<string>)
    requires WellFormed(key) && Tokens(Parts(key)) == |params|
    ensures Tokens(Segments(key)) == |params| && Fill(Segments(key), params) == Fill(Parts(key), params)
  {
    if key == "" {
      LiteralKey("");
      FillLiteral("", params);
    }
  }
}
