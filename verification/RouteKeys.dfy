/** Parametric route keys and what it means for a request path to match one
    (the token grammar documented at the top of fasthttp-routing/store.go).

    A key is a string of literal characters and tokens "<name>", "<name:pattern>",
    "<name:>"; a token runs from a '<' to the first '>' after it. `Match` is the
    reference semantics the radix tree is proved against: it reads the key from left
    to right and never backtracks, because every token consumes a determined amount. */
module RouteKeys {
  import opened Basics

  /** A compiled expression: given its source and a text, where the leftmost match ends, if there
      is one. Nothing else about regular expressions is used. */
  type Matcher = (string, string) -> Option<nat>

  /** A match never ends past the text. */
  function FindEnd(re: Matcher, expr: string, text: string): (r: Option<nat>)
    ensures r.Some? ==> r.value <= |text|
  {
    match re(expr, text)
    case None => None
    case Some(e) => if e <= |text| then Some(e) else None
  }

  predicate IsToken(k: string) {
    |k| >= 2 && k[0] == '<' && IndexOf(k, '>') == |k| - 1
  }

  /** The key starts with a token, that is, its leading '<' is closed. */
  predicate StartsWithToken(key: string) {
    key != "" && key[0] == '<' && IndexOf(key, '>') < |key|
  }

  /** The token at the front of `key`. */
  function FirstToken(key: string): (tok: string)
    requires StartsWithToken(key)
    ensures IsToken(tok) && tok <= key
  {
    var tok := key[..IndexOf(key, '>') + 1];
    IndexOfUnique(tok, '>', |tok| - 1);
    tok
  }

  /** Every '<' that opens a token is closed. */
  predicate WellFormed(key: string)
    decreases |key|
  {
    if key == "" then true
    else if key[0] != '<' then WellFormed(key[1..])
    else StartsWithToken(key) && WellFormed(key[|FirstToken(key)|..])
  }

  function Inner(tok: string): string
    requires IsToken(tok)
  {
    tok[1..|tok| - 1]
  }

  /** Parameter name of a token: everything before the first ':'. */
  function NameOf(tok: string): string
    requires IsToken(tok)
  {
    Inner(tok)[..IndexOf(Inner(tok), ':')]
  }

  /** Pattern of a token: everything after the first ':', empty when there is none. */
  function PatternOf(tok: string): string
    requires IsToken(tok)
  {
    var i := IndexOf(Inner(tok), ':');
    if i < |Inner(tok)| then Inner(tok)[i + 1..] else ""
  }

  /** How many characters of `path` a token consumes: all non-slash characters for a plain
      token, everything for ".*", up to the end of the match otherwise. */
  function Consumed(re: Matcher, tok: string, path: string): (r: Option<nat>)
    requires IsToken(tok)
    ensures r.Some? ==> r.value <= |path|
  {
    if PatternOf(tok) == "" then Some(IndexOf(path, '/'))
    else if PatternOf(tok) == ".*" then Some(|path|)
    else FindEnd(re, "^" + PatternOf(tok), path)
  }

  /** The captured parameter values when `key` matches the whole of `path`. */
  function Match(re: Matcher, key: string, path: string): Option<seq<string>>
    decreases |key|
  {
    if key == "" then (if path == "" then Some([]) else None)
    else if StartsWithToken(key) then
      var tok := FirstToken(key);
      var n := Consumed(re, tok, path);
      if n.None? then None
      else Capture(path[..n.value], Match(re, key[|tok|..], path[n.value..]))
    else if path != "" && path[0] == key[0] then Match(re, key[1..], path[1..])
    else None
  }

  function Capture(value: string, r: Option<seq<string>>): Option<seq<string>> {
    if r.None? then None else Some([value] + r.value)
  }

  /** The parameter names of a key, in order. */
  function Names(key: string): seq<string>
    decreases |key|
  {
    if key == "" then []
    else if StartsWithToken(key) then
      [NameOf(FirstToken(key))] + Names(key[|FirstToken(key)|..])
    else Names(key[1..])
  }

  predicate IsLiteral(k: string) {
    '<' !in k
  }

  /** No token is a proper prefix of another: both end at the first '>'. */
  lemma TokensArePrefixFree(a: string, b: string, s: string)
    requires IsToken(a) && IsToken(b) && a <= s && b <= s
    ensures a == b
  {
    assert s[|a| - 1] == '>' && s[|b| - 1] == '>';
    assert |a| == |b| by {
      assert forall j :: 0 <= j < |a| - 1 ==> s[j] == a[j] != '>';
      assert forall j :: 0 <= j < |b| - 1 ==> s[j] == b[j] != '>';
    }
    assert a == s[..|a|] == b;
  }

  lemma TokenThenRest(tok: string, rest: string)
    requires IsToken(tok)
    ensures StartsWithToken(tok + rest)
    ensures FirstToken(tok + rest) == tok
    ensures (tok + rest)[|tok|..] == rest
  {
    IndexOfUnique(tok + rest, '>', |tok| - 1);
  }

  /** A literal run in front of a key is compared character by character. */
  lemma {:induction false} MatchLiteral(re: Matcher, lit: string, rest: string, path: string)
    requires IsLiteral(lit)
    ensures Match(re, lit + rest, path) ==
            if lit <= path then Match(re, rest, path[|lit|..]) else None
    ensures Names(lit + rest) == Names(rest)
  {
    if lit == "" {
      assert lit + rest == rest && path[0..] == path;
    } else {
      assert lit[0] != '<' && (lit + rest)[1..] == lit[1..] + rest;
      assert IsLiteral(lit[1..]);
      if path != "" && path[0] == lit[0] {
        MatchLiteral(re, lit[1..], rest, path[1..]);
        if lit[1..] <= path[1..] {
          assert lit == [lit[0]] + lit[1..] <= [path[0]] + path[1..] == path;
          assert path[1..][|lit[1..]|..] == path[|lit|..];
        } else {
          assert !(lit <= path);
        }
      } else {
        MatchLiteral(re, lit[1..], rest, "");
        assert !(lit <= path);
      }
    }
  }

  /** A token in front of a key captures what it consumes. */
  lemma MatchToken(re: Matcher, tok: string, rest: string, path: string)
    requires IsToken(tok)
    ensures Match(re, tok + rest, path) ==
            (match Consumed(re, tok, path)
             case None => None
             case Some(n) => Capture(path[..n], Match(re, rest, path[n..])))
    ensures Names(tok + rest) == [NameOf(tok)] + Names(rest)
  {
    TokenThenRest(tok, rest);
  }

  /** A match captures one value per parameter name. */
  lemma {:induction false} MatchArity(re: Matcher, key: string, path: string)
    requires Match(re, key, path).Some?
    ensures |Match(re, key, path).value| == |Names(key)|
    decreases |key|
  {
    if key == "" {
    } else if StartsWithToken(key) {
      var tok := FirstToken(key);
      var n := Consumed(re, tok, path).value;
      MatchArity(re, key[|tok|..], path[n..]);
    } else {
      MatchArity(re, key[1..], path[1..]);
    }
  }

  // ---------------------------------------------------------------- the grammar, on the text of keys

  /** The empty key matches the empty path only. */
  lemma MatchNothing(re: Matcher, path: string)
    ensures Match(re, "", path) == if path == "" then Some([]) else None
    ensures Names("") == []
  {
  }

  /** "<name>" takes everything up to the next slash. */
  lemma MatchPlain(re: Matcher, name: string, rest: string, path: string, n: nat)
    requires ':' !in name && '>' !in name
    requires n <= |path| && '/' !in path[..n] && (n == |path| || path[n] == '/')
    ensures Match(re, "<" + name + ">" + rest, path) == Capture(path[..n], Match(re, rest, path[n..]))
    ensures Names("<" + name + ">" + rest) == [name] + Names(rest)
  {
    hide IndexOf, IsToken, NameOf, PatternOf, Match, Names;
    var tok := "<" + name + ">";
    PlainToken(name);
    assert forall j :: 0 <= j < n ==> path[j] == path[..n][j];
    IndexOfUnique(path, '/', n);
    MatchToken(re, tok, rest, path);
  }

  /** "<name:>" does the same. */
  lemma MatchEmptyPattern(re: Matcher, name: string, rest: string, path: string, n: nat)
    requires ':' !in name && '>' !in name
    requires n <= |path| && '/' !in path[..n] && (n == |path| || path[n] == '/')
    ensures Match(re, "<" + name + ":>" + rest, path) == Capture(path[..n], Match(re, rest, path[n..]))
    ensures Names("<" + name + ":>" + rest) == [name] + Names(rest)
  {
    hide IndexOf, IsToken, NameOf, PatternOf, Match, Names;
    var tok := "<" + name + ":>";
    assert tok == "<" + name + ":" + "" + ">";
    PatternToken(name, "");
    assert forall j :: 0 <= j < n ==> path[j] == path[..n][j];
    IndexOfUnique(path, '/', n);
    MatchToken(re, tok, rest, path);
  }

  /** "<name:.*>" takes the whole rest of the path. */
  lemma MatchCatchAll(re: Matcher, name: string, rest: string, path: string)
    requires ':' !in name && '>' !in name
    ensures Match(re, "<" + name + ":.*>" + rest, path) == Capture(path, Match(re, rest, ""))
    ensures Names("<" + name + ":.*>" + rest) == [name] + Names(rest)
  {
    hide IndexOf, IsToken, NameOf, PatternOf, Match, Names;
    var tok := "<" + name + ":.*>";
    assert tok == "<" + name + ":" + ".*" + ">";
    PatternToken(name, ".*");
    MatchToken(re, tok, rest, path);
    assert path[..|path|] == path && path[|path|..] == "";
  }

  /** "<name:e>" takes the match of "^e", so one at the very start, and fails without one. */
  lemma MatchPattern(re: Matcher, name: string, e: string, rest: string, path: string)
    requires ':' !in name && '>' !in name && '>' !in e && e != "" && e != ".*"
    ensures var key := "<" + name + ":" + e + ">" + rest;
            && Names(key) == [name] + Names(rest)
            && (re("^" + e, path).None? ==> Match(re, key, path) == None)
            && (re("^" + e, path).Some? && re("^" + e, path).value <= |path| ==>
                  var n := re("^" + e, path).value;
                  Match(re, key, path) == Capture(path[..n], Match(re, rest, path[n..])))
  {
    hide IndexOf, IsToken, NameOf, PatternOf, Match, Names;
    var tok := "<" + name + ":" + e + ">";
    PatternToken(name, e);
    MatchToken(re, tok, rest, path);
  }

  /** Name and pattern of a token, by its text. */
  lemma PlainToken(name: string)
    requires ':' !in name && '>' !in name
    ensures var tok := "<" + name + ">"; IsToken(tok) && NameOf(tok) == name && PatternOf(tok) == ""
  {
    hide IndexOf;
    Bracketed(name);
    IndexOfUnique(name, ':', |name|);
    assert name[..|name|] == name;
  }

  lemma PatternToken(name: string, e: string)
    requires ':' !in name && '>' !in name && '>' !in e
    ensures var tok := "<" + name + ":" + e + ">"; IsToken(tok) && NameOf(tok) == name && PatternOf(tok) == e
  {
    hide IndexOf, IsToken;
    var inner := name + ":" + e;
    assert "<" + name + ":" + e + ">" == "<" + inner + ">";
    assert '>' !in inner;
    Bracketed(inner);
    assert forall j :: 0 <= j < |name| ==> inner[j] == name[j];
    IndexOfUnique(inner, ':', |name|);
    assert inner[..|name|] == name && inner[|name| + 1..] == e;
  }

  lemma Bracketed(inner: string)
    requires '>' !in inner
    ensures var tok := "<" + inner + ">"; IsToken(tok) && Inner(tok) == inner
  {
    hide IndexOf;
    var tok := "<" + inner + ">";
    assert forall j :: 0 < j <= |inner| ==> tok[j] == inner[j - 1] && inner[j - 1] in inner;
    IndexOfUnique(tok, '>', |tok| - 1);
    assert Inner(tok) == inner;
  }
}
