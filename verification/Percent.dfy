/** Percent-encoding of query arguments and paths (fasthttp/bytesconv.go, fasthttp/args.go). A byte
    string is a `string` whose characters are below 256. */
module Percent {
  import opened Basics

  predicate IsBytes(s: string) {
    forall i :: 0 <= i < |s| ==> s[i] as int < 256
  }

  /** hex2intTable: the value of a hexadecimal digit, 16 for any other byte. */
  function Hex2Int(c: char): (n: nat)
    ensures n <= 16
  {
    if '0' <= c <= '9' then c as int - '0' as int
    else if 'a' <= c <= 'f' then c as int - 'a' as int + 10
    else if 'A' <= c <= 'F' then c as int - 'A' as int + 10
    else 16
  }

  function UpperHex(n: nat): (c: char)
    requires n < 16
    ensures Hex2Int(c) == n
    ensures IsUnreserved(c)
  {
    if n < 10 then ('0' as int + n) as char else ('A' as int + (n - 10)) as char
  }

  /** The characters both escape tables leave alone. */
  predicate IsUnreserved(c: char) {
    'a' <= c <= 'z' || 'A' <= c <= 'Z' || '0' <= c <= '9' || c in "-_.~"
  }

  /** quotedArgShouldEscapeTable and quotedPathShouldEscapeTable. */
  predicate EscapeInArg(c: char) {
    !IsUnreserved(c)
  }

  predicate EscapeInPath(c: char) {
    !IsUnreserved(c) && c !in "$&+,/:;=@"
  }

  function Escaped(c: char): string
    requires c as int < 256
  {
    ['%', UpperHex(c as int / 16), UpperHex(c as int % 16)]
  }

  /** The encoding of one byte of an argument, and of a path. */
  function ArgByte(c: char): string
    requires c as int < 256
  {
    if c == ' ' then "+" else if EscapeInArg(c) then Escaped(c) else [c]
  }

  function PathByte(c: char): string
    requires c as int < 256
  {
    if EscapeInPath(c) then Escaped(c) else [c]
  }

  function QuotedArg(s: string): string
    requires IsBytes(s)
  {
    if s == "" then "" else QuotedArg(s[..|s| - 1]) + ArgByte(s[|s| - 1])
  }

  function QuotedPath(s: string): string
    requires IsBytes(s)
  {
    if s == "" then "" else QuotedPath(s[..|s| - 1]) + PathByte(s[|s| - 1])
  }

  /** decodeArgAppend (`plus`) and decodeArgAppendNoPlus (not `plus`): "%XY" becomes one byte, a
      malformed escape stays, and so does everything from a '%' closer than two bytes to the end. */
  function Decoded(s: string, plus: bool): string {
    if s == "" then ""
    else if s[0] == '%' then
      if |s| <= 2 then s
      else if Hex2Int(s[1]) == 16 || Hex2Int(s[2]) == 16 then "%" + Decoded(s[1..], plus)
      else [(Hex2Int(s[1]) * 16 + Hex2Int(s[2])) as char] + Decoded(s[3..], plus)
    else if plus && s[0] == '+' then " " + Decoded(s[1..], plus)
    else [s[0]] + Decoded(s[1..], plus)
  }

  /** `AppendQuotedArg`. */
  method AppendQuotedArg(dst: string, src: string) returns (r: string)
    requires IsBytes(src)
    ensures r == dst + QuotedArg(src)
  {
    hide QuotedArg, Escaped, IsUnreserved;
    r := dst;
    QuotedArgNothing();
    for i := 0 to |src|
      invariant r == dst + QuotedArg(src[..i])
    {
      var c := src[i];
      QuotedArgStep(src[..i + 1]);
      assert src[..i + 1][..i] == src[..i];
      if c == ' ' {
        r := r + "+";
      } else if EscapeInArg(c) {
        r := r + Escaped(c);
      } else {
        r := r + [c];
      }
    }
    assert src[..|src|] == src;
  }

  /** `appendQuotedPath`: the lone "*" of an OPTIONS request is kept. */
  method AppendQuotedPath(dst: string, src: string) returns (r: string)
    requires IsBytes(src)
    ensures r == dst + if src == "*" then "*" else QuotedPath(src)
  {
    if |src| == 1 && src[0] == '*' {
      return dst + "*";
    }
    r := AppendPathBytes(dst, src);
  }

  /** The loop of `appendQuotedPath`. */
  method AppendPathBytes(dst: string, src: string) returns (r: string)
    requires IsBytes(src)
    ensures r == dst + QuotedPath(src)
  {
    hide QuotedPath, Escaped, IsUnreserved;
    r := dst;
    QuotedPathNothing();
    for i := 0 to |src|
      invariant r == dst + QuotedPath(src[..i])
    {
      var c := src[i];
      QuotedPathStep(src[..i + 1]);
      assert src[..i + 1][..i] == src[..i];
      if EscapeInPath(c) {
        r := r + Escaped(c);
      } else {
        r := r + [c];
      }
    }
    assert src[..|src|] == src;
  }

  /** `decodeArgAppend` and `decodeArgAppendNoPlus`: copy up to the first encoded byte, then decode
      byte by byte. */
  method DecodeAppend(dst: string, src: string, plus: bool) returns (r: string)
    ensures r == dst + Decoded(src, plus)
  {
    hide Decoded, IndexOf;
    var idxPercent := IndexOf(src, '%');
    var idxPlus := if plus then IndexOf(src, '+') else |src|;
    var idx := if idxPercent > idxPlus then idxPlus else idxPercent;
    PlainPrefix(src, idx, plus);
    if idx == |src| {
      DecodedEnd(src, plus);
      assert src[..idx] + "" == src;
      return dst + src;
    }
    r := DecodeSlow(dst + src[..idx], src, idx, plus);
    assert dst + (src[..idx] + Decoded(src[idx..], plus)) == dst + src[..idx] + Decoded(src[idx..], plus);
  }

  /** The slow path of the decoder from position `from` on. */
  method DecodeSlow(dst: string, src: string, from: nat, plus: bool) returns (r: string)
    requires from <= |src|
    ensures r == dst + Decoded(src[from..], plus)
  {
    hide Decoded, Hex2Int;
    r := dst;
    var i := from;
    ghost var goal := dst + Decoded(src[from..], plus);
    while i < |src|
      invariant 0 <= i <= |src|
      invariant r + Decoded(src[i..], plus) == goal
    {
      DecodedAt(src, i, plus);
      ghost var was := r;
      var c := src[i];
      var out := [c];
      if c == '%' {
        if i + 2 >= |src| {
          return r + src[i..];
        }
        var x2, x1 := Hex2Int(src[i + 2]), Hex2Int(src[i + 1]);
        if x1 == 16 || x2 == 16 {
          out := "%";
        } else {
          out := [(x1 * 16 + x2) as char];
          i := i + 2;
        }
      } else if plus && c == '+' {
        out := " ";
      }
      r := r + out;
      i := i + 1;
      assert was + (out + Decoded(src[i..], plus)) == r + Decoded(src[i..], plus);
    }
    DecodedEnd(src, plus);
    assert r + "" == r;
  }

  lemma DecodedEnd(s: string, plus: bool)
    ensures Decoded(s[|s|..], plus) == ""
  {
  }

  /** One step of the decoder at position `i`. */
  lemma {:induction false} DecodedAt(s: string, i: nat, plus: bool)
    requires i < |s|
    ensures Decoded(s[i..], plus) ==
            if s[i] == '%' then
              if i + 2 >= |s| then s[i..]
              else if Hex2Int(s[i + 1]) == 16 || Hex2Int(s[i + 2]) == 16 then "%" + Decoded(s[i + 1..], plus)
              else [(Hex2Int(s[i + 1]) * 16 + Hex2Int(s[i + 2])) as char] + Decoded(s[i + 3..], plus)
            else if plus && s[i] == '+' then " " + Decoded(s[i + 1..], plus)
            else [s[i]] + Decoded(s[i + 1..], plus)
  {
    assert s[i..][1..] == s[i + 1..];
    assert i + 2 < |s| ==> s[i..][3..] == s[i + 3..];
  }

  /** Bytes that are not encoded decode to themselves. */
  lemma {:induction false} PlainPrefix(s: string, n: nat, plus: bool)
    requires n <= |s| && forall j :: 0 <= j < n ==> s[j] != '%' && !(plus && s[j] == '+')
    ensures Decoded(s, plus) == s[..n] + Decoded(s[n..], plus)
    decreases n
  {
    hide Decoded;
    if n == 0 {
      assert s[0..] == s && "" + Decoded(s, plus) == Decoded(s, plus);
    } else {
      var t := s[1..];
      DecodedAt(s, 0, plus);
      assert s[0..] == s && forall j :: 0 <= j < n - 1 ==> t[j] == s[j + 1];
      PlainPrefix(t, n - 1, plus);
      assert t[n - 1..] == s[n..];
      assert s[..n] == [s[0]] + t[..n - 1];
      assert [s[0]] + (t[..n - 1] + Decoded(s[n..], plus)) == s[..n] + Decoded(s[n..], plus);
    }
  }

  lemma EscapeDecodes(c: char, rest: string, plus: bool)
    requires c as int < 256
    ensures Decoded(Escaped(c) + rest, plus) == [c] + Decoded(rest, plus)
  {
    var s := Escaped(c) + rest;
    var n := c as int;
    assert s[3..] == rest;
    assert Hex2Int(s[1]) == n / 16 && Hex2Int(s[2]) == n % 16;
    assert (Hex2Int(s[1]) * 16 + Hex2Int(s[2])) as char == c;
  }

  lemma ByteDecodes(b: string, c: char, rest: string, plus: bool)
    requires c as int < 256
    requires b == Escaped(c) || (b == [c] && c != '%' && !(plus && c == '+')) || (plus && c == ' ' && b == "+")
    ensures Decoded(b + rest, plus) == [c] + Decoded(rest, plus)
  {
    if b == Escaped(c) {
      EscapeDecodes(c, rest, plus);
    } else {
      assert (b + rest)[1..] == rest;
    }
  }

  lemma QuotedArgNothing()
    ensures QuotedArg("") == ""
  {
  }

  lemma {:induction false} QuotedArgStep(s: string)
    requires IsBytes(s) && s != ""
    ensures QuotedArg(s) == QuotedArg(s[..|s| - 1]) + ArgByte(s[|s| - 1])
  {
  }

  lemma ArgByteDecodes(c: char, rest: string)
    requires c as int < 256
    ensures Decoded(ArgByte(c) + rest, true) == [c] + Decoded(rest, true)
  {
    hide Decoded;
    ByteDecodes(ArgByte(c), c, rest, true);
  }

  /** Decoding undoes the quoting of arguments, whatever follows. */
  lemma {:induction false} ArgRoundTrip(s: string, rest: string)
    requires IsBytes(s)
    ensures Decoded(QuotedArg(s) + rest, true) == s + Decoded(rest, true)
  {
    hide Decoded, QuotedArg;
    if s == "" {
      QuotedArgNothing();
      assert "" + rest == rest && "" + Decoded(rest, true) == Decoded(rest, true);
    } else {
      var n := |s| - 1;
      var b := ArgByte(s[n]);
      QuotedArgStep(s);
      assert QuotedArg(s[..n]) + b + rest == QuotedArg(s[..n]) + (b + rest);
      ArgRoundTrip(s[..n], b + rest);
      ArgByteDecodes(s[n], rest);
      assert s[..n] + ([s[n]] + Decoded(rest, true)) == s + Decoded(rest, true);
    }
  }

  lemma QuotedPathNothing()
    ensures QuotedPath("") == ""
  {
  }

  lemma {:induction false} QuotedPathStep(s: string)
    requires IsBytes(s) && s != ""
    ensures QuotedPath(s) == QuotedPath(s[..|s| - 1]) + PathByte(s[|s| - 1])
  {
  }

  lemma PathByteDecodes(c: char, rest: string)
    requires c as int < 256
    ensures Decoded(PathByte(c) + rest, false) == [c] + Decoded(rest, false)
  {
    hide Decoded;
    ByteDecodes(PathByte(c), c, rest, false);
  }

  /** Decoding without '+' undoes the quoting of paths, whatever follows. */
  lemma {:induction false} PathRoundTrip(s: string, rest: string)
    requires IsBytes(s)
    ensures Decoded(QuotedPath(s) + rest, false) == s + Decoded(rest, false)
  {
    hide Decoded, QuotedPath;
    if s == "" {
      QuotedPathNothing();
      assert "" + rest == rest && "" + Decoded(rest, false) == Decoded(rest, false);
    } else {
      var n := |s| - 1;
      var b := PathByte(s[n]);
      QuotedPathStep(s);
      assert QuotedPath(s[..n]) + b + rest == QuotedPath(s[..n]) + (b + rest);
      PathRoundTrip(s[..n], b + rest);
      PathByteDecodes(s[n], rest);
      assert s[..n] + ([s[n]] + Decoded(rest, false)) == s + Decoded(rest, false);
    }
  }

  /** Decoding bytes gives bytes. */
  lemma {:induction false} DecodedIsBytes(s: string, plus: bool)
    requires IsBytes(s)
    ensures IsBytes(Decoded(s, plus))
  {
    if s == "" {
    } else if s[0] == '%' {
      if |s| > 2 {
        if Hex2Int(s[1]) == 16 || Hex2Int(s[2]) == 16 {
          DecodedIsBytes(s[1..], plus);
        } else {
          DecodedIsBytes(s[3..], plus);
        }
      }
    } else {
      DecodedIsBytes(s[1..], plus);
    }
  }

  /** A quoted argument uses unreserved characters, '%' and '+' only. */
  lemma {:induction false} QuotedArgChars(s: string, i: nat)
    requires IsBytes(s) && i < |QuotedArg(s)|
    ensures IsUnreserved(QuotedArg(s)[i]) || QuotedArg(s)[i] == '%' || QuotedArg(s)[i] == '+'
  {
    var n := |s| - 1;
    var k := |QuotedArg(s[..n])|;
    if i < k {
      QuotedArgChars(s[..n], i);
    } else {
      assert QuotedArg(s)[i] == ArgByte(s[n])[i - k];
    }
  }

  /** A quoted path uses '%' and the characters the path table leaves alone. */
  lemma {:induction false} QuotedPathChars(s: string, i: nat)
    requires IsBytes(s) && i < |QuotedPath(s)|
    ensures !EscapeInPath(QuotedPath(s)[i]) || QuotedPath(s)[i] == '%'
  {
    var n := |s| - 1;
    var k := |QuotedPath(s[..n])|;
    if i < k {
      QuotedPathChars(s[..n], i);
    } else {
      assert QuotedPath(s)[i] == PathByte(s[n])[i - k];
    }
  }
}
