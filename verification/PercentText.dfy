/** Percent-encoding and its tables (fasthttp/bytesconv_table_gen.go, fasthttp/args.go), on the text:
    every byte of the alphabet, and every front of a string to decode. */
module PercentText {
  import opened Basics
  import opened Ascii
  import opened Percent

  /** The value of a hexadecimal digit is its place among the sixteen, in either case; nothing else
      is a digit. */
  lemma HexText(c: char)
    ensures forall v :: 0 <= v < 16 ==> (Hex2Int(c) == v <==> c == UPPER_HEX[v] || c == LOWER_HEX[v])
    ensures Hex2Int(c) == 16 <==> c !in UPPER_HEX && c !in LOWER_HEX
  {
    assert Hex2Int(c) < 16 ==> c == UPPER_HEX[Hex2Int(c)] || c == LOWER_HEX[Hex2Int(c)];
  }

  lemma UpperHexText(n: nat)
    requires n < 16
    ensures UpperHex(n) == UPPER_HEX[n]
  {
  }

  lemma EscapedText(c: char)
    requires c as int < 256
    ensures Escaped(c) == ['%', UPPER_HEX[c as int / 16], UPPER_HEX[c as int % 16]]
  {
    hide UPPER_HEX, UpperHex;
    UpperHexText(c as int / 16);
    UpperHexText(c as int % 16);
  }

  /** The letters, the digits and four marks. */
  lemma UnreservedText(c: char)
    ensures IsUnreserved(c) <==> c in UPPER || c in LOWER || c in DIGITS || c in "-_.~"
  {
    InUpper(c);
    InLower(c);
    InDigits(c);
    hide UPPER, LOWER, DIGITS;
  }

  /** In arguments those stay, a space becomes '+', and every other byte becomes '%' and its two digits. */
  lemma ArgByteText(c: char)
    requires c as int < 256
    ensures QuotedArg([c]) ==
            if c in UPPER || c in LOWER || c in DIGITS || c in "-_.~" then [c]
            else if c == ' ' then "+"
            else ['%', UPPER_HEX[c as int / 16], UPPER_HEX[c as int % 16]]
  {
    hide UPPER, LOWER, DIGITS, UPPER_HEX, Escaped, IsUnreserved;
    UnreservedText(c);
    EscapedText(c);
    QuotedArgNothing();
    QuotedArgStep([c]);
    assert [c][..0] == "" && "" + ArgByte(c) == ArgByte(c);
    SpaceText();
  }

  lemma SpaceText()
    ensures ' ' !in UPPER && ' ' !in LOWER && ' ' !in DIGITS
  {
    InUpper(' ');
    InLower(' ');
    InDigits(' ');
  }

  /** In paths nine marks more stay and a space is no exception. */
  lemma PathByteText(c: char)
    requires c as int < 256
    ensures QuotedPath([c]) ==
            if c in UPPER || c in LOWER || c in DIGITS || c in "-_.~" || c in "$&+,/:;=@" then [c]
            else ['%', UPPER_HEX[c as int / 16], UPPER_HEX[c as int % 16]]
  {
    hide UPPER, LOWER, DIGITS, UPPER_HEX, Escaped, IsUnreserved;
    UnreservedText(c);
    EscapedText(c);
    QuotedPathNothing();
    QuotedPathStep([c]);
    assert [c][..0] == "" && "" + PathByte(c) == PathByte(c);
  }

  /** Quoting goes byte by byte. */
  lemma {:induction false} QuotedCat(a: string, b: string)
    requires IsBytes(a) && IsBytes(b)
    ensures IsBytes(a + b)
    ensures QuotedArg(a + b) == QuotedArg(a) + QuotedArg(b) && QuotedPath(a + b) == QuotedPath(a) + QuotedPath(b)
  {
    hide ArgByte, PathByte, QuotedArg, QuotedPath;
    if b == "" {
      assert a + b == a;
      QuotedArgNothing();
      QuotedPathNothing();
    } else {
      var n := |b| - 1;
      QuotedCat(a, b[..n]);
      assert (a + b)[..|a + b| - 1] == a + b[..n] && (a + b)[|a + b| - 1] == b[n];
      QuotedArgStep(a + b);
      QuotedArgStep(b);
      QuotedPathStep(a + b);
      QuotedPathStep(b);
    }
  }

  /** What the decoder makes of the front of a string: an escape with two digits is the byte they
      spell; one with something else in it, or cut short, stays; '+' is a space where that is asked
      for; every other byte stays. */
  lemma DecodedText(x: char, y: char, rest: string, plus: bool)
    ensures Decoded("", plus) == "" && Decoded("%", plus) == "%" && Decoded(['%', x], plus) == ['%', x]
    ensures Hex2Int(x) < 16 && Hex2Int(y) < 16 ==>
              Decoded(['%', x, y] + rest, plus) == [(16 * Hex2Int(x) + Hex2Int(y)) as char] + Decoded(rest, plus)
    ensures Hex2Int(x) == 16 || Hex2Int(y) == 16 ==>
              Decoded(['%', x, y] + rest, plus) == "%" + Decoded([x, y] + rest, plus)
    ensures Decoded("+" + rest, plus) == (if plus then " " else "+") + Decoded(rest, plus)
    ensures x != '%' && x != '+' ==> Decoded([x] + rest, plus) == [x] + Decoded(rest, plus)
  {
    hide Hex2Int;
    var s := ['%', x, y] + rest;
    assert s[1..] == [x, y] + rest && s[3..] == rest;
    assert ("+" + rest)[1..] == rest && ([x] + rest)[1..] == rest;
  }

  /** Text without marks decodes to itself, in front of anything. */
  lemma PlainCat(a: string, rest: string)
    requires '%' !in a && '+' !in a
    ensures Decoded(a + rest, false) == a + Decoded(rest, false) && Decoded(a, false) == a
  {
    hide Decoded;
    var s := a + rest;
    assert forall j :: 0 <= j < |a| ==> s[j] == a[j];
    PlainPrefix(s, |a|, false);
    assert s[..|a|] == a && s[|a|..] == rest;
    PlainPrefix(a, |a|, false);
    DecodedEnd(a, false);
    assert a[..|a|] == a && a + "" == a;
  }
}
