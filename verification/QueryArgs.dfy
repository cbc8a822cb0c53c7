/** Query arguments (fasthttp/args.go): the scanner and parser that reuse the slots of an argument
    list in place, the printer, and the law that they are inverse to each other. */
module QueryArgs {
  import opened Basics
  import opened Percent

  datatype Arg = Arg(key: string, value: string, noValue: bool)

  // ---------------------------------------------------------------- meaning

  /** The argument spelled by one '&'-free segment. */
  function SegmentArg(seg: string): Arg {
    var i := IndexOf(seg, '=');
    if i < |seg| then Arg(Decoded(seg[..i], true), Decoded(seg[i + 1..], true), false)
    else Arg(Decoded(seg, true), "", true)
  }

  predicate Kept(a: Arg) {
    a.key != "" || a.value != ""
  }

  /** The arguments of a query string; entries without key and value are dropped. */
  function Parsed(b: string): seq<Arg> {
    if b == "" then []
    else
      var i := IndexOf(b, '&');
      var a := SegmentArg(b[..i]);
      (if Kept(a) then [a] else []) + if i < |b| then Parsed(b[i + 1..]) else []
  }

  predicate ArgBytes(a: Arg) {
    IsBytes(a.key) && IsBytes(a.value)
  }

  predicate AllBytes(args: seq<Arg>) {
    forall i :: 0 <= i < |args| ==> ArgBytes(args[i])
  }

  function PrintedArg(a: Arg): string
    requires ArgBytes(a)
  {
    QuotedArg(a.key) + if a.noValue then "" else "=" + QuotedArg(a.value)
  }

  function Printed(args: seq<Arg>): string
    requires AllBytes(args)
  {
    if args == [] then ""
    else if |args| == 1 then PrintedArg(args[0])
    else PrintedArg(args[0]) + "&" + Printed(args[1..])
  }

  /** Entries the printed form keeps apart: not empty, and without a value when marked so. */
  predicate Printable(a: Arg) {
    Kept(a) && (a.noValue ==> a.value == "")
  }

  /** An entry as the printed form shows it: a value is lost on one marked as without. */
  function Shown(a: Arg): Arg {
    if a.noValue then a.(value := "") else a
  }

  /** What is left of a list after printing and parsing. */
  function Surviving(args: seq<Arg>): seq<Arg> {
    if args == [] then []
    else (if Kept(Shown(args[0])) then [Shown(args[0])] else []) + Surviving(args[1..])
  }

  // ---------------------------------------------------------------- laws

  /** A quoted argument holds no separator. */
  lemma QuotedArgSafe(s: string, c: char)
    requires IsBytes(s) && c in "&=#?/ "
    ensures c !in QuotedArg(s)
  {
    forall i | 0 <= i < |QuotedArg(s)|
      ensures QuotedArg(s)[i] != c
    {
      QuotedArgChars(s, i);
    }
  }

  lemma PrintedArgIsSegment(a: Arg)
    requires ArgBytes(a)
    ensures '&' !in PrintedArg(a)
  {
    QuotedArgSafe(a.key, '&');
    QuotedArgSafe(a.value, '&');
  }

  lemma ArgDecodes(s: string)
    requires IsBytes(s)
    ensures Decoded(QuotedArg(s), true) == s
  {
    ArgRoundTrip(s, "");
    assert QuotedArg(s) + "" == QuotedArg(s);
  }

  /** Reading one printed entry gives back what it shows. */
  lemma SegmentRoundTrip(a: Arg)
    requires ArgBytes(a)
    ensures SegmentArg(PrintedArg(a)) == Shown(a)
  {
    hide Decoded, QuotedArg;
    var seg, k := PrintedArg(a), QuotedArg(a.key);
    QuotedArgSafe(a.key, '=');
    ArgDecodes(a.key);
    ArgDecodes(a.value);
    if a.noValue {
      assert seg == k;
      IndexOfUnique(seg, '=', |seg|);
    } else {
      assert seg == k + "=" + QuotedArg(a.value);
      assert forall j :: 0 <= j < |k| ==> seg[j] == k[j];
      IndexOfUnique(seg, '=', |k|);
      assert seg[..|k|] == k && seg[|k| + 1..] == QuotedArg(a.value);
    }
  }

  /** An entry that prints as nothing is one that is dropped. */
  lemma PrintedNonEmpty(a: Arg)
    requires ArgBytes(a) && Kept(Shown(a))
    ensures PrintedArg(a) != ""
  {
    if a.noValue {
      ArgDecodes(a.key);
    }
  }

  lemma ParsedLast(p: string)
    requires p != "" && '&' !in p
    ensures Parsed(p) == if Kept(SegmentArg(p)) then [SegmentArg(p)] else []
  {
    hide SegmentArg;
    IndexOfUnique(p, '&', |p|);
    assert p[..|p|] == p;
  }

  lemma ParsedFirst(p: string, rest: string)
    requires '&' !in p
    ensures Parsed(p + "&" + rest) == (if Kept(SegmentArg(p)) then [SegmentArg(p)] else []) + Parsed(rest)
  {
    hide SegmentArg;
    var b := p + "&" + rest;
    assert forall j :: 0 <= j < |p| ==> b[j] == p[j];
    IndexOfUnique(b, '&', |p|);
    assert b[..|p|] == p && b[|p| + 1..] == rest;
  }

  /** For every list: printing and parsing drops the entries without key and value, and the values
      of those marked as without one, and keeps everything else in order. */
  lemma {:induction false} ParsePrint(args: seq<Arg>)
    requires AllBytes(args)
    ensures Parsed(Printed(args)) == Surviving(args)
  {
    hide SegmentArg, PrintedArg, Parsed, Kept, Shown;
    if args == [] {
      ParsedNothing();
    } else {
      var a := args[0];
      SegmentRoundTrip(a);
      PrintedArgIsSegment(a);
      var one := if Kept(Shown(a)) then [Shown(a)] else [];
      if |args| == 1 {
        ParsedOne(PrintedArg(a), a);
        assert args[1..] == [] && one + [] == one;
      } else {
        ParsePrint(args[1..]);
        ParsedFirst(PrintedArg(a), Printed(args[1..]));
      }
    }
  }

  /** The last entry, which may print as nothing. */
  lemma ParsedOne(p: string, a: Arg)
    requires ArgBytes(a) && p == PrintedArg(a) && '&' !in p && SegmentArg(p) == Shown(a)
    ensures Parsed(p) == if Kept(Shown(a)) then [Shown(a)] else []
  {
    hide SegmentArg, PrintedArg, Parsed, Kept, Shown;
    if p == "" {
      ParsedNothing();
      if Kept(Shown(a)) {
        PrintedNonEmpty(a);
      }
    } else {
      ParsedLast(p);
    }
  }

  lemma {:induction false} AllSurvive(args: seq<Arg>)
    requires forall i :: 0 <= i < |args| ==> Printable(args[i])
    ensures Surviving(args) == args
  {
    if args != [] {
      assert Printable(args[0]);
      AllSurvive(args[1..]);
      assert args == [args[0]] + args[1..];
    }
  }

  lemma {:induction false} ParseInvertsPrint(args: seq<Arg>)
    requires AllBytes(args) && forall i :: 0 <= i < |args| ==> Printable(args[i])
    ensures Parsed(Printed(args)) == args
  {
    ParsePrint(args);
    AllSurvive(args);
  }

  /** Everything the parser keeps is printable, and made of bytes if its input was. */
  lemma {:induction false} ParsedIsPrintable(b: string, i: nat)
    requires i < |Parsed(b)|
    ensures Printable(Parsed(b)[i])
    ensures IsBytes(b) ==> ArgBytes(Parsed(b)[i])
    decreases |b|
  {
    hide Parsed, SegmentArg, IndexOf, Kept, Printable, ArgBytes;
    if b == "" {
      ParsedNothing();
      assert false;
    }
    ParsedStep(b);
    var n := IndexOf(b, '&');
    var seg, rest := b[..n], if n < |b| then b[n + 1..] else "";
    SegmentPrintable(seg);
    var k := if Kept(SegmentArg(seg)) then 1 else 0;
    if i < k {
      if IsBytes(b) {
        SegmentBytes(seg);
      }
    } else {
      ParsedIsPrintable(rest, i - k);
    }
  }

  lemma SegmentPrintable(seg: string)
    ensures Kept(SegmentArg(seg)) ==> Printable(SegmentArg(seg))
  {
  }

  lemma {:induction false} ParsedStep(b: string)
    requires b != ""
    ensures var i := IndexOf(b, '&'); var a := SegmentArg(b[..i]);
            Parsed(b) == (if Kept(a) then [a] else []) + Parsed(if i < |b| then b[i + 1..] else "")
  {
  }

  lemma ParsedNothing()
    ensures Parsed("") == []
  {
  }

  lemma PrintedStep(args: seq<Arg>, i: nat)
    requires AllBytes(args) && i < |args|
    ensures Printed(args[i..]) == PrintedArg(args[i]) + if i + 1 < |args| then "&" + Printed(args[i + 1..]) else ""
  {
    assert args[i..][1..] == args[i + 1..];
  }

  lemma SegmentBytes(seg: string)
    requires IsBytes(seg)
    ensures ArgBytes(SegmentArg(seg))
  {
    var i := IndexOf(seg, '=');
    if i < |seg| {
      DecodedIsBytes(seg[..i], true);
      DecodedIsBytes(seg[i + 1..], true);
    } else {
      DecodedIsBytes(seg, true);
    }
  }

  lemma ParsedIsBytes(b: string)
    requires IsBytes(b)
    ensures AllBytes(Parsed(b))
  {
    forall i | 0 <= i < |Parsed(b)|
      ensures ArgBytes(Parsed(b)[i])
    {
      ParsedIsPrintable(b, i);
    }
  }

  /** Printing and parsing again loses nothing exactly for lists of printable entries. */
  lemma RoundTripIff(args: seq<Arg>)
    requires AllBytes(args)
    ensures Parsed(Printed(args)) == args <==> forall i :: 0 <= i < |args| ==> Printable(args[i])
  {
    if Parsed(Printed(args)) == args {
      forall i | 0 <= i < |args|
        ensures Printable(args[i])
      {
        ParsedIsPrintable(Printed(args), i);
      }
    } else if forall i :: 0 <= i < |args| ==> Printable(args[i]) {
      ParseInvertsPrint(args);
    }
  }

  /** For example, the entry that adding an empty key and value leaves in a list. */
  lemma EmptyEntryIsLost()
    ensures AllBytes([Arg("", "", false)]) && Parsed(Printed([Arg("", "", false)])) == []
  {
    var args := [Arg("", "", false)];
    ParsePrint(args);
    assert args[1..] == [];
  }

  /** Parsing a query string, printing it and parsing again gives the same list. */
  lemma ParsePrintParse(b: string)
    requires IsBytes(b)
    ensures AllBytes(Parsed(b)) && Parsed(Printed(Parsed(b))) == Parsed(b)
  {
    ParsedIsBytes(b);
    forall i | 0 <= i < |Parsed(b)|
      ensures Printable(Parsed(b)[i])
    {
      ParsedIsPrintable(b, i);
    }
    ParseInvertsPrint(Parsed(b));
  }

  // ---------------------------------------------------------------- the scanner and the slots

  /** `argsScanner.next`: fills the slot `kv`, whatever it held before, from the front of `b`. */
  method ScanNext(b: string, kv: Arg) returns (ok: bool, kv': Arg, rest: string)
    ensures ok <==> b != ""
    ensures ok ==> kv' == SegmentArg(b[..IndexOf(b, '&')])
    ensures rest == if IndexOf(b, '&') < |b| then b[IndexOf(b, '&') + 1..] else ""
  {
    if |b| == 0 {
      return false, kv, "";
    }
    kv' := kv.(noValue := false);
    ghost var end := IndexOf(b, '&');
    var isKey, k, i := true, 0, 0;
    while i < |b|
      invariant 0 <= i <= end
      invariant isKey ==> kv'.noValue == false && forall j :: 0 <= j < i ==> b[j] != '='
      invariant !isKey ==> 0 < k <= i && b[k - 1] == '=' && (forall j :: 0 <= j < k - 1 ==> b[j] != '=')
      invariant !isKey ==> kv'.key == Decoded(b[..k - 1], true) && !kv'.noValue
    {
      if b[i] == '=' {
        if isKey {
          isKey := false;
          var key := DecodeAppend("", b[..i], true);
          kv' := kv'.(key := key);
          k := i + 1;
        }
      } else if b[i] == '&' {
        assert i == end;
        SegmentShape(b[..i], isKey, k);
        if isKey {
          var key := DecodeAppend("", b[..i], true);
          kv' := Arg(key, "", true);
        } else {
          assert b[..i][k..] == b[k..i] && b[..i][..k - 1] == b[..k - 1];
          var value := DecodeAppend("", b[k..i], true);
          kv' := kv'.(value := value);
        }
        return true, kv', b[i + 1..];
      }
      i := i + 1;
    }
    assert b[..end] == b;
    SegmentShape(b, isKey, k);
    if isKey {
      var key := DecodeAppend("", b, true);
      kv' := Arg(key, "", true);
    } else {
      var value := DecodeAppend("", b[k..], true);
      kv' := kv'.(value := value);
    }
    return true, kv', "";
  }

  /** What the scanner knows about a segment when it reaches its end. */
  lemma SegmentShape(seg: string, isKey: bool, k: int)
    requires isKey ==> forall j :: 0 <= j < |seg| ==> seg[j] != '='
    requires !isKey ==> 0 < k <= |seg| && seg[k - 1] == '=' && forall j :: 0 <= j < k - 1 ==> seg[j] != '='
    ensures SegmentArg(seg) ==
            if isKey then Arg(Decoded(seg, true), "", true)
            else Arg(Decoded(seg[..k - 1], true), Decoded(seg[k..], true), false)
  {
    IndexOfUnique(seg, '=', if isKey then |seg| else k - 1);
    hide IndexOf, Decoded;
  }

  /** `Args`: slots that keep the keys and values of earlier uses; the first `n` are in use. */
  class Args {
    var slots: seq<Arg>
    var n: nat

    ghost predicate Valid()
      reads this
    {
      n <= |slots|
    }

    ghost function Contents(): seq<Arg>
      requires Valid()
      reads this
    {
      slots[..n]
    }

    constructor ()
      ensures Valid() && Contents() == []
    {
      slots, n := [], 0;
    }

    /** `allocArg`: one more slot, with stale contents when there is one to reuse. */
    method Alloc()
      requires Valid()
      modifies this
      ensures Valid() && n == old(n) + 1 && slots[..old(n)] == old(slots[..n])
    {
      if n == |slots| {
        slots := slots + [Arg("", "", false)];
      }
      n := n + 1;
    }

    /** `appendArg`: a slot is filled, whatever it held before. */
    method Append(key: string, value: string, noValue: bool)
      requires Valid()
      modifies this
      ensures Valid() && Contents() == old(Contents()) + [Arg(key, if noValue then "" else value, noValue)]
    {
      Alloc();
      slots := slots[n - 1 := Arg(key, if noValue then "" else value, noValue)];
      assert slots[..n] == slots[..n - 1] + [slots[n - 1]];
    }

    /** `ParseBytes`. */
    method ParseBytes(b: string)
      requires Valid()
      modifies this
      ensures Valid() && Contents() == Parsed(b)
    {
      hide Parsed, SegmentArg, IndexOf;
      n := 0;
      Alloc();
      var s := b;
      while s != ""
        invariant Valid() && n >= 1
        invariant slots[..n - 1] + Parsed(s) == Parsed(b)
        decreases |s|
      {
        ghost var was := slots[..n - 1];
        ParsedStep(s);
        var ok, kv, rest := ScanNext(s, slots[n - 1]);
        s := rest;
        slots := slots[n - 1 := kv];
        assert slots[..n - 1] == was;
        if |kv.key| > 0 || |kv.value| > 0 {
          assert slots[..n] == was + [kv];
          Alloc();
          assert slots[..n - 1] == was + [kv];
          assert was + ([kv] + Parsed(s)) == was + [kv] + Parsed(s);
        } else {
          assert [] + Parsed(s) == Parsed(s);
        }
      }
      ParsedNothing();
      assert slots[..n - 1] + [] == slots[..n - 1];
      n := n - 1;
    }

    /** `AppendBytes`. */
    method AppendBytes(dst: string) returns (r: string)
      requires Valid() && AllBytes(Contents())
      ensures r == dst + Printed(Contents())
    {
      hide QuotedArg, Printed;
      r := dst;
      ghost var all := Contents();
      ghost var goal := dst + Printed(all);
      assert all[0..] == all;
      PrintedNothing();
      var i := 0;
      while i < n
        invariant 0 <= i <= n
        invariant if i < n then r + Printed(all[i..]) == goal else r == goal
      {
        var kv := slots[i];
        assert kv == all[i];
        PrintedStep(all, i);
        ghost var was := r;
        r := AppendQuotedArg(r, kv.key);
        if !kv.noValue {
          r := r + "=";
          if |kv.value| > 0 {
            r := AppendQuotedArg(r, kv.value);
          } else {
            QuotedArgNothing();
          }
        }
        assert r == was + PrintedArg(kv);
        if i + 1 < n {
          r := r + "&";
          assert was + (PrintedArg(kv) + ("&" + Printed(all[i + 1..]))) == r + Printed(all[i + 1..]);
        }
        i := i + 1;
      }
    }
  }

  lemma PrintedNothing()
    ensures Printed([]) == ""
  {
  }
}
