/** Query strings (fasthttp/args.go), on the text: what each segment is parsed to and what each entry
    is printed as. */
module QueryText {
  import opened Basics
  import opened Percent
  import opened QueryArgs

  /** Segments are parsed one by one, in order. */
  lemma SegmentsParsed(seg: string, rest: string)
    requires '&' !in seg
    ensures Parsed(seg + "&" + rest) == Parsed(seg) + Parsed(rest)
  {
    hide SegmentArg, Parsed;
    ParsedFirst(seg, rest);
    OneSegment(seg);
  }

  lemma OneSegment(seg: string)
    requires '&' !in seg
    ensures Parsed(seg) == if Kept(SegmentArg(seg)) then [SegmentArg(seg)] else []
  {
    hide SegmentArg, Parsed;
    if seg != "" {
      ParsedLast(seg);
    } else {
      ParsedNothing();
      NothingDropped();
    }
  }

  lemma NothingDropped()
    ensures !Kept(SegmentArg(""))
  {
  }

  /** "k=v", split at the first '=', is the entry of the two decoded parts, unless both are empty. */
  lemma KeyValueParsed(k: string, v: string)
    requires '&' !in k && '&' !in v && '=' !in k
    ensures var key, value := Decoded(k, true), Decoded(v, true);
            Parsed(k + "=" + v) == if key == "" && value == "" then [] else [Arg(key, value, false)]
  {
    hide Decoded, Parsed, IndexOf;
    var seg := k + "=" + v;
    assert '&' !in seg;
    OneSegment(seg);
    assert forall j :: 0 <= j < |k| ==> seg[j] == k[j];
    IndexOfUnique(seg, '=', |k|);
    assert seg[..|k|] == k && seg[|k| + 1..] == v;
  }

  /** "k" without '=' is an entry without value, unless it is empty. */
  lemma KeyParsed(k: string)
    requires '&' !in k && '=' !in k
    ensures Parsed(k) == if Decoded(k, true) == "" then [] else [Arg(Decoded(k, true), "", true)]
  {
    hide Decoded, Parsed, IndexOf;
    OneSegment(k);
    IndexOfUnique(k, '=', |k|);
  }

  /** An entry is printed as its quoted key, and behind '=' its quoted value if it has one; entries
      are one '&' apart. */
  lemma EntriesPrinted(a: Arg, args: seq<Arg>)
    requires ArgBytes(a) && AllBytes(args)
    ensures AllBytes([a] + args) && Printed([]) == ""
    ensures Printed([a]) == QuotedArg(a.key) + if a.noValue then "" else "=" + QuotedArg(a.value)
    ensures args != [] ==> Printed([a] + args) == Printed([a]) + "&" + Printed(args)
  {
    hide QuotedArg;
    assert ([a] + args)[1..] == args;
  }
}
