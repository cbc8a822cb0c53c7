/** What the file-handle cache (fasthttp/fs.go) gives its users: a handler reads the file opened for
    the kind and path it asked for, a cached file is found until it expires, the cleaner takes what
    has expired and nothing else, and every handler comes to its end. */
module FileKeys {
  import opened Basics
  import opened FileCache

  // ---------------------------------------------------------------- whose file it is

  /** What each handler asked for, by the requests of a run. */
  function AskedFor(run: seq<Action>): seq<Key> {
    if run == [] then []
    else
      var keys, a := AskedFor(run[..|run| - 1]), run[|run| - 1];
      if a.Request? then keys + [a.key] else keys
  }

  /** What each file was opened for: the key of the handler that opened it. */
  function OpenedFor(run: seq<Action>): seq<Key> {
    if run == [] then []
    else
      var prefix, a := run[..|run| - 1], run[|run| - 1];
      if a.OpenOk? && 0 <= a.h < |AskedFor(prefix)| then OpenedFor(prefix) + [AskedFor(prefix)[a.h]]
      else OpenedFor(prefix)
  }

  /** The handler in this state is busy with files of the key only. */
  ghost predicate PcKeyed(p: Pc, key: Key, files: seq<Key>) {
    match p
    case Missed(k) => k == key
    case Opened(f, k) => k == key && 0 <= f < |files| && files[f] == key
    case Discarding(f, use) => 0 <= f < |files| && files[f] == key && 0 <= use < |files| && files[use] == key
    case Finished => true
    case _ => 0 <= p.f < |files| && files[p.f] == key
  }

  ghost predicate Keyed(s: State, handlers: seq<Key>, files: seq<Key>) {
    && |handlers| == |s.handlers| && |files| == |s.files|
    && (forall k :: k in s.cache ==> 0 <= s.cache[k] < |files| && files[s.cache[k]] == k)
    && (forall h :: 0 <= h < |s.handlers| ==> PcKeyed(s.handlers[h], handlers[h], files))
  }

  lemma RequestKeyed(s: State, key: Key, handlers: seq<Key>, files: seq<Key>)
    requires RefsOk(s) && Keyed(s, handlers, files)
    ensures Keyed(Next(s, Request(key)), handlers + [key], files)
  {
  }

  lemma OpenKeyed(s: State, h: int, handlers: seq<Key>, files: seq<Key>)
    requires RefsOk(s) && Keyed(s, handlers, files) && Enabled(s, OpenOk(h))
    ensures Keyed(Next(s, OpenOk(h)), handlers, files + [handlers[h]])
  {
    hide RefsOk;
    assert PcKeyed(s.handlers[h], handlers[h], files);
  }

  lemma OtherKeyed(s: State, a: Action, handlers: seq<Key>, files: seq<Key>)
    requires RefsOk(s) && Keyed(s, handlers, files) && Enabled(s, a) && !a.Request? && !a.OpenOk?
    ensures Keyed(Next(s, a), handlers, files)
  {
    hide RefsOk, Keyed;
    if a.Collect? || a.ReleaseNext? {
      CleanerKeyed(s, a, handlers, files);
    } else {
      HandlerKeyed(s, a, handlers, files);
    }
  }

  lemma CleanerKeyed(s: State, a: Action, handlers: seq<Key>, files: seq<Key>)
    requires RefsOk(s) && Keyed(s, handlers, files) && Enabled(s, a) && (a.Collect? || a.ReleaseNext?)
    ensures Keyed(Next(s, a), handlers, files)
  {
    hide Unused, InUse, FilesOf, CloseAll;
  }

  lemma HandlerKeyed(s: State, a: Action, handlers: seq<Key>, files: seq<Key>)
    requires RefsOk(s) && Keyed(s, handlers, files) && Enabled(s, a)
    requires !a.Request? && !a.OpenOk? && !a.Collect? && !a.ReleaseNext?
    ensures Keyed(Next(s, a), handlers, files)
  {
    hide CloseAll;
    assert PcKeyed(s.handlers[a.h], handlers[a.h], files);
  }

  lemma {:induction false} RunKeyed(run: seq<Action>)
    requires Exec(run).Some?
    ensures Keyed(Exec(run).value, AskedFor(run), OpenedFor(run))
    decreases |run|
  {
    if run != [] {
      var prefix, a := run[..|run| - 1], run[|run| - 1];
      RunKeyed(prefix);
      var s := Exec(prefix).value;
      hide Exec, Keyed, Next, RefsOk;
      match a
      case Request(key) => RequestKeyed(s, key, AskedFor(prefix), OpenedFor(prefix));
      case OpenOk(h) =>
        KeyedLength(s, AskedFor(prefix), OpenedFor(prefix));
        OpenKeyed(s, h, AskedFor(prefix), OpenedFor(prefix));
      case _ => OtherKeyed(s, a, AskedFor(prefix), OpenedFor(prefix));
    }
  }

  lemma KeyedLength(s: State, handlers: seq<Key>, files: seq<Key>)
    requires Keyed(s, handlers, files)
    ensures |handlers| == |s.handlers| && |files| == |s.files|
  {
  }

  /** Over every run: a handler that reads, or has read, or waits to read a file, is on one that was
      opened for what it asked for; and what is cached under a key was opened for that key. */
  lemma OwnFile(run: seq<Action>)
    requires Exec(run).Some?
    ensures var s, asked, files := Exec(run).value, AskedFor(run), OpenedFor(run);
            && |asked| == |s.handlers| && |files| == |s.files|
            && (forall k :: k in s.cache ==> 0 <= s.cache[k] < |files| && files[s.cache[k]] == k)
            && (forall h :: 0 <= h < |s.handlers| ==>
                 match s.handlers[h]
                 case Have(f) => 0 <= f < |files| && files[f] == asked[h]
                 case ReadingSmall(f) => 0 <= f < |files| && files[f] == asked[h]
                 case ReadingBig(f, r) =>
                   0 <= f < |files| && files[f] == asked[h] && 0 <= r < |s.readers| && s.readers[r].of == f
                 case Leaving(f) => 0 <= f < |files| && files[f] == asked[h]
                 case Discarding(_, use) => 0 <= use < |files| && files[use] == asked[h]
                 case _ => true)
  {
    RunKeyed(run);
    RunsKeepInv(run);
    var s := Exec(run).value;
    hide Exec, PlacesOk, FilesOk, ReadersOk, RefsOk;
    forall h | 0 <= h < |s.handlers|
      ensures PcKeyed(s.handlers[h], AskedFor(run)[h], OpenedFor(run)) && HandlerOk(s, h)
    {
    }
  }

  // ---------------------------------------------------------------- hits and misses

  /** A request is a hit exactly when its key is in the cache, and then one reader more is counted on
      the file cached under that key and on no other; nothing else changes. */
  lemma RequestOutcome(s: State, key: Key)
    requires RefsOk(s)
    ensures var s' := Next(s, Request(key));
            && s'.handlers == s.handlers + [if key in s.cache then Have(s.cache[key]) else Missed(key)]
            && |s'.files| == |s.files|
            && (forall f :: 0 <= f < |s.files| ==>
                 s'.files[f] == s.files[f].(readersCount :=
                   s.files[f].readersCount + if key in s.cache && s.cache[key] == f then 1 else 0))
            && s' == s.(handlers := s'.handlers, files := s'.files)
  {
    assert key in s.cache ==> IsFile(s, s.cache[key]);
  }

  /** An opened file is cached exactly when its key is free; otherwise the handler goes over to the
      file that is cached and discards its own. One reader more is counted on the file it is to read. */
  lemma SetFileOutcome(s: State, h: int, f: Fid, key: Key)
    requires RefsOk(s) && Enabled(s, SetFile(h)) && s.handlers[h] == Opened(f, key)
    ensures var s', use := Next(s, SetFile(h)), if key in s.cache then s.cache[key] else f;
            && s'.cache == s.cache[key := use]
            && s'.handlers == s.handlers[h := if key in s.cache then Discarding(f, use) else Have(f)]
            && |s'.files| == |s.files|
            && (forall g :: 0 <= g < |s.files| ==>
                 s'.files[g] == s.files[g].(readersCount := s.files[g].readersCount + if g == use then 1 else 0))
  {
    assert key in s.cache ==> IsFile(s, s.cache[key]) && s.cache[key := s.cache[key]] == s.cache;
    assert RefOk(s, s.handlers[h]);
  }

  /** A file stays cached under its key until the cleaner finds the key expired. */
  lemma CachedStep(s: State, a: Action, key: Key)
    requires RefsOk(s) && Enabled(s, a) && key in s.cache && !(a.Collect? && key in a.expired)
    ensures key in Next(s, a).cache && Next(s, a).cache[key] == s.cache[key]
  {
    hide RefsOk, Unused, InUse, FilesOf, CloseAll;
  }

  /** Over every run: from the moment it is cached, until the cleaner finds its key expired, every
      request for the key is a hit on that file. */
  lemma {:induction false} CachedIsHit(run: seq<Action>, n: nat, key: Key)
    requires n <= |run| && Exec(run).Some? && Exec(run[..n]).Some? && key in Exec(run[..n]).value.cache
    requires forall i :: n <= i < |run| && run[i].Collect? ==> key !in run[i].expired
    ensures RefsOk(Exec(run).value) && |Next(Exec(run).value, Request(key)).handlers| > 0
    ensures var s := Exec(run).value;
            && key in s.cache && s.cache[key] == Exec(run[..n]).value.cache[key]
            && Next(s, Request(key)).handlers[|s.handlers|] == Have(s.cache[key])
    decreases |run|
  {
    RunsKeepInv(run);
    hide Next, RefsOk, Inv;
    if n == |run| {
      assert run[..n] == run;
    } else {
      var prefix, a := run[..|run| - 1], run[|run| - 1];
      assert prefix[..n] == run[..n];
      CachedIsHit(prefix, n, key);
      CachedStep(Exec(prefix).value, a, key);
    }
    RequestOutcome(Exec(run).value, key);
  }

  // ---------------------------------------------------------------- the cleaner

  lemma {:induction false} FilesOfHas(cache: map<Key, Fid>, keys: seq<Key>, f: Fid)
    requires forall i :: 0 <= i < |keys| ==> keys[i] in cache
    ensures f in FilesOf(cache, keys) <==> exists k :: k in keys && cache[k] == f
  {
    if keys != [] {
      var n := |keys| - 1;
      FilesOfHas(cache, keys[..n], f);
      assert keys == keys[..n] + [keys[n]];
    }
  }

  lemma {:induction false} PartsHave(files: seq<File>, fs: seq<Fid>, f: Fid)
    ensures f in InUse(files, fs) <==> f in fs && HasReaders(files, f)
    ensures f in Unused(files, fs) <==> f in fs && !HasReaders(files, f)
  {
    if fs != [] {
      var n := |fs| - 1;
      PartsHave(files, fs[..n], f);
      assert fs == fs[..n] + [fs[n]];
    }
  }

  /** The file is a stale one: it was pending, or it is cached under an expired key. */
  ghost predicate Stale(s: State, expired: seq<Key>, f: Fid) {
    f in s.pending || exists k :: k in expired && k in s.cache && s.cache[k] == f
  }

  /** The cleaner takes exactly the expired keys out of the cache. Of the stale files it releases
      exactly those that nobody reads, and keeps the others for the next time. */
  lemma CollectOutcome(s: State, expired: seq<Key>)
    requires RefsOk(s) && Enabled(s, Collect(expired))
    ensures var s' := Next(s, Collect(expired));
            && (forall k :: k in s'.cache <==> k in s.cache && k !in expired)
            && (forall k :: k in s'.cache ==> s'.cache[k] == s.cache[k])
            && (forall f :: 0 <= f < |s.files| ==>
                 && (f in s'.toRelease <==> Stale(s, expired, f) && s.files[f].readersCount <= 0)
                 && (f in s'.pending <==> Stale(s, expired, f) && s.files[f].readersCount > 0))
            && s'.files == s.files && s'.handlers == s.handlers && s'.readers == s.readers
  {
    hide RefsOk;
    var all := s.pending + FilesOf(s.cache, expired);
    forall f | 0 <= f < |s.files|
      ensures f in InUse(s.files, all) <==> Stale(s, expired, f) && s.files[f].readersCount > 0
      ensures f in Unused(s.files, all) <==> Stale(s, expired, f) && s.files[f].readersCount <= 0
    {
      FilesOfHas(s.cache, expired, f);
      PartsHave(s.files, all, f);
      hide FilesOf, InUse, Unused;
      if f in all {
        assert f in s.pending || f in FilesOf(s.cache, expired);
      }
    }
  }

  /** Releasing closes the file that is first in line and its idle readers, and nothing else. */
  lemma ReleaseOutcome(s: State)
    requires RefsOk(s) && s.toRelease != []
    ensures var s', f := Next(s, ReleaseNext), s.toRelease[0];
            && IsFile(s, f) && s'.toRelease == s.toRelease[1..] && |s'.files| == |s.files| && |s'.readers| == |s.readers|
            && (forall g :: 0 <= g < |s.files| ==>
                 s'.files[g] == s.files[g].(releases := s.files[g].releases + if g == f then 1 else 0))
            && (forall r :: 0 <= r < |s.readers| ==>
                 s'.readers[r] == if r in s.files[f].bigFiles then s.readers[r].(isOpen := false) else s.readers[r])
            && s' == s.(toRelease := s'.toRelease, files := s'.files, readers := s'.readers)
  {
  }

  /** A reader that was put back is the next one a handler of the same file gets. */
  lemma ReaderReused(s: State, h: int, g: int, f: Fid, r: Rid)
    requires Inv(s) && 0 <= h < |s.handlers| && 0 <= g < |s.handlers|
    requires s.handlers[h] == ReadingBig(f, r) && s.handlers[g] == Have(f)
    ensures RefsOk(s) && Enabled(s, CloseBack(h))
    ensures var s1 := Next(s, CloseBack(h));
            && RefsOk(s1) && Enabled(s1, UsePooled(g))
            && Next(s1, UsePooled(g)).handlers == s.handlers[h := Leaving(f)][g := ReadingBig(f, r)]
            && Next(s1, UsePooled(g)).files == s.files
  {
    InvRefs(s);
    NextKeeps(s, CloseBack(h));
    var s1 := Next(s, CloseBack(h));
    InvRefs(s1);
    hide Inv;
    assert RefOk(s, s.handlers[h]);
    assert s1.files[f].bigFiles == s.files[f].bigFiles + [r];
    assert s1.files[f].bigFiles[..|s.files[f].bigFiles|] == s.files[f].bigFiles;
  }

  // ---------------------------------------------------------------- coming to an end

  /** How many steps a handler may still take. */
  function StepsLeft(p: Pc): nat {
    match p
    case Finished => 0
    case Leaving(_) => 1
    case ReadingSmall(_) => 2
    case ReadingBig(_, _) => 2
    case Have(_) => 3
    case Discarding(_, _) => 4
    case Opened(_, _) => 5
    case Missed(_) => 6
  }

  /** The action is one of the handler. */
  ghost predicate Acts(a: Action, h: int) {
    !a.Request? && !a.Collect? && !a.ReleaseNext? && a.h == h
  }

  /** Every action of a handler brings it nearer to its end, and nobody else's action moves it. */
  lemma NearerToTheEnd(s: State, a: Action, h: int)
    requires RefsOk(s) && Enabled(s, a) && 0 <= h < |s.handlers|
    ensures h < |Next(s, a).handlers|
    ensures if Acts(a, h) then StepsLeft(Next(s, a).handlers[h]) < StepsLeft(s.handlers[h])
            else Next(s, a).handlers[h] == s.handlers[h]
  {
    hide RefsOk, Unused, InUse, FilesOf, CloseAll;
  }

  /** A handler that has not come to its end can go on. */
  lemma NoDeadlock(s: State, h: int)
    requires RefsOk(s) && 0 <= h < |s.handlers| && StepsLeft(s.handlers[h]) > 0
    ensures exists a :: Acts(a, h) && Enabled(s, a)
  {
    assert RefOk(s, s.handlers[h]);
    var a := match s.handlers[h]
      case Missed(_) => OpenOk(h)
      case Opened(_, _) => SetFile(h)
      case Discarding(_, _) => Discard(h)
      case Have(_) => NotModified(h)
      case ReadingSmall(_) => CloseSmall(h)
      case ReadingBig(_, _) => CloseBack(h)
      case _ => Leave(h);
    assert Acts(a, h) && Enabled(s, a);
  }
}
