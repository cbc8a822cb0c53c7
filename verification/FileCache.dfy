/** The file-handle cache of the static file server (fasthttp/fs.go, `inMemoryCacheManager`,
    `fsFile` and its readers) as a state machine over request handlers and the cleaner. One action
    is one `cacheLock` section, one `bigFilesLock` section, one Release, or one file operation. */
module FileCache {
  import opened Basics

  type Fid = int
  type Rid = int

  /** Cache kind (plain, brotli, gzip) and path. */
  type Key = (int, string)

  /** An open file: `readersCount`, how often it was released, and its idle big-file readers. */
  datatype File = File(readersCount: int, releases: nat, bigFiles: seq<Rid>)

  /** A big-file reader: the file it belongs to and whether its own handle is open. */
  datatype Reader = Reader(of: Fid, isOpen: bool)

  /** Where a request handler is. */
  datatype Pc =
    | Missed(key: Key)              // not in the cache: opens the file
    | Opened(f: Fid, key: Key)      // before SetFileToCache
    | Discarding(f: Fid, use: Fid)  // another handler was faster: releases its own file
    | Have(f: Fid)                  // counted as a reader, has no reader object yet
    | ReadingSmall(f: Fid)
    | ReadingBig(f: Fid, r: Rid)
    | Leaving(f: Fid)               // before decReadersCount
    | Finished

  datatype State = State(
    cache: map<Key, Fid>,
    files: seq<File>,
    readers: seq<Reader>,
    handlers: seq<Pc>,
    pending: seq<Fid>,    // expired files that still had readers
    toRelease: seq<Fid>)  // collected under the lock, to be released after it

  datatype Action =
    | Request(key: Key)
    | OpenOk(h: int) | OpenFail(h: int) | SetFile(h: int) | Discard(h: int)
    | NotModified(h: int) | UseSmall(h: int) | UsePooled(h: int) | UseNew(h: int) | UseFails(h: int)
    | CloseSmall(h: int) | CloseBack(h: int) | CloseFails(h: int) | Leave(h: int)
    | Collect(expired: seq<Key>) | ReleaseNext

  const INIT := State(map[], [], [], [], [], [])

  function Goto(s: State, h: int, p: Pc): State
    requires 0 <= h < |s.handlers|
  {
    s.(handlers := s.handlers[h := p])
  }

  predicate IsFile(s: State, f: Fid) {
    0 <= f < |s.files|
  }

  /** `readersCount++`. */
  function Inc(s: State, f: Fid): State
    requires IsFile(s, f)
  {
    s.(files := s.files[f := s.files[f].(readersCount := s.files[f].readersCount + 1)])
  }

  /** `decReadersCount`, with its clamp at zero. */
  function Dec(s: State, f: Fid): State
    requires IsFile(s, f)
  {
    var n := s.files[f].readersCount - 1;
    s.(files := s.files[f := s.files[f].(readersCount := if n < 0 then 0 else n)])
  }

  /** `Release`: closes the file and the handles of its pooled readers. */
  function Release(s: State, f: Fid): State
    requires IsFile(s, f)
  {
    var x := s.files[f];
    s.(files := s.files[f := x.(releases := x.releases + 1)], readers := CloseAll(s.readers, x.bigFiles))
  }

  function CloseAll(readers: seq<Reader>, rs: seq<Rid>): seq<Reader> {
    seq(|readers|, r requires 0 <= r < |readers| => if r in rs then readers[r].(isOpen := false) else readers[r])
  }

  /** GetFileFromCache: a hit counts the handler as a reader. */
  function RequestSection(s: State, key: Key): State
    requires key in s.cache ==> IsFile(s, s.cache[key])
  {
    if key in s.cache then
      var s1 := Inc(s, s.cache[key]);
      s1.(handlers := s.handlers + [Have(s.cache[key])])
    else s.(handlers := s.handlers + [Missed(key)])
  }

  /** SetFileToCache: the handler's file enters the cache unless the key is taken. */
  function SetFileSection(s: State, h: int, f: Fid, key: Key): State
    requires 0 <= h < |s.handlers| && IsFile(s, f) && (key in s.cache ==> IsFile(s, s.cache[key]))
  {
    if key in s.cache then Goto(Inc(s, s.cache[key]), h, Discarding(f, s.cache[key]))
    else Goto(Inc(s.(cache := s.cache[key := f]), f), h, Have(f))
  }

  predicate HasReaders(files: seq<File>, f: Fid) {
    0 <= f < |files| && files[f].readersCount > 0
  }

  /** The files of `fs` without readers, or with. */
  function Unused(files: seq<File>, fs: seq<Fid>): seq<Fid> {
    if fs == [] then []
    else if HasReaders(files, fs[|fs| - 1]) then Unused(files, fs[..|fs| - 1])
    else Unused(files, fs[..|fs| - 1]) + [fs[|fs| - 1]]
  }

  function InUse(files: seq<File>, fs: seq<Fid>): seq<Fid> {
    if fs == [] then []
    else if HasReaders(files, fs[|fs| - 1]) then InUse(files, fs[..|fs| - 1]) + [fs[|fs| - 1]]
    else InUse(files, fs[..|fs| - 1])
  }

  /** The files cached under the keys. */
  function FilesOf(cache: map<Key, Fid>, keys: seq<Key>): seq<Fid>
    requires forall i :: 0 <= i < |keys| ==> keys[i] in cache
  {
    if keys == [] then [] else FilesOf(cache, keys[..|keys| - 1]) + [cache[keys[|keys| - 1]]]
  }

  /** The locked part of cleanCache: expired entries leave the cache; what has no readers will be
      released, the rest stays pending. */
  function CollectSection(s: State, expired: seq<Key>): State
    requires forall i :: 0 <= i < |expired| ==> expired[i] in s.cache
  {
    var all := s.pending + FilesOf(s.cache, expired);
    s.(cache := s.cache - (set i | 0 <= i < |expired| :: expired[i]),
       pending := InUse(s.files, all), toRelease := Unused(s.files, all))
  }

  ghost predicate EnabledIn(s: State, a: Action, p: Pc) {
    match a
    case OpenOk(_) => p.Missed?
    case OpenFail(_) => p.Missed?
    case SetFile(_) => p.Opened?
    case Discard(_) => p.Discarding?
    case NotModified(_) => p.Have?
    case UseSmall(_) => p.Have?
    case UsePooled(_) => p.Have? && IsFile(s, p.f) && s.files[p.f].bigFiles != []
    case UseNew(_) => p.Have? && IsFile(s, p.f) && s.files[p.f].bigFiles == []
    case UseFails(_) => p.Have? && IsFile(s, p.f) && s.files[p.f].bigFiles == []
    case CloseSmall(_) => p.ReadingSmall?
    case CloseBack(_) => p.ReadingBig?
    case CloseFails(_) => p.ReadingBig?
    case Leave(_) => p.Leaving?
    case _ => false
  }

  ghost predicate Distinct<T>(s: seq<T>) {
    forall i, j :: 0 <= i < j < |s| ==> s[i] != s[j]
  }

  ghost predicate Enabled(s: State, a: Action) {
    match a
    case Request(_) => true
    case Collect(expired) =>
      s.toRelease == [] && Distinct(expired) && forall i :: 0 <= i < |expired| ==> expired[i] in s.cache
    case ReleaseNext => s.toRelease != []
    case _ => 0 <= a.h < |s.handlers| && EnabledIn(s, a, s.handlers[a.h])
  }

  ghost predicate RefsOk(s: State) {
    && (forall k :: k in s.cache ==> IsFile(s, s.cache[k]))
    && (forall h :: 0 <= h < |s.handlers| ==> RefOk(s, s.handlers[h]))
    && (forall i :: 0 <= i < |s.toRelease| ==> IsFile(s, s.toRelease[i]))
  }

  ghost predicate RefOk(s: State, p: Pc) {
    match p
    case Missed(_) => true
    case Finished => true
    case Discarding(f, u) => IsFile(s, f) && IsFile(s, u)
    case ReadingBig(f, r) => IsFile(s, f) && 0 <= r < |s.readers|
    case _ => IsFile(s, p.f)
  }

  ghost function Next(s: State, a: Action): State
    requires RefsOk(s) && Enabled(s, a)
  {
    match a
    case Request(key) => RequestSection(s, key)
    case Collect(expired) => CollectSection(s, expired)
    case ReleaseNext => Release(s, s.toRelease[0]).(toRelease := s.toRelease[1..])
    case _ => NextIn(s, a, a.h, s.handlers[a.h])
  }

  ghost function NextIn(s: State, a: Action, h: int, p: Pc): State
    requires RefsOk(s) && 0 <= h < |s.handlers| && p == s.handlers[h] && EnabledIn(s, a, p)
  {
    assert RefOk(s, p);
    match a
    case OpenOk(_) => Goto(s.(files := s.files + [File(0, 0, [])]), h, Opened(|s.files|, p.key))
    case OpenFail(_) => Goto(s, h, Finished)
    case SetFile(_) => SetFileSection(s, h, p.f, p.key)
    case Discard(_) => Goto(Release(s, p.f), h, Have(p.use))
    case NotModified(_) => Goto(s, h, Leaving(p.f))
    case UseSmall(_) => Goto(s, h, ReadingSmall(p.f))
    case UsePooled(_) =>
      var x := s.files[p.f];
      var n := |x.bigFiles| - 1;
      Goto(s.(files := s.files[p.f := x.(bigFiles := x.bigFiles[..n])]), h, ReadingBig(p.f, x.bigFiles[n]))
    case UseNew(_) => Goto(s.(readers := s.readers + [Reader(p.f, true)]), h, ReadingBig(p.f, |s.readers|))
    case UseFails(_) => Goto(s, h, Leaving(p.f))
    case CloseSmall(_) => Goto(s, h, Leaving(p.f))
    case CloseBack(_) =>
      var x := s.files[p.f];
      Goto(s.(files := s.files[p.f := x.(bigFiles := x.bigFiles + [p.r])]), h, Leaving(p.f))
    case CloseFails(_) =>
      Goto(s.(readers := s.readers[p.r := s.readers[p.r].(isOpen := false)]), h, Leaving(p.f))
    case Leave(_) => Goto(Dec(s, p.f), h, Finished)
  }

  ghost function Exec(run: seq<Action>): Option<State>
    decreases |run|
  {
    if run == [] then Some(INIT)
    else
      var s := Exec(run[..|run| - 1]);
      var a := run[|run| - 1];
      if s.Some? && RefsOk(s.value) && Enabled(s.value, a) then Some(Next(s.value, a)) else None
  }

  // ---------------------------------------------------------------- counting

  /** Ways a handler can be involved with a file or a reader object. */
  datatype Role = ReaderOf(f: Fid) | OwnerOf(f: Fid) | UserOf(r: Rid)

  predicate Plays(p: Pc, role: Role) {
    match role
    case ReaderOf(f) =>
      p == Have(f) || p == ReadingSmall(f) || (p.ReadingBig? && p.f == f) || p == Leaving(f) ||
      (p.Discarding? && p.use == f)
    case OwnerOf(f) => (p.Opened? && p.f == f) || (p.Discarding? && p.f == f)
    case UserOf(r) => p.ReadingBig? && p.r == r
  }

  function Count(hs: seq<Pc>, role: Role): nat {
    if hs == [] then 0 else Count(hs[..|hs| - 1], role) + (if Plays(hs[|hs| - 1], role) then 1 else 0)
  }

  lemma {:induction false} CountUpdate(hs: seq<Pc>, i: int, p: Pc, role: Role)
    requires 0 <= i < |hs|
    ensures Count(hs[i := p], role) + (if Plays(hs[i], role) then 1 else 0) ==
            Count(hs, role) + (if Plays(p, role) then 1 else 0)
  {
    hide Plays;
    var n := |hs| - 1;
    if i < n {
      assert hs[i := p][..n] == hs[..n][i := p];
      CountUpdate(hs[..n], i, p, role);
    } else {
      assert hs[i := p][..n] == hs[..n];
    }
  }

  lemma CountSnoc(hs: seq<Pc>, p: Pc, role: Role)
    ensures Count(hs + [p], role) == Count(hs, role) + if Plays(p, role) then 1 else 0
  {
    assert (hs + [p])[..|hs|] == hs;
  }

  function KeysOf(cache: map<Key, Fid>, f: Fid): set<Key> {
    set k | k in cache && cache[k] == f
  }

  /** In how many places an open file is: with the handler that opened it, in the cache, pending,
      about to be released, or released. */
  function Places(s: State, f: Fid): nat {
    Count(s.handlers, OwnerOf(f)) + |KeysOf(s.cache, f)| + Times(s.pending, f) + Times(s.toRelease, f) +
    if IsFile(s, f) then s.files[f].releases else 0
  }

  ghost predicate FileOk(s: State, f: Fid)
    requires IsFile(s, f)
  {
    && s.files[f].readersCount == Count(s.handlers, ReaderOf(f))
    && (f in s.toRelease || s.files[f].releases > 0 || Count(s.handlers, OwnerOf(f)) > 0 ==> s.files[f].readersCount == 0)
    && forall r :: r in s.files[f].bigFiles ==> 0 <= r < |s.readers| && s.readers[r] == Reader(f, s.files[f].releases == 0)
  }

  /** A reader object is pooled once or used by one handler. */
  ghost predicate ReaderOk(s: State, r: Rid)
    requires 0 <= r < |s.readers|
  {
    && IsFile(s, s.readers[r].of)
    && Times(s.files[s.readers[r].of].bigFiles, r) + Count(s.handlers, UserOf(r)) <= 1
  }

  ghost predicate HandlerOk(s: State, h: int)
    requires 0 <= h < |s.handlers|
  {
    RefOk(s, s.handlers[h]) &&
    (s.handlers[h].ReadingBig? ==> s.readers[s.handlers[h].r] == Reader(s.handlers[h].f, true))
  }

  ghost predicate PlacesOk(s: State) {
    forall f: Fid :: Places(s, f) == if IsFile(s, f) then 1 else 0
  }

  ghost predicate FilesOk(s: State) {
    forall f :: 0 <= f < |s.files| ==> FileOk(s, f)
  }

  ghost predicate ReadersOk(s: State) {
    forall r :: 0 <= r < |s.readers| ==> ReaderOk(s, r)
  }

  ghost predicate HandlersOk(s: State) {
    forall h :: 0 <= h < |s.handlers| ==> HandlerOk(s, h)
  }

  ghost predicate Inv(s: State) {
    PlacesOk(s) && FilesOk(s) && ReadersOk(s) && HandlersOk(s)
  }

  /** Every file reference is to an open file. */
  lemma InvRefs(s: State)
    requires Inv(s)
    ensures RefsOk(s)
    ensures forall i :: 0 <= i < |s.pending| ==> IsFile(s, s.pending[i])
  {
    hide Times, Count, FileOk, ReaderOk;
    forall k | k in s.cache
      ensures IsFile(s, s.cache[k])
    {
      assert k in KeysOf(s.cache, s.cache[k]);
      assert Places(s, s.cache[k]) > 0;
    }
    forall i | 0 <= i < |s.toRelease|
      ensures IsFile(s, s.toRelease[i])
    {
      TimesMember(s.toRelease, s.toRelease[i]);
      assert Places(s, s.toRelease[i]) > 0;
    }
    forall i | 0 <= i < |s.pending|
      ensures IsFile(s, s.pending[i])
    {
      TimesMember(s.pending, s.pending[i]);
      assert Places(s, s.pending[i]) > 0;
    }
    forall h | 0 <= h < |s.handlers|
      ensures RefOk(s, s.handlers[h])
    {
      assert HandlerOk(s, h);
    }
  }

  /** A file in the cache is nowhere else. */
  lemma CachedOnly(s: State, k: Key)
    requires Inv(s) && k in s.cache
    ensures var f := s.cache[k];
            IsFile(s, f) && f !in s.toRelease && s.files[f].releases == 0 && Count(s.handlers, OwnerOf(f)) == 0
  {
    hide Times, Count, FileOk, ReaderOk;
    var f := s.cache[k];
    assert k in KeysOf(s.cache, f);
    TimesMember(s.toRelease, f);
    assert Places(s, f) == if IsFile(s, f) then 1 else 0;
  }

  // ---------------------------------------------------------------- every action keeps it

  /** NotModified, UseSmall, UseFails, CloseSmall, OpenFail: no role changes. */
  lemma EvenMoveKeeps(s: State, h: int, p: Pc)
    requires Inv(s) && 0 <= h < |s.handlers| && !p.ReadingBig?
    requires forall role :: Plays(p, role) == Plays(s.handlers[h], role)
    requires RefOk(s, p)
    ensures Inv(Goto(s, h, p))
  {
    var s' := Goto(s, h, p);
    assert forall role :: Count(s'.handlers, role) == Count(s.handlers, role) by {
      hide Count, Plays;
      forall role
        ensures Count(s'.handlers, role) == Count(s.handlers, role)
      {
        CountUpdate(s.handlers, h, p, role);
      }
    }
    hide Times, Count, Plays;
    forall f: Fid
      ensures Places(s', f) == if IsFile(s', f) then 1 else 0
    {
      assert Places(s, f) == if IsFile(s, f) then 1 else 0;
    }
    forall f | 0 <= f < |s.files|
      ensures FileOk(s', f)
    {
      assert FileOk(s, f);
    }
    forall r | 0 <= r < |s.readers|
      ensures ReaderOk(s', r)
    {
      assert ReaderOk(s, r);
    }
    forall i | 0 <= i < |s'.handlers|
      ensures HandlerOk(s', i)
    {
      assert i < |s.handlers| ==> HandlerOk(s, i);
    }
  }

  lemma MissKeeps(s: State, key: Key)
    requires Inv(s)
    ensures Inv(s.(handlers := s.handlers + [Missed(key)]))
  {
    var s' := s.(handlers := s.handlers + [Missed(key)]);
    assert forall role :: Count(s'.handlers, role) == Count(s.handlers, role) by {
      hide Count;
      forall role
        ensures Count(s'.handlers, role) == Count(s.handlers, role)
      {
        CountSnoc(s.handlers, Missed(key), role);
      }
    }
    hide Times, Count, Plays;
    forall f: Fid
      ensures Places(s', f) == if IsFile(s', f) then 1 else 0
    {
      assert Places(s, f) == if IsFile(s, f) then 1 else 0;
    }
    forall f | 0 <= f < |s.files|
      ensures FileOk(s', f)
    {
      assert FileOk(s, f);
    }
    forall r | 0 <= r < |s.readers|
      ensures ReaderOk(s', r)
    {
      assert ReaderOk(s, r);
    }
    forall i | 0 <= i < |s'.handlers|
      ensures HandlerOk(s', i)
    {
      assert i < |s.handlers| ==> HandlerOk(s, i);
    }
  }

  lemma HitKeeps(s: State, key: Key)
    requires Inv(s) && key in s.cache
    ensures IsFile(s, s.cache[key]) && Inv(RequestSection(s, key))
  {
    CachedOnly(s, key);
    var g := s.cache[key];
    var s' := RequestSection(s, key);
    hide Times, Count, KeysOf;
    forall f: Fid
      ensures Places(s', f) == if IsFile(s', f) then 1 else 0
    {
      assert Places(s, f) == if IsFile(s, f) then 1 else 0;
      CountSnoc(s.handlers, Have(g), OwnerOf(f));
    }
    forall f | 0 <= f < |s'.files|
      ensures FileOk(s', f)
    {
      assert f < |s.files| ==> FileOk(s, f);
      CountSnoc(s.handlers, Have(g), OwnerOf(f));
      CountSnoc(s.handlers, Have(g), ReaderOf(f));
    }
    forall r | 0 <= r < |s'.readers|
      ensures ReaderOk(s', r)
    {
      assert r < |s.readers| ==> ReaderOk(s, r);
      CountSnoc(s.handlers, Have(g), UserOf(r));
    }
    forall i | 0 <= i < |s'.handlers|
      ensures HandlerOk(s', i)
    {
      assert i < |s.handlers| ==> HandlerOk(s, i);
    }
  }

  lemma OpenKeeps(s: State, h: int)
    requires Inv(s) && 0 <= h < |s.handlers| && s.handlers[h].Missed?
    ensures Inv(Goto(s.(files := s.files + [File(0, 0, [])]), h, Opened(|s.files|, s.handlers[h].key)))
  {
    var n, p := |s.files|, Opened(|s.files|, s.handlers[h].key);
    var s' := Goto(s.(files := s.files + [File(0, 0, [])]), h, p);
    NoneOf(s, n);
    hide Times, Count, KeysOf;
    forall f: Fid
      ensures Places(s', f) == if IsFile(s', f) then 1 else 0
    {
      assert Places(s, f) == if IsFile(s, f) then 1 else 0;
      CountUpdate(s.handlers, h, p, OwnerOf(f));
    }
    forall f | 0 <= f < |s'.files|
      ensures FileOk(s', f)
    {
      assert f < |s.files| ==> FileOk(s, f);
      CountUpdate(s.handlers, h, p, OwnerOf(f));
      CountUpdate(s.handlers, h, p, ReaderOf(f));
    }
    forall r | 0 <= r < |s'.readers|
      ensures ReaderOk(s', r)
    {
      assert r < |s.readers| ==> ReaderOk(s, r);
      CountUpdate(s.handlers, h, p, UserOf(r));
    }
    forall i | 0 <= i < |s'.handlers|
      ensures HandlerOk(s', i)
    {
      assert i < |s.handlers| ==> HandlerOk(s, i);
    }
  }

  /** Nobody reads a file that does not exist yet. */
  lemma {:induction false} NoneOf(s: State, f: Fid)
    requires HandlersOk(s) && !IsFile(s, f)
    ensures Count(s.handlers, ReaderOf(f)) == 0
  {
    forall i | 0 <= i < |s.handlers|
      ensures !Plays(s.handlers[i], ReaderOf(f))
    {
      assert HandlerOk(s, i);
    }
    NonePlay(s.handlers, ReaderOf(f));
  }

  lemma {:induction false} NonePlay(hs: seq<Pc>, role: Role)
    requires forall i :: 0 <= i < |hs| ==> !Plays(hs[i], role)
    ensures Count(hs, role) == 0
  {
    if hs != [] {
      NonePlay(hs[..|hs| - 1], role);
    }
  }

  lemma SetTakenKeeps(s: State, h: int)
    requires Inv(s) && 0 <= h < |s.handlers| && s.handlers[h].Opened? && s.handlers[h].key in s.cache
    ensures IsFile(s, s.handlers[h].f) && IsFile(s, s.cache[s.handlers[h].key])
    ensures Inv(SetFileSection(s, h, s.handlers[h].f, s.handlers[h].key))
  {
    var g, key := s.handlers[h].f, s.handlers[h].key;
    CachedOnly(s, key);
    assert HandlerOk(s, h);
    var p := Discarding(g, s.cache[key]);
    var s' := SetFileSection(s, h, g, key);
    hide Times, Count, KeysOf;
    forall f: Fid
      ensures Places(s', f) == if IsFile(s', f) then 1 else 0
    {
      assert Places(s, f) == if IsFile(s, f) then 1 else 0;
      CountUpdate(s.handlers, h, p, OwnerOf(f));
    }
    forall f | 0 <= f < |s'.files|
      ensures FileOk(s', f)
    {
      assert f < |s.files| ==> FileOk(s, f);
      CountUpdate(s.handlers, h, p, OwnerOf(f));
      CountUpdate(s.handlers, h, p, ReaderOf(f));
    }
    forall r | 0 <= r < |s'.readers|
      ensures ReaderOk(s', r)
    {
      assert r < |s.readers| ==> ReaderOk(s, r);
      CountUpdate(s.handlers, h, p, UserOf(r));
    }
    forall i | 0 <= i < |s'.handlers|
      ensures HandlerOk(s', i)
    {
      assert i < |s.handlers| ==> HandlerOk(s, i);
    }
  }

  lemma SetFreeKeeps(s: State, h: int)
    requires Inv(s) && 0 <= h < |s.handlers| && s.handlers[h].Opened? && s.handlers[h].key !in s.cache
    ensures IsFile(s, s.handlers[h].f) && Inv(SetFileSection(s, h, s.handlers[h].f, s.handlers[h].key))
  {
    var g, key := s.handlers[h].f, s.handlers[h].key;
    assert HandlerOk(s, h);
    var p := Have(g);
    var s' := SetFileSection(s, h, g, key);
    OwnedOnly(s, h, g);
    hide Times, Count, KeysOf;
    forall f: Fid
      ensures Places(s', f) == if IsFile(s', f) then 1 else 0
    {
      assert Places(s, f) == if IsFile(s, f) then 1 else 0;
      CountUpdate(s.handlers, h, p, OwnerOf(f));
      KeysPut(s.cache, key, g, f);
    }
    forall f | 0 <= f < |s'.files|
      ensures FileOk(s', f)
    {
      assert f < |s.files| ==> FileOk(s, f);
      CountUpdate(s.handlers, h, p, OwnerOf(f));
      CountUpdate(s.handlers, h, p, ReaderOf(f));
    }
    forall r | 0 <= r < |s'.readers|
      ensures ReaderOk(s', r)
    {
      assert r < |s.readers| ==> ReaderOk(s, r);
      CountUpdate(s.handlers, h, p, UserOf(r));
    }
    forall i | 0 <= i < |s'.handlers|
      ensures HandlerOk(s', i)
    {
      assert i < |s.handlers| ==> HandlerOk(s, i);
    }
  }

  lemma KeysPut(cache: map<Key, Fid>, key: Key, g: Fid, f: Fid)
    requires key !in cache
    ensures |KeysOf(cache[key := g], f)| == |KeysOf(cache, f)| + if f == g then 1 else 0
  {
    if f == g {
      assert KeysOf(cache[key := g], f) == KeysOf(cache, f) + {key};
    } else {
      assert KeysOf(cache[key := g], f) == KeysOf(cache, f);
    }
  }

  /** A file still with the handler that opened it is nowhere else. */
  lemma OwnedOnly(s: State, h: int, f: Fid)
    requires Inv(s) && 0 <= h < |s.handlers| && Plays(s.handlers[h], OwnerOf(f))
    ensures IsFile(s, f) && Count(s.handlers, OwnerOf(f)) == 1 && f !in s.toRelease
    ensures s.files[f].releases == 0 && s.files[f].readersCount == 0
  {
    assert HandlerOk(s, h);
    assert FileOk(s, f);
    hide Times, Count, FileOk, ReaderOk, KeysOf;
    CountUpdate(s.handlers, h, Finished, OwnerOf(f));
    TimesMember(s.toRelease, f);
    assert Places(s, f) == if IsFile(s, f) then 1 else 0;
  }

  lemma PlaysCounts(hs: seq<Pc>, i: int, role: Role)
    requires 0 <= i < |hs| && Plays(hs[i], role)
    ensures Count(hs, role) >= 1
  {
    hide Count;
    CountUpdate(hs, i, Missed((0, "")), role);
  }

  /** Releasing a file without readers touches no reader in use. */
  lemma ReleaseSpares(s: State, g: Fid, i: int)
    requires Inv(s) && IsFile(s, g) && s.files[g].readersCount == 0 && 0 <= i < |s.handlers|
    ensures s.handlers[i].ReadingBig? ==> s.handlers[i].r !in s.files[g].bigFiles
  {
    assert HandlerOk(s, i) && FileOk(s, g);
    hide Count;
    if s.handlers[i].ReadingBig? && s.handlers[i].r in s.files[g].bigFiles {
      PlaysCounts(s.handlers, i, ReaderOf(g));
    }
  }

  lemma DiscardKeeps(s: State, h: int)
    requires Inv(s) && 0 <= h < |s.handlers| && s.handlers[h].Discarding?
    ensures IsFile(s, s.handlers[h].f) && Inv(Goto(Release(s, s.handlers[h].f), h, Have(s.handlers[h].use)))
  {
    var g, p := s.handlers[h].f, Have(s.handlers[h].use);
    OwnedOnly(s, h, g);
    assert HandlerOk(s, h) && FileOk(s, g);
    var s' := Goto(Release(s, g), h, p);
    hide Times, Count, KeysOf;
    forall f: Fid
      ensures Places(s', f) == if IsFile(s', f) then 1 else 0
    {
      assert Places(s, f) == if IsFile(s, f) then 1 else 0;
      CountUpdate(s.handlers, h, p, OwnerOf(f));
    }
    forall f | 0 <= f < |s'.files|
      ensures FileOk(s', f)
    {
      assert f < |s.files| ==> FileOk(s, f);
      CountUpdate(s.handlers, h, p, OwnerOf(f));
      CountUpdate(s.handlers, h, p, ReaderOf(f));
    }
    forall r | 0 <= r < |s'.readers|
      ensures ReaderOk(s', r)
    {
      assert r < |s.readers| ==> ReaderOk(s, r);
      CountUpdate(s.handlers, h, p, UserOf(r));
    }
    forall i | 0 <= i < |s'.handlers|
      ensures HandlerOk(s', i)
    {
      assert i < |s.handlers| ==> HandlerOk(s, i);
      ReleaseSpares(s, g, i);
    }
  }

  lemma ReleaseNextKeeps(s: State)
    requires Inv(s) && s.toRelease != []
    ensures IsFile(s, s.toRelease[0]) && Inv(Release(s, s.toRelease[0]).(toRelease := s.toRelease[1..]))
  {
    var g := s.toRelease[0];
    InvRefs(s);
    assert FileOk(s, g);
    var s' := Release(s, g).(toRelease := s.toRelease[1..]);
    hide Times, Count, KeysOf;
    forall f: Fid
      ensures Places(s', f) == if IsFile(s', f) then 1 else 0
    {
      assert Places(s, f) == if IsFile(s, f) then 1 else 0;
      TimesSplit(s.toRelease, 1, f);
      TimesOne(s.toRelease[..1], f);
    }
    forall f | 0 <= f < |s'.files|
      ensures FileOk(s', f)
    {
      assert f < |s.files| ==> FileOk(s, f);
      ReleasedOnce(s, g, f);
    }
    forall r | 0 <= r < |s'.readers|
      ensures ReaderOk(s', r)
    {
      assert r < |s.readers| ==> ReaderOk(s, r);
    }
    forall i | 0 <= i < |s'.handlers|
      ensures HandlerOk(s', i)
    {
      assert i < |s.handlers| ==> HandlerOk(s, i);
      ReleaseSpares(s, g, i);
    }
  }

  lemma TimesOne<T>(q: seq<T>, x: T)
    requires |q| == 1
    ensures Times(q, x) == if q[0] == x then 1 else 0
  {
    assert q[..0] == [];
  }

  lemma ReleasedOnce(s: State, g: Fid, f: Fid)
    requires Inv(s) && s.toRelease != [] && g == s.toRelease[0] && IsFile(s, f)
    ensures f in s.toRelease[1..] ==> f in s.toRelease
    ensures f == g ==> s.files[f].releases == 0 && s.files[f].readersCount == 0
  {
    assert FileOk(s, f);
    hide Count, KeysOf, Times;
    TimesMember(s.toRelease, f);
    assert Places(s, f) == 1;
  }

  lemma UsePooledKeeps(s: State, h: int)
    requires Inv(s) && 0 <= h < |s.handlers| && s.handlers[h].Have? && IsFile(s, s.handlers[h].f) && s.files[s.handlers[h].f].bigFiles != []
    ensures var g := s.handlers[h].f; var x := s.files[g]; var n := |x.bigFiles| - 1;
            Inv(Goto(s.(files := s.files[g := x.(bigFiles := x.bigFiles[..n])]), h, ReadingBig(g, x.bigFiles[n])))
  {
    hide Times, Count, KeysOf;
    var g := s.handlers[h].f;
    var x := s.files[g];
    var n := |x.bigFiles| - 1;
    var p := ReadingBig(g, x.bigFiles[n]);
    assert HandlerOk(s, h) && FileOk(s, g);
    assert x.bigFiles[n] in x.bigFiles && ReaderOk(s, x.bigFiles[n]);
    PlaysCounts(s.handlers, h, ReaderOf(g));
    assert x.bigFiles == x.bigFiles[..n] + [x.bigFiles[n]];
    assert forall r :: r in x.bigFiles[..n] ==> r in x.bigFiles;
    var s' := Goto(s.(files := s.files[g := x.(bigFiles := x.bigFiles[..n])]), h, p);
    forall f: Fid
      ensures Places(s', f) == if IsFile(s', f) then 1 else 0
    {
      assert Places(s, f) == if IsFile(s, f) then 1 else 0;
      CountUpdate(s.handlers, h, p, OwnerOf(f));
    }
    forall f | 0 <= f < |s'.files|
      ensures FileOk(s', f)
    {
      assert f < |s.files| ==> FileOk(s, f);
      CountUpdate(s.handlers, h, p, OwnerOf(f));
      CountUpdate(s.handlers, h, p, ReaderOf(f));
    }
    forall r | 0 <= r < |s'.readers|
      ensures ReaderOk(s', r)
    {
      assert r < |s.readers| ==> ReaderOk(s, r);
      CountUpdate(s.handlers, h, p, UserOf(r));
      TimesSnoc(x.bigFiles[..n], x.bigFiles[n], r);
    }
    forall i | 0 <= i < |s'.handlers|
      ensures HandlerOk(s', i)
    {
      assert i < |s.handlers| ==> HandlerOk(s, i);
    }
  }

  lemma UseNewKeeps(s: State, h: int)
    requires Inv(s) && 0 <= h < |s.handlers| && s.handlers[h].Have? && IsFile(s, s.handlers[h].f)
    ensures Inv(Goto(s.(readers := s.readers + [Reader(s.handlers[h].f, true)]), h, ReadingBig(s.handlers[h].f, |s.readers|)))
  {
    var g, n := s.handlers[h].f, |s.readers|;
    var p := ReadingBig(g, n);
    assert FileOk(s, g);
    NoUser(s, n);
    TimesMember(s.files[g].bigFiles, n);
    var s' := Goto(s.(readers := s.readers + [Reader(g, true)]), h, p);
    hide Times, Count, KeysOf;
    forall f: Fid
      ensures Places(s', f) == if IsFile(s', f) then 1 else 0
    {
      assert Places(s, f) == if IsFile(s, f) then 1 else 0;
      CountUpdate(s.handlers, h, p, OwnerOf(f));
    }
    forall f | 0 <= f < |s'.files|
      ensures FileOk(s', f)
    {
      assert f < |s.files| ==> FileOk(s, f);
      CountUpdate(s.handlers, h, p, OwnerOf(f));
      CountUpdate(s.handlers, h, p, ReaderOf(f));
    }
    forall r | 0 <= r < |s'.readers|
      ensures ReaderOk(s', r)
    {
      assert r < |s.readers| ==> ReaderOk(s, r);
      CountUpdate(s.handlers, h, p, UserOf(r));
    }
    forall i | 0 <= i < |s'.handlers|
      ensures HandlerOk(s', i)
    {
      assert i < |s.handlers| ==> HandlerOk(s, i);
    }
  }

  lemma NoUser(s: State, r: Rid)
    requires HandlersOk(s) && r == |s.readers|
    ensures Count(s.handlers, UserOf(r)) == 0
  {
    forall i | 0 <= i < |s.handlers|
      ensures !Plays(s.handlers[i], UserOf(r))
    {
      assert HandlerOk(s, i);
    }
    NonePlay(s.handlers, UserOf(r));
  }

  lemma CloseBackKeeps(s: State, h: int)
    requires Inv(s) && 0 <= h < |s.handlers| && s.handlers[h].ReadingBig? && IsFile(s, s.handlers[h].f)
    ensures var g, r0 := s.handlers[h].f, s.handlers[h].r; var x := s.files[g];
            Inv(Goto(s.(files := s.files[g := x.(bigFiles := x.bigFiles + [r0])]), h, Leaving(g)))
  {
    var g, r0 := s.handlers[h].f, s.handlers[h].r;
    var x := s.files[g];
    var p := Leaving(g);
    assert HandlerOk(s, h) && FileOk(s, g);
    PlaysCounts(s.handlers, h, ReaderOf(g));
    var s' := Goto(s.(files := s.files[g := x.(bigFiles := x.bigFiles + [r0])]), h, p);
    hide Times, Count, KeysOf;
    forall f: Fid
      ensures Places(s', f) == if IsFile(s', f) then 1 else 0
    {
      assert Places(s, f) == if IsFile(s, f) then 1 else 0;
      CountUpdate(s.handlers, h, p, OwnerOf(f));
    }
    forall f | 0 <= f < |s'.files|
      ensures FileOk(s', f)
    {
      assert f < |s.files| ==> FileOk(s, f);
      CountUpdate(s.handlers, h, p, OwnerOf(f));
      CountUpdate(s.handlers, h, p, ReaderOf(f));
    }
    forall r | 0 <= r < |s'.readers|
      ensures ReaderOk(s', r)
    {
      assert r < |s.readers| ==> ReaderOk(s, r);
      CountUpdate(s.handlers, h, p, UserOf(r));
      TimesSnoc(x.bigFiles, r0, r);
    }
    forall i | 0 <= i < |s'.handlers|
      ensures HandlerOk(s', i)
    {
      assert i < |s.handlers| ==> HandlerOk(s, i);
    }
  }

  lemma CloseFailsKeeps(s: State, h: int)
    requires Inv(s) && 0 <= h < |s.handlers| && s.handlers[h].ReadingBig? && IsFile(s, s.handlers[h].f) && 0 <= s.handlers[h].r < |s.readers|
    ensures var r0 := s.handlers[h].r;
            Inv(Goto(s.(readers := s.readers[r0 := s.readers[r0].(isOpen := false)]), h, Leaving(s.handlers[h].f)))
  {
    var g, r0 := s.handlers[h].f, s.handlers[h].r;
    var p := Leaving(g);
    assert HandlerOk(s, h) && ReaderOk(s, r0);
    var s' := Goto(s.(readers := s.readers[r0 := s.readers[r0].(isOpen := false)]), h, p);
    hide Times, Count, KeysOf;
    forall f: Fid
      ensures Places(s', f) == if IsFile(s', f) then 1 else 0
    {
      assert Places(s, f) == if IsFile(s, f) then 1 else 0;
      CountUpdate(s.handlers, h, p, OwnerOf(f));
    }
    forall f | 0 <= f < |s'.files|
      ensures FileOk(s', f)
    {
      assert f < |s.files| ==> FileOk(s, f);
      CountUpdate(s.handlers, h, p, OwnerOf(f));
      CountUpdate(s.handlers, h, p, ReaderOf(f));
      UsedNotPooled(s, h, f);
    }
    forall r | 0 <= r < |s'.readers|
      ensures ReaderOk(s', r)
    {
      assert r < |s.readers| ==> ReaderOk(s, r);
      CountUpdate(s.handlers, h, p, UserOf(r));
    }
    forall i | 0 <= i < |s'.handlers|
      ensures HandlerOk(s', i)
    {
      assert i < |s.handlers| ==> HandlerOk(s, i);
      if i != h {
        OneUser(s, h, i);
      }
    }
  }

  lemma UsedNotPooled(s: State, h: int, f: Fid)
    requires Inv(s) && 0 <= h < |s.handlers| && s.handlers[h].ReadingBig? && IsFile(s, f)
    ensures s.handlers[h].r !in s.files[f].bigFiles
  {
    var r := s.handlers[h].r;
    assert HandlerOk(s, h) && FileOk(s, f) && ReaderOk(s, r);
    hide Count, Times;
    PlaysCounts(s.handlers, h, UserOf(r));
    TimesMember(s.files[f].bigFiles, r);
  }

  /** No two handlers use the same reader. */
  lemma OneUser(s: State, h: int, i: int)
    requires Inv(s) && 0 <= h < |s.handlers| && 0 <= i < |s.handlers| && i != h
    requires s.handlers[h].ReadingBig?
    ensures s.handlers[i].ReadingBig? ==> s.handlers[i].r != s.handlers[h].r
  {
    var r := s.handlers[h].r;
    assert HandlerOk(s, h) && ReaderOk(s, r);
    hide Count, Times;
    CountUpdate(s.handlers, h, Finished, UserOf(r));
    if s.handlers[i].ReadingBig? && s.handlers[i].r == r {
      PlaysCounts(s.handlers[h := Finished], i, UserOf(r));
    }
  }

  lemma LeaveKeeps(s: State, h: int)
    requires Inv(s) && 0 <= h < |s.handlers| && s.handlers[h].Leaving?
    ensures IsFile(s, s.handlers[h].f) && s.files[s.handlers[h].f].readersCount > 0
    ensures Inv(Goto(Dec(s, s.handlers[h].f), h, Finished))
  {
    var g, p := s.handlers[h].f, Finished;
    assert HandlerOk(s, h) && FileOk(s, g);
    PlaysCounts(s.handlers, h, ReaderOf(g));
    var s' := Goto(Dec(s, g), h, p);
    hide Times, Count, KeysOf;
    forall f: Fid
      ensures Places(s', f) == if IsFile(s', f) then 1 else 0
    {
      assert Places(s, f) == if IsFile(s, f) then 1 else 0;
      CountUpdate(s.handlers, h, p, OwnerOf(f));
    }
    forall f | 0 <= f < |s'.files|
      ensures FileOk(s', f)
    {
      assert f < |s.files| ==> FileOk(s, f);
      CountUpdate(s.handlers, h, p, OwnerOf(f));
      CountUpdate(s.handlers, h, p, ReaderOf(f));
    }
    forall r | 0 <= r < |s'.readers|
      ensures ReaderOk(s', r)
    {
      assert r < |s.readers| ==> ReaderOk(s, r);
      CountUpdate(s.handlers, h, p, UserOf(r));
    }
    forall i | 0 <= i < |s'.handlers|
      ensures HandlerOk(s', i)
    {
      assert i < |s.handlers| ==> HandlerOk(s, i);
    }
  }

  // ---------------------------------------------------------------- the cleaner

  lemma {:induction false} SplitCounts(files: seq<File>, fs: seq<Fid>, f: Fid)
    ensures Times(fs, f) == Times(InUse(files, fs), f) + Times(Unused(files, fs), f)
    ensures f in Unused(files, fs) ==> !HasReaders(files, f)
  {
    if fs != [] {
      var g, rest := fs[|fs| - 1], fs[..|fs| - 1];
      SplitCounts(files, rest, f);
      TimesSnoc(InUse(files, rest), g, f);
      TimesSnoc(Unused(files, rest), g, f);
    }
  }

  lemma {:induction false} TimesCat<T>(a: seq<T>, b: seq<T>, x: T)
    ensures Times(a + b, x) == Times(a, x) + Times(b, x)
  {
    TimesSplit(a + b, |a|, x);
    assert (a + b)[..|a|] == a && (a + b)[|a|..] == b;
  }

  function KeySet(keys: seq<Key>): set<Key> {
    set i | 0 <= i < |keys| :: keys[i]
  }

  /** Each expired entry moves one file from the cache to the list. */
  lemma {:induction false} ExpiredCounts(cache: map<Key, Fid>, keys: seq<Key>, f: Fid)
    requires Distinct(keys) && forall i :: 0 <= i < |keys| ==> keys[i] in cache
    ensures |KeysOf(cache, f)| == |KeysOf(cache - KeySet(keys), f)| + Times(FilesOf(cache, keys), f)
  {
    if keys == [] {
      assert cache - KeySet(keys) == cache;
    } else {
      var n := |keys| - 1;
      var k, rest := keys[n], keys[..n];
      ExpiredCounts(cache, rest, f);
      TimesSnoc(FilesOf(cache, rest), cache[k], f);
      assert KeySet(keys) == KeySet(rest) + {k};
      ExpiredOne(cache, rest, k, f);
    }
  }

  lemma ExpiredOne(cache: map<Key, Fid>, rest: seq<Key>, k: Key, f: Fid)
    requires k in cache && k !in rest
    ensures |KeysOf(cache - KeySet(rest), f)| ==
            |KeysOf(cache - (KeySet(rest) + {k}), f)| + if cache[k] == f then 1 else 0
  {
    var c1, c2 := cache - KeySet(rest), cache - (KeySet(rest) + {k});
    assert k in c1;
    if cache[k] == f {
      assert KeysOf(c1, f) == KeysOf(c2, f) + {k};
    } else {
      assert KeysOf(c1, f) == KeysOf(c2, f);
    }
  }

  lemma CollectKeeps(s: State, keys: seq<Key>)
    requires Inv(s) && Enabled(s, Collect(keys))
    ensures Inv(CollectSection(s, keys))
  {
    InvRefs(s);
    var all := s.pending + FilesOf(s.cache, keys);
    var s' := CollectSection(s, keys);
    assert KeySet(keys) == set i | 0 <= i < |keys| :: keys[i];
    hide Times, Count, KeysOf, InUse, Unused, FilesOf;
    forall f: Fid
      ensures Places(s', f) == if IsFile(s', f) then 1 else 0
    {
      assert Places(s, f) == if IsFile(s, f) then 1 else 0;
      SplitCounts(s.files, all, f);
      TimesCat(s.pending, FilesOf(s.cache, keys), f);
      ExpiredCounts(s.cache, keys, f);
      assert Times(s.toRelease, f) == 0 by {
        TimesMember(s.toRelease, f);
      }
    }
    forall f | 0 <= f < |s'.files|
      ensures FileOk(s', f)
    {
      assert f < |s.files| ==> FileOk(s, f);
      SplitCounts(s.files, all, f);
      PlaysNonNegative(s, f);
    }
    forall r | 0 <= r < |s'.readers|
      ensures ReaderOk(s', r)
    {
      assert r < |s.readers| ==> ReaderOk(s, r);
    }
    forall i | 0 <= i < |s'.handlers|
      ensures HandlerOk(s', i)
    {
      assert i < |s.handlers| ==> HandlerOk(s, i);
    }
  }

  lemma PlaysNonNegative(s: State, f: Fid)
    requires IsFile(s, f) && FileOk(s, f)
    ensures s.files[f].readersCount >= 0
  {
  }

  // ---------------------------------------------------------------- every run

  lemma {:induction false} InitInv()
    ensures Inv(INIT)
  {
    forall f: Fid
      ensures Places(INIT, f) == 0
    {
      assert KeysOf(INIT.cache, f) == {};
    }
  }

  lemma HandlerActionKeeps(s: State, a: Action)
    requires Inv(s) && RefsOk(s) && Enabled(s, a) && !a.Request? && !a.Collect? && !a.ReleaseNext?
    ensures Inv(Next(s, a))
  {
    var h := a.h;
    var p := s.handlers[h];
    assert RefOk(s, p);
    hide Inv, Count, Times;
    match a {
      case OpenOk(_) => OpenKeeps(s, h);
      case OpenFail(_) => EvenMoveKeeps(s, h, Finished);
      case SetFile(_) => if p.key in s.cache { SetTakenKeeps(s, h); } else { SetFreeKeeps(s, h); }
      case Discard(_) => DiscardKeeps(s, h);
      case NotModified(_) => EvenMoveKeeps(s, h, Leaving(p.f));
      case UseSmall(_) => EvenMoveKeeps(s, h, ReadingSmall(p.f));
      case UsePooled(_) => UsePooledKeeps(s, h);
      case UseNew(_) => UseNewKeeps(s, h);
      case UseFails(_) => EvenMoveKeeps(s, h, Leaving(p.f));
      case CloseSmall(_) => EvenMoveKeeps(s, h, Leaving(p.f));
      case CloseBack(_) => CloseBackKeeps(s, h);
      case CloseFails(_) => CloseFailsKeeps(s, h);
      case Leave(_) => LeaveKeeps(s, h);
    }
  }

  /** Every action keeps the invariant. */
  lemma NextKeeps(s: State, a: Action)
    requires Inv(s) && RefsOk(s) && Enabled(s, a)
    ensures Inv(Next(s, a))
  {
    hide Inv;
    match a {
      case Request(key) => if key in s.cache { HitKeeps(s, key); } else { MissKeeps(s, key); }
      case Collect(keys) => CollectKeeps(s, keys);
      case ReleaseNext => ReleaseNextKeeps(s);
      case _ => HandlerActionKeeps(s, a);
    }
  }

  lemma {:induction false} RunsKeepInv(run: seq<Action>)
    requires Exec(run).Some?
    ensures Inv(Exec(run).value) && RefsOk(Exec(run).value)
    decreases |run|
  {
    hide Inv, RefsOk;
    if run == [] {
      InitInv();
    } else {
      var prefix := run[..|run| - 1];
      RunsKeepInv(prefix);
      NextKeeps(Exec(prefix).value, run[|run| - 1]);
    }
    InvRefs(Exec(run).value);
  }

  ghost predicate FileSafe(s: State, f: Fid)
    requires IsFile(s, f)
  {
    && s.files[f].releases <= 1
    && s.files[f].readersCount == Count(s.handlers, ReaderOf(f))
    && (s.files[f].releases > 0 ==> Count(s.handlers, ReaderOf(f)) == 0)
    && forall r :: r in s.files[f].bigFiles ==>
         0 <= r < |s.readers| && (s.readers[r].isOpen <==> s.files[f].releases == 0)
  }

  lemma FileIsSafe(s: State, f: Fid)
    requires Inv(s) && IsFile(s, f)
    ensures FileSafe(s, f)
  {
    assert FileOk(s, f);
    hide Count, Times, KeysOf;
    assert Places(s, f) == if IsFile(s, f) then 1 else 0;
  }

  lemma InUseIsOpen(s: State, h: int)
    requires Inv(s) && 0 <= h < |s.handlers| && s.handlers[h].ReadingBig?
    ensures 0 <= s.handlers[h].r < |s.readers| && s.readers[s.handlers[h].r].isOpen
  {
    assert HandlerOk(s, h);
  }

  /** Safety over every interleaving: a file is released at most once, and only without readers;
      `readersCount` is the number of handlers reading the file; a reader in use is open and has one
      user; and the pooled readers of a released file are closed. */
  lemma CacheSafety(run: seq<Action>)
    requires Exec(run).Some?
    ensures var s := Exec(run).value;
            && (forall f :: 0 <= f < |s.files| ==> FileSafe(s, f))
            && (forall h :: 0 <= h < |s.handlers| && s.handlers[h].ReadingBig? ==>
                 0 <= s.handlers[h].r < |s.readers| && s.readers[s.handlers[h].r].isOpen)
            && (forall h, i :: 0 <= h < i < |s.handlers| && s.handlers[h].ReadingBig? && s.handlers[i].ReadingBig? ==>
                 s.handlers[h].r != s.handlers[i].r)
  {
    hide Inv, Exec, FileSafe;
    RunsKeepInv(run);
    var s := Exec(run).value;
    forall f | 0 <= f < |s.files|
      ensures FileSafe(s, f)
    {
      FileIsSafe(s, f);
    }
    forall h | 0 <= h < |s.handlers| && s.handlers[h].ReadingBig?
      ensures 0 <= s.handlers[h].r < |s.readers| && s.readers[s.handlers[h].r].isOpen
    {
      InUseIsOpen(s, h);
    }
    forall h, i | 0 <= h < i < |s.handlers| && s.handlers[h].ReadingBig? && s.handlers[i].ReadingBig?
      ensures s.handlers[h].r != s.handlers[i].r
    {
      OneUser(s, h, i);
    }
  }

  /** The clamp of `decReadersCount` never fires: the count is positive when a handler leaves. */
  lemma ClampNeverFires(run: seq<Action>, h: int)
    requires Exec(run).Some? && Enabled(Exec(run).value, Leave(h))
    ensures var s := Exec(run).value; var f := s.handlers[h].f;
            IsFile(s, f) && Dec(s, f).files[f].readersCount == s.files[f].readersCount - 1 >= 0
  {
    RunsKeepInv(run);
    LeaveKeeps(Exec(run).value, h);
  }
}
