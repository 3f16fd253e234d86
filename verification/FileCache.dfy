// The cache of file mappings of src/http/file_cache.cpp.
//
// A step is what one thread does while it holds the cache lock.  GetFileMapping is
// two of them: a look under the shared lock, and, when that finds nothing current, a
// second look and possibly a load under the exclusive lock; other threads may run
// in between.
module FileCaches {
  import opened Prelude
  import Runs

  type Client = nat
  type Handle = nat

  // Class CachedFile; the handle stands for the mapped address, and `size` is how much was
  // mapped.
  datatype CachedFile = CachedFile(handle: Handle, refCount: int, lastModTime: int, lastAccess: int, size: nat)

  // What stat says of a file: its modification time, in seconds, and its size.
  datatype Stat = Stat(mtime: int, size: nat)

  datatype Cache = Cache(
    table: map<string, CachedFile>,
    totalMappedFiles: int,
    nextHandle: Handle,
    // the mappings that exist, and the path each was made for
    live: map<Handle, string>,
    // which response holds which mapping, and which is between the two looks
    holders: map<Client, (string, Handle)>,
    waiting: map<Client, (string, Stat)>,
    // how often a changed file was mapped anew or given up
    reloads: nat)

  const EMPTY: Cache := Cache(map[], 0, 0, map[], map[], map[], 0)

  const NS_PER_SECOND: int := 1_000_000_000

  function WholeSeconds(d: int): int {
    if d >= 0 then d / NS_PER_SECOND else -((-d) / NS_PER_SECOND)
  }

  // ---------- Steps ----------

  datatype Step =
    | SharedLook(c: Client, path: string, stat: Stat, now: int)
    | ExclusiveLook(c: Client, loads: bool, now: int)
    | Release(c: Client)
    | Cleanup(now: int, maxIdleTime: int)

  predicate Enabled(s: Cache, a: Step) {
    match a
    case SharedLook(c, _, _, _) => c !in s.holders && c !in s.waiting
    case ExclusiveLook(c, _, _) => c in s.waiting
    case Release(c) => c in s.holders
    case Cleanup(_, _) => true
  }

  // A hit: one more reference.
  function Hit(s: Cache, c: Client, path: string, now: int): Cache
    requires path in s.table
  {
    var f := s.table[path];
    s.(table := s.table[path := f.(refCount := f.refCount + 1, lastAccess := now)],
       holders := s.holders[c := (path, f.handle)])
  }

  // A changed file leaves the table and is unmapped, whoever holds it.
  function Unload(s: Cache, path: string): Cache
    requires path in s.table
  {
    s.(table := s.table - {path}, live := s.live - {s.table[path].handle}, reloads := s.reloads + 1)
  }

  function Load(s: Cache, c: Client, path: string, stat: Stat, now: int): Cache {
    s.(table := s.table[path := CachedFile(s.nextHandle, 1, stat.mtime, now, stat.size)],
       live := s.live[s.nextHandle := path],
       nextHandle := s.nextHandle + 1,
       totalMappedFiles := s.totalMappedFiles + 1,
       holders := s.holders[c := (path, s.nextHandle)])
  }

  predicate Idle(f: CachedFile, now: int, maxIdleTime: int) {
    f.refCount <= 0 && WholeSeconds(now - f.lastAccess) > maxIdleTime
  }

  function IdlePaths(s: Cache, now: int, maxIdleTime: int): set<string> {
    set p | p in s.table && Idle(s.table[p], now, maxIdleTime)
  }

  function LiveWithout(live: map<Handle, string>, gone: set<string>): map<Handle, string> {
    map h | h in live && live[h] !in gone :: live[h]
  }

  // Some paths unmapped and taken out of the table.
  function Without(s: Cache, gone: set<string>): Cache {
    s.(table := s.table - gone, live := LiveWithout(s.live, gone),
       totalMappedFiles := s.totalMappedFiles - |gone|)
  }

  function Next(s: Cache, a: Step): Cache
    requires Enabled(s, a)
  {
    match a
    case SharedLook(c, path, stat, now) =>
      if path in s.table && s.table[path].lastModTime == stat.mtime then Hit(s, c, path, now)
      else s.(waiting := s.waiting[c := (path, stat)])
    case ExclusiveLook(c, loads, now) =>
      var (path, stat) := s.waiting[c];
      var w := s.(waiting := s.waiting - {c});
      if path in s.table && s.table[path].lastModTime == stat.mtime then Hit(w, c, path, now)
      else
        var u := if path in s.table then Unload(w, path) else w;
        if loads then Load(u, c, path, stat, now) else u
    case Release(c) =>
      var path := s.holders[c].0;
      var r := s.(holders := s.holders - {c});
      if path in s.table && s.table[path].refCount > 0 then
        r.(table := s.table[path := s.table[path].(refCount := s.table[path].refCount - 1)])
      else r
    case Cleanup(now, maxIdleTime) => Without(s, IdlePaths(s, now, maxIdleTime))
  }

  // ---------- Invariants ----------

  // The mappings that exist are exactly those in the table, one for each path.
  ghost predicate OneToOne(table: map<string, CachedFile>, live: map<Handle, string>, next: Handle) {
    && (forall p :: p in table ==> table[p].handle in live && live[table[p].handle] == p)
    && (forall h :: h in live ==> h < next && live[h] in table && table[live[h]].handle == h)
  }

  ghost predicate Mapped(s: Cache) {
    && OneToOne(s.table, s.live, s.nextHandle)
    && (forall c :: c in s.holders ==> s.holders[c].1 < s.nextHandle && c !in s.waiting)
    && (forall p :: p in s.table ==> s.table[p].refCount >= 0)
  }

  function Holders(s: Cache, path: string): set<Client> {
    set c | c in s.holders && s.holders[c].0 == path
  }

  // Whatever is held is still mapped and is the table's entry for its path, and each
  // reference count is the number of holders.
  ghost predicate Held(s: Cache) {
    && (forall c :: c in s.holders ==>
          s.holders[c].0 in s.table && s.table[s.holders[c].0].handle == s.holders[c].1)
    && (forall p :: p in s.table ==> s.table[p].refCount == |Holders(s, p)|)
  }

  // A second look that finds the file changed while somebody holds the old mapping.
  predicate Tears(s: Cache, a: Step) {
    && a.ExclusiveLook? && a.c in s.waiting
    && s.waiting[a.c].0 in s.table && s.table[s.waiting[a.c].0].lastModTime != s.waiting[a.c].1.mtime
    && Holders(s, s.waiting[a.c].0) != {}
  }

  ghost predicate Counted(s: Cache) {
    s.totalMappedFiles == |s.table| + s.reloads
  }

  // ---------- One operation at a time ----------

  lemma HitKeeps(s: Cache, c: Client, path: string, now: int)
    requires Mapped(s) && path in s.table && c !in s.holders && c !in s.waiting
    ensures Mapped(Hit(s, c, path, now))
    ensures |Hit(s, c, path, now).table| == |s.table|
  {
    assert Hit(s, c, path, now).table.Keys == s.table.Keys;
  }

  lemma UnloadKeeps(s: Cache, path: string)
    requires Mapped(s) && path in s.table
    ensures Mapped(Unload(s, path))
    ensures |Unload(s, path).table| == |s.table| - 1
  {
    assert s.table.Keys == Unload(s, path).table.Keys + {path};
  }

  lemma LoadOneToOne(table: map<string, CachedFile>, live: map<Handle, string>, next: Handle, path: string, f: CachedFile)
    requires OneToOne(table, live, next) && path !in table && f.handle == next
    ensures OneToOne(table[path := f], live[next := path], next + 1)
    ensures |table[path := f]| == |table| + 1
  {
    assert table[path := f].Keys == table.Keys + {path};
  }

  lemma LoadKeeps(s: Cache, c: Client, path: string, stat: Stat, now: int)
    requires Mapped(s) && path !in s.table && c !in s.holders && c !in s.waiting
    ensures Mapped(Load(s, c, path, stat, now))
    ensures |Load(s, c, path, stat, now).table| == |s.table| + 1
  {
    LoadOneToOne(s.table, s.live, s.nextHandle, path, CachedFile(s.nextHandle, 1, stat.mtime, now, stat.size));
  }

  lemma CleanupKeeps(s: Cache, now: int, maxIdleTime: int)
    requires Mapped(s)
    ensures var n := Next(s, Cleanup(now, maxIdleTime));
            Mapped(n) && |n.table| == |s.table| - |IdlePaths(s, now, maxIdleTime)|
  {
    var gone := IdlePaths(s, now, maxIdleTime);
    assert s.table.Keys == (s.table - gone).Keys + gone;
  }

  lemma ReleaseKeeps(s: Cache, c: Client)
    requires Mapped(s) && c in s.holders
    ensures Mapped(Next(s, Release(c))) && |Next(s, Release(c)).table| == |s.table|
  {
    assert Next(s, Release(c)).table.Keys == s.table.Keys;
  }

  lemma ExclusiveKeeps(s: Cache, c: Client, loads: bool, now: int)
    requires Mapped(s) && c in s.waiting
    ensures Mapped(Next(s, ExclusiveLook(c, loads, now)))
    ensures Counted(s) ==> Counted(Next(s, ExclusiveLook(c, loads, now)))
  {
    var (path, stat) := s.waiting[c];
    var w := s.(waiting := s.waiting - {c});
    assert Mapped(w);
    if path in s.table && s.table[path].lastModTime == stat.mtime {
      HitKeeps(w, c, path, now);
    } else {
      var u := if path in s.table then Unload(w, path) else w;
      if path in s.table { UnloadKeeps(w, path); }
      if loads { LoadKeeps(u, c, path, stat, now); }
    }
  }

  lemma StepKeepsMapped(s: Cache, a: Step)
    requires Mapped(s) && Enabled(s, a)
    ensures Mapped(Next(s, a))
    ensures Counted(s) ==> Counted(Next(s, a))
  {
    match a {
      case SharedLook(c, path, stat, now) =>
        if path in s.table && s.table[path].lastModTime == stat.mtime { HitKeeps(s, c, path, now); }
      case ExclusiveLook(c, loads, now) => ExclusiveKeeps(s, c, loads, now);
      case Release(c) => ReleaseKeeps(s, c);
      case Cleanup(now, maxIdleTime) => CleanupKeeps(s, now, maxIdleTime);
    }
  }

  lemma JoinHolders(s: Cache, n: Cache, c: Client, path: string, h: Handle, p: string)
    requires c !in s.holders && n.holders == s.holders[c := (path, h)]
    ensures |Holders(n, p)| == |Holders(s, p)| + if p == path then 1 else 0
  {
    if p == path {
      assert Holders(n, p) == Holders(s, p) + {c};
    } else {
      assert Holders(n, p) == Holders(s, p);
    }
  }

  lemma LeaveHolders(s: Cache, n: Cache, c: Client, p: string)
    requires c in s.holders && n.holders == s.holders - {c}
    ensures |Holders(n, p)| == |Holders(s, p)| - if p == s.holders[c].0 then 1 else 0
  {
    assert s.holders == n.holders[c := s.holders[c]];
    JoinHolders(n, s, c, s.holders[c].0, s.holders[c].1, p);
  }

  lemma HitHeld(s: Cache, c: Client, path: string, now: int)
    requires Held(s) && path in s.table && c !in s.holders
    ensures Held(Hit(s, c, path, now))
  {
    var n := Hit(s, c, path, now);
    forall p | p in n.table
      ensures n.table[p].refCount == |Holders(n, p)|
    {
      JoinHolders(s, n, c, path, s.table[path].handle, p);
    }
  }

  lemma LoadHeld(s: Cache, c: Client, path: string, stat: Stat, now: int)
    requires Held(s) && path !in s.table && c !in s.holders
    ensures Held(Load(s, c, path, stat, now))
  {
    var n := Load(s, c, path, stat, now);
    assert Holders(s, path) == {};
    forall p | p in n.table
      ensures n.table[p].refCount == |Holders(n, p)|
    {
      JoinHolders(s, n, c, path, s.nextHandle, p);
    }
  }

  lemma ReleaseHeld(s: Cache, c: Client)
    requires Held(s) && c in s.holders
    ensures Held(Next(s, Release(c)))
  {
    var n := Next(s, Release(c));
    var path := s.holders[c].0;
    assert c in Holders(s, path);
    assert s.table[path].refCount > 0;
    forall p | p in n.table
      ensures n.table[p].refCount == |Holders(n, p)|
    {
      LeaveHolders(s, n, c, p);
    }
  }

  lemma SameHolders(s: Cache, n: Cache, p: string)
    requires n.holders == s.holders
    ensures Holders(n, p) == Holders(s, p)
  {
  }

  // A mapping that somebody holds is never idle, so Cleanup leaves it alone.
  lemma CleanupHeld(s: Cache, now: int, maxIdleTime: int)
    requires Held(s)
    ensures Held(Next(s, Cleanup(now, maxIdleTime)))
  {
    var n := Next(s, Cleanup(now, maxIdleTime));
    forall c | c in n.holders
      ensures n.holders[c].0 in n.table && n.table[n.holders[c].0].handle == n.holders[c].1
    {
      var p := s.holders[c].0;
      assert c in Holders(s, p);
      assert s.table[p].refCount > 0;
    }
    forall p | p in n.table
      ensures n.table[p].refCount == |Holders(n, p)|
    {
      SameHolders(s, n, p);
    }
  }

  lemma UnloadHeld(s: Cache, path: string)
    requires Held(s) && path in s.table && Holders(s, path) == {}
    ensures Held(Unload(s, path))
  {
    var n := Unload(s, path);
    assert forall c :: c in s.holders ==> c in Holders(s, s.holders[c].0);
    forall p | p in n.table
      ensures n.table[p].refCount == |Holders(n, p)|
    {
      SameHolders(s, n, p);
    }
  }

  lemma WaitingHeld(s: Cache, n: Cache)
    requires Held(s) && n.holders == s.holders && n.table == s.table
    ensures Held(n)
  {
    forall p | p in n.table
      ensures n.table[p].refCount == |Holders(n, p)|
    {
      SameHolders(s, n, p);
    }
  }

  lemma TearBreaks(s: Cache, a: Step)
    requires Mapped(s) && Held(s) && Enabled(s, a) && Tears(s, a)
    ensures !Held(Next(s, a))
  {
    var path := s.waiting[a.c].0;
    var h :| h in Holders(s, path);
    var n := Next(s, a);
    assert h != a.c && n.holders[h] == s.holders[h];
  }

  // The exact condition: a step keeps every held mapping alive and every count right
  // unless it tears a held mapping down because the file has changed.
  lemma StepKeepsHeld(s: Cache, a: Step)
    requires Mapped(s) && Held(s) && Enabled(s, a)
    ensures Held(Next(s, a)) <==> !Tears(s, a)
  {
    if Tears(s, a) {
      TearBreaks(s, a);
    } else {
      match a {
        case SharedLook(c, path, stat, now) =>
          if path in s.table && s.table[path].lastModTime == stat.mtime { HitHeld(s, c, path, now); }
          else { WaitingHeld(s, Next(s, a)); }
        case ExclusiveLook(c, loads, now) => ExclusiveHeld(s, c, loads, now);
        case Release(c) => ReleaseHeld(s, c);
        case Cleanup(now, maxIdleTime) => CleanupHeld(s, now, maxIdleTime);
      }
    }
  }

  lemma ExclusiveHeld(s: Cache, c: Client, loads: bool, now: int)
    requires Mapped(s) && Held(s) && c in s.waiting && !Tears(s, ExclusiveLook(c, loads, now))
    ensures Held(Next(s, ExclusiveLook(c, loads, now)))
  {
    var (path, stat) := s.waiting[c];
    var w := s.(waiting := s.waiting - {c});
    WaitingHeld(s, w);
    SameHolders(s, w, path);
    if path in s.table && s.table[path].lastModTime == stat.mtime {
      HitHeld(w, c, path, now);
    } else {
      var u := if path in s.table then Unload(w, path) else w;
      if path in s.table { UnloadHeld(w, path); }
      if loads { LoadHeld(u, c, path, stat, now); }
    }
  }

  // ---------- Runs ----------

  function TryStep(s: Cache, a: Step): Option<Cache> {
    if Enabled(s, a) then Some(Next(s, a)) else None
  }

  function Exec(s: Cache, steps: seq<Step>): Option<Cache> {
    Runs.Exec(TryStep, s, steps)
  }

  // No file is looked at with a new modification time while the mapping of the old
  // one is held.
  ghost predicate FilesStableWhileHeld(steps: seq<Step>) {
    steps == [] ||
    var init := steps[..|steps| - 1];
    FilesStableWhileHeld(init) && Exec(EMPTY, init).Some? && !Tears(Exec(EMPTY, init).value, steps[|steps| - 1])
  }

  // In every interleaving the mappings that exist are those in the table, one for a
  // path, and the counter of mapped files is the size of the table plus the number of
  // times a changed file was dropped.  If no file changes while it is held, what is
  // held is mapped and each count is the number of holders.
  lemma {:induction false} RunKeeps(steps: seq<Step>)
    requires Exec(EMPTY, steps).Some?
    ensures var s := Exec(EMPTY, steps).value; Mapped(s) && Counted(s)
    ensures FilesStableWhileHeld(steps) ==> Held(Exec(EMPTY, steps).value)
  {
    if steps != [] {
      var init, a := steps[..|steps| - 1], steps[|steps| - 1];
      RunKeeps(init);
      StepKeepsMapped(Exec(EMPTY, init).value, a);
      if FilesStableWhileHeld(steps) {
        StepKeepsHeld(Exec(EMPTY, init).value, a);
      }
    }
  }

  // Nothing that is held is ever unmapped, as long as files do not change while held.
  lemma {:induction false} HeldIsMapped(steps: seq<Step>, c: Client)
    requires Exec(EMPTY, steps).Some? && FilesStableWhileHeld(steps)
    requires c in Exec(EMPTY, steps).value.holders
    ensures var s := Exec(EMPTY, steps).value;
            var (path, h) := s.holders[c];
            h in s.live && s.live[h] == path && path in s.table && s.table[path].refCount == |Holders(s, path)| > 0
  {
    RunKeeps(steps);
    var s := Exec(EMPTY, steps).value;
    assert c in Holders(s, s.holders[c].0);
  }

  // Two responses ask for one path, and the file changes in between: the second unmaps
  // what the first holds, and the release of the first then takes the reference of the
  // second, so that a cleanup may unmap that too.
  lemma TornWhileHeld()
    ensures var first := [SharedLook(0, "f", Stat(1, 5), 0), ExclusiveLook(0, true, 0), SharedLook(1, "f", Stat(2, 9), 0)];
            var torn := first + [ExclusiveLook(1, true, 0)];
            var released := torn + [Release(0)];
            var cleaned := released + [Cleanup(NS_PER_SECOND, 0)];
            && Exec(EMPTY, first).Some? && Tears(Exec(EMPTY, first).value, ExclusiveLook(1, true, 0))
            && (var s := Exec(EMPTY, torn); s.Some? && s.value.holders[0].1 !in s.value.live)
            && (var s := Exec(EMPTY, cleaned);
                s.Some? && 1 in s.value.holders && s.value.holders[1].1 !in s.value.live)
  {
    var a, b, c, d := SharedLook(0, "f", Stat(1, 5), 0), ExclusiveLook(0, true, 0), SharedLook(1, "f", Stat(2, 9), 0), ExclusiveLook(1, true, 0);
    var first := [a, b, c];
    var s1, s2, s3 := Next(EMPTY, a), Next(Next(EMPTY, a), b), Next(Next(Next(EMPTY, a), b), c);
    assert [] + [a] == [a] && [a] + [b] == [a, b] && [a, b] + [c] == first;
    OneStep(EMPTY, [], EMPTY, a);
    OneStep(EMPTY, [a], s1, b);
    OneStep(EMPTY, [a, b], s2, c);
    assert 0 in Holders(s3, "f");
    var s4 := Next(s3, d);
    OneStep(EMPTY, first, s3, d);
    var s5 := Next(s4, Release(0));
    OneStep(EMPTY, first + [d], s4, Release(0));
    OneStep(EMPTY, first + [d] + [Release(0)], s5, Cleanup(NS_PER_SECOND, 0));
    assert s5.table == map["f" := CachedFile(1, 0, 2, 0, 9)];
  }

  lemma OneStep(s: Cache, steps: seq<Step>, m: Cache, a: Step)
    requires Exec(s, steps) == Some(m) && Enabled(m, a)
    ensures Exec(s, steps + [a]) == Some(Next(m, a))
  {
    Runs.ExecOne(TryStep, s, steps, a);
  }

  // What a look asks for: the path, and what stat said of it.
  function Asks(s: Cache, a: Step): (string, Stat)
    requires Enabled(s, a) && (a.SharedLook? || a.ExclusiveLook?)
  {
    match a
    case SharedLook(_, path, stat, _) => (path, stat)
    case ExclusiveLook(c, _, _) => s.waiting[c]
  }

  // What a look gets is the entry of its path with the modification time it asked for; it
  // gets one exactly if that is in the table or, at the second look, if the file loads.
  lemma LookExact(s: Cache, a: Step)
    requires Enabled(s, a) && (a.SharedLook? || a.ExclusiveLook?) && a.c !in s.holders
    ensures var (path, stat) := Asks(s, a);
            var n := Next(s, a);
            && (a.c in n.holders <==>
                  (path in s.table && s.table[path].lastModTime == stat.mtime) || (a.ExclusiveLook? && a.loads))
            && (a.c in n.holders ==>
                  && path in n.table && n.holders[a.c] == (path, n.table[path].handle)
                  && n.table[path].lastModTime == stat.mtime && n.table[path].lastAccess == a.now
                  && n.table[path].refCount ==
                     if path in s.table && s.table[path].lastModTime == stat.mtime then s.table[path].refCount + 1 else 1)
            // the first look, if it gets nothing, is followed by a second
            && (a.c !in n.holders ==> (a.c in n.waiting <==> a.SharedLook?))
            // every other entry stays as it is
            && (forall p :: p != path ==> (p in n.table <==> p in s.table) && (p in s.table ==> n.table[p] == s.table[p]))
  {
  }

  // A release takes one reference off the entry of its path, and nothing else.
  lemma ReleaseExact(s: Cache, c: Client)
    requires Enabled(s, Release(c))
    ensures var n := Next(s, Release(c));
            && c !in n.holders && n.live == s.live
            && (forall d :: d != c && d in s.holders ==> d in n.holders && n.holders[d] == s.holders[d])
            && (forall p :: p in s.table <==> p in n.table)
            && (forall p :: p in s.table ==>
                  n.table[p].refCount ==
                  if p == s.holders[c].0 && s.table[p].refCount > 0 then s.table[p].refCount - 1 else s.table[p].refCount)
  {
  }

  // A cleanup unmaps exactly the entries without references that have not been looked at
  // for more than the given number of whole seconds.
  lemma CleanupExact(s: Cache, now: int, maxIdleTime: nat)
    requires Mapped(s)
    ensures var n := Next(s, Cleanup(now, maxIdleTime));
            && (forall p :: p in s.table ==>
                  (p !in n.table <==>
                     s.table[p].refCount <= 0 && now - s.table[p].lastAccess >= (maxIdleTime + 1) * 1_000_000_000))
            && (forall p :: p in n.table ==> p in s.table && n.table[p] == s.table[p])
            && (forall p :: p in s.table ==> (s.table[p].handle in n.live <==> p in n.table))
            && n.holders == s.holders
  {
    forall p | p in s.table
      ensures Idle(s.table[p], now, maxIdleTime) <==>
              s.table[p].refCount <= 0 && now - s.table[p].lastAccess >= (maxIdleTime + 1) * 1_000_000_000
    {
      SecondsExact(now - s.table[p].lastAccess, maxIdleTime);
    }
  }

  lemma SecondsExact(d: int, k: nat)
    ensures WholeSeconds(d) > k <==> d >= (k + 1) * 1_000_000_000
  {
  }

  // A look that gets a mapping gets one shorter than stat said if and only if the table has
  // the path with the same modification time and less of it mapped.
  lemma ShortExact(s: Cache, a: Step)
    requires Enabled(s, a) && (a.SharedLook? || a.ExclusiveLook?)
    requires a.c !in s.holders && a.c in Next(s, a).holders
    ensures var (path, stat) := Asks(s, a);
            var n := Next(s, a);
            && path in n.table && n.holders[a.c] == (path, n.table[path].handle)
            && (n.table[path].size < stat.size <==>
                  path in s.table && s.table[path].lastModTime == stat.mtime && s.table[path].size < stat.size)
  {
  }

  // It does happen: the file is mapped when it has 5 bytes, and grows to 9 within the
  // second of its modification time.
  lemma ShortMapping()
    ensures var steps := [SharedLook(0, "f", Stat(1, 5), 0), ExclusiveLook(0, true, 0), SharedLook(1, "f", Stat(1, 9), 0)];
            var s := Exec(EMPTY, steps);
            && s.Some? && "f" in s.value.table && 1 in s.value.holders
            && s.value.table["f"].size == 5 && s.value.holders[1] == ("f", s.value.table["f"].handle)
  {
    var a, b, c := SharedLook(0, "f", Stat(1, 5), 0), ExclusiveLook(0, true, 0), SharedLook(1, "f", Stat(1, 9), 0);
    Runs.ExecOne(TryStep, EMPTY, [], a);
    Runs.ExecOne(TryStep, EMPTY, [a], b);
    Runs.ExecOne(TryStep, EMPTY, [a, b], c);
    assert [] + [a] == [a] && [a] + [b] == [a, b] && [a, b] + [c] == [a, b, c];
  }

  // ---------- The object ----------

  class FileCache {
    var fileCache: map<string, CachedFile>
    var totalMappedFiles: int
    var nextHandle: Handle
    ghost var live: map<Handle, string>
    ghost var holders: map<Client, (string, Handle)>
    ghost var waiting: map<Client, (string, Stat)>
    ghost var reloads: nat

    ghost function State(): Cache
      reads this
    {
      Cache(fileCache, totalMappedFiles, nextHandle, live, holders, waiting, reloads)
    }

    constructor ()
      ensures State() == EMPTY
    {
      fileCache, totalMappedFiles, nextHandle := map[], 0, 0;
      live, holders, waiting, reloads := map[], map[], map[], 0;
    }

    // A current entry: one more reference.
    method Reference(ghost c: Client, path: string, now: int) returns (cache: CachedFile)
      requires path in fileCache
      modifies this`fileCache, this`holders
      ensures State() == Hit(old(State()), c, path, now)
      ensures cache.handle == old(fileCache[path].handle)
    {
      cache := fileCache[path];
      cache := cache.(lastAccess := now);
      cache := cache.(refCount := cache.refCount + 1);
      fileCache := fileCache[path := cache];
      holders := holders[c := (path, cache.handle)];
    }

    // The first half of GetFileMapping, under the shared lock.
    method GetShared(ghost c: Client, path: string, stat: Stat, now: int) returns (hit: Option<CachedFile>)
      requires c !in holders && c !in waiting
      modifies this
      ensures State() == Next(old(State()), SharedLook(c, path, stat, now))
      ensures hit.Some? ==> c in holders && holders[c] == (path, hit.value.handle)
      ensures hit.None? ==> c in waiting && waiting[c] == (path, stat)
    {
      if path in fileCache {
        if fileCache[path].lastModTime == stat.mtime {
          var cache := Reference(c, path, now);
          return Some(cache);
        }
      }
      waiting := waiting[c := (path, stat)];
      return None;
    }

    // The second half, under the exclusive lock.  `loads` says whether the file can
    // be opened and mapped.
    method GetExclusive(ghost c: Client, path: string, stat: Stat, loads: bool, now: int)
      returns (found: Option<CachedFile>)
      requires c in waiting && waiting[c] == (path, stat) && c !in holders
      modifies this
      ensures State() == Next(old(State()), ExclusiveLook(c, loads, now))
      ensures found.Some? <==> c in holders
      ensures found.Some? ==> holders[c] == (path, found.value.handle)
    {
      waiting := waiting - {c};
      if path in fileCache {
        if fileCache[path].lastModTime == stat.mtime {
          var cache := Reference(c, path, now);
          return Some(cache);
        } else {
          DropChanged(path);
        }
      }
      if !loads {
        return None;
      }
      var newCache := CachedFile(nextHandle, 1, stat.mtime, now, stat.size);
      live := live[nextHandle := path];
      nextHandle := nextHandle + 1;
      fileCache := fileCache[path := newCache];
      totalMappedFiles := totalMappedFiles + 1;
      holders := holders[c := (path, newCache.handle)];
      return Some(newCache);
    }

    // A changed file is unmapped and leaves the table.
    method DropChanged(path: string)
      requires path in fileCache
      modifies this`fileCache, this`live, this`reloads
      ensures State() == Unload(old(State()), path)
    {
      live := live - {fileCache[path].handle};
      fileCache := fileCache - {path};
      reloads := reloads + 1;
    }

    // The compare-and-swap runs under the exclusive lock, so it succeeds at once.
    method ReleaseFileMapping(ghost c: Client, path: string)
      requires c in holders && holders[c].0 == path
      modifies this
      ensures State() == Next(old(State()), Release(c))
    {
      holders := holders - {c};
      if path in fileCache {
        var cache := fileCache[path];
        var currentCount := cache.refCount;
        if currentCount > 0 {
          fileCache := fileCache[path := cache.(refCount := currentCount - 1)];
        }
      }
    }

    // Unmap one idle entry and erase it.
    method Evict(p: string, ghost s: Cache, ghost gone: set<string>)
      requires Mapped(s) && State() == Without(s, gone) && p in s.table && p !in gone
      modifies this`fileCache, this`live, this`totalMappedFiles
      ensures State() == Without(s, gone + {p})
    {
      EvictOne(s, gone, p);
      live := live - {fileCache[p].handle};
      fileCache := fileCache - {p};
      totalMappedFiles := totalMappedFiles - 1;
    }

    // One turn of the erasing loop.
    method Visit(p: string, now: int, maxIdleTime: int, ghost s: Cache, ghost gone: set<string>) returns (ghost next: set<string>)
      requires Mapped(s) && State() == Without(s, gone) && p in s.table && p !in gone
      modifies this`fileCache, this`live, this`totalMappedFiles
      ensures State() == Without(s, next)
      ensures next == if Idle(s.table[p], now, maxIdleTime) then gone + {p} else gone
    {
      next := gone;
      var cache := fileCache[p];
      assert cache == s.table[p];
      if cache.refCount <= 0 {
        var idleTime := WholeSeconds(now - cache.lastAccess);
        if idleTime > maxIdleTime {
          Evict(p, s, gone);
          next := gone + {p};
        }
      }
    }

    method CleanupCache(now: int, maxIdleTime: int)
      requires Mapped(State())
      modifies this`fileCache, this`live, this`totalMappedFiles
      ensures State() == Next(old(State()), Cleanup(now, maxIdleTime))
    {
      ghost var s, gone: set<string> := State(), {};
      WithoutNone(s);
      var todo := fileCache.Keys;
      while todo != {}
        invariant todo <= s.table.Keys && gone !! todo
        invariant forall p :: p in s.table && p !in todo ==> (p in gone <==> Idle(s.table[p], now, maxIdleTime))
        invariant gone <= s.table.Keys
        invariant State() == Without(s, gone)
        decreases |todo|
      {
        var p :| p in todo;
        todo := todo - {p};
        gone := Visit(p, now, maxIdleTime, s, gone);
      }
      assert gone == IdlePaths(s, now, maxIdleTime);
    }
  }

  lemma WithoutNone(s: Cache)
    ensures Without(s, {}) == s
  {
    assert LiveWithout(s.live, {}) == s.live && s.table - {} == s.table;
  }

  lemma EvictOne(s: Cache, gone: set<string>, p: string)
    requires Mapped(s) && p in s.table && p !in gone
    ensures LiveWithout(s.live, gone) - {s.table[p].handle} == LiveWithout(s.live, gone + {p})
    ensures (s.table - gone) - {p} == s.table - (gone + {p})
    ensures |gone + {p}| == |gone| + 1
  {
  }
}
