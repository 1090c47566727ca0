// The list of modules as the compiler keeps it: a module joins the list before it is loaded.

module LoaderObject {
  import opened Wrappers
  import opened Loading

  class Module {
    const path: string
    var loaded: bool

    constructor (path: string)
      ensures this.path == path && !loaded
    {
      this.path, loaded := path, false;
    }
  }

  ghost function Paths(ms: seq<Module>): (r: seq<string>)
    ensures |r| == |ms| && forall k :: 0 <= k < |ms| ==> r[k] == ms[k].path
  {
    seq(|ms|, k requires 0 <= k < |ms| => ms[k].path)
  }

  lemma {:induction false} PathsMore(ms: seq<Module>, m: Module)
    ensures Paths(ms + [m]) == Paths(ms) + [m.path]
  {
  }

  /** No path is on the list twice, and the flags say which modules were loaded. */
  ghost predicate Tracks(ms: seq<Module>, events: seq<Event>)
    reads ms
  {
    (forall i, j :: 0 <= i < j < |ms| ==> ms[i].path != ms[j].path) &&
    (forall m :: m in ms ==> (m.loaded <==> Loaded(m.path) in events)) &&
    forall e :: e in events && e.Loaded? ==> e.path in Paths(ms)
  }

  lemma {:induction false} TracksMore(ms: seq<Module>, events: seq<Event>, m: Module)
    requires Tracks(ms, events) && m.path !in Paths(ms) && !m.loaded
    ensures Tracks(ms + [m], events)
  {
    PathsMore(ms, m);
    assert forall k :: 0 <= k < |ms| ==> ms[k].path == Paths(ms)[k];
    assert forall x :: x in ms + [m] <==> x in ms || x == m;
    assert forall p :: p in Paths(ms) ==> p in Paths(ms + [m]);
  }

  /** The flags before the last one of them is set. */
  ghost predicate TracksBut(ms: seq<Module>, events: seq<Event>, m: Module)
    reads set x | x in ms && x != m
  {
    m in ms && (forall i, j :: 0 <= i < j < |ms| ==> ms[i].path != ms[j].path) &&
    (forall x :: x in ms && x != m ==> (x.loaded <==> Loaded(x.path) in events)) &&
    forall e :: e in events && e.Loaded? ==> e.path in Paths(ms)
  }

  lemma {:induction false} TracksAll(ms: seq<Module>, events: seq<Event>, m: Module)
    requires m in ms
    ensures Tracks(ms, events) ==> TracksBut(ms, events, m)
    ensures TracksBut(ms, events, m) && m.loaded ==> Tracks(ms, events + [Loaded(m.path)])
  {
    var more := events + [Loaded(m.path)];
    var k :| 0 <= k < |ms| && ms[k] == m;
    assert m.path == Paths(ms)[k];
    assert forall e :: e in more <==> e in events || e == Loaded(m.path);
    if TracksBut(ms, events, m) {
      forall x | x in ms && x != m
        ensures x.path != m.path
      {
        var l :| 0 <= l < |ms| && ms[l] == x;
        assert l != k;
      }
    }
  }

  lemma {:induction false} TracksMerge(ms: seq<Module>, events: seq<Event>, a: string, b: string)
    requires Tracks(ms, events)
    ensures Tracks(ms, events + [Merged(a, b)])
  {
    assert forall e :: e in events + [Merged(a, b)] <==> e in events || e == Merged(a, b);
  }

  lemma {:induction false} StillThere(ms: seq<Module>, m: Module, more: seq<Module>)
    requires ms + [m] <= more
    ensures ms <= more && m in more
  {
    assert more[|ms|] == (ms + [m])[|ms|];
    assert ms == (ms + [m])[..|ms|];
  }

  lemma {:induction false} LookedUp(ms: seq<Module>, m: Module)
    requires m in ms
    ensures m.path in Paths(ms)
  {
    var k :| 0 <= k < |ms| && ms[k] == m;
    assert Paths(ms)[k] == m.path;
  }

  lemma {:induction false} NotLoaded(ms: seq<Module>, events: seq<Event>, path: string)
    requires Tracks(ms, events) && path !in Paths(ms)
    ensures Loaded(path) !in events
  {
  }

  lemma {:induction false} Flag(ms: seq<Module>, events: seq<Event>, m: Module)
    requires Tracks(ms, events) && m in ms
    ensures m.loaded <==> Loaded(m.path) in events
  {
  }

  // ---------- One step of the specification ----------

  lemma {:induction false} LoadStep(files: Files, path: string, st: State)
    requires path !in st.modules && path in files
    ensures Load(files, path, st) ==
              match Loading.ImportAll(files, path, files[path], Push(st, path)) {
                case Done(st1) => Done(Log(st1, Loaded(path)))
                case Failed(e) => Failed(e)
              }
  {
  }

  lemma {:induction false} ImportAllStep(files: Files, importer: string, paths: seq<string>, i: nat, st: State)
    requires i <= |paths|
    ensures Loading.ImportAll(files, importer, paths[i..], st) ==
              if i == |paths| then Done(st)
              else match Import(files, importer, paths[i], st) {
                case Done(st1) => Loading.ImportAll(files, importer, paths[i + 1..], st1)
                case Failed(e) => Failed(e)
              }
  {
    hide Import;
    if i < |paths| {
      assert paths[i..][0] == paths[i] && paths[i..][1..] == paths[i + 1..];
    }
  }

  class Loader {
    const files: Files
    var modules: seq<Module>
    ghost var events: seq<Event>

    ghost predicate Valid()
      reads this, modules
    {
      Tracks(modules, events)
    }

    ghost function St(): State
      reads this
    {
      State(Paths(modules), events)
    }

    constructor (files: Files)
      ensures Valid() && this.files == files && St() == State([], [])
    {
      this.files, modules, events := files, [], [];
    }

    method LookupModule(path: string) returns (found: Option<Module>)
      ensures found.None? ==> path !in Paths(modules)
      ensures found.Some? ==> found.value in modules && found.value.path == path
    {
      var i := 0;
      while i < |modules|
        invariant 0 <= i <= |modules|
        invariant forall k :: 0 <= k < i ==> modules[k].path != path
      {
        if modules[i].path == path {
          return Some(modules[i]);
        }
        i := i + 1;
      }
      return None;
    }

    /** The state follows the specification; on a failure the compiler exits. */
    ghost predicate Follows<T>(r: Result<T>, o: Outcome)
      reads this
    {
      r.Ok? == o.Done? && (o.Done? ==> St() == o.st)
    }

    method LoadModule(path: string) returns (r: Result<Module>)
      requires Valid() && path !in Paths(modules)
      modifies this
      ensures Follows(r, Load(files, path, old(St())))
      ensures r.Ok? ==> Valid() && old(modules) <= modules && r.value in modules && r.value.path == path && r.value.loaded
      decreases |Left(files, St())|, 0
    {
      if path !in files {
        return Fatal("no such file");
      }
      hide Load, Loading.ImportAll, Left, Tracks, Paths, Push, Log;
      LoadStep(files, path, St());
      Smaller(files, path, St());
      ghost var was := modules;
      var m := Begin(path);
      var _ :- ImportAll(path, files[path]);
      StillThere(was, m, modules);
      End(m);
      r := Ok(m);
    }

    /** The module joins the list. */
    method Begin(path: string) returns (m: Module)
      requires Valid() && path !in Paths(modules)
      modifies this`modules
      ensures Valid() && fresh(m) && m.path == path && modules == old(modules) + [m] && St() == Push(old(St()), path)
    {
      NotLoaded(modules, events, path);
      m := new Module(path);
      TracksMore(modules, events, m);
      PathsMore(modules, m);
      modules := modules + [m];
    }

    /** Its imports are loaded and merged, so it is loaded itself. */
    method End(m: Module)
      requires Valid() && m in modules
      modifies this`events, m
      ensures Valid() && m.loaded && St() == Log(old(St()), Loaded(m.path))
    {
      hide Tracks, TracksBut;
      TracksAll(modules, events, m);
      m.loaded := true;
      TracksAll(modules, events, m);
      events := events + [Loaded(m.path)];
    }

    method ImportAll(importer: string, paths: seq<string>) returns (r: Result<()>)
      requires Valid()
      modifies this
      ensures Follows(r, Loading.ImportAll(files, importer, paths, old(St())))
      ensures r.Ok? ==> Valid() && old(modules) <= modules
      decreases |Left(files, St())|, 2
    {
      hide Import, Loading.ImportAll, Left, Tracks;
      var i := 0;
      assert paths[0..] == paths;
      while i < |paths|
        invariant 0 <= i <= |paths| && Valid() && old(modules) <= modules
        invariant Loading.ImportAll(files, importer, paths, old(St())) == Loading.ImportAll(files, importer, paths[i..], St())
      {
        ImportAllStep(files, importer, paths, i, St());
        NoMoreLeft(files, old(modules), modules, old(events), events);
        var _ :- ImportFile(importer, paths[i]);
        i := i + 1;
      }
      ImportAllStep(files, importer, paths, i, St());
      r := Ok(());
    }

    method ImportFile(importer: string, path: string) returns (r: Result<()>)
      requires Valid()
      modifies this
      ensures Follows(r, Import(files, importer, path, old(St())))
      ensures r.Ok? ==> Valid() && old(modules) <= modules
      decreases |Left(files, St())|, 1
    {
      hide Load, Left, Tracks;
      var found := LookupModule(path);
      var m: Module;
      if found.None? {
        m :- LoadModule(path);
      } else {
        m := found.value;
        LookedUp(modules, m);
      }
      Flag(modules, events, m);
      if !m.loaded {
        return Fatal("circular dependency");
      }
      TracksMerge(modules, events, importer, path);
      events := events + [Merged(importer, path)];
      r := Ok(());
    }
  }

  lemma {:induction false} NoMoreLeft(files: Files, ms: seq<Module>, more: seq<Module>, events: seq<Event>,
                                      events': seq<Event>)
    requires ms <= more
    ensures |Left(files, State(Paths(more), events'))| <= |Left(files, State(Paths(ms), events))|
  {
    assert Paths(ms) == Paths(more)[..|ms|];
    NoLarger(files, State(Paths(ms), events), State(Paths(more), events'));
  }
}
