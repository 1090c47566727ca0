// Loading succeeds exactly when what can be reached from the root exists and has no cycle, and it
// loads each of those modules once, after all its imports.

module LoadingProof {
  import opened Loading

  // ---------- The import graph ----------

  ghost predicate Chain(files: Files, p: seq<string>) {
    forall i :: 0 <= i < |p| - 1 ==> p[i] in files && p[i + 1] in files[p[i]]
  }

  ghost predicate Reaches(files: Files, a: string, b: string) {
    exists p :: IsPath(files, p, a, b)
  }

  ghost predicate IsPath(files: Files, p: seq<string>, a: string, b: string) {
    p != [] && p[0] == a && p[|p| - 1] == b && Chain(files, p)
  }

  ghost predicate IsCycle(files: Files, p: seq<string>) {
    |p| >= 2 && p[0] == p[|p| - 1] && Chain(files, p)
  }

  lemma {:induction false} ReachesItself(files: Files, a: string)
    ensures Reaches(files, a, a)
  {
    assert IsPath(files, [a], a, a);
  }

  lemma {:induction false} ReachesImport(files: Files, a: string, b: string, c: string)
    requires Reaches(files, a, b) && b in files && c in files[b]
    ensures Reaches(files, a, c)
  {
    var p :| IsPath(files, p, a, b);
    assert IsPath(files, p + [c], a, c);
  }

  // ---------- What the events say ----------

  /** A module is merged after it was loaded, and before its importer is; a module is loaded once, after all its
      imports were merged. */
  ghost predicate EventOk(files: Files, events: seq<Event>, i: nat)
    requires i < |events|
  {
    match events[i]
    case Loaded(a) =>
      a in files && Loaded(a) !in events[..i] && forall b :: b in files[a] ==> Merged(a, b) in events[..i]
    case Merged(a, b) =>
      a in files && b in files[a] && Loaded(b) in events[..i] && Loaded(a) !in events[..i]
  }

  ghost predicate EventsOk(files: Files, events: seq<Event>) {
    forall i :: 0 <= i < |events| ==> EventOk(files, events, i)
  }

  lemma {:induction false} OneMoreEvent(files: Files, events: seq<Event>, e: Event)
    requires EventsOk(files, events) && EventOk(files, events + [e], |events|)
    ensures EventsOk(files, events + [e])
  {
    var more := events + [e];
    forall i | 0 <= i < |more|
      ensures EventOk(files, more, i)
    {
      if i < |events| {
        assert more[..i] == events[..i] && EventOk(files, events, i);
      }
    }
  }

  // ---------- The state between two steps ----------

  /** The modules on the list are the loaded ones and those whose loading has begun, each importing the next. */
  ghost predicate Inv(files: Files, root: string, st: State, stack: seq<string>) {
    EventsOk(files, st.events) && Chain(files, stack) &&
    (forall m :: m in st.modules <==> m in stack || Loaded(m) in st.events) &&
    (forall m :: m in stack ==> m in files && Loaded(m) !in st.events) &&
    (forall m :: m in st.modules ==> Reaches(files, root, m)) &&
    (forall i, j :: 0 <= i < j < |st.modules| ==> st.modules[i] != st.modules[j])
  }

  /** What an error stands for. */
  ghost predicate Justified(files: Files, root: string, error: Error) {
    match error
    case Missing(path) => path !in files && Reaches(files, root, path)
    case Circular(_, path) => Reaches(files, root, path) && exists c :: IsCycle(files, c) && c[0] == path
  }

  ghost predicate Kept(files: Files, root: string, st: State, stack: seq<string>, r: Outcome) {
    match r
    case Done(st1) => Inv(files, root, st1, stack) && st.events <= st1.events
    case Failed(e) => Justified(files, root, e)
  }

  lemma {:induction false} LoadKeeps(files: Files, root: string, path: string, st: State, stack: seq<string>)
    requires Inv(files, root, st, stack) && path !in st.modules && Reaches(files, root, path)
    requires stack != [] ==> path in files[stack[|stack| - 1]]
    ensures Kept(files, root, st, stack, Load(files, path, st))
    ensures var r := Load(files, path, st); r.Done? ==> Loaded(path) in r.st.events
    decreases |Left(files, st)|, 0
  {
    if path in files {
      Smaller(files, path, st);
      Pushed(files, root, path, st, stack);
      var st0 := Push(st, path);
      ImportAllKeeps(files, root, path, 0, st0, stack + [path]);
      var r := ImportAll(files, path, files[path], st0);
      if r.Done? {
        Popped(files, root, path, r.st, stack);
      }
    }
  }

  lemma {:induction false} Pushed(files: Files, root: string, path: string, st: State, stack: seq<string>)
    requires Inv(files, root, st, stack) && path !in st.modules && Reaches(files, root, path) && path in files
    requires stack != [] ==> path in files[stack[|stack| - 1]]
    ensures Inv(files, root, Push(st, path), stack + [path])
  {
    var more := stack + [path];
    forall i | 0 <= i < |more| - 1
      ensures more[i] in files && more[i + 1] in files[more[i]]
    {
      assert more[i] == stack[i] && stack[i] in stack;
    }
    assert forall m :: m in more <==> m in stack || m == path;
    assert forall m :: m in Push(st, path).modules <==> m in st.modules || m == path;
    hide Reaches, EventsOk;
  }

  lemma {:induction false} Popped(files: Files, root: string, path: string, st: State, stack: seq<string>)
    requires Inv(files, root, st, stack + [path]) && path !in stack
    requires forall b :: b in files[path] ==> Merged(path, b) in st.events
    ensures Inv(files, root, Log(st, Loaded(path)), stack)
  {
    var more := stack + [path];
    assert path in more;
    assert forall m :: m in more <==> m in stack || m == path;
    assert forall i :: 0 <= i < |stack| ==> more[i] == stack[i];
    var events := st.events + [Loaded(path)];
    assert events[..|st.events|] == st.events;
    OneMoreEvent(files, st.events, Loaded(path));
    hide Reaches, EventsOk;
    assert forall e :: e in events <==> e in st.events || e == Loaded(path);
  }

  /** The imports of a module from the k-th one on. */
  lemma {:induction false} ImportAllKeeps(files: Files, root: string, importer: string, k: nat, st: State,
                                          stack: seq<string>)
    requires importer in files && k <= |files[importer]|
    requires Inv(files, root, st, stack) && stack != [] && stack[|stack| - 1] == importer
    requires forall i :: 0 <= i < k ==> Merged(importer, files[importer][i]) in st.events
    ensures Kept(files, root, st, stack, ImportAll(files, importer, files[importer][k..], st))
    ensures var r := ImportAll(files, importer, files[importer][k..], st);
            r.Done? ==> forall b :: b in files[importer] ==> Merged(importer, b) in r.st.events
    decreases |Left(files, st)|, 2, |files[importer]| - k
  {
    hide Inv, Import, Left, Justified;
    var paths := files[importer];
    if k < |paths| {
      assert paths[k..][0] == paths[k] && paths[k..][1..] == paths[k + 1..];
      ImportKeeps(files, root, importer, paths[k], st, stack);
      var r := Import(files, importer, paths[k], st);
      if r.Done? {
        NoLarger(files, st, r.st);
        ImportAllKeeps(files, root, importer, k + 1, r.st, stack);
      }
    } else {
      assert paths[k..] == [];
    }
  }

  lemma {:induction false} ImportKeeps(files: Files, root: string, importer: string, path: string, st: State,
                                       stack: seq<string>)
    requires Inv(files, root, st, stack) && stack != [] && stack[|stack| - 1] == importer
    requires importer in files && path in files[importer]
    ensures Kept(files, root, st, stack, Import(files, importer, path, st))
    ensures var r := Import(files, importer, path, st); r.Done? ==> Merged(importer, path) in r.st.events
    decreases |Left(files, st)|, 1
  {
    assert importer in stack;
    if path in st.modules {
      if Loaded(path) in st.events {
        MergeKeeps(files, root, importer, path, st, stack);
      } else {
        StackCycle(files, path, stack);
      }
    } else {
      ReachesImport(files, root, importer, path);
      LoadKeeps(files, root, path, st, stack);
      var r := Load(files, path, st);
      if r.Done? {
        MergeKeeps(files, root, importer, path, r.st, stack);
      }
    }
  }

  lemma {:induction false} MergeKeeps(files: Files, root: string, importer: string, path: string, st: State,
                                      stack: seq<string>)
    requires Inv(files, root, st, stack) && importer in stack && path in files[importer] && Loaded(path) in st.events
    ensures Inv(files, root, Log(st, Merged(importer, path)), stack)
  {
    var events := st.events + [Merged(importer, path)];
    assert events[..|st.events|] == st.events;
    OneMoreEvent(files, st.events, Merged(importer, path));
    hide Reaches, EventsOk, Chain;
    assert forall e :: e in events <==> e in st.events || e == Merged(importer, path);
  }

  /** A module on the stack that the top of the stack imports closes a cycle. */
  lemma {:induction false} StackCycle(files: Files, path: string, stack: seq<string>)
    requires Chain(files, stack) && stack != [] && path in stack
    requires stack[|stack| - 1] in files && path in files[stack[|stack| - 1]]
    ensures exists c :: IsCycle(files, c) && c[0] == path
  {
    var k :| 0 <= k < |stack| && stack[k] == path;
    var c := stack[k..] + [path];
    forall i | 0 <= i < |c| - 1
      ensures c[i] in files && c[i + 1] in files[c[i]]
    {
      assert c[i] == stack[k + i];
      if i < |c| - 2 {
        assert c[i + 1] == stack[k + i + 1];
      }
    }
    assert IsCycle(files, c);
  }

  // ---------- Loaded modules have no cycle ----------

  ghost function When(events: seq<Event>, a: string): (i: nat)
    requires Loaded(a) in events
    ensures i < |events| && events[i] == Loaded(a)
  {
    var i: nat :| i < |events| && events[i] == Loaded(a);
    i
  }

  lemma {:induction false} ImportIsEarlier(files: Files, events: seq<Event>, a: string, b: string)
    requires EventsOk(files, events) && Loaded(a) in events
    ensures a in files && (b in files[a] ==> Loaded(b) in events && When(events, b) < When(events, a))
  {
    var i := When(events, a);
    assert EventOk(files, events, i);
    if b in files[a] {
      assert Merged(a, b) in events[..i];
      var j :| 0 <= j < i && events[j] == Merged(a, b);
      assert EventOk(files, events, j) && Loaded(b) in events[..j];
      var k :| 0 <= k < j && events[k] == Loaded(b);
      LoadedOnce(files, events, b, k, When(events, b));
    }
  }

  lemma {:induction false} LoadedOnce(files: Files, events: seq<Event>, a: string, i: nat, j: nat)
    requires EventsOk(files, events) && i < |events| && j < |events| && events[i] == events[j] == Loaded(a)
    ensures i == j
  {
    if i < j {
      NotLoadedAgain(files, events, a, i, j);
    } else if j < i {
      NotLoadedAgain(files, events, a, j, i);
    }
  }

  lemma {:induction false} NotLoadedAgain(files: Files, events: seq<Event>, a: string, i: nat, j: nat)
    requires EventsOk(files, events) && i < j < |events| && events[i] == Loaded(a)
    ensures events[j] != Loaded(a)
  {
    assert EventOk(files, events, j) && events[..j][i] == Loaded(a);
  }

  lemma {:induction false} ChainIsEarlier(files: Files, events: seq<Event>, p: seq<string>)
    requires EventsOk(files, events) && p != [] && Chain(files, p) && Loaded(p[0]) in events
    ensures Loaded(p[|p| - 1]) in events
    ensures |p| > 1 ==> When(events, p[|p| - 1]) < When(events, p[0])
    decreases |p|
  {
    if |p| > 1 {
      ImportIsEarlier(files, events, p[0], p[1]);
      var rest := p[1..];
      forall i | 0 <= i < |rest| - 1
        ensures rest[i] in files && rest[i + 1] in files[rest[i]]
      {
        assert rest[i] == p[i + 1] && rest[i + 1] == p[i + 2];
      }
      ChainIsEarlier(files, events, rest);
    }
  }

  // ---------- Main results ----------

  ghost predicate Sound(files: Files, root: string) {
    (forall m :: Reaches(files, root, m) ==> m in files) &&
    forall c :: IsCycle(files, c) ==> !Reaches(files, root, c[0])
  }

  function LoadRoot(files: Files, root: string): Outcome {
    Load(files, root, State([], []))
  }

  lemma {:induction false} RootKeeps(files: Files, root: string)
    ensures Kept(files, root, State([], []), [], LoadRoot(files, root))
    ensures var r := LoadRoot(files, root); r.Done? ==> Loaded(root) in r.st.events
  {
    ReachesItself(files, root);
    LoadKeeps(files, root, root, State([], []), []);
  }

  /** The root loads exactly when every file that it reaches exists and none of them is on a cycle of imports. */
  lemma {:induction false} LoadsExactly(files: Files, root: string)
    ensures LoadRoot(files, root).Done? <==> Sound(files, root)
  {
    RootKeeps(files, root);
    var r := LoadRoot(files, root);
    if r.Done? {
      forall m | Reaches(files, root, m)
        ensures Loaded(m) in r.st.events && m in files
      {
        ReachedIsLoaded(files, root, r.st, m);
      }
      forall c | IsCycle(files, c)
        ensures !Reaches(files, root, c[0])
      {
        if Loaded(c[0]) in r.st.events {
          ChainIsEarlier(files, r.st.events, c);
        }
      }
    }
  }

  lemma {:induction false} ReachedIsLoaded(files: Files, root: string, st: State, m: string)
    requires EventsOk(files, st.events) && Loaded(root) in st.events && Reaches(files, root, m)
    ensures Loaded(m) in st.events && m in files
  {
    var p :| IsPath(files, p, root, m);
    ChainIsEarlier(files, st.events, p);
    ImportIsEarlier(files, st.events, m, m);
  }

  /** After a success exactly the modules that the root reaches are on the list, each once, and loaded. */
  lemma {:induction false} LoadsEachOnce(files: Files, root: string)
    requires LoadRoot(files, root).Done?
    ensures var st := LoadRoot(files, root).st;
            (forall m :: m in st.modules <==> Reaches(files, root, m)) &&
            (forall m :: m in st.modules <==> Loaded(m) in st.events) &&
            (forall i, j :: 0 <= i < j < |st.modules| ==> st.modules[i] != st.modules[j]) &&
            EventsOk(files, st.events)
  {
    RootKeeps(files, root);
    var st := LoadRoot(files, root).st;
    forall m | Reaches(files, root, m)
      ensures m in st.modules
    {
      ReachedIsLoaded(files, root, st, m);
    }
  }

  /** A failure names a module that is missing, or one on a cycle; in both cases the root reaches it. */
  lemma {:induction false} FailureIsReal(files: Files, root: string)
    requires LoadRoot(files, root).Failed?
    ensures Justified(files, root, LoadRoot(files, root).error)
  {
    RootKeeps(files, root);
  }
}
