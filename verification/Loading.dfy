// Loading a module loads the modules that it imports first; a module whose loading has begun and not
// ended may not be imported.

module Loading {
  import opened Sets

  // The files that there are, and the paths that each one imports, in order.
  type Files = map<string, seq<string>>

  datatype Event = Loaded(path: string) | Merged(importer: string, imported: string)

  // The list of modules, and what happened to them so far.
  datatype State = State(modules: seq<string>, events: seq<Event>)

  datatype Error = Circular(importer: string, path: string) | Missing(path: string)

  datatype Outcome = Done(st: State) | Failed(error: Error) {
    predicate IsFailure() {
      Failed?
    }

    function PropagateFailure(): Outcome
      requires Failed?
    {
      this
    }

    function Extract(): State
      requires Done?
    {
      st
    }
  }

  function Left(files: Files, st: State): set<string> {
    files.Keys - set m | m in st.modules
  }

  function Push(st: State, path: string): State {
    st.(modules := st.modules + [path])
  }

  function Log(st: State, e: Event): State {
    st.(events := st.events + [e])
  }

  function Load(files: Files, path: string, st: State): (r: Outcome)
    requires path !in st.modules
    ensures r.Done? ==> st.modules <= r.st.modules
    decreases |Left(files, st)|, 0
  {
    if path !in files then Failed(Missing(path))
    else
      Smaller(files, path, st);
      var st1 :- ImportAll(files, path, files[path], Push(st, path));
      Done(Log(st1, Loaded(path)))
  }

  function ImportAll(files: Files, importer: string, paths: seq<string>, st: State): (r: Outcome)
    ensures r.Done? ==> st.modules <= r.st.modules
    decreases |Left(files, st)|, 2, |paths|
  {
    if paths == [] then Done(st)
    else
      var st1 :- Import(files, importer, paths[0], st);
      NoLarger(files, st, st1);
      ImportAll(files, importer, paths[1..], st1)
  }

  function Import(files: Files, importer: string, path: string, st: State): (r: Outcome)
    ensures r.Done? ==> st.modules <= r.st.modules
    decreases |Left(files, st)|, 1
  {
    if path in st.modules then
      if Loaded(path) in st.events then Done(Log(st, Merged(importer, path))) else Failed(Circular(importer, path))
    else
      var st1 :- Load(files, path, st);
      Done(Log(st1, Merged(importer, path)))
  }

  lemma {:induction false} Smaller(files: Files, path: string, st: State)
    requires path in files && path !in st.modules
    ensures |Left(files, Push(st, path))| < |Left(files, st)|
  {
    var more := Push(st, path);
    assert forall m :: m in more.modules <==> m in st.modules || m == path;
    assert Left(files, more) == Left(files, st) - {path};
  }

  lemma {:induction false} NoLarger(files: Files, st: State, st1: State)
    requires st.modules <= st1.modules
    ensures |Left(files, st1)| <= |Left(files, st)|
  {
    assert forall m :: m in st.modules ==> m in st1.modules;
    SubsetCount(Left(files, st1), Left(files, st));
  }
}
