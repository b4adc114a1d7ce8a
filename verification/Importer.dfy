/** Importing downloaded modules (micropython.c): a module is registered before its body runs, bodies import others. */
module Importer {
  import opened Words
  import opened ModuleStore

  type Name = s: Bytes | NulFree(s)

  datatype Error = ImportError(name: Name) | RelativeImport | OtherError

  /** What a module body does, as far as importing goes. Without a handler a failed import ends the body. */
  datatype Script =
    | Done
    | Raise
    | Import(relative: bool, name: Name, then_: Script, handler: Option<Script>)

  /** The namespace a body runs in: of the main program, of a built-in, or of the n-th module created. */
  datatype Module = Main | Builtin(name: Name) | Context(n: nat)

  type Modules = map<Name, Module>

  datatype Outcome = Loaded(mod: Module) | Failed(error: Error)

  /** What is on the hub: built-in modules, the store of downloaded ones, frozen ones, and what loading a body gives. */
  datatype Hub = Hub(
    direct: set<Name>,
    extensible: set<Name>,
    entries: seq<Entry>,
    frozen: map<Name, Script>,
    load: Bytes -> Script
  )

  /** Loaded modules, the bodies run so far in order, and the current globals. */
  datatype State = State(loaded: Modules, ran: seq<Name>, globals: Module)

  const START := State(map[], [], Main)

  predicate IsBuiltin(h: Hub, name: Name) {
    name in h.direct || name in h.extensible
  }

  /** The body behind a name: a downloaded module wins over a frozen one. */
  function Source(h: Hub, name: Name): Option<Script> {
    match FirstFrom(h.entries, name, 0)
    case Some(k) => Some(h.load(h.entries[k].body))
    case None => if name in h.frozen then Some(h.frozen[name]) else None
  }

  /** The names that have a body. */
  function Sources(h: Hub): (names: set<Name>)
    ensures forall name: Name :: Source(h, name).Some? ==> name in names
  {
    (set i, e | 0 <= i < |h.entries| && e == h.entries[i] && NulFree(e.name) :: e.name) + h.frozen.Keys
  }

  /** How many modules can still be loaded. */
  function Pending(h: Hub, loaded: Modules): nat {
    |Sources(h) - loaded.Keys|
  }

  function Size(script: Script): nat {
    match script
    case Import(_, _, then_, handler) =>
      1 + Size(then_) + (match handler case Some(s) => Size(s) case None => 0)
    case _ => 0
  }

  /** Loading more leaves less to load. */
  lemma PendingShrinks(h: Hub, small: Modules, big: Modules)
    requires small.Keys <= big.Keys
    ensures Pending(h, big) <= Pending(h, small)
    ensures (exists name :: name in big && name !in small && name in Sources(h)) ==> Pending(h, big) < Pending(h, small)
  {
    var a, b := Sources(h) - big.Keys, Sources(h) - small.Keys;
    SubsetSize(a, b);
  }

  lemma SubsetSize(a: set<Name>, b: set<Name>)
    requires a <= b
    ensures |a| <= |b| && (a != b ==> |a| < |b|)
  {
    assert b == a + (b - a);
    if a != b {
      assert b - a != {};
    }
  }

  // ----- Importing -----

  function Register(s: State, name: Name): State {
    var ctx := Context(|s.ran|);
    State(s.loaded[name := ctx], s.ran + [name], ctx)
  }

  /** pb_builtin_import. */
  function ImportName(h: Hub, s: State, relative: bool, name: Name): (r: (State, Outcome))
    ensures s.loaded.Keys <= r.0.loaded.Keys
    decreases Pending(h, s.loaded), 0
  {
    if relative then (s, Failed(RelativeImport))
    else if name in s.loaded then (s, Loaded(s.loaded[name]))
    else if IsBuiltin(h, name) then (s, Loaded(Builtin(name)))
    else if Source(h, name).None? then (s, Failed(ImportError(name)))
    else
      var s1 := Register(s, name);
      PendingShrinks(h, s.loaded, s1.loaded);
      var (s2, error) := RunBody(h, s1, Source(h, name).value);
      (s2.(globals := s.globals), if error.Some? then Failed(error.value) else Loaded(Context(|s.ran|)))
  }

  /** Running a body; the result is the exception that ended it, if any. */
  function RunBody(h: Hub, s: State, script: Script): (r: (State, Option<Error>))
    ensures s.loaded.Keys <= r.0.loaded.Keys
    decreases Pending(h, s.loaded), 1 + Size(script)
  {
    match script
    case Done => (s, None)
    case Raise => (s, Some(OtherError))
    case Import(relative, name, then_, handler) =>
      var (s1, outcome) := ImportName(h, s, relative, name);
      PendingShrinks(h, s.loaded, s1.loaded);
      match outcome
      case Loaded(_) => RunBody(h, s1, then_)
      case Failed(error) => if handler.Some? then RunBody(h, s1, handler.value) else (s1, Some(error))
  }

  // ----- What every run keeps, whatever fails -----

  predicate NoRepeats(names: seq<Name>) {
    forall i, j :: 0 <= i < j < |names| ==> names[i] != names[j]
  }

  /** Each body run belongs to one loaded module, and each loaded module has the context its body ran in. */
  predicate Inv(h: Hub, s: State) {
    && NoRepeats(s.ran)
    && (forall i :: 0 <= i < |s.ran| ==>
         s.ran[i] in s.loaded && s.loaded[s.ran[i]] == Context(i) && Source(h, s.ran[i]).Some? &&
             !IsBuiltin(h, s.ran[i]))
    && (forall name :: name in s.loaded ==> name in s.ran)
  }

  /** Loaded modules stay what they are, bodies run stay run, globals are what they were. */
  predicate Extends(s: State, after: State) {
    && s.ran <= after.ran && s.globals == after.globals
    && forall name :: name in s.loaded ==> name in after.loaded && after.loaded[name] == s.loaded[name]
  }

  /** A returned module is a built-in or the one loaded under the name. */
  predicate Returned(after: State, outcome: Outcome, name: Name) {
    outcome.Loaded? && outcome.mod != Builtin(name) ==> name in after.loaded && after.loaded[name] == outcome.mod
  }

  /** The state after importing a name that has to be loaded. */
  function AfterLoad(h: Hub, s: State, name: Name): State
    requires name !in s.loaded && !IsBuiltin(h, name) && Source(h, name).Some?
  {
    RunBody(h, Register(s, name), Source(h, name).value).0.(globals := s.globals)
  }

  lemma {:induction false} ImportKeepsInv(h: Hub, s: State, relative: bool, name: Name)
    requires Inv(h, s)
    ensures Inv(h, ImportName(h, s, relative, name).0) && Extends(s, ImportName(h, s, relative, name).0)
    ensures Returned(ImportName(h, s, relative, name).0, ImportName(h, s, relative, name).1, name)
    decreases Pending(h, s.loaded), 0
  {
    var r := ImportName(h, s, relative, name);
    if relative || name in s.loaded || IsBuiltin(h, name) || Source(h, name).None? {
      assert r.0 == s;
    } else {
      LoadKeepsInv(h, s, name);
      assert r.0 == AfterLoad(h, s, name) && (r.1.Loaded? ==> r.1.mod == Context(|s.ran|));
    }
  }

  lemma {:induction false} LoadKeepsInv(h: Hub, s: State, name: Name)
    requires Inv(h, s) && name !in s.loaded && !IsBuiltin(h, name) && Source(h, name).Some?
    ensures var after := AfterLoad(h, s, name);
            Inv(h, after) && Extends(s, after) && name in after.loaded && after.loaded[name] == Context(|s.ran|)
    decreases Pending(h, s.loaded), 0, 0
  {
    var s1 := Register(s, name);
    PendingShrinks(h, s.loaded, s1.loaded);
    RegisterKeepsInv(h, s, name);
    RunKeepsInv(h, s1, Source(h, name).value);
    ReturnKeepsInv(h, s, name, RunBody(h, s1, Source(h, name).value).0);
  }

  lemma ReturnKeepsInv(h: Hub, s: State, name: Name, s2: State)
    requires name !in s.loaded && Inv(h, s2) && Extends(Register(s, name), s2)
    ensures var s3 := s2.(globals := s.globals);
            Inv(h, s3) && Extends(s, s3) && name in s3.loaded && s3.loaded[name] == Context(|s.ran|)
  {
    var s1 := Register(s, name);
    assert name in s1.loaded;
    assert s.ran <= s1.ran <= s2.ran;
  }

  lemma ExtendsTwice(s: State, s1: State, s2: State)
    requires Extends(s, s1) && Extends(s1, s2)
    ensures Extends(s, s2)
  {
  }

  lemma RegisterKeepsInv(h: Hub, s: State, name: Name)
    requires Inv(h, s) && name !in s.loaded && !IsBuiltin(h, name) && Source(h, name).Some?
    ensures Inv(h, Register(s, name))
  {
  }

  lemma {:induction false} RunKeepsInv(h: Hub, s: State, script: Script)
    requires Inv(h, s)
    ensures Inv(h, RunBody(h, s, script).0) && Extends(s, RunBody(h, s, script).0)
    decreases Pending(h, s.loaded), 1 + Size(script)
  {
    if script.Import? {
      ImportKeepsInv(h, s, script.relative, script.name);
      var (s1, outcome) := ImportName(h, s, script.relative, script.name);
      PendingShrinks(h, s.loaded, s1.loaded);
      if outcome.Loaded? || script.handler.Some? {
        var rest := if outcome.Loaded? then script.then_ else script.handler.value;
        RunKeepsInv(h, s1, rest);
        ExtendsTwice(s, s1, RunBody(h, s1, rest).0);
      }
    }
  }

  /** Importing a name again, even after its body failed, runs nothing, and fails only if there is nothing to find. */
  lemma ImportAgain(h: Hub, s: State, name: Name)
    requires Inv(h, s)
    ensures var (after, outcome) := ImportName(h, s, false, name);
            var (after2, again) := ImportName(h, after, false, name);
            && after2 == after
            && (again.Failed? <==> name !in s.loaded && !IsBuiltin(h, name) && Source(h, name).None?)
            && (outcome.Loaded? ==> again == outcome)
  {
    ImportKeepsInv(h, s, false, name);
    if name !in s.loaded && !IsBuiltin(h, name) && Source(h, name).Some? {
      var s1 := Register(s, name);
      RegisterKeepsInv(h, s, name);
      RunKeepsInv(h, s1, Source(h, name).value);
    }
  }

  // ----- What an import answers -----

  /** Some downloaded module has the name. */
  predicate IsStored(h: Hub, name: Name) {
    exists i :: 0 <= i < |h.entries| && h.entries[i].name == name
  }

  /** The body behind a name: of the first downloaded module that has it, else of the frozen one. */
  lemma SourceMeans(h: Hub, name: Name)
    ensures Source(h, name).Some? <==> IsStored(h, name) || name in h.frozen
    ensures !IsStored(h, name) && name in h.frozen ==> Source(h, name) == Some(h.frozen[name])
    ensures forall i :: 0 <= i < |h.entries| && IsFirst(h, name, i) ==>
              Source(h, name) == Some(h.load(h.entries[i].body))
  {
  }

  predicate IsFirst(h: Hub, name: Name, i: nat) {
    i < |h.entries| && h.entries[i].name == name && forall j :: 0 <= j < i ==> h.entries[j].name != name
  }

  /** Neither built in nor downloaded nor frozen. */
  predicate IsUnknown(h: Hub, name: Name) {
    name !in h.direct && name !in h.extensible && name !in h.frozen && !IsStored(h, name)
  }

  /**
    The answer to an import of a name not yet loaded. It is the built-in module, without any change, exactly if the
    name is in one of the two tables of built-in modules. It is ImportError for that name exactly if nothing is known
    under it, or a body was run for it and raised that very error.
   */
  lemma ImportAnswers(h: Hub, s: State, name: Name)
    requires name !in s.loaded
    ensures ImportName(h, s, false, name) == (s, Loaded(Builtin(name))) <==> name in h.direct || name in h.extensible
    ensures ImportName(h, s, false, name).1 == Failed(ImportError(name)) <==>
              || IsUnknown(h, name)
              || (&& name !in h.direct && name !in h.extensible && (IsStored(h, name) || name in h.frozen)
                  && BodyError(h, s, name) == Some(ImportError(name)))
  {
    SourceMeans(h, name);
  }

  /** The exception with which the body behind a name ends when it is run now, if any. */
  function BodyError(h: Hub, s: State, name: Name): Option<Error> {
    if Source(h, name).Some? then RunBody(h, Register(s, name), Source(h, name).value).1 else None
  }

  /** What comes before: a relative import is refused, and a loaded module is returned as it is. */
  lemma ImportsFirst(h: Hub, s: State, name: Name)
    ensures ImportName(h, s, true, name) == (s, Failed(RelativeImport))
    ensures name in s.loaded ==> ImportName(h, s, false, name) == (s, Loaded(s.loaded[name]))
  {
  }

  /**
    A body runs in a namespace of its own: that of the module just made for its name, which no loaded module has.
    It ends in the same one, and then the importer's is back.
   */
  lemma BodyHasOwnNamespace(h: Hub, s: State, name: Name)
    requires Inv(h, s) && name !in s.loaded && !IsBuiltin(h, name) && Source(h, name).Some?
    ensures var s1 := Register(s, name);
            var s2 := RunBody(h, s1, Source(h, name).value).0;
            && name in s1.loaded && s1.globals == s1.loaded[name] == s2.globals
            && (forall other :: other in s.loaded ==> s.loaded[other] != s1.globals)
            && name in s2.loaded && s2.loaded[name] == s1.globals
            && ImportName(h, s, false, name).0.globals == s.globals
  {
    RegisterKeepsInv(h, s, name);
    RunKeepsInv(h, Register(s, name), Source(h, name).value);
    assert name in Register(s, name).loaded;
  }

  /** A missing module ends the body with ImportError, unless that is caught; then the body goes on in the handler. */
  lemma MissingModuleIsCaught(h: Hub, s: State, name: Name, then_: Script, handler: Script)
    requires name !in s.loaded && IsUnknown(h, name)
    ensures RunBody(h, s, Import(false, name, then_, None)) == (s, Some(ImportError(name)))
    ensures RunBody(h, s, Import(false, name, then_, Some(handler))) == RunBody(h, s, handler)
  {
    SourceMeans(h, name);
  }

  // ----- Which bodies run -----

  /** The names a body imports when nothing fails. */
  function Uses(script: Script): set<Name> {
    if script.Import? then {script.name} + Uses(script.then_) else {}
  }

  /** Nothing in the body itself raises. */
  predicate Clean(script: Script) {
    match script
    case Done => true
    case Raise => false
    case Import(relative, _, then_, _) => !relative && Clean(then_)
  }

  /** A name that can be imported and whose body does not itself raise. */
  predicate Fine(h: Hub, name: Name) {
    IsBuiltin(h, name) || (Source(h, name).Some? && Clean(Source(h, name).value))
  }

  /** What importing a name can lead to. */
  function UsesOf(h: Hub, name: Name): set<Name> {
    if !IsBuiltin(h, name) && Source(h, name).Some? then Uses(Source(h, name).value) else {}
  }

  ghost predicate IsPath(h: Hub, main: Script, path: seq<Name>) {
    && path != [] && path[0] in Uses(main)
    && forall i :: 0 < i < |path| ==> path[i] in UsesOf(h, path[i - 1])
  }

  /** A chain of imports leads from the main body to the name. */
  ghost predicate Reachable(h: Hub, main: Script, name: Name) {
    exists path :: IsPath(h, main, path) && path[|path| - 1] == name
  }

  lemma ReachFirst(h: Hub, main: Script, name: Name)
    requires name in Uses(main)
    ensures Reachable(h, main, name)
  {
    assert IsPath(h, main, [name]);
  }

  lemma ReachNext(h: Hub, main: Script, name: Name, next: Name)
    requires Reachable(h, main, name) && next in UsesOf(h, name)
    ensures Reachable(h, main, next)
  {
    var path :| IsPath(h, main, path) && path[|path| - 1] == name;
    assert IsPath(h, main, path + [next]);
  }

  /** A name is settled when it needs no loading or is loaded. */
  predicate Settled(h: Hub, loaded: Modules, name: Name) {
    IsBuiltin(h, name) || name in loaded
  }

  ghost predicate AllSettled(h: Hub, loaded: Modules, names: set<Name>) {
    forall name :: name in names ==> Settled(h, loaded, name)
  }

  /** Everything loaded since then has its imports settled, and its body does not itself raise. */
  ghost predicate Closed(h: Hub, before: Modules, loaded: Modules) {
    forall name :: name in loaded && name !in before ==> Fine(h, name) && AllSettled(h, loaded, UsesOf(h, name))
  }

  /** Everything loaded since then can be reached. */
  ghost predicate Grounded(h: Hub, main: Script, before: Modules, loaded: Modules) {
    forall name :: name in loaded && name !in before ==> Reachable(h, main, name)
  }

  ghost predicate AllFine(h: Hub, main: Script) {
    forall name :: Reachable(h, main, name) ==> Fine(h, name)
  }

  ghost predicate UsesReachable(h: Hub, main: Script, script: Script) {
    forall name :: name in Uses(script) ==> Reachable(h, main, name)
  }

  /** A body run to its end closes the import that started it. */
  lemma ClosesImport(h: Hub, before: Modules, name: Name, m: Module, after: Modules)
    requires name !in before && Fine(h, name) && Closed(h, before[name := m], after)
    requires AllSettled(h, after, UsesOf(h, name))
    ensures Closed(h, before, after)
  {
  }

  lemma ClosedTwice(h: Hub, a: Modules, b: Modules, c: Modules)
    requires Closed(h, a, b) && Closed(h, b, c) && b.Keys <= c.Keys
    ensures Closed(h, a, c)
  {
    forall name | name in c && name !in a
      ensures Fine(h, name) && AllSettled(h, c, UsesOf(h, name))
    {
      if name in b {
        assert AllSettled(h, b, UsesOf(h, name));
      }
    }
  }

  lemma GroundedTwice(h: Hub, main: Script, a: Modules, b: Modules, c: Modules)
    requires Grounded(h, main, a, b) && Grounded(h, main, b, c)
    ensures Grounded(h, main, a, c)
  {
  }

  lemma {:induction false} FineImport(h: Hub, main: Script, s: State, name: Name)
    requires AllFine(h, main) && Reachable(h, main, name)
    ensures var (after, outcome) := ImportName(h, s, false, name);
            && outcome.Loaded? && Settled(h, after.loaded, name)
            && Closed(h, s.loaded, after.loaded) && Grounded(h, main, s.loaded, after.loaded)
    decreases Pending(h, s.loaded), 0
  {
    if name !in s.loaded && !IsBuiltin(h, name) {
      FineLoad(h, main, s, name);
    }
  }

  /** Loading a module that is reachable, as the import of its name does. */
  lemma {:induction false} FineLoad(h: Hub, main: Script, s: State, name: Name)
    requires AllFine(h, main) && Reachable(h, main, name) && name !in s.loaded && !IsBuiltin(h, name)
    ensures Source(h, name).Some?
    ensures var (s2, error) := RunBody(h, Register(s, name), Source(h, name).value);
            && error.None? && name in s2.loaded
            && Closed(h, s.loaded, s2.loaded) && Grounded(h, main, s.loaded, s2.loaded)
    decreases Pending(h, s.loaded), 0, 0
  {
    assert Fine(h, name);
    var s1 := Register(s, name);
    var script := Source(h, name).value;
    PendingShrinks(h, s.loaded, s1.loaded);
    UsesAreReachable(h, main, name);
    FineRun(h, main, s1, script);
    ClosesImport(h, s.loaded, name, Context(|s.ran|), RunBody(h, s1, script).0.loaded);
  }

  lemma UsesAreReachable(h: Hub, main: Script, name: Name)
    requires Reachable(h, main, name) && !IsBuiltin(h, name) && Source(h, name).Some?
    ensures UsesReachable(h, main, Source(h, name).value)
  {
    forall next | next in Uses(Source(h, name).value) ensures Reachable(h, main, next) {
      ReachNext(h, main, name, next);
    }
  }

  lemma {:induction false} FineRun(h: Hub, main: Script, s: State, script: Script)
    requires AllFine(h, main) && UsesReachable(h, main, script) && Clean(script)
    ensures var (after, error) := RunBody(h, s, script);
            && error.None? && AllSettled(h, after.loaded, Uses(script))
            && Closed(h, s.loaded, after.loaded) && Grounded(h, main, s.loaded, after.loaded)
    decreases Pending(h, s.loaded), 1 + Size(script)
  {
    if script.Import? {
      var s1 := ImportName(h, s, false, script.name).0;
      FineImport(h, main, s, script.name);
      PendingShrinks(h, s.loaded, s1.loaded);
      FineRun(h, main, s1, script.then_);
      var s2 := RunBody(h, s1, script.then_).0;
      ClosedTwice(h, s.loaded, s1.loaded, s2.loaded);
      GroundedTwice(h, main, s.loaded, s1.loaded, s2.loaded);
    }
  }

  /** When everything loaded is closed and the main body is settled, every reachable name is settled and fine. */
  lemma {:induction false} PathSettled(h: Hub, main: Script, loaded: Modules, path: seq<Name>)
    requires IsPath(h, main, path) && Closed(h, map[], loaded)
    requires AllSettled(h, loaded, Uses(main))
    ensures Settled(h, loaded, path[|path| - 1])
    decreases |path|
  {
    if |path| > 1 {
      var front := path[..|path| - 1];
      assert IsPath(h, main, front);
      PathSettled(h, main, loaded, front);
      assert path[|path| - 1] in UsesOf(h, front[|front| - 1]);
    }
  }

  /** The main program's body, run when nothing is loaded. It is not registered under any name. */
  function RunMain(h: Hub, main: Script): (State, Option<Error>) {
    RunBody(h, START, main)
  }

  /** Exactly the modules that can be reached have run, each once, in their own contexts. */
  ghost predicate RanReachable(h: Hub, main: Script, s: State) {
    && NoRepeats(s.ran)
    && forall name :: name in s.ran <==> Reachable(h, main, name) && !IsBuiltin(h, name)
  }

  lemma SettledIsRan(h: Hub, main: Script, s: State)
    requires Inv(h, s) && Closed(h, map[], s.loaded) && Grounded(h, main, map[], s.loaded)
    requires AllSettled(h, s.loaded, Uses(main))
    ensures RanReachable(h, main, s)
  {
    forall name: Name ensures name in s.ran <==> Reachable(h, main, name) && !IsBuiltin(h, name) {
      if Reachable(h, main, name) {
        var path :| IsPath(h, main, path) && path[|path| - 1] == name;
        PathSettled(h, main, s.loaded, path);
      }
      if name in s.ran {
        assert name in s.loaded;
      }
    }
  }

  /**
    When every module that can be reached is fine the main body ends without an exception, having run each of them
    once.
   */
  lemma EveryReachableRunsOnce(h: Hub, main: Script)
    requires Clean(main) && AllFine(h, main)
    ensures RunMain(h, main).1.None? && RanReachable(h, main, RunMain(h, main).0) && RunMain(h, main).0.globals == Main
  {
    forall name | name in Uses(main) ensures Reachable(h, main, name) {
      ReachFirst(h, main, name);
    }
    FineRun(h, main, START, main);
    RunKeepsInv(h, START, main);
    SettledIsRan(h, main, RunMain(h, main).0);
  }

  // ----- The converse, for bodies that do not catch failed imports -----

  predicate Unguarded(script: Script) {
    script.Import? ==> script.handler.None? && Unguarded(script.then_)
  }

  ghost predicate AllUnguarded(h: Hub) {
    forall name: Name :: Source(h, name).Some? ==> Unguarded(Source(h, name).value)
  }

  lemma {:induction false} LoadedWasFine(h: Hub, s: State, name: Name, relative: bool)
    requires AllUnguarded(h) && ImportName(h, s, relative, name).1.Loaded?
    ensures var after := ImportName(h, s, relative, name).0;
            !relative && Closed(h, s.loaded, after.loaded) && Settled(h, after.loaded, name)
    decreases Pending(h, s.loaded), 0
  {
    if name !in s.loaded && !IsBuiltin(h, name) {
      var s1 := Register(s, name);
      var script := Source(h, name).value;
      PendingShrinks(h, s.loaded, s1.loaded);
      EndedWasClean(h, s1, script);
      ClosesImport(h, s.loaded, name, Context(|s.ran|), RunBody(h, s1, script).0.loaded);
    }
  }

  lemma {:induction false} EndedWasClean(h: Hub, s: State, script: Script)
    requires AllUnguarded(h) && Unguarded(script) && RunBody(h, s, script).1.None?
    ensures var after := RunBody(h, s, script).0;
            Clean(script) && Closed(h, s.loaded, after.loaded) && AllSettled(h, after.loaded, Uses(script))
    decreases Pending(h, s.loaded), 1 + Size(script)
  {
    if script.Import? {
      var s1 := ImportName(h, s, script.relative, script.name).0;
      LoadedWasFine(h, s, script.name, script.relative);
      PendingShrinks(h, s.loaded, s1.loaded);
      EndedWasClean(h, s1, script.then_);
      ClosedTwice(h, s.loaded, s1.loaded, RunBody(h, s1, script.then_).0.loaded);
    }
  }

  /** Then the main body ends without an exception if and only if it and every module it can reach are fine. */
  lemma EndsIffAllFine(h: Hub, main: Script)
    requires AllUnguarded(h) && Unguarded(main)
    ensures RunMain(h, main).1.None? <==> Clean(main) && AllFine(h, main)
  {
    if Clean(main) && AllFine(h, main) {
      EveryReachableRunsOnce(h, main);
    }
    if RunMain(h, main).1.None? {
      EndedWasClean(h, START, main);
      forall name | Reachable(h, main, name) ensures Fine(h, name) {
        var path :| IsPath(h, main, path) && path[|path| - 1] == name;
        PathSettled(h, main, RunMain(h, main).0.loaded, path);
      }
    }
  }

  /** Whatever fails or is caught: no body runs twice, and the globals are the main program's again. */
  lemma NoBodyRunsTwice(h: Hub, main: Script)
    ensures var s := RunMain(h, main).0; Inv(h, s) && s.globals == Main
  {
    RunKeepsInv(h, START, main);
  }

  // ----- Which bodies can run at all, whatever fails or is caught -----

  /** The names a body may import, in any branch. */
  function Mentions(script: Script): set<Name> {
    match script
    case Import(_, name, then_, handler) =>
      {name} + Mentions(then_) + (match handler case Some(s) => Mentions(s) case None => {})
    case _ => {}
  }

  /** Nothing outside the set is mentioned by the bodies in it. */
  ghost predicate Confined(h: Hub, names: iset<Name>) {
    forall name :: name in names && Source(h, name).Some? ==>
      forall next :: next in Mentions(Source(h, name).value) ==> next in names
  }

  ghost predicate RanWithin(s: State, names: iset<Name>) {
    forall name :: name in s.ran ==> name in names
  }

  lemma {:induction false} ImportStaysWithin(h: Hub, s: State, relative: bool, name: Name, names: iset<Name>)
    requires Confined(h, names) && RanWithin(s, names) && name in names
    ensures RanWithin(ImportName(h, s, relative, name).0, names)
    decreases Pending(h, s.loaded), 0
  {
    if !relative && name !in s.loaded && !IsBuiltin(h, name) && Source(h, name).Some? {
      var s1 := Register(s, name);
      PendingShrinks(h, s.loaded, s1.loaded);
      RunStaysWithin(h, s1, Source(h, name).value, names);
    }
  }

  /**
    Whatever fails or is caught: a run only ever runs bodies in any set that contains what the main body mentions
    and is closed under mentioning, so in the least such set.
   */
  lemma {:induction false} RunStaysWithin(h: Hub, s: State, script: Script, names: iset<Name>)
    requires Confined(h, names) && RanWithin(s, names) && forall next :: next in Mentions(script) ==> next in names
    ensures RanWithin(RunBody(h, s, script).0, names)
    decreases Pending(h, s.loaded), 1 + Size(script)
  {
    if script.Import? {
      ImportStaysWithin(h, s, script.relative, script.name, names);
      var (s1, outcome) := ImportName(h, s, script.relative, script.name);
      PendingShrinks(h, s.loaded, s1.loaded);
      if outcome.Loaded? {
        RunStaysWithin(h, s1, script.then_, names);
      } else if script.handler.Some? {
        RunStaysWithin(h, s1, script.handler.value, names);
      }
    }
  }

  /**
    The main program is not registered under the name it is stored under. In a program in which nothing raises its
    own body runs a second time exactly when that name is reached.
   */
  lemma MainRunsAgainIff(h: Hub, main: Script)
    requires h.entries != [] && NulFree(h.entries[0].name) && main == h.load(h.entries[0].body)
    requires Clean(main) && AllFine(h, main)
    ensures h.entries[0].name in RunMain(h, main).0.ran <==>
            Reachable(h, main, h.entries[0].name) && !IsBuiltin(h, h.entries[0].name)
  {
    EveryReachableRunsOnce(h, main);
  }

  predicate IsOther(name: Name, than: Name) {
    name != than
  }

  ghost function Others(than: Name): iset<Name> {
    iset name: Name | IsOther(name, than)
  }

  /** In any program it does not run again if no body mentions that name. */
  lemma UnmentionedMainRunsOnce(h: Hub, main: Script)
    requires h.entries != [] && NulFree(h.entries[0].name) && main == h.load(h.entries[0].body)
    requires h.entries[0].name !in Mentions(main)
    requires forall name: Name :: Source(h, name).Some? ==> h.entries[0].name !in Mentions(Source(h, name).value)
    ensures h.entries[0].name !in RunMain(h, main).0.ran
  {
    RunStaysWithin(h, START, main, Others(h.entries[0].name));
  }
}
