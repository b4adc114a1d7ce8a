/** The importer as it runs on the hub (micropython.c): loaded modules and globals changed step by step. */
module ImporterObjects {
  import opened Words
  import opened ModuleStore
  import opened Importer

  class Interpreter {
    const mem: Bytes
    const direct: set<Name>
    const extensible: set<Name>
    const frozen: map<Name, Script>
    const load: Bytes -> Script
    ghost const entries: seq<Entry>

    var loaded: map<Name, Module>
    var created: nat
    var globals: Module
    ghost var ran: seq<Name>

    ghost function Firmware(): Hub {
      Hub(direct, extensible, entries, frozen, load)
    }

    ghost function Now(): State
      reads this
    {
      State(loaded, ran, globals)
    }

    ghost predicate Valid()
      reads this
    {
      IsStore(entries) && mem == Store(entries) && created == |ran|
    }

    constructor (ghost hub: Hub, mem: Bytes, direct: set<Name>, extensible: set<Name>, frozen: map<Name, Script>,
        load: Bytes -> Script)
      requires hub == Hub(direct, extensible, hub.entries, frozen, load) && IsStore(hub.entries) &&
          mem == Store(hub.entries)
      ensures Valid() && Firmware() == hub && Now() == START
    {
      this.mem, this.direct, this.extensible, this.frozen, this.load := mem, direct, extensible, frozen, load;
      this.entries := hub.entries;
      loaded, created, globals, ran := map[], 0, Main, [];
    }

    /** Reads the body of a record through mpy_data_get_buf and loads it. */
    method LoadBody(info: nat, ghost k: nat) returns (script: Script)
      requires Valid() && k < |entries| && info == Boundary(entries, k)
      ensures script == load(entries[k].body)
    {
      hide Packed, Record, StrLen, LE, FromLE;
      RecordAtBoundary(entries, k);
      ReadsRecord(mem, info, entries[k]);
      var buf := GetBuf(mem, info);
      script := load(mem[buf..buf + SizeAt(mem, info)]);
    }

    /** mpy_data_find and the body it finds. */
    method FindDownloaded(name: Name) returns (script: Option<Script>)
      requires Valid()
      ensures FirstFrom(entries, name, 0).None? ==> script.None?
      ensures FirstFrom(entries, name, 0).Some? ==>
          script == Some(load(entries[FirstFrom(entries, name, 0).value].body))
    {
      WholeName(name);
      var at, visited := Find(mem, name, entries);
      if at.None? {
        return None;
      }
      var body := LoadBody(at.value, FirstFrom(entries, name, 0).value);
      script := Some(body);
    }

    /** pb_builtin_import. */
    method Import(relative: bool, name: Name) returns (outcome: Outcome)
      requires Valid()
      modifies this
      ensures Valid() && (Now(), outcome) == ImportName(Firmware(), old(Now()), relative, name)
      decreases Pending(Firmware(), loaded), 0
    {
      if relative {
        return Failed(RelativeImport);
      }
      if name in loaded {
        return Loaded(loaded[name]);
      }
      if name in direct {
        return Loaded(Builtin(name));
      }
      if name in extensible {
        return Loaded(Builtin(name));
      }
      var script := FindDownloaded(name);
      if script.None? && name in frozen {
        script := Some(frozen[name]);
      }
      if script.None? {
        return Failed(ImportError(name));
      }
      outcome := LoadModule(name, script.value);
    }

    /** Creates and registers a module, then runs its body in it. */
    method LoadModule(name: Name, script: Script) returns (outcome: Outcome)
      requires Valid() && name !in loaded && Source(Firmware(), name) == Some(script)
      modifies this
      ensures Valid()
      ensures var (after, error) := RunBody(Firmware(), Register(old(Now()), name), script);
              && Now() == after.(globals := old(globals))
              && outcome == if error.Some? then Failed(error.value) else Loaded(Context(|old(ran)|))
      decreases Pending(Firmware(), loaded), 0, 0
    {
      hide RunBody, Source;
      PendingShrinks(Firmware(), loaded, Register(Now(), name).loaded);
      var ctx := Context(created);
      created := created + 1;
      loaded := loaded[name := ctx];
      var error := ExecuteInContext(ctx, script, name);
      outcome := if error.Some? then Failed(error.value) else Loaded(ctx);
    }

    /** do_execute_proto_fun: the globals are put back whether or not the body raises. */
    method ExecuteInContext(ctx: Module, script: Script, ghost name: Name) returns (error: Option<Error>)
      requires IsStore(entries) && mem == Store(entries) && created == |ran| + 1
      modifies this
      ensures Valid()
      ensures var (after, e) := RunBody(Firmware(), State(old(loaded), old(ran) + [name], ctx), script);
              Now() == after.(globals := old(globals)) && error == e
      decreases Pending(Firmware(), loaded), 2 + Size(script)
    {
      var saved := globals;
      globals := ctx;
      ran := ran + [name];
      error := Execute(script);
      globals := saved;
    }

    /** The interpreter running a body. */
    method Execute(script: Script) returns (error: Option<Error>)
      requires Valid()
      modifies this
      ensures Valid() && (Now(), error) == RunBody(Firmware(), old(Now()), script)
      decreases Pending(Firmware(), loaded), 1 + Size(script)
    {
      match script
      case Done => error := None;
      case Raise => error := Some(OtherError);
      case Import(relative, name, then_, handler) =>
        ghost var before := Now();
        var outcome := Import(relative, name);
        PendingShrinks(Firmware(), before.loaded, loaded);
        match outcome {
          case Loaded(_) => error := Execute(then_);
          case Failed(e) =>
            if handler.Some? {
              error := Execute(handler.value);
            } else {
              error := Some(e);
            }
        }
    }

    /** run_user_program: the first record is the main program, run in the main module's namespace. */
    method RunUserProgram() returns (error: Option<Error>)
      requires Valid() && entries != [] && Now() == START
      modifies this
      ensures Valid() && (Now(), error) == RunMain(Firmware(), load(entries[0].body))
    {
      var main := LoadBody(0, 0);
      error := Execute(main);
    }
  }
}
