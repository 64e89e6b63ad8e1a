/**
  The loader `bundle` emits around the graph. `require(file)` allocates a fresh `exports` object,
  runs the file's code with `absRequire` as its `require`, and returns the object; `absRequire(rel)`
  looks `rel` up in the running file's `dependencies` and calls `require` on the stored path.
  Nothing is cached: every call runs the code again and yields a new object.

  Module code is opaque to the loader; `eval` turns a code string into what the code does that the
  loader can observe: calls of the `require` it is given and writes to its `exports`, in order.
 */
module Loader {
  import opened Results
  import opened Modules
  import opened DepGraph

  /** The values the modelled module bodies store on `exports`. */
  datatype Value = Undefined | Bool(b: bool) | Str(s: string) | Function(name: string)

  /** One observable step of a module body: a call `require(specifier)`, or `exports[name] = value`. */
  datatype Action = Call(specifier: string) | SetExport(name: string, value: Value)

  /** An `exports` object's own properties. */
  type Exports = map<string, Value>

  /** The objects allocated so far, by allocation order, and the files whose code ran, in order. */
  datatype State = State(heap: seq<Exports>, executed: seq<string>)

  /** What `require(file)` returns: the index of the fresh `exports` object, and the state after the code ran. */
  datatype Loaded = Loaded(exports: nat, state: State)

  /**
    Why the bundle throws: a path that is not a key of the graph (reading `.code` of `undefined`
    is a `TypeError`), or recursion deeper than the call stack (a `RangeError`).
   */
  datatype RuntimeError = ModuleNotFound(file: string) | StackOverflow

  /**
    The path `absRequire(specifier)` passes to `require` from inside `file`. A specifier that is
    not a key reads `undefined`, which as a property name is the string "undefined".
   */
  function Target(g: Graph, file: string, specifier: string): (t: string)
    requires file in g
    ensures Lookup(g[file].dependencies, specifier).Some? ==> Dep(specifier, t) in g[file].dependencies
    ensures specifier !in Specifiers(g[file].dependencies) ==> t == "undefined"
  {
    LookupFinds(g[file].dependencies, specifier);
    match Lookup(g[file].dependencies, specifier)
    case Some(t) => t
    case None => "undefined"
  }

  /** The object a module body leaves behind when it starts from `obj`: each write in order, later ones winning. */
  function Apply(obj: Exports, actions: seq<Action>): Exports
    decreases |actions|
  {
    if |actions| == 0 then obj
    else match actions[0]
      case SetExport(name, v) => Apply(obj[name := v], actions[1..])
      case Call(_) => Apply(obj, actions[1..])
  }

  /** The property `name` after the body ran: the last value written to it, if any. */
  function LastWrite(obj: Exports, actions: seq<Action>, name: string): Option<Value>
    decreases |actions|
  {
    if |actions| == 0 then (if name in obj then Some(obj[name]) else None)
    else match actions[|actions| - 1]
      case SetExport(n, v) => if n == name then Some(v) else LastWrite(obj, actions[..|actions| - 1], name)
      case Call(_) => LastWrite(obj, actions[..|actions| - 1], name)
  }

  lemma {:induction false} ApplySnoc(obj: Exports, actions: seq<Action>, a: Action)
    ensures Apply(obj, actions + [a]) ==
              match a
              case SetExport(n, v) => Apply(obj, actions)[n := v]
              case Call(_) => Apply(obj, actions)
    decreases |actions|
  {
    if |actions| == 0 {
      assert actions + [a] == [a];
    } else {
      assert (actions + [a])[1..] == actions[1..] + [a];
      match actions[0]
      case SetExport(n, v) => ApplySnoc(obj[n := v], actions[1..], a);
      case Call(_) => ApplySnoc(obj, actions[1..], a);
    }
  }

  /** The object a body leaves holds, for each property, the last value the body wrote to it. */
  lemma {:induction false} ApplyLastWrite(obj: Exports, actions: seq<Action>, name: string)
    ensures name in Apply(obj, actions) <==> LastWrite(obj, actions, name).Some?
    ensures name in Apply(obj, actions) ==> Apply(obj, actions)[name] == LastWrite(obj, actions, name).value
    decreases |actions|
  {
    if |actions| > 0 {
      var n := |actions| - 1;
      assert actions == actions[..n] + [actions[n]];
      ApplySnoc(obj, actions[..n], actions[n]);
      ApplyLastWrite(obj, actions[..n], name);
    }
  }

  /**
    `require(file)`: allocate a fresh `exports`, record that `file` runs, and run its code with
    `absRequire` bound to `file`. The call stack it needs is bounded by `fuel`.
   */
  function Require(g: Graph, eval: string -> seq<Action>, file: string, st: State, fuel: nat): (r: Result<Loaded, RuntimeError>)
    ensures r.Success? ==> r.value.exports == |st.heap| < |r.value.state.heap|
    ensures r.Success? ==> forall i | 0 <= i < |st.heap| :: r.value.state.heap[i] == st.heap[i]
    ensures r.Success? ==> |r.value.state.heap| - |st.heap| == |r.value.state.executed| - |st.executed|
    ensures r.Success? ==> st.executed + [file] <= r.value.state.executed
    ensures r.Success? ==> file in g && r.value.state.heap[r.value.exports] == Apply(map[], eval(g[file].code))
    ensures fuel > 0 && file !in g ==> r == Failure(ModuleNotFound(file))
    decreases fuel, 0
  {
    if fuel == 0 then Failure(StackOverflow)
    else if file !in g then Failure(ModuleNotFound(file))
    else
      var obj := |st.heap|;
      var running := State(st.heap + [map[]], st.executed + [file]);
      var done :- Exec(g, eval, file, obj, eval(g[file].code), running, fuel - 1);
      Success(Loaded(obj, done))
  }

  /** The body of `file` running on object `obj`, one action at a time. */
  function Exec(g: Graph, eval: string -> seq<Action>, file: string, obj: nat, actions: seq<Action>, st: State, fuel: nat): (r: Result<State, RuntimeError>)
    requires file in g && obj < |st.heap|
    ensures r.Success? ==> |st.heap| <= |r.value.heap|
    ensures r.Success? ==> forall i | 0 <= i < |st.heap| && i != obj :: r.value.heap[i] == st.heap[i]
    ensures r.Success? ==> r.value.heap[obj] == Apply(st.heap[obj], actions)
    ensures r.Success? ==> |r.value.heap| - |st.heap| == |r.value.executed| - |st.executed|
    ensures r.Success? ==> st.executed <= r.value.executed
    decreases fuel, 1, |actions|
  {
    if |actions| == 0 then Success(st)
    else match actions[0]
      case SetExport(name, v) =>
        Exec(g, eval, file, obj, actions[1..], State(st.heap[obj := st.heap[obj][name := v]], st.executed), fuel)
      case Call(specifier) =>
        var loaded :- Require(g, eval, Target(g, file, specifier), st, fuel);
        Exec(g, eval, file, obj, actions[1..], loaded.state, fuel)
  }

  /** `require(file)` with stack to spare on a key of the graph: a fresh object, then the body. */
  lemma RequireEnters(g: Graph, eval: string -> seq<Action>, file: string, st: State, fuel: nat, done: State)
    requires fuel > 0 && file in g
    requires Exec(g, eval, file, |st.heap|, eval(g[file].code), State(st.heap + [map[]], st.executed + [file]), fuel - 1) == Success(done)
    ensures Require(g, eval, file, st, fuel) == Success(Loaded(|st.heap|, done))
  {
  }

  /** A write to `exports` updates the running object and the body goes on. */
  lemma ExecWrite(g: Graph, eval: string -> seq<Action>, file: string, obj: nat, actions: seq<Action>, st: State, fuel: nat)
    requires file in g && obj < |st.heap| && |actions| > 0 && actions[0].SetExport?
    ensures Exec(g, eval, file, obj, actions, st, fuel)
            == Exec(g, eval, file, obj, actions[1..],
                    State(st.heap[obj := st.heap[obj][actions[0].name := actions[0].value]], st.executed), fuel)
  {
  }

  /** A call of `require` that returns lets the body go on from the state it left. */
  lemma ExecCall(g: Graph, eval: string -> seq<Action>, file: string, obj: nat, actions: seq<Action>, st: State, fuel: nat, loaded: Loaded)
    requires file in g && obj < |st.heap| && |actions| > 0 && actions[0].Call?
    requires Require(g, eval, Target(g, file, actions[0].specifier), st, fuel) == Success(loaded)
    ensures Exec(g, eval, file, obj, actions, st, fuel) == Exec(g, eval, file, obj, actions[1..], loaded.state, fuel)
  {
  }

  /** The IIFE's last statement: `require(entry)` on an empty heap. */
  function Run(a: Artifact, eval: string -> seq<Action>, fuel: nat): (r: Result<State, RuntimeError>)
    ensures r.Success? ==> |r.value.executed| == |r.value.heap| > 0 && r.value.executed[0] == a.entry
    ensures r.Success? ==> a.entry in a.graph && r.value.heap[0] == Apply(map[], eval(a.graph[a.entry].code))
    ensures fuel > 0 && a.entry !in a.graph ==> r == Failure(ModuleNotFound(a.entry))
  {
    var loaded :- Require(a.graph, eval, a.entry, State([], []), fuel);
    Success(loaded.state)
  }

  /**
    `require` keeps no cache: requiring the same file twice runs its code twice and returns two
    different objects, the second leaving the first untouched, both with the same properties.
   */
  lemma RequireTwice(g: Graph, eval: string -> seq<Action>, file: string, st: State, fuel: nat)
    requires Require(g, eval, file, st, fuel).Success?
    requires Require(g, eval, file, Require(g, eval, file, st, fuel).value.state, fuel).Success?
    ensures var first := Require(g, eval, file, st, fuel).value;
      var second := Require(g, eval, file, first.state, fuel).value;
      && first.exports != second.exports
      && second.state.heap[first.exports] == second.state.heap[second.exports]
      && first.state.executed[|st.executed|] == file
      && second.state.executed[|first.state.executed|] == file
  {
  }

  /**
    A body that starts with `require(specifier)` runs first the file `absRequire` finds under
    that key in the running file's `dependencies`.
   */
  lemma RequireResolvesThroughCaller(g: Graph, eval: string -> seq<Action>, file: string, specifier: string, fuel: nat)
    requires file in g && |eval(g[file].code)| > 0 && eval(g[file].code)[0] == Call(specifier)
    requires Require(g, eval, file, State([], []), fuel).Success?
    ensures |Require(g, eval, file, State([], []), fuel).value.state.executed| >= 2
    ensures Require(g, eval, file, State([], []), fuel).value.state.executed[..2] == [file, Target(g, file, specifier)]
  {
  }

  /** Membership in a set of keys, named so that a key reached through a body is not unfolded again unasked. */
  ghost predicate Among(S: set<string>, f: string) {
    f in S
  }

  /** Every `require` in `actions`, run inside `file`, is sent to a key in `S`. */
  ghost predicate CallsInto(g: Graph, file: string, actions: seq<Action>, S: set<string>)
    requires file in g
  {
    forall j | 0 <= j < |actions| && actions[j].Call? :: Among(S, Target(g, file, actions[j].specifier))
  }

  /**
    Keys in `C` each of whose bodies requires, somewhere, another key in `C`: a cycle in the
    run-time graph, with the back edge at any position of the body.
   */
  ghost predicate RuntimeCycle(g: Graph, eval: string -> seq<Action>, C: set<string>) {
    forall f {:trigger Among(C, f)} | Among(C, f) ::
      f in g && exists i :: 0 <= i < |eval(g[f].code)| && CycleCall(g, eval(g[f].code), C, f, i)
  }

  /** The action at position `i` of the body of `f` requires a key in `C`. */
  ghost predicate CycleCall(g: Graph, actions: seq<Action>, C: set<string>, f: string, i: nat)
    requires f in g && i < |actions|
  {
    actions[i].Call? && Target(g, f, actions[i].specifier) in C
  }

  /** Requiring a key on a run-time cycle never returns, however deep the stack: nothing marks a module as loading. */
  lemma {:induction false} RequireCycleFails(g: Graph, eval: string -> seq<Action>, C: set<string>, file: string, st: State, fuel: nat)
    requires RuntimeCycle(g, eval, C) && Among(C, file)
    ensures Require(g, eval, file, st, fuel).Failure?
    decreases fuel, 0
  {
    if fuel > 0 {
      assert Among(C, file);
      var i :| 0 <= i < |eval(g[file].code)| && CycleCall(g, eval(g[file].code), C, file, i);
      var running := State(st.heap + [map[]], st.executed + [file]);
      ExecCycleFails(g, eval, C, file, |st.heap|, eval(g[file].code), i, running, fuel - 1);
    }
  }

  /** A body with a `require` into the cycle at position `i` fails, whatever the actions before it do. */
  lemma {:induction false} ExecCycleFails(g: Graph, eval: string -> seq<Action>, C: set<string>, file: string, obj: nat,
                                          actions: seq<Action>, i: nat, st: State, fuel: nat)
    requires RuntimeCycle(g, eval, C) && file in g && obj < |st.heap|
    requires i < |actions| && CycleCall(g, actions, C, file, i)
    ensures Exec(g, eval, file, obj, actions, st, fuel).Failure?
    decreases fuel, 1, |actions|
  {
    if i == 0 {
      RequireCycleFails(g, eval, C, Target(g, file, actions[0].specifier), st, fuel);
    } else {
      assert CycleCall(g, actions[1..], C, file, i - 1);
      match actions[0]
      case SetExport(name, v) =>
        ExecCycleFails(g, eval, C, file, obj, actions[1..], i - 1, State(st.heap[obj := st.heap[obj][name := v]], st.executed), fuel);
      case Call(specifier) =>
        var r := Require(g, eval, Target(g, file, specifier), st, fuel);
        if r.Success? {
          ExecCycleFails(g, eval, C, file, obj, actions[1..], i - 1, r.value.state, fuel);
        }
    }
  }

  /** Keys in `S` whose bodies require only keys in `S`: every module the loader can reach from `S` is in the graph. */
  ghost predicate Loadable(g: Graph, eval: string -> seq<Action>, S: set<string>) {
    forall f {:trigger Among(S, f)} | Among(S, f) :: f in g && CallsInto(g, f, eval(g[f].code), S)
  }

  /** Among loadable keys, `require` can fail only by overflowing the stack. */
  lemma {:induction false} RequireOnlyOverflows(g: Graph, eval: string -> seq<Action>, S: set<string>, file: string, st: State, fuel: nat)
    requires Loadable(g, eval, S) && Among(S, file)
    ensures Require(g, eval, file, st, fuel).Failure? ==> Require(g, eval, file, st, fuel) == Failure(StackOverflow)
    decreases fuel, 0
  {
    if fuel > 0 {
      assert Among(S, file);
      var running := State(st.heap + [map[]], st.executed + [file]);
      ExecOnlyOverflows(g, eval, S, file, |st.heap|, eval(g[file].code), running, fuel - 1);
    }
  }

  lemma {:induction false} ExecOnlyOverflows(g: Graph, eval: string -> seq<Action>, S: set<string>, file: string, obj: nat,
                                             actions: seq<Action>, st: State, fuel: nat)
    requires Loadable(g, eval, S) && file in g && obj < |st.heap| && CallsInto(g, file, actions, S)
    ensures Exec(g, eval, file, obj, actions, st, fuel).Failure? ==> Exec(g, eval, file, obj, actions, st, fuel) == Failure(StackOverflow)
    decreases fuel, 1, |actions|
  {
    if |actions| > 0 {
      assert CallsInto(g, file, actions[1..], S) by {
        forall j | 0 <= j < |actions[1..]| && actions[1..][j].Call?
          ensures Among(S, Target(g, file, actions[1..][j].specifier))
        {
          assert actions[1..][j] == actions[j + 1];
        }
      }
      match actions[0]
      case SetExport(name, v) =>
        ExecOnlyOverflows(g, eval, S, file, obj, actions[1..], State(st.heap[obj := st.heap[obj][name := v]], st.executed), fuel);
      case Call(specifier) =>
        var t := Target(g, file, specifier);
        RequireOnlyOverflows(g, eval, S, t, st, fuel);
        var r := Require(g, eval, t, st, fuel);
        if r.Success? {
          ExecOnlyOverflows(g, eval, S, file, obj, actions[1..], r.value.state, fuel);
        }
    }
  }

  /**
    Loadable keys each of whose bodies requires only keys of strictly smaller rank: the run-time
    graph restricted to `S` has no cycle, and `rank` bounds the nesting of `require` calls below each key.
   */
  ghost predicate RuntimeRanked(g: Graph, eval: string -> seq<Action>, S: set<string>, rank: string -> nat) {
    forall f {:trigger Among(S, f)} | Among(S, f) ::
      f in g && CallsBelow(g, f, eval(g[f].code), S, rank, rank(f))
  }

  /** Every `require` in `actions`, run inside `file`, is sent to a key in `S` of rank below `bound`. */
  ghost predicate CallsBelow(g: Graph, file: string, actions: seq<Action>, S: set<string>, rank: string -> nat, bound: nat)
    requires file in g
  {
    forall j | 0 <= j < |actions| && actions[j].Call? ::
      Among(S, Target(g, file, actions[j].specifier)) && rank(Target(g, file, actions[j].specifier)) < bound
  }

  /** With no run-time cycle and a stack deeper than the nesting, `require` returns. */
  lemma {:induction false} RequireTerminates(g: Graph, eval: string -> seq<Action>, S: set<string>, rank: string -> nat,
                                             file: string, st: State, fuel: nat)
    requires RuntimeRanked(g, eval, S, rank) && Among(S, file) && rank(file) < fuel
    ensures Require(g, eval, file, st, fuel).Success?
    decreases fuel, 0
  {
    assert Among(S, file);
    var actions := eval(g[file].code);
    assert CallsBelow(g, file, actions, S, rank, fuel - 1) by {
      assert CallsBelow(g, file, actions, S, rank, rank(file));
    }
    var running := State(st.heap + [map[]], st.executed + [file]);
    ExecTerminates(g, eval, S, rank, file, |st.heap|, actions, running, fuel - 1);
  }

  lemma {:induction false} ExecTerminates(g: Graph, eval: string -> seq<Action>, S: set<string>, rank: string -> nat,
                                          file: string, obj: nat, actions: seq<Action>, st: State, fuel: nat)
    requires RuntimeRanked(g, eval, S, rank) && file in g && obj < |st.heap|
    requires CallsBelow(g, file, actions, S, rank, fuel)
    ensures Exec(g, eval, file, obj, actions, st, fuel).Success?
    decreases fuel, 1, |actions|
  {
    if |actions| > 0 {
      assert CallsBelow(g, file, actions[1..], S, rank, fuel) by {
        forall j | 0 <= j < |actions[1..]| && actions[1..][j].Call?
          ensures Among(S, Target(g, file, actions[1..][j].specifier)) && rank(Target(g, file, actions[1..][j].specifier)) < fuel
        {
          assert actions[1..][j] == actions[j + 1];
        }
      }
      match actions[0]
      case SetExport(name, v) =>
        ExecTerminates(g, eval, S, rank, file, obj, actions[1..], State(st.heap[obj := st.heap[obj][name := v]], st.executed), fuel);
      case Call(specifier) =>
        var t := Target(g, file, specifier);
        RequireTerminates(g, eval, S, rank, t, st, fuel);
        var r := Require(g, eval, t, st, fuel);
        ExecTerminates(g, eval, S, rank, file, obj, actions[1..], r.value.state, fuel);
    }
  }

  /**
    A module on a run-time cycle never finishes loading; when every key it reaches is loadable it
    fails by overflowing the stack, whatever the stack depth.
   */
  lemma RequireCycleExhausts(g: Graph, eval: string -> seq<Action>, C: set<string>, S: set<string>, file: string, st: State, fuel: nat)
    requires RuntimeCycle(g, eval, C) && Among(C, file)
    ensures Require(g, eval, file, st, fuel).Failure?
    ensures Loadable(g, eval, S) && Among(S, file) ==> Require(g, eval, file, st, fuel) == Failure(StackOverflow)
  {
    RequireCycleFails(g, eval, C, file, st, fuel);
    if Loadable(g, eval, S) && Among(S, file) {
      RequireOnlyOverflows(g, eval, S, file, st, fuel);
    }
  }
}
