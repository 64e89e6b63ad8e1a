/**
  The bundle the builder wrote for the example project: an entry that imports a message module
  and a name module, the message module importing a hello module and the name module again.
  The graph is written with '/' where the emitted file, built on Windows, has '\\'; the code
  strings are replaced by short tags, and `FrozenEval` states what each code does that the
  loader observes.
 */
module Frozen {
  import opened Results
  import opened Modules
  import opened DepGraph
  import opened Loader

  const EntryFile := "src/entry.js"
  const MessageFile := "./src/message.js"
  const HelloFile := "./src/hello.js"
  const NameFile := "./src/name.js"

  const EntryCode := "entry code"
  const MessageCode := "message code"
  const HelloCode := "hello code"
  const NameCode := "name code"

  const EntryDeps := [Dep("./message.js", MessageFile), Dep("./name.js", NameFile)]
  const MessageDeps := [Dep("./hello.js", HelloFile), Dep("./name.js", NameFile)]

  /** The object literal the bundle passes to the loader. */
  const FrozenGraph: Graph := map[
    EntryFile := Entry(EntryDeps, EntryCode),
    MessageFile := Entry(MessageDeps, MessageCode),
    HelloFile := Entry([], HelloCode),
    NameFile := Entry([], NameCode)
  ]

  const FrozenArtifact := Artifact(FrozenGraph, EntryFile)

  /**
    What each transpiled body does: the entry requires the message and name modules; the message
    module marks itself an ES module, exports its function as `default`, and requires hello and
    name; hello and name mark themselves, write `undefined` to their export, then its value.
   */
  function FrozenEval(code: string): seq<Action> {
    if code == EntryCode then [Call("./message.js"), Call("./name.js")]
    else if code == MessageCode then
      [SetExport("__esModule", Bool(true)), SetExport("default", Function("message")), Call("./hello.js"), Call("./name.js")]
    else if code == HelloCode then
      [SetExport("__esModule", Bool(true)), SetExport("hello", Undefined), SetExport("hello", Str("hello"))]
    else if code == NameCode then
      [SetExport("__esModule", Bool(true)), SetExport("name", Undefined), SetExport("name", Str("lyc"))]
    else []
  }

  const MessageExports: Exports := map["__esModule" := Bool(true), "default" := Function("message")]
  const HelloExports: Exports := map["__esModule" := Bool(true), "hello" := Str("hello")]
  const NameExports: Exports := map["__esModule" := Bool(true), "name" := Str("lyc")]

  lemma FrozenEntries()
    ensures FrozenGraph.Keys == {EntryFile, MessageFile, HelloFile, NameFile}
    ensures FrozenGraph[EntryFile] == Entry(EntryDeps, EntryCode)
    ensures FrozenGraph[MessageFile] == Entry(MessageDeps, MessageCode)
    ensures FrozenGraph[HelloFile] == Entry([], HelloCode)
    ensures FrozenGraph[NameFile] == Entry([], NameCode)
  {
    assert EntryFile[0] != MessageFile[0] && EntryFile[0] != HelloFile[0] && EntryFile[0] != NameFile[0];
    assert MessageFile[6] != HelloFile[6] && MessageFile[6] != NameFile[6] && HelloFile[6] != NameFile[6];
  }

  /** Where `absRequire` sends each specifier the two importing modules use. */
  lemma FrozenTargets()
    ensures Target(FrozenGraph, EntryFile, "./message.js") == MessageFile
    ensures Target(FrozenGraph, EntryFile, "./name.js") == NameFile
    ensures Target(FrozenGraph, MessageFile, "./hello.js") == HelloFile
    ensures Target(FrozenGraph, MessageFile, "./name.js") == NameFile
  {
    FrozenEntries();
    assert "./message.js"[2] != "./name.js"[2] && "./hello.js"[2] != "./name.js"[2];
    assert EntryDeps[1..] == [Dep("./name.js", NameFile)];
    assert Lookup(EntryDeps[1..], "./name.js") == Some(NameFile);
    assert MessageDeps[1..] == [Dep("./name.js", NameFile)];
    assert Lookup(MessageDeps[1..], "./name.js") == Some(NameFile);
  }

  /** Every dependency value is a key, and every key is the entry or some entry's dependency value. */
  lemma FrozenGraphShape()
    ensures GraphClosed(FrozenGraph) && GraphReached(FrozenGraph, EntryFile)
    ensures FrozenGraph[HelloFile].dependencies == [] && FrozenGraph[NameFile].dependencies == []
  {
    assert FrozenGraph.Keys == {EntryFile, MessageFile, HelloFile, NameFile};
    assert Targets(EntryDeps) == {MessageFile, NameFile} by {
      assert EntryDeps[0].target == MessageFile && EntryDeps[1].target == NameFile;
    }
    assert Targets(MessageDeps) == {HelloFile, NameFile} by {
      assert MessageDeps[0].target == HelloFile && MessageDeps[1].target == NameFile;
    }
    assert Targets([]) == {};
    forall f | f in FrozenGraph
      ensures f == EntryFile || exists k | k in FrozenGraph :: f in Targets(FrozenGraph[k].dependencies)
    {
      if f == MessageFile || f == NameFile {
        assert f in Targets(FrozenGraph[EntryFile].dependencies);
      } else if f == HelloFile {
        assert f in Targets(FrozenGraph[MessageFile].dependencies);
      }
    }
  }

  /** The name module is one key that two keys map to: the entry's and the message module's `./name.js`. */
  lemma NameSharedByTwoImporters()
    ensures Lookup(FrozenGraph[EntryFile].dependencies, "./name.js") == Some(NameFile)
    ensures Lookup(FrozenGraph[MessageFile].dependencies, "./name.js") == Some(NameFile)
  {
  }

  /** The entry keeps the spelling it was given; every other key is a dependency value, which starts with "./". */
  lemma EntryKeyUnprefixed()
    ensures EntryFile[..2] != "./"
    ensures forall k | k in FrozenGraph && k != EntryFile :: |k| >= 2 && k[..2] == "./"
  {
    assert FrozenGraph.Keys == {EntryFile, MessageFile, HelloFile, NameFile};
    assert EntryFile[0] == 's';
    assert MessageFile[..2] == "./" && HelloFile[..2] == "./" && NameFile[..2] == "./";
  }

  /** The three writes of a module without dependencies, on the fresh object at `obj`. */
  lemma ExecLeaf(file: string, obj: nat, st: State, fuel: nat)
    requires file == HelloFile || file == NameFile
    requires obj < |st.heap| && st.heap[obj] == map[]
    ensures var e := Exec(FrozenGraph, FrozenEval, file, obj, FrozenEval(FrozenGraph[file].code), st, fuel);
      e == Success(State(st.heap[obj := if file == HelloFile then HelloExports else NameExports], st.executed))
  {
    var name := if file == HelloFile then "hello" else "name";
    var v := if file == HelloFile then Str("hello") else Str("lyc");
    var actions := FrozenEval(FrozenGraph[file].code);
    assert actions == [SetExport("__esModule", Bool(true)), SetExport(name, Undefined), SetExport(name, v)];
    var s1 := State(st.heap[obj := st.heap[obj]["__esModule" := Bool(true)]], st.executed);
    var s2 := State(s1.heap[obj := s1.heap[obj][name := Undefined]], s1.executed);
    var s3 := State(s2.heap[obj := s2.heap[obj][name := v]], s2.executed);
    assert Exec(FrozenGraph, FrozenEval, file, obj, actions[3..], s3, fuel) == Success(s3);
    assert Exec(FrozenGraph, FrozenEval, file, obj, actions[2..], s2, fuel) == Success(s3);
    assert Exec(FrozenGraph, FrozenEval, file, obj, actions[1..], s1, fuel) == Success(s3);
    assert Exec(FrozenGraph, FrozenEval, file, obj, actions, st, fuel) == Success(s3);
    var exports := if file == HelloFile then HelloExports else NameExports;
    assert s3.heap[obj] == exports;
    assert s3.heap == st.heap[obj := exports];
  }

  /** A module without dependencies: one fresh object, written in order, and one execution. */
  lemma RequireLeaf(file: string, exports: Exports, st: State, fuel: nat)
    requires file == HelloFile || file == NameFile
    requires exports == (if file == HelloFile then HelloExports else NameExports)
    requires fuel >= 1
    ensures Require(FrozenGraph, FrozenEval, file, st, fuel)
              == Success(Loaded(|st.heap|, State(st.heap + [exports], st.executed + [file])))
  {
    var running := State(st.heap + [map[]], st.executed + [file]);
    var obj := |st.heap|;
    ExecLeaf(file, obj, running, fuel - 1);
    assert running.heap[obj := exports] == st.heap + [exports];
  }

  /** Hello then name, each once, each into a fresh object, after which the message body ends. */
  lemma ExecMessageRequires(obj: nat, st: State, fuel: nat)
    requires obj < |st.heap| && fuel >= 1
    ensures Exec(FrozenGraph, FrozenEval, MessageFile, obj, [Call("./hello.js"), Call("./name.js")], st, fuel)
              == Success(State(st.heap + [HelloExports, NameExports], st.executed + [HelloFile, NameFile]))
  {
    FrozenEntries();
    FrozenTargets();
    var calls := [Call("./hello.js"), Call("./name.js")];
    RequireLeaf(HelloFile, HelloExports, st, fuel);
    var s1 := State(st.heap + [HelloExports], st.executed + [HelloFile]);
    RequireLeaf(NameFile, NameExports, s1, fuel);
    var s2 := State(s1.heap + [NameExports], s1.executed + [NameFile]);
    ExecCall(FrozenGraph, FrozenEval, MessageFile, obj, calls, st, fuel, Loaded(|st.heap|, s1));
    ExecCall(FrozenGraph, FrozenEval, MessageFile, obj, calls[1..], s1, fuel, Loaded(|s1.heap|, s2));
    assert calls[1..][1..] == [];
    assert s2 == State(st.heap + [HelloExports, NameExports], st.executed + [HelloFile, NameFile]);
  }

  /** The message module's two writes, on the fresh object at `obj`, leave its calls to run. */
  lemma ExecMessageWrites(obj: nat, st: State, fuel: nat)
    requires obj < |st.heap| && st.heap[obj] == map[]
    ensures Exec(FrozenGraph, FrozenEval, MessageFile, obj, FrozenEval(MessageCode), st, fuel)
              == Exec(FrozenGraph, FrozenEval, MessageFile, obj, [Call("./hello.js"), Call("./name.js")],
                      State(st.heap[obj := MessageExports], st.executed), fuel)
  {
    FrozenEntries();
    var actions := FrozenEval(MessageCode);
    var s1 := State(st.heap[obj := st.heap[obj]["__esModule" := Bool(true)]], st.executed);
    ExecWrite(FrozenGraph, FrozenEval, MessageFile, obj, actions, st, fuel);
    ExecWrite(FrozenGraph, FrozenEval, MessageFile, obj, actions[1..], s1, fuel);
    assert actions[1..][1..] == [Call("./hello.js"), Call("./name.js")];
    var s2 := State(s1.heap[obj := s1.heap[obj]["default" := Function("message")]], s1.executed);
    assert s1.heap[obj]["default" := Function("message")] == MessageExports;
    assert s2 == State(st.heap[obj := MessageExports], st.executed);
  }

  /** Appending one element and then two is appending the three. */
  lemma AppendThree<T>(s: seq<T>, x: T, y: T, z: T)
    ensures (s + [x]) + [y, z] == s + [x, y, z]
  {
  }

  /** The message module runs hello then name, each once, after its own two writes. */
  lemma RequireMessage(st: State, fuel: nat)
    requires fuel >= 2
    ensures Require(FrozenGraph, FrozenEval, MessageFile, st, fuel)
              == Success(Loaded(|st.heap|, State(st.heap + [MessageExports, HelloExports, NameExports],
                                                 st.executed + [MessageFile, HelloFile, NameFile])))
  {
    FrozenEntries();
    var obj := |st.heap|;
    var s0 := State(st.heap + [map[]], st.executed + [MessageFile]);
    var s2 := State(st.heap + [MessageExports], st.executed + [MessageFile]);
    assert s0.heap[obj := MessageExports] == s2.heap;
    ExecMessageWrites(obj, s0, fuel - 1);
    ExecMessageRequires(obj, s2, fuel - 1);
    AppendThree(st.heap, MessageExports, HelloExports, NameExports);
    AppendThree(st.executed, MessageFile, HelloFile, NameFile);
    RequireEnters(FrozenGraph, FrozenEval, MessageFile, st, fuel,
                  State(st.heap + [MessageExports, HelloExports, NameExports], st.executed + [MessageFile, HelloFile, NameFile]));
  }

  /** The entry body with a stack of at least three calls: message (with hello and name), then name again. */
  lemma RequireEntry(fuel: nat)
    requires fuel >= 3
    ensures Require(FrozenGraph, FrozenEval, EntryFile, State([], []), fuel)
              == Success(Loaded(0, State([map[], MessageExports, HelloExports, NameExports, NameExports],
                                         [EntryFile, MessageFile, HelloFile, NameFile, NameFile])))
  {
    FrozenEntries();
    FrozenTargets();
    var actions := FrozenEval(EntryCode);
    var s0 := State([map[]], [EntryFile]);
    assert State([], []).heap + [map[]] == s0.heap && State([], []).executed + [EntryFile] == s0.executed;
    RequireMessage(s0, fuel - 1);
    var s1 := State(s0.heap + [MessageExports, HelloExports, NameExports], s0.executed + [MessageFile, HelloFile, NameFile]);
    RequireLeaf(NameFile, NameExports, s1, fuel - 1);
    var s2 := State(s1.heap + [NameExports], s1.executed + [NameFile]);
    ExecCall(FrozenGraph, FrozenEval, EntryFile, 0, actions, s0, fuel - 1, Loaded(|s0.heap|, s1));
    ExecCall(FrozenGraph, FrozenEval, EntryFile, 0, actions[1..], s1, fuel - 1, Loaded(|s1.heap|, s2));
    assert actions[1..][1..] == [];
    assert s2 == State([map[], MessageExports, HelloExports, NameExports, NameExports],
                       [EntryFile, MessageFile, HelloFile, NameFile, NameFile]);
    RequireEnters(FrozenGraph, FrozenEval, EntryFile, State([], []), fuel, s2);
  }

  /** With a stack of fewer than three calls, the hello module (or the message module) cannot be entered. */
  lemma RequireEntryShallow(fuel: nat)
    requires fuel < 3
    ensures Require(FrozenGraph, FrozenEval, EntryFile, State([], []), fuel) == Failure(StackOverflow)
  {
    FrozenEntries();
    FrozenTargets();
    var actions := FrozenEval(EntryCode);
    var s0 := State([map[]], [EntryFile]);
    assert State([], []).heap + [map[]] == s0.heap && State([], []).executed + [EntryFile] == s0.executed;
    if fuel == 2 {
      var m0 := State(s0.heap + [map[]], s0.executed + [MessageFile]);
      var m1 := State(m0.heap[1 := m0.heap[1]["__esModule" := Bool(true)]], m0.executed);
      var m2 := State(m1.heap[1 := m1.heap[1]["default" := Function("message")]], m1.executed);
      var mActions := FrozenEval(MessageCode);
      assert Exec(FrozenGraph, FrozenEval, MessageFile, 1, mActions[2..], m2, 0) == Failure(StackOverflow);
      assert Exec(FrozenGraph, FrozenEval, MessageFile, 1, mActions, m0, 0) == Failure(StackOverflow);
      assert Require(FrozenGraph, FrozenEval, MessageFile, s0, 1) == Failure(StackOverflow);
      assert Exec(FrozenGraph, FrozenEval, EntryFile, 0, actions, s0, 1) == Failure(StackOverflow);
    } else if fuel == 1 {
      assert Exec(FrozenGraph, FrozenEval, EntryFile, 0, actions, s0, 0) == Failure(StackOverflow);
    }
  }

  /**
    Running the bundle executes entry, message, hello, name, and name again: the name module runs
    twice and its two `exports` objects are different objects with the same properties. The entry
    exports nothing. Three nested calls are needed; with fewer the stack overflows.
   */
  lemma FrozenRun(fuel: nat)
    ensures fuel >= 3 ==>
              Run(FrozenArtifact, FrozenEval, fuel)
              == Success(State([map[], MessageExports, HelloExports, NameExports, NameExports],
                               [EntryFile, MessageFile, HelloFile, NameFile, NameFile]))
    ensures fuel < 3 ==> Run(FrozenArtifact, FrozenEval, fuel) == Failure(StackOverflow)
  {
    if fuel >= 3 {
      RequireEntry(fuel);
    } else {
      RequireEntryShallow(fuel);
    }
  }
}
