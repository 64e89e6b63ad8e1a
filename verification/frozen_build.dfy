/**
  The build that produced the frozen bundle: four source files under `src/`, entered at
  `src/entry.js`. The file texts are tags; the transformer maps each tag to the transpiled code
  tag and the import specifiers of that file, in source order.
 */
module FrozenBuild {
  import opened Results
  import opened Modules
  import opened DepGraph
  import opened Frozen
  import Paths

  const EntrySource := "entry source"
  const MessageSource := "message source"
  const HelloSource := "hello source"
  const NameSource := "name source"

  /** Babel on the example sources: each text transpiles to its code with its imports in source order. */
  function SrcTransform(text: string): Option<Transformed> {
    if text == EntrySource then Some(Transformed(EntryCode, ["./message.js", "./name.js"]))
    else if text == MessageSource then Some(Transformed(MessageCode, ["./hello.js", "./name.js"]))
    else if text == HelloSource then Some(Transformed(HelloCode, []))
    else if text == NameSource then Some(Transformed(NameCode, []))
    else None
  }

  const SrcHost := Host(
    map[EntryFile := EntrySource, MessageFile := MessageSource, HelloFile := HelloSource, NameFile := NameSource],
    SrcTransform)

  const EntryRecord := ModuleInfo(EntryFile, EntryDeps, EntryCode)
  const MessageRecord := ModuleInfo(MessageFile, MessageDeps, MessageCode)
  const HelloRecord := ModuleInfo(HelloFile, [], HelloCode)
  const NameRecord := ModuleInfo(NameFile, [], NameCode)

  lemma SrcFiles()
    ensures SrcHost.files[EntryFile] == EntrySource && SrcHost.files[MessageFile] == MessageSource
    ensures SrcHost.files[HelloFile] == HelloSource && SrcHost.files[NameFile] == NameSource
    ensures SrcTransform(EntrySource) == Some(Transformed(EntryCode, ["./message.js", "./name.js"]))
    ensures SrcTransform(MessageSource) == Some(Transformed(MessageCode, ["./hello.js", "./name.js"]))
    ensures SrcTransform(HelloSource) == Some(Transformed(HelloCode, []))
    ensures SrcTransform(NameSource) == Some(Transformed(NameCode, []))
  {
    FrozenEntries();
    assert EntrySource[0] != MessageSource[0] && EntrySource[0] != HelloSource[0] && EntrySource[0] != NameSource[0];
    assert MessageSource[0] != HelloSource[0] && MessageSource[0] != NameSource[0] && HelloSource[0] != NameSource[0];
    assert EntryFile[0] != MessageFile[0] && EntryFile[0] != HelloFile[0] && EntryFile[0] != NameFile[0];
    assert MessageFile[6] != HelloFile[6] && MessageFile[6] != NameFile[6] && HelloFile[6] != NameFile[6];
  }

  /** The directory of each importing file, normalized: both spellings name `src`. */
  lemma SrcSegments()
    ensures Paths.NormalizeSegments(false, Paths.Split("src")) == ["src"]
    ensures Paths.NormalizeSegments(false, Paths.Split("./src")) == ["src"]
  {
    Paths.SplitOfPlain("src");
    Paths.SplitOfPlain(".");
    assert "./src" == "." + [Paths.Separator] + "src";
    Paths.SplitAppend(".", "src");
    var segments := [".", "src"];
    assert Paths.Split("./src") == segments;
    assert segments[1..] == ["src"] && ["src"][1..] == [];
    assert Paths.Step(false, [], ".") == [];
    assert Paths.Push(false, [], segments) == Paths.Push(false, [], ["src"]);
  }

  /** `"./" + path.join(path.dirname(file), "./" + m)` for a file `dir/name` in `src`. */
  lemma ResolveInSrc(dir: string, name: string, m: string)
    requires dir == "src" || dir == "./src"
    requires |name| > 0 && Paths.Separator !in name
    requires |m| > 0 && Paths.Separator !in m && m != "." && m != ".."
    ensures Paths.Resolve(dir + "/" + name, "./" + m) == "./src/" + m
  {
    SrcSegments();
    Paths.ResolveSibling(dir, name, m, ["src"]);
    assert ["src"] + [m] == ["src", m];
    assert Paths.JoinSegments(["src", m]) == "src" + "/" + Paths.JoinSegments([m]);
  }

  /** Each specifier, resolved against its importing file, is the key the bundle stores it under. */
  lemma SrcResolves()
    ensures Paths.Resolve(EntryFile, "./message.js") == MessageFile
    ensures Paths.Resolve(EntryFile, "./name.js") == NameFile
    ensures Paths.Resolve(MessageFile, "./hello.js") == HelloFile
    ensures Paths.Resolve(MessageFile, "./name.js") == NameFile
  {
    assert "src" + "/" + "entry.js" == EntryFile;
    assert "./src" + "/" + "message.js" == MessageFile;
    assert "./" + "message.js" == "./message.js" && "./src/" + "message.js" == MessageFile;
    assert "./" + "name.js" == "./name.js" && "./src/" + "name.js" == NameFile;
    assert "./" + "hello.js" == "./hello.js" && "./src/" + "hello.js" == HelloFile;
    assert '/' !in "entry.js" && '/' !in "message.js" && '/' !in "name.js" && '/' !in "hello.js";
    ResolveInSrc("src", "entry.js", "message.js");
    ResolveInSrc("src", "entry.js", "name.js");
    ResolveInSrc("./src", "message.js", "hello.js");
    ResolveInSrc("./src", "message.js", "name.js");
  }

  /** Two distinct specifiers give two keys in import order. */
  lemma CollectTwo(file: string, a: string, b: string)
    requires a != b
    ensures CollectDependencies(file, [a, b]) == [Dep(a, Paths.Resolve(file, a)), Dep(b, Paths.Resolve(file, b))]
  {
    assert [a, b][..1] == [a];
    assert [a][..0] == [];
    var first := Dep(a, Paths.Resolve(file, a));
    assert CollectDependencies(file, [a]) == [first];
    assert [first][1..] == [];
    assert Assign([first], b, Paths.Resolve(file, b)) == [first] + Assign([], b, Paths.Resolve(file, b));
  }

  /** What `explainFileContents` returns for each of the four files. */
  lemma SrcExplained()
    ensures ExplainFileContents(SrcHost, EntryFile) == Success(EntryRecord)
    ensures ExplainFileContents(SrcHost, MessageFile) == Success(MessageRecord)
    ensures ExplainFileContents(SrcHost, HelloFile) == Success(HelloRecord)
    ensures ExplainFileContents(SrcHost, NameFile) == Success(NameRecord)
  {
    SrcFiles();
    ExplainImporters();
    assert CollectDependencies(HelloFile, []) == [];
  }

  lemma ExplainImporters()
    ensures CollectDependencies(EntryFile, ["./message.js", "./name.js"]) == EntryDeps
    ensures CollectDependencies(MessageFile, ["./hello.js", "./name.js"]) == MessageDeps
  {
    SrcResolves();
    assert "./message.js"[2] != "./name.js"[2] && "./hello.js"[2] != "./name.js"[2];
    CollectTwo(EntryFile, "./message.js", "./name.js");
    CollectTwo(MessageFile, "./hello.js", "./name.js");
  }

  /** A host on which the four files explain to the four records of the frozen bundle. */
  ghost predicate ExplainsSrc(h: Host) {
    && ExplainFileContents(h, EntryFile) == Success(EntryRecord)
    && ExplainFileContents(h, MessageFile) == Success(MessageRecord)
    && ExplainFileContents(h, HelloFile) == Success(HelloRecord)
    && ExplainFileContents(h, NameFile) == Success(NameRecord)
  }

  /**
    The shape of the example, for any records: the entry `e` maps two keys, to `m` and to `n`;
    `m` maps two keys, to `l` and to `n`; `l` and `n` import nothing.
   */
  ghost predicate Shaped(h: Host, e: ModuleInfo, m: ModuleInfo, l: ModuleInfo, n: ModuleInfo) {
    && |e.dependencies| == 2 && |m.dependencies| == 2 && l.dependencies == [] && n.dependencies == []
    && ExplainFileContents(h, e.dependencies[0].target) == Success(m)
    && ExplainFileContents(h, e.dependencies[1].target) == Success(n)
    && ExplainFileContents(h, m.dependencies[0].target) == Success(l)
    && ExplainFileContents(h, m.dependencies[1].target) == Success(n)
  }

  /** A file without imports pushes nothing. */
  lemma GetDepsLeaf(h: Host, queue: seq<ModuleInfo>, leaf: ModuleInfo, fuel: nat)
    requires leaf.dependencies == [] && fuel >= 1
    ensures GetDeps(h, queue, leaf, fuel) == Success(queue)
  {
  }

  /** Two keys, the second of them a file without imports: the first subtree, then the second file. */
  lemma WalkTwoKeys(h: Host, queue: seq<ModuleInfo>, deps: seq<Dep>, fuel: nat, first: ModuleInfo, afterFirst: seq<ModuleInfo>, second: ModuleInfo)
    requires |deps| == 2 && fuel >= 1
    requires ExplainFileContents(h, deps[0].target) == Success(first)
    requires GetDeps(h, queue + [first], first, fuel) == Success(afterFirst)
    requires ExplainFileContents(h, deps[1].target) == Success(second) && second.dependencies == []
    ensures Walk(h, queue, deps, fuel) == Success(afterFirst + [second])
  {
    var rest := deps[1..];
    var done := afterFirst + [second];
    assert rest[0] == deps[1] && rest[1..] == [];
    GetDepsLeaf(h, done, second, fuel);
    assert GetDeps(h, afterFirst + [second], second, fuel) == Success(done);
    WalkFirstKey(h, afterFirst, rest, fuel, second, done);
    assert Walk(h, done, rest[1..], fuel) == Success(done);
    WalkFirstKey(h, queue, deps, fuel, first, afterFirst);
  }

  /** The middle module pushes its two files. */
  lemma GetDepsMiddle(h: Host, e: ModuleInfo, m: ModuleInfo, l: ModuleInfo, n: ModuleInfo, queue: seq<ModuleInfo>, fuel: nat)
    requires Shaped(h, e, m, l, n) && fuel >= 2
    ensures GetDeps(h, queue, m, fuel) == Success(queue + [l, n])
  {
    assert queue + [l] + [n] == queue + [l, n];
    GetDepsLeaf(h, queue + [l], l, fuel - 1);
    WalkTwoKeys(h, queue, m.dependencies, fuel - 1, l, queue + [l], n);
    GetDepsEnters(h, queue, m, fuel);
  }

  /** From the entry the walk pushes the middle module, its two files, and the shared file again. */
  lemma GetDepsTop(h: Host, e: ModuleInfo, m: ModuleInfo, l: ModuleInfo, n: ModuleInfo, fuel: nat)
    requires Shaped(h, e, m, l, n) && fuel >= 3
    ensures GetDeps(h, [e], e, fuel) == Success([e, m, l, n, n])
  {
    assert [e] + [m] + [l, n] + [n] == [e, m, l, n, n];
    GetDepsMiddle(h, e, m, l, n, [e] + [m], fuel - 1);
    WalkTwoKeys(h, [e], e.dependencies, fuel - 1, m, [e] + [m] + [l, n], n);
    GetDepsEnters(h, [e], e, fuel);
  }

  /** Fewer than three nested calls cannot reach the innermost files. */
  lemma GetDepsTopShallow(h: Host, e: ModuleInfo, m: ModuleInfo, l: ModuleInfo, n: ModuleInfo, fuel: nat)
    requires Shaped(h, e, m, l, n) && fuel < 3
    ensures GetDeps(h, [e], e, fuel) == Failure(StackExhausted)
  {
    var q1 := [e] + [m];
    if fuel == 2 {
      assert GetDeps(h, q1 + [l], l, 0) == Failure(StackExhausted);
      assert Walk(h, q1, m.dependencies, 0) == Failure(StackExhausted);
      assert GetDeps(h, q1, m, 1) == Failure(StackExhausted);
      assert Walk(h, [e], e.dependencies, 1) == Failure(StackExhausted);
    } else if fuel == 1 {
      assert GetDeps(h, q1, m, 0) == Failure(StackExhausted);
      assert Walk(h, [e], e.dependencies, 0) == Failure(StackExhausted);
    }
  }

  /**
    From the entry the walk pushes message, hello, name, and name again: the name module is
    explained twice because nothing records that it was already visited.
   */
  lemma GetDepsEntry(h: Host, fuel: nat)
    requires ExplainsSrc(h)
    ensures fuel >= 3 ==>
              GetDeps(h, [EntryRecord], EntryRecord, fuel)
              == Success([EntryRecord, MessageRecord, HelloRecord, NameRecord, NameRecord])
    ensures fuel < 3 ==> GetDeps(h, [EntryRecord], EntryRecord, fuel) == Failure(StackExhausted)
  {
    assert Shaped(h, EntryRecord, MessageRecord, HelloRecord, NameRecord);
    if fuel >= 3 {
      GetDepsTop(h, EntryRecord, MessageRecord, HelloRecord, NameRecord, fuel);
    } else {
      GetDepsTopShallow(h, EntryRecord, MessageRecord, HelloRecord, NameRecord, fuel);
    }
  }

  /** The queue written into the graph: the second name record overwrites the first with the same entry. */
  lemma FoldSrcQueue()
    ensures Fold([EntryRecord, MessageRecord, HelloRecord, NameRecord, NameRecord]) == FrozenGraph
  {
    var q := [EntryRecord, MessageRecord, HelloRecord, NameRecord, NameRecord];
    var q1 := [EntryRecord];
    var q2 := q1 + [MessageRecord];
    var q3 := q2 + [HelloRecord];
    var q4 := q3 + [NameRecord];
    assert q == q4 + [NameRecord];
    assert q4[..3] == q3 && q3[..2] == q2 && q2[..1] == q1 && q1[..0] == [] && q[..4] == q4;
    var g1 := map[EntryFile := Entry(EntryDeps, EntryCode)];
    var g2 := g1[MessageFile := Entry(MessageDeps, MessageCode)];
    var g3 := g2[HelloFile := Entry([], HelloCode)];
    var g4 := g3[NameFile := Entry([], NameCode)];
    assert Fold(q1) == g1;
    assert Fold(q2) == g2;
    assert Fold(q3) == g3;
    assert Fold(q4) == g4;
    assert g4[NameFile := Entry([], NameCode)] == g4;
    assert g4 == FrozenGraph;
  }

  /** On any host that explains the four files as the bundle records them, the build gives the bundle. */
  lemma BuildFromSrc(h: Host, fuel: nat)
    requires ExplainsSrc(h)
    ensures fuel >= 3 ==> Bundle(h, EntryFile, fuel) == Success(FrozenArtifact)
    ensures fuel < 3 ==> Bundle(h, EntryFile, fuel) == Failure(StackExhausted)
  {
    GetDepsEntry(h, fuel);
    if fuel >= 3 {
      FoldSrcQueue();
    }
  }

  /**
    Building from `src/entry.js` reproduces the frozen bundle exactly when the stack allows three
    nested calls, and overflows otherwise.
   */
  lemma FrozenBuildReproduced(fuel: nat)
    ensures fuel >= 3 ==> Bundle(SrcHost, EntryFile, fuel) == Success(FrozenArtifact)
    ensures fuel < 3 ==> Bundle(SrcHost, EntryFile, fuel) == Failure(StackExhausted)
  {
    SrcExplained();
    BuildFromSrc(SrcHost, fuel);
  }
}
