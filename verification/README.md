# mini-webpack-js in Dafny

A model of the core of a minimal JavaScript bundler with two halves.

The build half starts at an entry file.
- `explainFileContents` reads each file, transpiles it, and records its import specifiers. Each specifier maps to `"./" + path.join(path.dirname(file), specifier)`.
- `getDeps` walks those dependency values depth-first. It pushes one record per dependency edge into a queue.
- `createDepenGraph` writes the queue into a graph keyed by file path, where the last write wins.
- `bundle` wraps the graph in a loader.

The run half is that loader. Each `require(file)` allocates a fresh `exports` object and runs the file's code. The code's `require` is `absRequire`, which translates a specifier through the *running* file's `dependencies`.

The model follows the code as written:
- There is no visited set. A module reachable along k paths is explained and pushed k times, and an import cycle recurses until the stack is exhausted.
- There is no export cache. A module required twice runs twice and yields two objects.

Modules:
- `Results` (results.dfy): `Option` and `Result`.
- `Paths` (paths.dfy): Node's POSIX `path.normalize`, `path.dirname` and `path.join` on strings, and the dependency value `Resolve`.
- `Modules` (modules.dfy): the module record, the `dependencies` object as an ordered association list, and `explainFileContents`. Reading files and Babel are a `Host`: a map from path to text, and a transformer from text to code plus the import specifiers in source order.
- `DepGraph` (depgraph.dfy): `getDeps`, `createDepenGraph` and `bundle`. Recursion depth is bounded by `fuel`, the call stack; running out is `StackExhausted`.
- `Loader` (loader.dfy): the emitted `require`/`absRequire`. Module code is a parameter `eval` that maps a code string to the actions the loader observes: calls of `require(specifier)` and writes to `exports`. The stack bound is `fuel`, and running out is `StackOverflow`.
- `Frozen` (frozen.dfy): the emitted bundle of the example project and its run.
- `FrozenBuild` (frozen_build.dfy): the build of that bundle from the example sources.

## Model

| member | source | states |
|---|---|---|
| Paths.ResolveNormalForm | index.js:37-38 | every dependency value starts with "./" and the rest is a path that `path.normalize` leaves unchanged |
| Paths.NormalizeIdempotent | index.js:38 | the normalization inside `path.join` is a fixpoint: normalizing its result again changes nothing |
| Paths.JoinSegmentsSplit | index.js:38 | splitting a path at '/' and writing the segments out again gives the path back (the inverse pair `path` normalization works on) |
| Paths.SplitJoinSegments | index.js:38 | writing separator-free segments out and splitting them again gives the segments back |
| Paths.NormalizeSegmentsNormalForm | index.js:38 | normalized segments have no empty or "." segment and a ".." only where nothing is left to cancel; segments already so are their own normalization |
| Paths.DirnameOfChild | index.js:37 | `path.dirname` of `dir/name` is `dir` for a non-empty last segment |
| Paths.ResolveSibling | index.js:37-38 | a specifier "./m" imported by `dir/name` resolves to "./" followed by the normalized `dir` and then `m` |
| Modules.LookupFinds | index.js:40 | reading `dependencies[s]` finds a value exactly when `s` is a key, and the pair is one of the object's properties |
| Modules.Assign | index.js:40 | `dependencies[s] = v` makes `s` map to `v` and leaves every other key's value alone; a present key keeps its place, and a new key is appended |
| Modules.CollectDependenciesSpec | index.js:29-42 | after the traversal, a key is present exactly when it is an imported specifier, and it maps to that specifier resolved against the file; keys appear once each, in order of first import |
| Modules.ExplainFileContents | index.js:12-45 | succeeds exactly when the file reads and transforms; a missing file and a rejected text give distinct errors; `file` is the path given, and `code` is the transformer's code unchanged |
| Modules.ExplainDescribes | index.js:12-45 | every record returned has a code, keys and values that are determined by its file's text and imports |
| Modules.KeysDistinct | index.js:36-42 | a specifier imported twice is a single key |
| Modules.TargetsCanonical | index.js:38 | every dependency value of a record starts with "./" followed by a normalized path |
| DepGraph.GetDeps | index.js:51-57 | the walk only appends: the queue it was given is a prefix of the queue it returns |
| DepGraph.GetDepsSound | index.js:51-57 | every pushed record is what `explainFileContents` returns for its file; every dependency value of the parent is among the pushed files; pushed records' dependency values are among the pushed files |
| DepGraph.GetDepsLinked | index.js:52-54 | each pushed record's file is a dependency value of the parent or of a record pushed before it |
| DepGraph.WalkIgnoresQueue | index.js:51-57 | the records pushed, or the error raised, do not depend on what the queue already held |
| DepGraph.WalkCountsPaths | index.js:51-57 | a walk that succeeds pushes each file exactly once for every import path leading to it, as counted independently by `PathCount` over the files' recorded dependencies |
| DepGraph.WalkPreorder | index.js:52-55 | depth-first pre-order: the first key's record, then everything its own walk pushes, then the walk over the remaining keys |
| DepGraph.GetDepsTerminates | index.js:51-57 | on an import graph ranked without cycles, with a stack deeper than the rank, the walk succeeds |
| DepGraph.GetDepsCycleFails | index.js:51-57 | a walk that reaches an import cycle fails at every stack depth |
| DepGraph.GetDepsOnlyExhausts | index.js:51-57 | among readable files, the walk can fail only by exhausting the stack |
| DepGraph.Fold | index.js:69-74 | the graph's keys are exactly the files of the records in the queue |
| DepGraph.FoldLastWins | index.js:69-74 | a file pushed several times keeps the `{dependencies, code}` of its last record |
| DepGraph.CreateDepenGraph | index.js:62-76 | a built graph has the entry, under its own spelling, as a key; a failure to explain the entry is the build's error |
| DepGraph.BuiltGraph | index.js:62-76 | a built graph holds the entry; each entry is what `explainFileContents` returns for its key; every dependency value is a key; every key is the entry or some dependency value |
| DepGraph.BuildTerminates | index.js:62-67 | an entry whose import graph has no cycle builds with a stack deeper than its rank |
| DepGraph.BuildCycleExhausts | index.js:62-67 | an entry on an import cycle never builds, and among readable files it fails by exhausting the stack, whatever its depth |
| DepGraph.Bundle | index.js:78-95 | `bundle` succeeds exactly when the graph builds; the loader then starts from the file given, which is a key of the graph |
| Loader.Target | index.js:83-85 | `absRequire` sends a specifier to the value the running file's `dependencies` holds for it, and a specifier that is not a key to "undefined" |
| Loader.Require | index.js:82-92 | each call allocates a fresh object after all existing ones, leaves older objects unchanged, records one run of the file, leaves the object holding the properties the file's code writes, and fails on a file that is not a key |
| Loader.Exec | index.js:86-89 | running a body leaves its object with the body's writes applied in order and every other existing object unchanged |
| Loader.ApplyLastWrite | index.js:86-89 | each property of the object a body leaves holds the last value the body wrote to it, or its starting value if the body wrote none |
| Loader.Run | index.js:93 | the artifact runs the entry first, into the first object, and fails when the entry is not a key |
| Loader.RequireTwice | index.js:82-92 | without a cache, requiring a file twice runs it twice and yields two distinct objects with the same properties |
| Loader.RequireResolvesThroughCaller | index.js:83-85 | a body whose first action is `require(specifier)` runs, next, the file its own `dependencies` map that specifier to |
| Loader.RequireCycleExhausts | index.js:82-92 | requiring a module on a run-time cycle, whose back edge may be any `require` of a body, never returns at any stack depth; when every key reached is in the graph it fails by overflowing the stack |
| Loader.RequireOnlyOverflows | index.js:82-92 | when every `require` reachable from a key is sent to a key, loading it can fail only by overflowing the stack |
| Loader.RequireTerminates | index.js:82-92 | on a run-time graph ranked without cycles, with a stack deeper than the rank, `require` returns |
| Frozen.FrozenTargets | dist/bundle.js:17-27 | the four specifiers of the two importing modules map to the three dependency keys |
| Frozen.FrozenGraphShape | dist/bundle.js:16-37 | the bundled graph is closed; every key is the entry or a dependency value; hello and name have no dependencies |
| Frozen.NameSharedByTwoImporters | dist/bundle.js:19-34 | entry and message both map "./name.js" to the one name key |
| Frozen.EntryKeyUnprefixed | dist/bundle.js:14-34 | the entry key has no "./" prefix; every other key has it |
| Frozen.FrozenRun | dist/bundle.js:1-37 | the bundle runs entry, message, hello, name, and name again; the two name objects are distinct with the same properties; three nested calls are needed, and with fewer the stack overflows |
| FrozenBuild.GetDepsEntry | index.js:51-57 | on the example sources the walk from the entry pushes message, hello, name, and name again |
| FrozenBuild.FoldSrcQueue | index.js:69-74 | that queue folds to the bundled graph, the second name record overwriting the first with the same entry |
| FrozenBuild.FrozenBuildReproduced | dist/bundle.js:16-37 | building from `src/entry.js` gives exactly the bundled graph when the stack allows three nested calls, and exhausts it otherwise |

## Left out

- Reading files (`fs.readFileSync`) is a map from path to text. Two spellings of one file are two keys.
- The Babel parse, `preset-env` transform and import traversal are an uninterpreted transformer. It returns code plus the import specifiers in source order, or nothing where Babel throws.
- `eval` of module code is a parameter that maps a code string to the loader-visible actions, namely nested `require` calls and writes to `exports`. The frozen code strings are replaced by short tags whose actions are stated by hand.
- Exceptions a module body throws, reads of other modules' exports, and `_interopRequireDefault` are not modelled. Only calls and writes reach the loader.
- `Object.defineProperty(exports, "__esModule", …)` is a plain write. Its non-enumerability is not modelled.
- JavaScript's ordering of integer-like property keys ahead of string keys is not modelled. Keys keep insertion order.
- Properties inherited from `Object.prototype` (a specifier such as "constructor") are not modelled. Only own properties are looked up.
- Windows `path` behaviour (the '\\' separator in the emitted bundle) is not modelled. The frozen graph is written with '/'.
- The `JSON.stringify` and template text of the artifact are not modelled. The artifact is the pair (graph, entry).
- The `debugger` statement, config loading and output writing (`fs.access`, `fs.mkdir`, `fs.writeFile`) are I/O or tooling.
- The call stack is a `fuel` bound. Its real size, which depends on the engine, is not modelled.
- DepGraph.Bundle: the artifact starts the loader from the entry's own key. The source pastes the entry unescaped into a single-quoted literal (`require('${file}')`) while `JSON.stringify` escapes the graph's keys, so an entry containing '\\', a quote or a line break reaches `require` as a different string, or as a syntax error; string-literal escaping is not modelled.
