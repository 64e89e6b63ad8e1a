/**
  One module record as `explainFileContents` builds it: the file path, the transpiled code and
  the `dependencies` object that maps each import specifier, as written, to "./" followed by the
  specifier joined onto the importing file's directory.

  Reading the file and the Babel pipeline (parse, preset-env transform, traversal of the import
  declarations) are a `Host`: a map from path to file text, and a transformer from text to
  transpiled code plus the import specifiers in source order.
 */
module Modules {
  import opened Results
  import Paths

  /** What the transformer yields for one file's text: the transpiled code and the import specifiers in source order. */
  datatype Transformed = Transformed(code: string, imports: seq<string>)

  /**
    The build host. `files` holds the text `readFileSync` returns for each path spelling;
    `transform` returns `None` where Babel throws (a parse or transform error).
   */
  datatype Host = Host(files: map<string, string>, transform: string -> Option<Transformed>)

  /** One own property of a `dependencies` object: the specifier as written and the path stored for it. */
  datatype Dep = Dep(specifier: string, target: string)

  /** The `{ file, dependencies, code }` record; `dependencies` lists the properties in insertion order. */
  datatype ModuleInfo = ModuleInfo(file: string, dependencies: seq<Dep>, code: string)

  /** Why a build throws: a file that cannot be read, text Babel rejects, or recursion deeper than the call stack. */
  datatype BuildError = ReadFailed(path: string) | TransformFailed(path: string) | StackExhausted

  /** `Object.keys(dependencies)`. */
  function Specifiers(deps: seq<Dep>): seq<string>
    decreases |deps|
  {
    if |deps| == 0 then [] else [deps[0].specifier] + Specifiers(deps[1..])
  }

  /** The dependency values: the paths the builder visits next. */
  function Targets(deps: seq<Dep>): set<string> {
    set d | d in deps :: d.target
  }

  /** `dependencies[spec]`: the stored path, or `None` for `undefined`. */
  function Lookup(deps: seq<Dep>, spec: string): Option<string>
    decreases |deps|
  {
    if |deps| == 0 then None
    else if deps[0].specifier == spec then Some(deps[0].target)
    else Lookup(deps[1..], spec)
  }

  /** A key is present exactly when `Lookup` finds it, and what it finds is one of the entries. */
  lemma {:induction false} LookupFinds(deps: seq<Dep>, spec: string)
    ensures Lookup(deps, spec).Some? <==> spec in Specifiers(deps)
    ensures Lookup(deps, spec).Some? ==> Dep(spec, Lookup(deps, spec).value) in deps
    decreases |deps|
  {
    if |deps| > 0 {
      LookupFinds(deps[1..], spec);
      assert deps == [deps[0]] + deps[1..];
    }
  }

  /**
    `dependencies[spec] = target`: a present key keeps its place and takes the new value,
    a new key is appended, as JavaScript orders an object's string keys by insertion.
   */
  function Assign(deps: seq<Dep>, spec: string, target: string): (r: seq<Dep>)
    ensures Lookup(r, spec) == Some(target)
    ensures forall s | s != spec :: Lookup(r, s) == Lookup(deps, s)
    ensures spec in Specifiers(deps) ==> Specifiers(r) == Specifiers(deps)
    ensures spec !in Specifiers(deps) ==> Specifiers(r) == Specifiers(deps) + [spec]
    ensures forall d | d in r :: d in deps || d == Dep(spec, target)
    decreases |deps|
  {
    if |deps| == 0 then [Dep(spec, target)]
    else if deps[0].specifier == spec then
      var r := [Dep(spec, target)] + deps[1..];
      assert r[1..] == deps[1..];
      r
    else
      var rest := Assign(deps[1..], spec, target);
      var r := [deps[0]] + rest;
      assert r[1..] == rest;
      r
  }

  /** The position of the first occurrence of `x` in `xs`. */
  function FirstIndex(xs: seq<string>, x: string): (i: nat)
    requires x in xs
    ensures i < |xs| && xs[i] == x && x !in xs[..i]
    decreases |xs|
  {
    if xs[0] == x then 0
    else
      var i := 1 + FirstIndex(xs[1..], x);
      assert xs[..i] == [xs[0]] + xs[1..][..i - 1];
      i
  }

  lemma FirstIndexExtend(xs: seq<string>, y: string, x: string)
    requires x in xs
    ensures FirstIndex(xs + [y], x) == FirstIndex(xs, x)
  {
    var i := FirstIndex(xs, x);
    var i' := FirstIndex(xs + [y], x);
    assert (xs + [y])[i] == x;
    assert xs[..i] == (xs + [y])[..i];
  }

  /**
    `keys` are the distinct members of `imports`, each once, ordered by where it first occurs:
    the key order of an object filled by assigning `imports` one after the other.
   */
  ghost predicate InFirstOccurrenceOrder(keys: seq<string>, imports: seq<string>) {
    && (forall k :: k in keys <==> k in imports)
    && (forall i, j | 0 <= i < j < |keys| ::
          keys[i] in imports && keys[j] in imports && FirstIndex(imports, keys[i]) < FirstIndex(imports, keys[j]))
  }

  lemma OrderExtend(keys: seq<string>, imports: seq<string>, s: string)
    requires InFirstOccurrenceOrder(keys, imports)
    ensures s in imports ==> InFirstOccurrenceOrder(keys, imports + [s])
    ensures s !in imports ==> InFirstOccurrenceOrder(keys + [s], imports + [s])
  {
    var all := imports + [s];
    forall k | k in imports
      ensures FirstIndex(all, k) == FirstIndex(imports, k)
    {
      FirstIndexExtend(imports, s, k);
    }
    if s !in imports {
      var keys' := keys + [s];
      assert FirstIndex(all, s) == |imports| by {
        assert all[|imports|] == s;
        assert all[..|imports|] == imports;
      }
      forall i, j | 0 <= i < j < |keys'|
        ensures keys'[i] in all && keys'[j] in all && FirstIndex(all, keys'[i]) < FirstIndex(all, keys'[j])
      {
        if j < |keys| {
          assert keys'[i] == keys[i] && keys'[j] == keys[j];
        } else {
          assert keys'[i] == keys[i] && keys[i] in imports;
        }
      }
    }
  }

  /**
    The `dependencies` object after the traversal assigned
    `dependencies[s] = "./" + path.join(path.dirname(file), s)` for each import `s` in order.
   */
  function CollectDependencies(file: string, imports: seq<string>): seq<Dep>
    decreases |imports|
  {
    if |imports| == 0 then []
    else
      var s := imports[|imports| - 1];
      Assign(CollectDependencies(file, imports[..|imports| - 1]), s, Paths.Resolve(file, s))
  }

  /**
    The object holds exactly the imported specifiers, each mapped to itself resolved against the
    file's directory, with keys in the order the specifiers first occur.
   */
  lemma {:induction false} CollectDependenciesSpec(file: string, imports: seq<string>)
    ensures var deps := CollectDependencies(file, imports);
      && (forall s :: Lookup(deps, s) == (if s in imports then Some(Paths.Resolve(file, s)) else None))
      && (forall d | d in deps :: d.specifier in imports && d.target == Paths.Resolve(file, d.specifier))
      && InFirstOccurrenceOrder(Specifiers(deps), imports)
    decreases |imports|
  {
    if |imports| > 0 {
      var prefix := imports[..|imports| - 1];
      var s := imports[|imports| - 1];
      assert imports == prefix + [s];
      var before := CollectDependencies(file, prefix);
      CollectDependenciesSpec(file, prefix);
      LookupFinds(before, s);
      OrderExtend(Specifiers(before), prefix, s);
    }
  }

  /**
    What a record read from `h` must be: its file is readable and transformable, its code is the
    transformer's code unchanged, its keys are the file's import specifiers in first-occurrence
    order, and each key maps to that specifier resolved against the file's directory.
   */
  ghost predicate Describes(h: Host, m: ModuleInfo) {
    && m.file in h.files
    && h.transform(h.files[m.file]).Some?
    && m.code == h.transform(h.files[m.file]).value.code
    && InFirstOccurrenceOrder(Specifiers(m.dependencies), h.transform(h.files[m.file]).value.imports)
    && forall d | d in m.dependencies :: d.target == Paths.Resolve(m.file, d.specifier)
  }

  /** The `{ file, dependencies, code }` record built from the file's path and what the transformer made of its text. */
  function Record(file: string, t: Transformed): ModuleInfo {
    ModuleInfo(file, CollectDependencies(file, t.imports), t.code)
  }

  /** `explainFileContents(file)`: read, transform and record the file's dependencies. */
  function ExplainFileContents(h: Host, file: string): (r: Result<ModuleInfo, BuildError>)
    ensures r.Success? <==> file in h.files && h.transform(h.files[file]).Some?
    ensures file !in h.files ==> r == Failure(ReadFailed(file))
    ensures file in h.files && r.Failure? ==> r == Failure(TransformFailed(file))
    ensures r.Success? ==> r.value.file == file && r.value.code == h.transform(h.files[file]).value.code
  {
    if file !in h.files then Failure(ReadFailed(file))
    else
      match h.transform(h.files[file])
      case None => Failure(TransformFailed(file))
      case Some(t) => Success(Record(file, t))
  }

  /** A record `explainFileContents` returns is described by its file's text and imports. */
  lemma ExplainDescribes(h: Host, file: string)
    requires ExplainFileContents(h, file).Success?
    ensures Describes(h, ExplainFileContents(h, file).value)
  {
    CollectDependenciesSpec(file, h.transform(h.files[file]).value.imports);
  }

  /** A specifier imported several times is one key: the keys of a described record are pairwise distinct. */
  lemma KeysDistinct(h: Host, m: ModuleInfo)
    requires Describes(h, m)
    ensures forall i, j | 0 <= i < j < |Specifiers(m.dependencies)| ::
              Specifiers(m.dependencies)[i] != Specifiers(m.dependencies)[j]
  {
  }

  /** Every dependency value is "./" followed by a normalized path. */
  lemma TargetsCanonical(h: Host, m: ModuleInfo)
    requires Describes(h, m)
    ensures forall t | t in Targets(m.dependencies) :: |t| >= 2 && t[..2] == "./" && Paths.Normalize(t[2..]) == t[2..]
  {
    forall t | t in Targets(m.dependencies)
      ensures |t| >= 2 && t[..2] == "./" && Paths.Normalize(t[2..]) == t[2..]
    {
      var d :| d in m.dependencies && d.target == t;
      Paths.ResolveNormalForm(m.file, d.specifier);
    }
  }
}
