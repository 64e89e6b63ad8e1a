/**
  The build: `getDeps` walks the dependencies depth first and pushes one record per dependency
  key onto a queue, with no record of what it has already visited; `createDepenGraph` then
  writes the queue into an object keyed by file, a later record overwriting an earlier one.

  The walk recurses once per nesting level. JavaScript bounds that by its call stack; the model
  bounds it by `fuel`, and running out is the `StackExhausted` error (a `RangeError` in the source).
 */
module DepGraph {
  import opened Results
  import opened Modules

  /** The paths of the records in a queue. */
  function Files(rs: seq<ModuleInfo>): set<string> {
    set m | m in rs :: m.file
  }

  /** Each record from position `lo` on is what `explainFileContents` returns for its file. */
  ghost predicate ExplainedFrom(h: Host, rs: seq<ModuleInfo>, lo: nat) {
    forall i | lo <= i < |rs| :: ExplainFileContents(h, rs[i].file) == Success(rs[i])
  }

  /** Each record from position `lo` on has all its dependency values among the files from `lo` on. */
  ghost predicate ClosedFrom(rs: seq<ModuleInfo>, lo: nat) {
    lo <= |rs| && forall i | lo <= i < |rs| :: Targets(rs[i].dependencies) <= Files(rs[lo..])
  }

  lemma FilesGrow(a: seq<ModuleInfo>, b: seq<ModuleInfo>, lo: nat, lo': nat)
    requires a <= b && lo' <= lo <= |a|
    ensures Files(a[lo..]) <= Files(b[lo'..])
  {
    forall f | f in Files(a[lo..])
      ensures f in Files(b[lo'..])
    {
      var m :| m in a[lo..] && m.file == f;
      var k :| lo <= k < |a| && a[k] == m;
      assert b[k] == m;
      assert b[lo'..][k - lo'] == m;
    }
  }

  /**
    `getDeps(queue, parent)`: for each key of the parent's dependencies, in key order, explain the
    file it maps to, push that record, then walk the record's own dependencies. The result is the
    queue after the walk; the call stack it needs is bounded by `fuel`.
   */
  function GetDeps(h: Host, queue: seq<ModuleInfo>, parent: ModuleInfo, fuel: nat): (r: Result<seq<ModuleInfo>, BuildError>)
    ensures r.Success? ==> queue <= r.value
    decreases fuel, 0
  {
    if fuel == 0 then Failure(StackExhausted)
    else Walk(h, queue, parent.dependencies, fuel - 1)
  }

  /** The `forEach` over the keys `deps` inside one `getDeps` call. */
  function Walk(h: Host, queue: seq<ModuleInfo>, deps: seq<Dep>, fuel: nat): (r: Result<seq<ModuleInfo>, BuildError>)
    ensures r.Success? ==> queue <= r.value
    decreases fuel, 1, |deps|
  {
    if |deps| == 0 then Success(queue)
    else
      var child :- ExplainFileContents(h, deps[0].target);
      var afterChild :- GetDeps(h, queue + [child], child, fuel);
      Walk(h, afterChild, deps[1..], fuel)
  }

  /** A `getDeps` call with stack to spare is the walk over its parent's keys. */
  lemma GetDepsEnters(h: Host, queue: seq<ModuleInfo>, parent: ModuleInfo, fuel: nat)
    requires fuel > 0
    ensures GetDeps(h, queue, parent, fuel) == Walk(h, queue, parent.dependencies, fuel - 1)
  {
  }

  /** One key of the walk: explain its file, push the record, walk below it, then continue with the other keys. */
  lemma WalkFirstKey(h: Host, queue: seq<ModuleInfo>, deps: seq<Dep>, fuel: nat, child: ModuleInfo, afterChild: seq<ModuleInfo>)
    requires |deps| > 0
    requires ExplainFileContents(h, deps[0].target) == Success(child)
    requires GetDeps(h, queue + [child], child, fuel) == Success(afterChild)
    ensures Walk(h, queue, deps, fuel) == Walk(h, afterChild, deps[1..], fuel)
  {
  }

  /**
    What a walk over `deps` pushes from position `lo` on: records that are exactly what
    `explainFileContents` returns for their file, covering every value of `deps`, and closed
    among themselves.
   */
  ghost predicate Sound(h: Host, deps: seq<Dep>, rs: seq<ModuleInfo>, lo: nat) {
    && lo <= |rs|
    && ExplainedFrom(h, rs, lo)
    && Targets(deps) <= Files(rs[lo..])
    && ClosedFrom(rs, lo)
  }

  lemma {:induction false} GetDepsSound(h: Host, queue: seq<ModuleInfo>, parent: ModuleInfo, fuel: nat)
    ensures GetDeps(h, queue, parent, fuel).Success? ==>
              Sound(h, parent.dependencies, GetDeps(h, queue, parent, fuel).value, |queue|)
    decreases fuel, 0
  {
    if fuel > 0 {
      GetDepsEnters(h, queue, parent, fuel);
      WalkSound(h, queue, parent.dependencies, fuel - 1);
    }
  }

  lemma {:induction false} WalkSound(h: Host, queue: seq<ModuleInfo>, deps: seq<Dep>, fuel: nat)
    ensures Walk(h, queue, deps, fuel).Success? ==> Sound(h, deps, Walk(h, queue, deps, fuel).value, |queue|)
    decreases fuel, 1, |deps|
  {
    var r := Walk(h, queue, deps, fuel);
    if |deps| > 0 && r.Success? {
      var child := ExplainFileContents(h, deps[0].target).value;
      var afterChild := GetDeps(h, queue + [child], child, fuel).value;
      GetDepsSound(h, queue + [child], child, fuel);
      WalkSound(h, afterChild, deps[1..], fuel);
      WalkStep(h, queue, deps, child, afterChild, r.value);
    }
  }

  /** The facts `Walk` promises, assembled from its first key's subtree and the walk over the remaining keys. */
  lemma WalkStep(h: Host, queue: seq<ModuleInfo>, deps: seq<Dep>, child: ModuleInfo, afterChild: seq<ModuleInfo>, done: seq<ModuleInfo>)
    requires |deps| > 0
    requires ExplainFileContents(h, deps[0].target) == Success(child)
    requires queue + [child] <= afterChild
    requires Sound(h, child.dependencies, afterChild, |queue| + 1)
    requires afterChild <= done
    requires Sound(h, deps[1..], done, |afterChild|)
    ensures Sound(h, deps, done, |queue|)
  {
    var lo := |queue|;
    var mid := |afterChild|;
    assert done[lo] == child;
    FilesGrow(afterChild, done, lo + 1, lo);
    FilesGrow(done, done, mid, lo);
    assert deps[0].target in Files(done[lo..]) by {
      assert done[lo..][0] == child;
    }
    forall t | t in Targets(deps)
      ensures t in Files(done[lo..])
    {
      var d :| d in deps && d.target == t;
      if d != deps[0] {
        assert d in deps[1..];
      }
    }
    forall i | lo <= i < |done|
      ensures ExplainFileContents(h, done[i].file) == Success(done[i])
      ensures Targets(done[i].dependencies) <= Files(done[lo..])
    {
      if lo < i < mid {
        assert done[i] == afterChild[i];
      }
    }
  }

  /** Each record from position `lo` on has a file that is a dependency value of `deps` or of a record pushed before it. */
  ghost predicate LinkedFrom(deps: seq<Dep>, rs: seq<ModuleInfo>, lo: nat) {
    forall j | lo <= j < |rs| ::
      rs[j].file in Targets(deps) || exists i :: lo <= i < j && rs[j].file in Targets(rs[i].dependencies)
  }

  /** Every record `getDeps` pushes is the file some earlier record (or the parent) maps one of its keys to. */
  lemma {:induction false} GetDepsLinked(h: Host, queue: seq<ModuleInfo>, parent: ModuleInfo, fuel: nat)
    ensures GetDeps(h, queue, parent, fuel).Success? ==>
              LinkedFrom(parent.dependencies, GetDeps(h, queue, parent, fuel).value, |queue|)
    decreases fuel, 0
  {
    if fuel > 0 {
      GetDepsEnters(h, queue, parent, fuel);
      WalkLinked(h, queue, parent.dependencies, fuel - 1);
    }
  }

  lemma {:induction false} WalkLinked(h: Host, queue: seq<ModuleInfo>, deps: seq<Dep>, fuel: nat)
    ensures Walk(h, queue, deps, fuel).Success? ==> LinkedFrom(deps, Walk(h, queue, deps, fuel).value, |queue|)
    decreases fuel, 1, |deps|
  {
    var r := Walk(h, queue, deps, fuel);
    if |deps| > 0 && r.Success? {
      var child := ExplainFileContents(h, deps[0].target).value;
      var withChild := queue + [child];
      var afterChild := GetDeps(h, withChild, child, fuel).value;
      GetDepsLinked(h, withChild, child, fuel);
      WalkLinked(h, afterChild, deps[1..], fuel);
      var done := r.value;
      var lo := |queue|;
      var mid := |afterChild|;
      assert done[lo] == child;
      forall j | lo <= j < |done|
        ensures done[j].file in Targets(deps) || exists i :: lo <= i < j && done[j].file in Targets(done[i].dependencies)
      {
        if j == lo {
          assert deps[0] in deps;
        } else if j < mid {
          assert done[j] == afterChild[j];
          if afterChild[j].file in Targets(child.dependencies) {
            assert lo < j && done[j].file in Targets(done[lo].dependencies);
          } else {
            var i :| lo + 1 <= i < j && afterChild[j].file in Targets(afterChild[i].dependencies);
            assert done[i] == afterChild[i];
          }
        } else if done[j].file in Targets(deps[1..]) {
          var d :| d in deps[1..] && d.target == done[j].file;
          assert d in deps;
        } else {
          var i :| mid <= i < j && done[j].file in Targets(done[i].dependencies);
          assert lo <= i;
        }
      }
    }
  }

  /** `a` is `b` run after `queue`: the same error, or the same records with `queue` in front. */
  ghost predicate Shifted(a: Result<seq<ModuleInfo>, BuildError>, queue: seq<ModuleInfo>, b: Result<seq<ModuleInfo>, BuildError>) {
    if a.Failure? then a == b else b.Success? && a.value == queue + b.value
  }

  /** The walk from `deps` ignores what the queue already holds: it pushes the same records after any queue. */
  lemma {:induction false} WalkIgnoresQueue(h: Host, queue: seq<ModuleInfo>, deps: seq<Dep>, fuel: nat)
    ensures Shifted(Walk(h, queue, deps, fuel), queue, Walk(h, [], deps, fuel))
  {
    WalkShift(h, queue, [], deps, fuel);
    assert queue + [] == queue;
  }

  /** The general form: a walk after `p + q` is the walk after `q` with `p` in front. */
  lemma {:induction false} WalkShift(h: Host, p: seq<ModuleInfo>, q: seq<ModuleInfo>, deps: seq<Dep>, fuel: nat)
    ensures Shifted(Walk(h, p + q, deps, fuel), p, Walk(h, q, deps, fuel))
    decreases fuel, 1, |deps|
  {
    if |deps| > 0 {
      var e := ExplainFileContents(h, deps[0].target);
      if e.Success? {
        var child := e.value;
        var a := GetDeps(h, p + q + [child], child, fuel);
        var b := GetDeps(h, q + [child], child, fuel);
        GetDepsShift(h, p, q + [child], child, fuel);
        assert p + (q + [child]) == p + q + [child];
        if a.Success? {
          WalkShift(h, p, b.value, deps[1..], fuel);
          assert Walk(h, p + q, deps, fuel) == Walk(h, a.value, deps[1..], fuel);
          assert Walk(h, q, deps, fuel) == Walk(h, b.value, deps[1..], fuel);
        }
      }
    }
  }

  lemma {:induction false} GetDepsShift(h: Host, p: seq<ModuleInfo>, q: seq<ModuleInfo>, parent: ModuleInfo, fuel: nat)
    ensures Shifted(GetDeps(h, p + q, parent, fuel), p, GetDeps(h, q, parent, fuel))
    decreases fuel, 0
  {
    if fuel > 0 {
      WalkShift(h, p, q, parent.dependencies, fuel - 1);
    }
  }

  /**
    Depth-first pre-order: the records a walk pushes are the first key's record, then everything
    the walk below that record pushes, then what the walk over the remaining keys pushes.
   */
  lemma WalkPreorder(h: Host, deps: seq<Dep>, fuel: nat) returns (child: ModuleInfo, sub: seq<ModuleInfo>, rest: seq<ModuleInfo>)
    requires |deps| > 0 && Walk(h, [], deps, fuel).Success?
    ensures ExplainFileContents(h, deps[0].target) == Success(child)
    ensures GetDeps(h, [], child, fuel) == Success(sub)
    ensures Walk(h, [], deps[1..], fuel) == Success(rest)
    ensures Walk(h, [], deps, fuel).value == [child] + sub + rest
  {
    child := ExplainFileContents(h, deps[0].target).value;
    assert [] + [child] == [child] && [child] + [] == [child];
    GetDepsShift(h, [child], [], child, fuel);
    sub := GetDeps(h, [], child, fuel).value;
    WalkShift(h, [child] + sub, [], deps[1..], fuel);
    assert [child] + sub + [] == [child] + sub;
    rest := Walk(h, [], deps[1..], fuel).value;
  }

  /** How many records in `rs` are for file `f`. */
  function Count(rs: seq<ModuleInfo>, f: string): nat
    decreases |rs|
  {
    if |rs| == 0 then 0
    else Count(rs[..|rs| - 1], f) + (if rs[|rs| - 1].file == f then 1 else 0)
  }

  lemma {:induction false} CountAppend(a: seq<ModuleInfo>, b: seq<ModuleInfo>, f: string)
    ensures Count(a + b, f) == Count(a, f) + Count(b, f)
    decreases |b|
  {
    if |b| > 0 {
      var n := |b| - 1;
      assert (a + b)[..|a + b| - 1] == a + b[..n];
      assert (a + b)[|a + b| - 1] == b[n];
      CountAppend(a, b[..n], f);
    } else {
      assert a + b == a;
    }
  }

  /** The records of one key's subtree in pre-order: the key's own record, then those below it. */
  lemma CountPreorder(child: ModuleInfo, sub: seq<ModuleInfo>, rest: seq<ModuleInfo>, f: string)
    ensures Count([child] + sub + rest, f) == (if child.file == f then 1 else 0) + Count(sub, f) + Count(rest, f)
  {
    CountAppend([child] + sub, rest, f);
    CountAppend([child], sub, f);
    assert [child][..0] == [];
  }

  /** The dependencies of each file as `explainFileContents` records them, or `None` where it throws. */
  function Imports(h: Host): string -> Option<seq<Dep>> {
    t => if ExplainFileContents(h, t).Success? then Some(ExplainFileContents(h, t).value.dependencies) else None
  }

  /** `kids` gives, for every file, what `Imports(h)` gives. */
  ghost predicate ImportsOf(h: Host, kids: string -> Option<seq<Dep>>) {
    forall t {:trigger ExplainFileContents(h, t)} ::
      kids(t) == if ExplainFileContents(h, t).Success? then Some(ExplainFileContents(h, t).value.dependencies) else None
  }

  /**
    The import paths that start at a key of `deps` and end at `f`, where `kids` gives each file's
    dependencies: one for each key whose value is `f`, plus those through each key's file, down to
    `fuel` further levels of nesting.
   */
  function PathCount(kids: string -> Option<seq<Dep>>, deps: seq<Dep>, f: string, fuel: nat): nat
    decreases fuel, |deps|
  {
    if |deps| == 0 then 0
    else
      var here := if deps[0].target == f then 1 else 0;
      var below :=
        match kids(deps[0].target)
        case Some(grandchildren) => if fuel == 0 then 0 else PathCount(kids, grandchildren, f, fuel - 1)
        case None => 0;
      here + below + PathCount(kids, deps[1..], f, fuel)
  }

  /**
    Nothing marks a file as visited: a walk that succeeds pushes a file once for every import path
    that leads to it.
   */
  lemma WalkCountsPaths(h: Host, deps: seq<Dep>, f: string, fuel: nat)
    requires Walk(h, [], deps, fuel).Success?
    ensures Count(Walk(h, [], deps, fuel).value, f) == PathCount(Imports(h), deps, f, fuel)
  {
    WalkCountsPathsOf(h, Imports(h), deps, f, fuel, Walk(h, [], deps, fuel).value);
  }

  lemma {:induction false} WalkCountsPathsOf(h: Host, kids: string -> Option<seq<Dep>>, deps: seq<Dep>, f: string, fuel: nat, rs: seq<ModuleInfo>)
    requires ImportsOf(h, kids)
    requires Walk(h, [], deps, fuel) == Success(rs)
    ensures Count(rs, f) == PathCount(kids, deps, f, fuel)
    decreases fuel, |deps|
  {
    if |deps| > 0 {
      var child, sub, rest := WalkPreorder(h, deps, fuel);
      assert fuel > 0;
      GetDepsEnters(h, [], child, fuel);
      WalkCountsPathsOf(h, kids, child.dependencies, f, fuel - 1, sub);
      WalkCountsPathsOf(h, kids, deps[1..], f, fuel, rest);
      assert kids(deps[0].target) == Some(child.dependencies);
      CountPreorder(child, sub, rest, f);
    }
  }

  /** The `{ dependencies, code }` value `createDepenGraph` stores under a file. */
  datatype Entry = Entry(dependencies: seq<Dep>, code: string)

  /** The `depsGraph` object: file path to entry. Key order does not matter to the loader. */
  type Graph = map<string, Entry>

  function EntryOf(m: ModuleInfo): Entry {
    Entry(m.dependencies, m.code)
  }

  /** The position of the last record for file `f`. */
  function LastWith(rs: seq<ModuleInfo>, f: string): (i: nat)
    requires f in Files(rs)
    ensures i < |rs| && rs[i].file == f
    ensures forall j | i < j < |rs| :: rs[j].file != f
    decreases |rs|
  {
    var n := |rs| - 1;
    if rs[n].file == f then n
    else
      assert f in Files(rs[..n]) by {
        var m :| m in rs && m.file == f;
        var k :| 0 <= k < |rs| && rs[k] == m;
        assert rs[..n][k] == m;
      }
      LastWith(rs[..n], f)
  }

  /** `queue.forEach(m => depsGraph[m.file] = { dependencies, code })`. */
  function Fold(rs: seq<ModuleInfo>): (g: Graph)
    ensures g.Keys == Files(rs)
    decreases |rs|
  {
    if |rs| == 0 then map[]
    else
      var n := |rs| - 1;
      assert rs == rs[..n] + [rs[n]];
      Fold(rs[..n])[rs[n].file := EntryOf(rs[n])]
  }

  /** A file written several times keeps the entry of its last record. */
  lemma {:induction false} FoldLastWins(rs: seq<ModuleInfo>, f: string)
    requires f in Files(rs)
    ensures Fold(rs)[f] == EntryOf(rs[LastWith(rs, f)])
    decreases |rs|
  {
    var n := |rs| - 1;
    if rs[n].file != f {
      FoldLastWins(rs[..n], f);
    }
  }

  /**
    `createDepenGraph(entry)`: explain the entry, put it first in the queue, walk its
    dependencies, and write the queue into the graph.
   */
  function CreateDepenGraph(h: Host, entry: string, fuel: nat): (r: Result<Graph, BuildError>)
    ensures r.Success? ==> entry in r.value
    ensures ExplainFileContents(h, entry).Failure? ==> r == Failure(ExplainFileContents(h, entry).error)
  {
    var main :- ExplainFileContents(h, entry);
    var queue :- GetDeps(h, [main], main, fuel);
    assert queue[0] == main;
    Success(Fold(queue))
  }

  /** A graph every key of which is what `explainFileContents` returns for that path. */
  ghost predicate GraphExplained(h: Host, g: Graph) {
    forall f | f in g :: ExplainFileContents(h, f) == Success(ModuleInfo(f, g[f].dependencies, g[f].code))
  }

  /** Every dependency value of every entry is a key: the loader finds each file it is sent to. */
  ghost predicate GraphClosed(g: Graph) {
    forall f | f in g :: Targets(g[f].dependencies) <= g.Keys
  }

  /** Every key is the entry or a dependency value of some entry. */
  ghost predicate GraphReached(g: Graph, entry: string) {
    forall f | f in g :: f == entry || exists k | k in g :: f in Targets(g[k].dependencies)
  }

  /** When every record is what `explainFileContents` returns, each entry is that of its key's file. */
  lemma FoldExplained(h: Host, rs: seq<ModuleInfo>)
    requires ExplainedFrom(h, rs, 0)
    ensures GraphExplained(h, Fold(rs))
  {
    forall f | f in Fold(rs)
      ensures ExplainFileContents(h, f) == Success(ModuleInfo(f, Fold(rs)[f].dependencies, Fold(rs)[f].code))
    {
      FoldLastWins(rs, f);
      var i := LastWith(rs, f);
      assert ExplainFileContents(h, rs[i].file) == Success(rs[i]);
    }
  }

  /** The graph of a queue whose records are closed among themselves is closed. */
  lemma FoldClosed(rs: seq<ModuleInfo>)
    requires |rs| > 0
    requires Targets(rs[0].dependencies) <= Files(rs[1..])
    requires ClosedFrom(rs, 1)
    ensures GraphClosed(Fold(rs))
  {
    var g := Fold(rs);
    FilesGrow(rs, rs, 1, 0);
    assert rs[0..] == rs;
    forall f | f in g
      ensures Targets(g[f].dependencies) <= g.Keys
    {
      FoldLastWins(rs, f);
      var i := LastWith(rs, f);
      assert g[f].dependencies == rs[i].dependencies;
      if i > 0 {
        assert Targets(rs[i].dependencies) <= Files(rs[1..]);
      }
    }
  }

  /** The graph of a linked queue reaches every key from the first record's file. */
  lemma FoldReached(h: Host, rs: seq<ModuleInfo>)
    requires |rs| > 0
    requires ExplainedFrom(h, rs, 0)
    requires LinkedFrom(rs[0].dependencies, rs, 1)
    ensures GraphReached(Fold(rs), rs[0].file)
  {
    var g := Fold(rs);
    forall f | f in g
      ensures f == rs[0].file || exists k | k in g :: f in Targets(g[k].dependencies)
    {
      var j := LastWith(rs, f);
      if j > 0 {
        assert exists i :: 0 <= i < j && rs[j].file in Targets(rs[i].dependencies);
        var i :| 0 <= i < j && rs[j].file in Targets(rs[i].dependencies);
        var k := rs[i].file;
        assert k in Files(rs);
        FoldLastWins(rs, k);
        var i' := LastWith(rs, k);
        assert ExplainFileContents(h, rs[i].file) == Success(rs[i]);
        assert ExplainFileContents(h, rs[i'].file) == Success(rs[i']);
        assert f in Targets(g[k].dependencies);
      }
    }
  }

  /**
    A built graph holds the entry, each entry is what `explainFileContents` returns for its key,
    every dependency value is a key, and every key is the entry or some entry's dependency value.
   */
  lemma BuiltGraph(h: Host, entry: string, fuel: nat)
    requires CreateDepenGraph(h, entry, fuel).Success?
    ensures var g := CreateDepenGraph(h, entry, fuel).value;
      entry in g && GraphExplained(h, g) && GraphClosed(g) && GraphReached(g, entry)
  {
    var main := ExplainFileContents(h, entry).value;
    var queue := GetDeps(h, [main], main, fuel).value;
    assert CreateDepenGraph(h, entry, fuel).value == Fold(queue);
    GetDepsSound(h, [main], main, fuel);
    GetDepsLinked(h, [main], main, fuel);
    assert queue[0] == main;
    assert ExplainedFrom(h, queue, 0) by {
      forall i | 0 <= i < |queue|
        ensures ExplainFileContents(h, queue[i].file) == Success(queue[i])
      {
      }
    }
    FoldExplained(h, queue);
    FoldClosed(queue);
    FoldReached(h, queue);
  }

  /** Every file in `S` is read and transformed, and its dependency values stay in `S`. */
  ghost predicate Readable(h: Host, S: set<string>) {
    forall f {:trigger ExplainFileContents(h, f)} | f in S ::
      ExplainFileContents(h, f).Success? && Targets(ExplainFileContents(h, f).value.dependencies) <= S
  }

  /** Inside a readable set the walk can only fail by running out of stack. */
  lemma {:induction false} GetDepsOnlyExhausts(h: Host, S: set<string>, queue: seq<ModuleInfo>, parent: ModuleInfo, fuel: nat)
    requires Readable(h, S) && Targets(parent.dependencies) <= S
    ensures GetDeps(h, queue, parent, fuel).Failure? ==> GetDeps(h, queue, parent, fuel).error == StackExhausted
    decreases fuel, 0
  {
    if fuel > 0 {
      WalkOnlyExhausts(h, S, queue, parent.dependencies, fuel - 1);
    }
  }

  lemma {:induction false} WalkOnlyExhausts(h: Host, S: set<string>, queue: seq<ModuleInfo>, deps: seq<Dep>, fuel: nat)
    requires Readable(h, S) && Targets(deps) <= S
    ensures Walk(h, queue, deps, fuel).Failure? ==> Walk(h, queue, deps, fuel).error == StackExhausted
    decreases fuel, 1, |deps|
  {
    if |deps| > 0 {
      assert deps[0].target in Targets(deps);
      var child := ExplainFileContents(h, deps[0].target).value;
      GetDepsOnlyExhausts(h, S, queue + [child], child, fuel);
      var a := GetDeps(h, queue + [child], child, fuel);
      if a.Success? {
        assert Targets(deps[1..]) <= Targets(deps) by {
          forall t | t in Targets(deps[1..]) ensures t in Targets(deps) {
            var d :| d in deps[1..] && d.target == t;
          }
        }
        WalkOnlyExhausts(h, S, a.value, deps[1..], fuel);
      }
    }
  }

  /**
    A readable set in which every file has a dependency value of strictly smaller rank: the
    import graph restricted to `S` has no cycle, and `rank` bounds the nesting below each file.
   */
  ghost predicate Ranked(h: Host, S: set<string>, rank: string -> nat) {
    forall f {:trigger ExplainFileContents(h, f)} | f in S ::
      && ExplainFileContents(h, f).Success?
      && forall t | t in Targets(ExplainFileContents(h, f).value.dependencies) :: t in S && rank(t) < rank(f)
  }

  /** With no cycle and a stack deeper than the nesting, the walk succeeds. */
  lemma {:induction false} GetDepsTerminates(h: Host, S: set<string>, rank: string -> nat, queue: seq<ModuleInfo>, parent: ModuleInfo, fuel: nat)
    requires Ranked(h, S, rank)
    requires forall t | t in Targets(parent.dependencies) :: t in S && rank(t) + 1 < fuel
    requires fuel > 0
    ensures GetDeps(h, queue, parent, fuel).Success?
    decreases fuel, 0
  {
    WalkTerminates(h, S, rank, queue, parent.dependencies, fuel - 1);
  }

  lemma {:induction false} WalkTerminates(h: Host, S: set<string>, rank: string -> nat, queue: seq<ModuleInfo>, deps: seq<Dep>, fuel: nat)
    requires Ranked(h, S, rank)
    requires forall t | t in Targets(deps) :: t in S && rank(t) < fuel
    ensures Walk(h, queue, deps, fuel).Success?
    decreases fuel, 1, |deps|
  {
    if |deps| > 0 {
      var t := deps[0].target;
      assert t in Targets(deps);
      var child := ExplainFileContents(h, t).value;
      GetDepsTerminates(h, S, rank, queue + [child], child, fuel);
      var a := GetDeps(h, queue + [child], child, fuel);
      forall u | u in Targets(deps[1..]) ensures u in S && rank(u) < fuel {
        var d :| d in deps[1..] && d.target == u;
        assert d in deps;
      }
      WalkTerminates(h, S, rank, a.value, deps[1..], fuel);
    }
  }

  /** An entry whose import graph has no cycle builds when the stack is deeper than its rank. */
  lemma BuildTerminates(h: Host, S: set<string>, rank: string -> nat, entry: string, fuel: nat)
    requires Ranked(h, S, rank) && entry in S && rank(entry) < fuel
    ensures CreateDepenGraph(h, entry, fuel).Success?
  {
    var main := ExplainFileContents(h, entry).value;
    GetDepsTerminates(h, S, rank, [main], main, fuel);
  }

  /** The position of a key whose value is `t`. */
  lemma TargetIndex(deps: seq<Dep>, t: string) returns (k: nat)
    requires t in Targets(deps)
    ensures k < |deps| && deps[k].target == t
  {
    var d :| d in deps && d.target == t;
    k :| k < |deps| && deps[k] == d;
  }

  /** Every file in `C` is read and transformed, and has a dependency value in `C`: an import cycle. */
  ghost predicate Cyclic(h: Host, C: set<string>) {
    forall f {:trigger ExplainFileContents(h, f)} | f in C ::
      && ExplainFileContents(h, f).Success?
      && exists t | t in C :: t in Targets(ExplainFileContents(h, f).value.dependencies)
  }

  /** A walk that reaches a cycle never succeeds, however deep the stack: nothing marks a file as visited. */
  lemma {:induction false} GetDepsCycleFails(h: Host, C: set<string>, queue: seq<ModuleInfo>, parent: ModuleInfo, k: nat, fuel: nat)
    requires Cyclic(h, C)
    requires k < |parent.dependencies| && parent.dependencies[k].target in C
    ensures GetDeps(h, queue, parent, fuel).Failure?
    decreases fuel, 0
  {
    if fuel > 0 {
      WalkCycleFails(h, C, queue, parent.dependencies, k, fuel - 1);
    }
  }

  lemma {:induction false} WalkCycleFails(h: Host, C: set<string>, queue: seq<ModuleInfo>, deps: seq<Dep>, k: nat, fuel: nat)
    requires Cyclic(h, C)
    requires k < |deps| && deps[k].target in C
    ensures Walk(h, queue, deps, fuel).Failure?
    decreases fuel, 1, |deps|
  {
    var e := ExplainFileContents(h, deps[0].target);
    if e.Success? {
      var child := e.value;
      var a := GetDeps(h, queue + [child], child, fuel);
      if k == 0 {
        var t :| t in C && t in Targets(child.dependencies);
        var j := TargetIndex(child.dependencies, t);
        GetDepsCycleFails(h, C, queue + [child], child, j, fuel);
      } else if a.Success? {
        WalkCycleFails(h, C, a.value, deps[1..], k - 1, fuel);
      }
    }
  }

  /**
    An entry on an import cycle never builds; when every file it reaches is readable the build
    fails with the stack exhausted, whatever the stack depth.
   */
  lemma BuildCycleExhausts(h: Host, C: set<string>, S: set<string>, entry: string, fuel: nat)
    requires Cyclic(h, C) && entry in C
    ensures CreateDepenGraph(h, entry, fuel).Failure?
    ensures Readable(h, S) && entry in S ==> CreateDepenGraph(h, entry, fuel) == Failure(StackExhausted)
  {
    var main := ExplainFileContents(h, entry).value;
    var t :| t in C && t in Targets(main.dependencies);
    var k := TargetIndex(main.dependencies, t);
    GetDepsCycleFails(h, C, [main], main, k, fuel);
    if Readable(h, S) && entry in S {
      GetDepsOnlyExhausts(h, S, [main], main, fuel);
    }
  }

  /** The `bundle(file)` output as a value: the graph it serializes and the file the loader starts from. */
  datatype Artifact = Artifact(graph: Graph, entry: string)

  /** `bundle(file)`: build the graph from `file` and wrap it for the loader. */
  function Bundle(h: Host, file: string, fuel: nat): (r: Result<Artifact, BuildError>)
    ensures r.Success? <==> CreateDepenGraph(h, file, fuel).Success?
    ensures r.Success? ==> r.value.entry == file && file in r.value.graph
  {
    var g :- CreateDepenGraph(h, file, fuel);
    Success(Artifact(g, file))
  }
}
