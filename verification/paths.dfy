/**
  POSIX path arithmetic as the dependency resolver uses it: `path.dirname`, `path.join`
  and the `path.normalize` that `join` ends with. Paths are strings with '/' as their only
  separator; a path is read as the list of segments between separators.
 */
module Paths {

  const Separator: char := '/'

  /** The segments of `p` between separators: "a/b" gives ["a", "b"], "" gives [""], "/a/" gives ["", "a", ""]. */
  function Split(p: string): (segments: seq<string>)
    ensures |segments| >= 1
    ensures Plain(segments)
    decreases |p|
  {
    if |p| == 0 then [""]
    else
      var rest := Split(p[1..]);
      if p[0] == Separator then [""] + rest
      else [[p[0]] + rest[0]] + rest[1..]
  }

  /** The segments written out with a separator between each two. */
  function JoinSegments(segments: seq<string>): string
    requires |segments| >= 1
    decreases |segments|
  {
    if |segments| == 1 then segments[0]
    else segments[0] + [Separator] + JoinSegments(segments[1..])
  }

  /** No segment contains a separator. */
  ghost predicate Plain(segments: seq<string>) {
    forall i | 0 <= i < |segments| :: Separator !in segments[i]
  }

  lemma {:induction false} SplitOfPlain(s: string)
    requires Separator !in s
    ensures Split(s) == [s]
    decreases |s|
  {
    if |s| > 0 {
      SplitOfPlain(s[1..]);
      assert [s[0]] + s[1..] == s;
    }
  }

  /** Splitting `[c] + s` in terms of splitting `s`. */
  lemma SplitCons(c: char, s: string)
    ensures Split([c] + s) == if c == Separator then [""] + Split(s) else [[c] + Split(s)[0]] + Split(s)[1..]
  {
    assert ([c] + s)[1..] == s;
  }

  /** Prepending a character to the first segment commutes with appending further segments. */
  lemma ConsFirst(c: char, r: seq<string>, rb: seq<string>)
    requires |r| >= 1
    ensures [[c] + (r + rb)[0]] + (r + rb)[1..] == ([[c] + r[0]] + r[1..]) + rb
  {
    assert (r + rb)[0] == r[0];
    assert (r + rb)[1..] == r[1..] + rb;
  }

  /** Splitting at a separator splits the segment list at the same place. */
  lemma {:induction false} SplitAppend(a: string, b: string)
    ensures Split(a + [Separator] + b) == Split(a) + Split(b)
    decreases |a|
  {
    if |a| == 0 {
      assert a + [Separator] + b == [Separator] + b;
      SplitCons(Separator, b);
    } else {
      var tail := a[1..] + [Separator] + b;
      assert a + [Separator] + b == [a[0]] + tail;
      assert a == [a[0]] + a[1..];
      SplitAppend(a[1..], b);
      SplitCons(a[0], tail);
      SplitCons(a[0], a[1..]);
      if a[0] != Separator {
        ConsFirst(a[0], Split(a[1..]), Split(b));
      } else {
        assert [""] + (Split(a[1..]) + Split(b)) == ([""] + Split(a[1..])) + Split(b);
      }
    }
  }

  /** Writing segments out and splitting them again gives them back. */
  lemma {:induction false} SplitJoinSegments(segments: seq<string>)
    requires |segments| >= 1
    requires Plain(segments)
    ensures Split(JoinSegments(segments)) == segments
    decreases |segments|
  {
    SplitOfPlain(segments[0]);
    if |segments| > 1 {
      SplitJoinSegments(segments[1..]);
      SplitAppend(segments[0], JoinSegments(segments[1..]));
      assert [segments[0]] + segments[1..] == segments;
    }
  }

  /** Splitting a path and writing its segments out again gives the path back. */
  lemma {:induction false} JoinSegmentsSplit(p: string)
    ensures JoinSegments(Split(p)) == p
    decreases |p|
  {
    if |p| > 0 {
      var rest := Split(p[1..]);
      JoinSegmentsSplit(p[1..]);
      var segments := Split(p);
      if p[0] == Separator {
        assert segments == [""] + rest;
        assert segments[1..] == rest;
        assert p == [p[0]] + p[1..];
      } else {
        assert segments == [[p[0]] + rest[0]] + rest[1..];
        if |rest| == 1 {
          assert p == [p[0]] + p[1..];
        } else {
          assert segments[1..] == rest[1..];
          assert JoinSegments(rest) == rest[0] + [Separator] + JoinSegments(rest[1..]);
          assert p == [p[0]] + p[1..];
        }
      }
    }
  }

  /** One segment applied to the stack of already normalized segments. */
  function Step(absolute: bool, stack: seq<string>, segment: string): seq<string>
  {
    if segment == "" || segment == "." then stack
    else if segment == ".." then
      if |stack| > 0 && stack[|stack| - 1] != ".." then stack[..|stack| - 1]
      else if absolute then stack
      else stack + [".."]
    else stack + [segment]
  }

  /** The segments applied left to right, as `normalizeString` does. */
  function Push(absolute: bool, stack: seq<string>, segments: seq<string>): seq<string>
    decreases |segments|
  {
    if |segments| == 0 then stack
    else Push(absolute, Step(absolute, stack, segments[0]), segments[1..])
  }

  /** Empty and "." segments dropped, ".." cancelling the segment before it. */
  function NormalizeSegments(absolute: bool, segments: seq<string>): seq<string> {
    Push(absolute, [], segments)
  }

  /**
    The normal form: no empty or "." segment, ".." only in a leading run and only
    when the path is relative (above the root of an absolute path there is nothing).
   */
  ghost predicate IsNormal(absolute: bool, segments: seq<string>) {
    && (forall i | 0 <= i < |segments| :: segments[i] != "" && segments[i] != "." && Separator !in segments[i])
    && (forall i, j | 0 <= i < j < |segments| :: segments[j] == ".." ==> segments[i] == "..")
    && (absolute ==> forall i | 0 <= i < |segments| :: segments[i] != "..")
  }

  lemma StepKeepsNormal(absolute: bool, stack: seq<string>, segment: string)
    requires IsNormal(absolute, stack)
    requires Separator !in segment
    ensures IsNormal(absolute, Step(absolute, stack, segment))
  {
    if segment == ".." && !absolute && (|stack| == 0 || stack[|stack| - 1] == "..") {
      var r := stack + [".."];
      forall i, j | 0 <= i < j < |r| && r[j] == ".."
        ensures r[i] == ".."
      {
        if j < |stack| {
        } else if |stack| > 0 {
          assert stack[|stack| - 1] == "..";
        }
      }
    }
  }

  lemma {:induction false} PushKeepsNormal(absolute: bool, stack: seq<string>, segments: seq<string>)
    requires IsNormal(absolute, stack)
    requires Plain(segments)
    ensures IsNormal(absolute, Push(absolute, stack, segments))
    decreases |segments|
  {
    if |segments| > 0 {
      StepKeepsNormal(absolute, stack, segments[0]);
      PushKeepsNormal(absolute, Step(absolute, stack, segments[0]), segments[1..]);
    }
  }

  /** Segments already in normal form are pushed unchanged. */
  lemma {:induction false} PushOfNormal(absolute: bool, stack: seq<string>, segments: seq<string>)
    requires IsNormal(absolute, stack + segments)
    ensures Push(absolute, stack, segments) == stack + segments
    decreases |segments|
  {
    if |segments| > 0 {
      var all := stack + segments;
      var s := segments[0];
      assert s == all[|stack|];
      if s == ".." {
        if |stack| > 0 {
          assert all[|stack| - 1] == "..";
          assert stack[|stack| - 1] == "..";
        }
      }
      assert Step(absolute, stack, s) == stack + [s];
      assert stack + [s] + segments[1..] == all;
      PushOfNormal(absolute, stack + [s], segments[1..]);
    }
  }

  /** Pushing a concatenation is pushing its two parts one after the other. */
  lemma {:induction false} PushAppend(absolute: bool, stack: seq<string>, xs: seq<string>, ys: seq<string>)
    ensures Push(absolute, stack, xs + ys) == Push(absolute, Push(absolute, stack, xs), ys)
    decreases |xs|
  {
    if |xs| > 0 {
      assert (xs + ys)[0] == xs[0];
      assert (xs + ys)[1..] == xs[1..] + ys;
      PushAppend(absolute, Step(absolute, stack, xs[0]), xs[1..], ys);
    } else {
      assert xs + ys == ys;
    }
  }

  /** Normalizing segments yields the normal form, and segments in normal form are their own normalization. */
  lemma NormalizeSegmentsNormalForm(absolute: bool, segments: seq<string>)
    requires Plain(segments)
    ensures IsNormal(absolute, NormalizeSegments(absolute, segments))
    ensures NormalizeSegments(absolute, NormalizeSegments(absolute, segments)) == NormalizeSegments(absolute, segments)
  {
    PushKeepsNormal(absolute, [], segments);
    var n := NormalizeSegments(absolute, segments);
    assert [] + n == n;
    PushOfNormal(absolute, [], n);
  }

  /** `path.normalize`: resolves "." and "..", collapses repeated separators, keeps a trailing separator. */
  function Normalize(p: string): string {
    if |p| == 0 then "."
    else
      var absolute := p[0] == Separator;
      var trailing := p[|p| - 1] == Separator;
      var segments := NormalizeSegments(absolute, Split(p));
      if |segments| == 0 then
        if absolute then "/" else if trailing then "./" else "."
      else
        Render(absolute, trailing, segments)
  }

  lemma JoinSegmentsFirst(segments: seq<string>)
    requires |segments| >= 1 && segments[0] != ""
    ensures |JoinSegments(segments)| > 0 && JoinSegments(segments)[0] == segments[0][0]
  {
  }

  lemma {:induction false} JoinSegmentsLast(segments: seq<string>)
    requires |segments| >= 1 && segments[|segments| - 1] != ""
    ensures var j := JoinSegments(segments); |j| > 0 && j[|j| - 1] == segments[|segments| - 1][|segments[|segments| - 1]| - 1]
    decreases |segments|
  {
    if |segments| > 1 {
      JoinSegmentsLast(segments[1..]);
    }
  }

  lemma JoinSegmentsEnds(segments: seq<string>)
    requires |segments| >= 1
    requires Plain(segments)
    requires segments[0] != "" && segments[|segments| - 1] != ""
    ensures |JoinSegments(segments)| > 0
    ensures JoinSegments(segments)[0] != Separator
    ensures JoinSegments(segments)[|JoinSegments(segments)| - 1] != Separator
  {
    JoinSegmentsFirst(segments);
    JoinSegmentsLast(segments);
    var first := segments[0];
    var last := segments[|segments| - 1];
    assert first[0] in first;
    assert last[|last| - 1] in last;
  }

  /** `segments` written out with an optional leading and trailing separator. */
  function Render(absolute: bool, trailing: bool, segments: seq<string>): string
    requires |segments| >= 1
  {
    (if absolute then "/" else "") + JoinSegments(segments) + (if trailing then "/" else "")
  }

  lemma SplitRender(absolute: bool, trailing: bool, segments: seq<string>)
    requires |segments| >= 1 && Plain(segments)
    ensures Split(Render(absolute, trailing, segments))
         == (if absolute then [""] else []) + segments + (if trailing then [""] else [])
  {
    var j := JoinSegments(segments);
    SplitJoinSegments(segments);
    var tail := j + (if trailing then "/" else "");
    if trailing {
      SplitAppend(j, "");
      assert tail == j + [Separator] + "";
    } else {
      assert tail == j;
    }
    assert Split(tail) == segments + (if trailing then [""] else []);
    if absolute {
      SplitAppend("", tail);
      assert Render(absolute, trailing, segments) == "" + [Separator] + tail;
    } else {
      assert Render(absolute, trailing, segments) == tail;
    }
  }

  lemma NormalizeSegmentsPadded(absolute: bool, trailing: bool, segments: seq<string>)
    requires IsNormal(absolute, segments)
    ensures NormalizeSegments(absolute, (if absolute then [""] else []) + segments + (if trailing then [""] else []))
         == segments
  {
    var padded := segments + (if trailing then [""] else []);
    assert [] + segments == segments;
    PushOfNormal(absolute, [], segments);
    if trailing {
      PushAppend(absolute, [], segments, [""]);
      assert Push(absolute, segments, [""]) == segments;
    } else {
      assert padded == segments;
    }
    assert Push(absolute, [], padded) == segments;
    if absolute {
      var all := [""] + padded;
      assert all[0] == "" && all[1..] == padded;
      assert Push(absolute, [], all) == Push(absolute, [], padded);
      assert all == (if absolute then [""] else []) + segments + (if trailing then [""] else []);
    } else {
      assert [] + padded == padded;
    }
  }

  /** A rendered normal form is left as it is by `path.normalize`. */
  lemma NormalizeRender(absolute: bool, trailing: bool, segments: seq<string>)
    requires |segments| >= 1 && IsNormal(absolute, segments)
    ensures Normalize(Render(absolute, trailing, segments)) == Render(absolute, trailing, segments)
  {
    var q := Render(absolute, trailing, segments);
    JoinSegmentsEnds(segments);
    SplitRender(absolute, trailing, segments);
    NormalizeSegmentsPadded(absolute, trailing, segments);
    assert q[0] == Separator <==> absolute;
    assert q[|q| - 1] == Separator <==> trailing;
  }

  /** The three spellings `path.normalize` gives a path with no segments left. */
  lemma EmptyForms()
    ensures Normalize(".") == "." && Normalize("/") == "/" && Normalize("./") == "./"
  {
    SplitOfPlain(".");
    assert Push(false, [], ["."]) == [];
    SplitAppend("", "");
    assert "/" == "" + [Separator] + "";
    assert Split("/") == ["", ""];
    assert Push(true, [], ["", ""]) == [];
    SplitAppend(".", "");
    assert "./" == "." + [Separator] + "";
    assert Split("./") == [".", ""];
    assert Push(false, [], [".", ""]) == [];
  }

  /** Normalizing a normalized path changes nothing: the result of `path.normalize` is a fixpoint. */
  lemma NormalizeIdempotent(p: string)
    ensures Normalize(Normalize(p)) == Normalize(p)
  {
    if |p| == 0 {
      SplitOfPlain(".");
    } else {
      var absolute := p[0] == Separator;
      var trailing := p[|p| - 1] == Separator;
      var segments := NormalizeSegments(absolute, Split(p));
      NormalizeSegmentsNormalForm(absolute, Split(p));
      if |segments| == 0 {
        EmptyForms();
      } else {
        assert Normalize(p) == Render(absolute, trailing, segments);
        NormalizeRender(absolute, trailing, segments);
      }
    }
  }

  /** Index of the separator that ends the directory part, scanning left from `i` as `path.dirname` does; -1 when there is none. */
  function DirnameEnd(p: string, i: int, matchedSlash: bool): (end: int)
    requires i < |p|
    ensures end == -1 || (1 <= end <= i && p[end] == Separator)
    decreases i
  {
    if i < 1 then -1
    else if p[i] == Separator then
      if matchedSlash then DirnameEnd(p, i - 1, true) else i
    else DirnameEnd(p, i - 1, false)
  }

  /** `path.dirname`: the path with its last segment (and any trailing separators) removed. */
  function Dirname(p: string): string {
    if |p| == 0 then "."
    else
      var end := DirnameEnd(p, |p| - 1, true);
      if end == -1 then (if p[0] == Separator then "/" else ".")
      else if p[0] == Separator && end == 1 then "//"
      else p[..end]
  }

  lemma {:induction false} DirnameEndSkipsName(p: string, k: int, i: int, matchedSlash: bool)
    requires 1 <= k < i < |p|
    requires p[k] == Separator
    requires forall j | k < j <= i :: p[j] != Separator
    ensures DirnameEnd(p, i, matchedSlash) == k
    decreases i
  {
    if i - 1 > k {
      DirnameEndSkipsName(p, k, i - 1, false);
    }
  }

  /** The directory of `dir/name` is `dir`, for a non-empty last segment `name` (the root "/" excepted, whose child's dirname is "//"). */
  lemma DirnameOfChild(dir: string, name: string)
    requires |dir| > 0 && dir != "/"
    requires |name| > 0 && Separator !in name
    ensures Dirname(dir + [Separator] + name) == dir
  {
    var p := dir + [Separator] + name;
    forall j | |dir| < j <= |p| - 1
      ensures p[j] != Separator
    {
      assert p[j] == name[j - |dir| - 1];
    }
    DirnameEndSkipsName(p, |dir|, |p| - 1, true);
    assert p[..|dir|] == dir;
  }

  /** `path.join(a, b)`: the non-empty arguments joined by a separator, then normalized. */
  function Join(a: string, b: string): string {
    var joined := if |a| == 0 then b else if |b| == 0 then a else a + [Separator] + b;
    Normalize(joined)
  }

  /** The dependency value recorded for specifier `spec` imported by `file`: "./" followed by `path.join(path.dirname(file), spec)`. */
  function Resolve(file: string, spec: string): string {
    "./" + Join(Dirname(file), spec)
  }

  /** Every resolved dependency value is "./" followed by a path in normal form. */
  lemma ResolveNormalForm(file: string, spec: string)
    ensures |Resolve(file, spec)| >= 2 && Resolve(file, spec)[..2] == "./"
    ensures Normalize(Resolve(file, spec)[2..]) == Resolve(file, spec)[2..]
  {
    var joined := Join(Dirname(file), spec);
    assert Resolve(file, spec)[2..] == joined;
    var d := Dirname(file);
    NormalizeIdempotent(if |d| == 0 then spec else if |spec| == 0 then d else d + [Separator] + spec);
  }

  lemma SplitSibling(dir: string, m: string)
    requires Separator !in m
    ensures Split(dir + [Separator] + ("./" + m)) == Split(dir) + [".", m]
  {
    assert "./" + m == "." + [Separator] + m;
    SplitAppend(".", m);
    SplitAppend(dir, "./" + m);
    SplitOfPlain(".");
    SplitOfPlain(m);
  }

  lemma PushDotName(stack: seq<string>, m: string)
    requires m != "" && m != "." && m != ".."
    ensures Push(false, stack, [".", m]) == stack + [m]
  {
    var segs := [".", m];
    assert segs[0] == "." && segs[1..] == [m];
    calc {
      Push(false, stack, segs);
      Push(false, Step(false, stack, "."), [m]);
      Push(false, stack, [m]);
      { assert [m][0] == m && [m][1..] == []; }
      Push(false, Step(false, stack, m), []);
      stack + [m];
    }
  }

  /** `path.join(dir, "./" + m)` is the normalized directory followed by `m`. */
  lemma JoinSibling(dir: string, m: string, dirSegments: seq<string>)
    requires |dir| > 0 && dir[0] != Separator
    requires |m| > 0 && Separator !in m && m != "." && m != ".."
    requires NormalizeSegments(false, Split(dir)) == dirSegments
    ensures Join(dir, "./" + m) == JoinSegments(dirSegments + [m])
  {
    var joined := dir + [Separator] + ("./" + m);
    SplitSibling(dir, m);
    PushAppend(false, [], Split(dir), [".", m]);
    PushDotName(dirSegments, m);
    assert NormalizeSegments(false, Split(joined)) == dirSegments + [m];
    assert joined[0] == dir[0];
    assert joined[|joined| - 1] == m[|m| - 1];
    assert m[|m| - 1] in m;
    assert Normalize(joined) == Render(false, false, dirSegments + [m]);
    assert Render(false, false, dirSegments + [m]) == JoinSegments(dirSegments + [m]);
  }

  /**
    A sibling import "./m" from `dir/name` resolves to "./" followed by the importer's
    normalized directory `dirSegments` and `m`, for a relative `dir`.
   */
  lemma ResolveSibling(dir: string, name: string, m: string, dirSegments: seq<string>)
    requires |dir| > 0 && dir[0] != Separator
    requires |name| > 0 && Separator !in name
    requires |m| > 0 && Separator !in m && m != "." && m != ".."
    requires NormalizeSegments(false, Split(dir)) == dirSegments
    ensures Resolve(dir + [Separator] + name, "./" + m) == "./" + JoinSegments(dirSegments + [m])
  {
    DirnameOfChild(dir, name);
    JoinSibling(dir, m, dirSegments);
  }
}
