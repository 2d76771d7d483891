/** POSIX paths as `path.join` builds them, and the scratch filesystem as a
    set of existing paths. A `Path` is the normalised form: whether it is
    absolute, and its segments with every `""`, `.` and resolvable `..`
    removed. */
module Paths {

  datatype Path = Path(absolute: bool, segments: seq<string>)

  /** A segment that normalisation keeps as it is. */
  predicate Plain(seg: string)
  {
    seg != "" && seg != "." && seg != ".." && '/' !in seg
  }

  predicate AllPlain(segs: seq<string>)
  {
    forall k :: 0 <= k < |segs| ==> Plain(segs[k])
  }

  /** Index of the first `/` at or after `i`, or `|s|` when there is none. */
  function SlashIndex(s: string, i: nat): (j: nat)
    requires i <= |s|
    ensures i <= j <= |s|
    ensures forall k :: i <= k < j ==> s[k] != '/'
    ensures j < |s| ==> s[j] == '/'
    decreases |s| - i
  {
    if i == |s| || s[i] == '/' then i else SlashIndex(s, i + 1)
  }

  /** The pieces of `s` between separators (`s.split("/")`). */
  function Split(s: string): (parts: seq<string>)
    ensures |parts| >= 1
    ensures forall k :: 0 <= k < |parts| ==> '/' !in parts[k]
    decreases |s|
  {
    var i := SlashIndex(s, 0);
    if i == |s| then
      assert forall c :: c in s ==> c != '/';
      [s]
    else
      assert forall c :: c in s[..i] ==> c != '/';
      [s[..i]] + Split(s[i + 1..])
  }

  /** The pieces glued back with separators (`parts.join("/")`). */
  function Unsplit(parts: seq<string>): string
    requires |parts| >= 1
    decreases |parts|
  {
    if |parts| == 1 then parts[0] else parts[0] + "/" + Unsplit(parts[1..])
  }

  /** A string without separators is a single piece. */
  lemma SplitSegment(s: string)
    requires '/' !in s
    ensures Split(s) == [s]
  {
    assert forall k :: 0 <= k < |s| ==> s[k] != '/' by {
      forall k | 0 <= k < |s| ensures s[k] != '/' {
        assert s[k] in s;
      }
    }
    assert SlashIndex(s, 0) == |s|;
  }

  /** Splitting distributes over a separator. */
  lemma {:induction false} SplitConcat(a: string, b: string)
    ensures Split(a + "/" + b) == Split(a) + Split(b)
    decreases |a|
  {
    var s := a + "/" + b;
    var i := SlashIndex(a, 0);
    forall k | 0 <= k < i ensures s[k] != '/' {
      assert s[k] == a[k];
    }
    if i == |a| {
      assert s[i] == '/';
      assert SlashIndex(s, 0) == i;
      assert s[..i] == a && s[i + 1..] == b;
    } else {
      assert s[i] == a[i];
      assert SlashIndex(s, 0) == i;
      assert s[..i] == a[..i];
      assert s[i + 1..] == a[i + 1..] + "/" + b;
      SplitConcat(a[i + 1..], b);
    }
  }

  /** One step of `normalizeString`: `""` and `.` vanish, `..` removes the
      last kept segment, or stays (relative path) or vanishes (absolute path)
      when there is none to remove; anything else is kept. */
  function Step(absolute: bool, stack: seq<string>, seg: string): seq<string>
  {
    if seg == "" || seg == "." then stack
    else if seg == ".." then
      if |stack| > 0 && stack[|stack| - 1] != ".." then stack[..|stack| - 1]
      else if absolute then stack
      else stack + [".."]
    else stack + [seg]
  }

  /** `normalizeString` over a list of segments, left to right. */
  function Resolve(absolute: bool, stack: seq<string>, segs: seq<string>): seq<string>
    decreases |segs|
  {
    if segs == [] then stack else Resolve(absolute, Step(absolute, stack, segs[0]), segs[1..])
  }

  /** Resolution of a concatenation continues from the first part's result. */
  lemma {:induction false} ResolveConcat(absolute: bool, stack: seq<string>, a: seq<string>, b: seq<string>)
    ensures Resolve(absolute, stack, a + b) == Resolve(absolute, Resolve(absolute, stack, a), b)
    decreases |a|
  {
    if a != [] {
      assert (a + b)[0] == a[0];
      assert (a + b)[1..] == a[1..] + b;
      ResolveConcat(absolute, Step(absolute, stack, a[0]), a[1..], b);
    } else {
      assert a + b == b;
    }
  }

  /** Plain segments are appended unchanged. */
  lemma {:induction false} ResolvePlain(absolute: bool, stack: seq<string>, segs: seq<string>)
    requires AllPlain(segs)
    ensures Resolve(absolute, stack, segs) == stack + segs
    decreases |segs|
  {
    if segs != [] {
      assert Plain(segs[0]);
      ResolvePlain(absolute, stack + [segs[0]], segs[1..]);
      assert stack + [segs[0]] + segs[1..] == stack + segs;
    }
  }

  /** A segment followed by `..` cancels out. */
  lemma ResolveCancel(absolute: bool, stack: seq<string>, seg: string)
    requires seg != "" && seg != "." && seg != ".."
    ensures Resolve(absolute, stack, [seg, ".."]) == stack
  {
    assert [seg, ".."][1..] == [".."] && [".."][1..] == [];
    assert (stack + [seg])[..|stack|] == stack;
    assert Resolve(absolute, stack + [seg], [".."]) == stack;
  }

  /** A `.` before or after a plain segment vanishes. */
  lemma ResolveDots(absolute: bool, stack: seq<string>, seg: string)
    requires Plain(seg)
    ensures Resolve(absolute, stack, [seg, "."]) == stack + [seg]
    ensures Resolve(absolute, stack, [".", seg]) == stack + [seg]
  {
    assert [seg, "."][1..] == ["."] && ["."][1..] == [];
    assert Resolve(absolute, stack + [seg], ["."]) == stack + [seg];
    assert [".", seg][1..] == [seg] && [seg][1..] == [];
    assert Resolve(absolute, stack, [seg]) == stack + [seg];
  }

  /** `path.normalize`, without the trailing separator it would keep. */
  function Normalize(s: string): Path
  {
    var absolute := |s| > 0 && s[0] == '/';
    Path(absolute, Resolve(absolute, [], Split(s)))
  }

  /** The string `path.join` normalises: the non-empty arguments separated by `/`. */
  function JoinArgs(args: seq<string>): string
    decreases |args|
  {
    if args == [] then ""
    else
      var init, last := JoinArgs(args[..|args| - 1]), args[|args| - 1];
      if last == "" then init else if init == "" then last else init + "/" + last
  }

  /** `path.join(...args)`: always a path in normal form. */
  function Join(args: seq<string>): (p: Path)
    ensures Normal(p)
  {
    NormalizeNormal(JoinArgs(args));
    Normalize(JoinArgs(args))
  }

  /** A segment normalisation keeps: not empty, not `.`, without `/`. */
  predicate Kept(seg: string)
  {
    seg != "" && seg != "." && '/' !in seg
  }

  /** The normal form: every segment kept, and `..` only in a leading run of
      a relative path. */
  predicate Normal(p: Path)
  {
    NormalStack(p.absolute, p.segments)
  }

  predicate NormalStack(absolute: bool, stack: seq<string>)
  {
    && (forall k :: 0 <= k < |stack| ==> Kept(stack[k]))
    && (forall k :: 0 <= k < |stack| && stack[k] == ".." ==>
          !absolute && forall j :: 0 <= j < k ==> stack[j] == "..")
  }

  /** One step keeps the stack in normal form. */
  lemma StepNormal(absolute: bool, stack: seq<string>, seg: string)
    requires NormalStack(absolute, stack) && '/' !in seg
    ensures NormalStack(absolute, Step(absolute, stack, seg))
  {
    if seg == ".." && (|stack| == 0 || stack[|stack| - 1] == "..") && !absolute {
      var r := stack + [".."];
      forall k | 0 <= k < |r| && r[k] == ".." ensures forall j :: 0 <= j < k ==> r[j] == ".." {
        if k == |stack| && k > 0 {
          assert stack[k - 1] == "..";
        }
      }
    }
  }

  /** Resolution keeps the stack in normal form. */
  lemma {:induction false} ResolveNormal(absolute: bool, stack: seq<string>, segs: seq<string>)
    requires NormalStack(absolute, stack)
    requires forall k :: 0 <= k < |segs| ==> '/' !in segs[k]
    ensures NormalStack(absolute, Resolve(absolute, stack, segs))
    decreases |segs|
  {
    if segs != [] {
      StepNormal(absolute, stack, segs[0]);
      ResolveNormal(absolute, Step(absolute, stack, segs[0]), segs[1..]);
    }
  }

  /** `path.normalize` yields the normal form. */
  lemma NormalizeNormal(s: string)
    ensures Normal(Normalize(s))
  {
    var absolute := |s| > 0 && s[0] == '/';
    ResolveNormal(absolute, [], Split(s));
  }

  /** A normal path written out: `/` in front of an absolute one, segments
      separated by `/`. */
  function Render(p: Path): string
  {
    var lead := if p.absolute then "/" else "";
    if p.segments == [] then lead else lead + Unsplit(p.segments)
  }

  /** Splitting undoes `Unsplit` when no piece holds a separator. */
  lemma {:induction false} SplitOfUnsplit(parts: seq<string>)
    requires |parts| >= 1 && forall k :: 0 <= k < |parts| ==> '/' !in parts[k]
    ensures Split(Unsplit(parts)) == parts
    decreases |parts|
  {
    SplitSegment(parts[0]);
    if |parts| > 1 {
      var rest := parts[1..];
      SplitOfUnsplit(rest);
      assert Unsplit(parts) == parts[0] + "/" + Unsplit(rest);
      SplitConcat(parts[0], Unsplit(rest));
      assert parts == [parts[0]] + rest;
    }
  }

  /** Resolving the rest of a normal path onto its beginning appends it. */
  lemma {:induction false} ResolveNormalTail(absolute: bool, stack: seq<string>, segs: seq<string>)
    requires NormalStack(absolute, stack + segs)
    ensures Resolve(absolute, stack, segs) == stack + segs
    decreases |segs|
  {
    if segs != [] {
      var all := stack + segs;
      assert all[|stack|] == segs[0];
      assert Kept(segs[0]);
      if segs[0] == ".." {
        assert !absolute;
        if |stack| > 0 {
          assert stack[|stack| - 1] == all[|stack| - 1] == "..";
        }
      }
      assert Step(absolute, stack, segs[0]) == stack + [segs[0]];
      assert stack + [segs[0]] + segs[1..] == all;
      ResolveNormalTail(absolute, stack + [segs[0]], segs[1..]);
    }
  }

  /** The first character of glued pieces is the first piece's. */
  lemma UnsplitHead(parts: seq<string>)
    requires |parts| >= 1 && |parts[0]| > 0
    ensures |Unsplit(parts)| > 0 && Unsplit(parts)[0] == parts[0][0]
  {
  }

  /** Writing a normal path out and normalising it gives the path back. */
  lemma NormalizeRender(p: Path)
    requires Normal(p)
    ensures Normalize(Render(p)) == p
  {
    var segs := p.segments;
    if segs == [] {
      if p.absolute {
        SplitSegment("");
        RenderAbsolute("", [""]);
        assert Render(p) == "/" + "";
        assert Resolve(true, [], [""]) == Resolve(true, [], []);
      } else {
        SplitSegment("");
      }
    } else {
      assert forall k :: 0 <= k < |segs| ==> '/' !in segs[k] by {
        forall k | 0 <= k < |segs| ensures '/' !in segs[k] { assert Kept(segs[k]); }
      }
      var u := Unsplit(segs);
      SplitOfUnsplit(segs);
      ResolveNormalTail(p.absolute, [], segs);
      assert [] + segs == segs;
      if p.absolute {
        RenderAbsolute(u, segs);
      } else {
        assert Kept(segs[0]);
        UnsplitHead(segs);
        assert Render(p) == u && u[0] != '/';
      }
    }
  }

  /** A leading `/` in front of separated pieces marks the path absolute and
      leaves the pieces to resolve from the root. */
  lemma RenderAbsolute(u: string, segs: seq<string>)
    requires Split(u) == segs
    ensures Normalize("/" + u) == Path(true, Resolve(true, [], segs))
  {
    assert "/" + u == "" + "/" + u;
    SplitConcat("", u);
    SplitSegment("");
    assert Split("/" + u) == [""] + segs;
    assert ([""] + segs)[1..] == segs;
  }

  /** Joining `t` onto a non-empty path string resolves `t`'s segments on
      top of the normalised form of the path: `..` in `t` climbs out of it. */
  lemma NormalizeAppend(s: string, t: string)
    requires |s| > 0
    ensures Normalize(s + "/" + t)
            == Path(Normalize(s).absolute, Resolve(Normalize(s).absolute, Normalize(s).segments, Split(t)))
  {
    var absolute := s[0] == '/';
    assert (s + "/" + t)[0] == s[0];
    SplitConcat(s, t);
    ResolveConcat(absolute, [], Split(s), Split(t));
  }

  /** Appending plain segments to a non-empty path string appends them to its
      normalised form. */
  lemma NormalizeExtend(s: string, t: string)
    requires |s| > 0 && AllPlain(Split(t))
    ensures Normalize(s + "/" + t) == Path(Normalize(s).absolute, Normalize(s).segments + Split(t))
  {
    NormalizeAppend(s, t);
    ResolvePlain(Normalize(s).absolute, Normalize(s).segments, Split(t));
  }

  /** `p` is `root` or lies below it. */
  predicate Within(p: Path, root: Path)
  {
    p.absolute == root.absolute && root.segments <= p.segments
  }

  /** `p` lies strictly below `root`. */
  predicate StrictlyWithin(p: Path, root: Path)
  {
    Within(p, root) && |p.segments| > |root.segments|
  }

  /** The directories strictly above `p`, from the root down: what
      creating `p`'s missing parent directories may add. */
  function Ancestors(p: Path): (above: set<Path>)
    ensures forall q :: q in above <==> Within(p, q) && q != p
  {
    var above := set k | 0 <= k < |p.segments| :: Path(p.absolute, p.segments[..k]);
    forall q | Within(p, q) && q != p ensures q in above {
      var k := |q.segments|;
      assert q.segments == p.segments[..k];
      assert k < |p.segments|;
    }
    above
  }

  /** The paths that exist. */
  type FileSystem = set<Path>

  /** Recursive, forced removal: `dir` and everything
      below it are gone; a missing `dir` is not an error. */
  function RemoveTree(fs: FileSystem, dir: Path): (fs': FileSystem)
    ensures forall p :: p in fs' <==> p in fs && !Within(p, dir)
  {
    set p | p in fs && !Within(p, dir)
  }

  /** With `force`, removing a directory that is not there leaves the
      filesystem as it was instead of failing. */
  lemma RemoveMissing(fs: FileSystem, dir: Path)
    requires forall p :: p in fs ==> !Within(p, dir)
    ensures RemoveTree(fs, dir) == fs
  {
  }

  /** Removing the same directory twice is removing it once, so the removal
      before the clone and the one in `finally` never conflict. */
  lemma RemoveTreeIdempotent(fs: FileSystem, dir: Path)
    ensures RemoveTree(RemoveTree(fs, dir), dir) == RemoveTree(fs, dir)
  {
  }
}
