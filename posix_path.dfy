/** POSIX path arithmetic as Node's `path` module performs it, on strings:
    `resolve`, `join`, `relative`, `dirname` and `basename`. Paths are split
    into segments at every `/`; normalisation drops empty and `.` segments
    and lets `..` remove the segment before it. */
module PosixPath {

  import opened Strings

  predicate IsAbsolute(p: string)
  {
    |p| > 0 && p[0] == '/'
  }

  /** The segments of `s` between its `/` characters (never empty: the
      empty string is one empty segment). */
  function Split(s: string): (r: seq<string>)
    ensures |r| >= 1
    ensures forall i :: 0 <= i < |r| ==> '/' !in r[i]
  {
    if s == [] then [[]]
    else if s[0] == '/' then [[]] + Split(s[1..])
    else
      var t := Split(s[1..]);
      [[s[0]] + t[0]] + t[1..]
  }

  /** The segments put back together with `/` between them. */
  function JoinSegs(segs: seq<string>): string
  {
    if segs == [] then []
    else if |segs| == 1 then segs[0]
    else segs[0] + "/" + JoinSegs(segs[1..])
  }

  /** Splitting undoes joining. */
  lemma {:induction false} JoinSplit(s: string)
    ensures JoinSegs(Split(s)) == s
  {
    if s == [] {
    } else if s[0] == '/' {
      JoinSplit(s[1..]);
      assert Split(s) == [[]] + Split(s[1..]);
    } else {
      JoinSplit(s[1..]);
      var t := Split(s[1..]);
      if |t| == 1 {
        assert s == [s[0]] + t[0];
      } else {
        assert JoinSegs(t) == t[0] + "/" + JoinSegs(t[1..]);
        assert Split(s)[1..] == t[1..];
        assert s == ([s[0]] + t[0]) + "/" + JoinSegs(t[1..]);
      }
    }
  }

  /** A string without `/` is a single segment. */
  lemma {:induction false} SplitNoSlash(s: string)
    requires '/' !in s
    ensures Split(s) == [s]
  {
    if s != [] {
      assert s[0] in s;
      assert forall c :: c in s[1..] ==> c in s;
      SplitNoSlash(s[1..]);
      assert s == [s[0]] + s[1..];
    }
  }

  /** Joining undoes splitting, for segments without `/`. */
  lemma {:induction false} SplitJoin(segs: seq<string>)
    requires segs != []
    requires forall i :: 0 <= i < |segs| ==> '/' !in segs[i]
    ensures Split(JoinSegs(segs)) == segs
  {
    SplitNoSlash(segs[0]);
    if |segs| > 1 {
      SplitJoin(segs[1..]);
      SplitAtSlash(segs[0], JoinSegs(segs[1..]));
    }
  }

  /** Splitting at an inserted `/` splits the two halves separately. */
  lemma {:induction false} SplitAtSlash(a: string, b: string)
    ensures Split(a + "/" + b) == Split(a) + Split(b)
  {
    if a == [] {
      assert a + "/" + b == "/" + b;
      assert ("/" + b)[1..] == b;
    } else {
      assert (a + "/" + b)[1..] == a[1..] + "/" + b;
      SplitAtSlash(a[1..], b);
    }
  }

  lemma {:induction false} JoinSegsAppend(a: seq<string>, b: seq<string>)
    requires a != [] && b != []
    ensures JoinSegs(a + b) == JoinSegs(a) + "/" + JoinSegs(b)
  {
    if |a| == 1 {
      assert (a + b)[1..] == b;
    } else {
      assert (a + b)[1..] == a[1..] + b;
      JoinSegsAppend(a[1..], b);
    }
  }

  /** Node's segment normalisation over the segments still to read: empty
      and `.` segments are dropped; `..` removes the last kept segment unless
      that is itself `..`; otherwise it is kept for relative paths
      (`allowAboveRoot`) and dropped for absolute ones. */
  function NormFrom(kept: seq<string>, rest: seq<string>, allowAboveRoot: bool): seq<string>
    decreases |rest|
  {
    if rest == [] then kept
    else
      var seg := rest[0];
      if seg == "" || seg == "." then NormFrom(kept, rest[1..], allowAboveRoot)
      else if seg == ".." then
        if |kept| > 0 && kept[|kept| - 1] != ".." then NormFrom(kept[..|kept| - 1], rest[1..], allowAboveRoot)
        else if allowAboveRoot then NormFrom(kept + [".."], rest[1..], allowAboveRoot)
        else NormFrom(kept, rest[1..], allowAboveRoot)
      else NormFrom(kept + [seg], rest[1..], allowAboveRoot)
  }

  /** A segment that survives normalisation unchanged. */
  predicate IsPlainSegment(seg: string)
  {
    seg != "" && seg != "." && seg != ".."
  }

  /** The segments of `segs` that are neither empty nor `.`. */
  function Clean(segs: seq<string>): (r: seq<string>)
    ensures forall i :: 0 <= i < |r| ==> r[i] in segs && r[i] != "" && r[i] != "."
  {
    if segs == [] then []
    else if segs[0] == "" || segs[0] == "." then Clean(segs[1..])
    else [segs[0]] + Clean(segs[1..])
  }

  lemma {:induction false} NormFromAppend(kept: seq<string>, xs: seq<string>, ys: seq<string>, above: bool)
    ensures NormFrom(kept, xs + ys, above) == NormFrom(NormFrom(kept, xs, above), ys, above)
    decreases |xs|
  {
    if xs == [] {
      assert xs + ys == ys;
    } else {
      assert (xs + ys)[0] == xs[0] && (xs + ys)[1..] == xs[1..] + ys;
      var seg := xs[0];
      if seg == "" || seg == "." {
        NormFromAppend(kept, xs[1..], ys, above);
      } else if seg == ".." {
        if |kept| > 0 && kept[|kept| - 1] != ".." {
          NormFromAppend(kept[..|kept| - 1], xs[1..], ys, above);
        } else if above {
          NormFromAppend(kept + [".."], xs[1..], ys, above);
        } else {
          NormFromAppend(kept, xs[1..], ys, above);
        }
      } else {
        NormFromAppend(kept + [seg], xs[1..], ys, above);
      }
    }
  }

  /** Without `..` segments normalisation only drops empty and `.` ones. */
  lemma {:induction false} NormFromNoParent(kept: seq<string>, ys: seq<string>, above: bool)
    requires ".." !in ys
    ensures NormFrom(kept, ys, above) == kept + Clean(ys)
    decreases |ys|
  {
    if ys != [] {
      assert ".." !in ys[1..] by { assert forall i :: 0 <= i < |ys| - 1 ==> ys[1..][i] == ys[i + 1]; }
      if ys[0] == "" || ys[0] == "." {
        NormFromNoParent(kept, ys[1..], above);
      } else {
        NormFromNoParent(kept + [ys[0]], ys[1..], above);
        assert kept + [ys[0]] + Clean(ys[1..]) == kept + ([ys[0]] + Clean(ys[1..]));
      }
    }
  }

  /** The directory `path.resolve` starts from when `p` is relative: `base`
      itself when it is absolute, otherwise `base` under `cwd`. */
  function ResolveBase(cwd: string, base: string): string
  {
    if IsAbsolute(base) then base else cwd + "/" + base
  }

  /** The segments of `path.resolve(base, p)`, where `cwd` is the process's
      working directory (an absolute path). An empty argument is skipped, as
      Node skips it. */
  function ResolveSegs(cwd: string, base: string, p: string): seq<string>
  {
    var combined := if IsAbsolute(p) then p else ResolveBase(cwd, base) + "/" + p;
    NormFrom([], Split(combined), false)
  }

  /** `path.resolve(base, p)`: always absolute, no trailing `/` except for
      the root itself. `path.resolve(base)` is `Resolve(cwd, base, "")`. */
  function Resolve(cwd: string, base: string, p: string): string
  {
    "/" + JoinSegs(ResolveSegs(cwd, base, p))
  }

  /** Segments as a resolved absolute path has them. */
  predicate PlainSegs(segs: seq<string>)
  {
    forall i :: 0 <= i < |segs| ==> IsPlainSegment(segs[i]) && '/' !in segs[i]
  }

  /** Normalising an absolute path keeps only plain segments. */
  lemma {:induction false} NormFromPlain(kept: seq<string>, rest: seq<string>)
    requires PlainSegs(kept)
    requires forall i :: 0 <= i < |rest| ==> '/' !in rest[i]
    ensures PlainSegs(NormFrom(kept, rest, false))
    decreases |rest|
  {
    if rest != [] {
      assert forall i :: 0 <= i < |rest| - 1 ==> rest[1..][i] == rest[i + 1];
      var seg := rest[0];
      if seg == "" || seg == "." {
        NormFromPlain(kept, rest[1..]);
      } else if seg == ".." {
        if |kept| > 0 && kept[|kept| - 1] != ".." {
          NormFromPlain(kept[..|kept| - 1], rest[1..]);
        } else {
          NormFromPlain(kept, rest[1..]);
        }
      } else {
        NormFromPlain(kept + [seg], rest[1..]);
      }
    }
  }

  lemma ResolveSegsPlain(cwd: string, base: string, p: string)
    ensures PlainSegs(ResolveSegs(cwd, base, p))
  {
    var combined := if IsAbsolute(p) then p else ResolveBase(cwd, base) + "/" + p;
    NormFromPlain([], Split(combined));
  }

  /** Plain segments joined neither vanish nor end in `/`. */
  lemma JoinPlainLast(segs: seq<string>)
    requires segs != [] && PlainSegs(segs)
    ensures |JoinSegs(segs)| > 0 && JoinSegs(segs)[|JoinSegs(segs)| - 1] != '/'
  {
    var n := |segs|;
    var last := segs[n - 1];
    assert |last| > 0 && last[|last| - 1] in last;
    if n > 1 {
      assert segs == segs[..n - 1] + [last];
      JoinSegsAppend(segs[..n - 1], [last]);
    }
  }

  /** `path.normalize(s)`, except that a trailing `/` is not kept. */
  function Normalize(s: string): string
  {
    if s == [] then "."
    else if IsAbsolute(s) then "/" + JoinSegs(NormFrom([], Split(s), false))
    else
      var segs := NormFrom([], Split(s), true);
      if segs == [] then "." else JoinSegs(segs)
  }

  /** `path.join(a, b)`: the non-empty arguments joined by `/`, normalised
      (a trailing `/` is not kept). */
  function JoinPath(a: string, b: string): string
  {
    Normalize(if a == [] then b else if b == [] then a else a + "/" + b)
  }

  /** Length of the longest common prefix of two segment lists. */
  function CommonLen(xs: seq<string>, ys: seq<string>): (k: nat)
    ensures k <= |xs| && k <= |ys| && xs[..k] == ys[..k]
    ensures k < |xs| && k < |ys| ==> xs[k] != ys[k]
  {
    if xs == [] || ys == [] || xs[0] != ys[0] then 0
    else
      var k := CommonLen(xs[1..], ys[1..]);
      assert xs[..k + 1] == [xs[0]] + xs[1..][..k];
      assert ys[..k + 1] == [ys[0]] + ys[1..][..k];
      k + 1
  }

  function Parents(n: nat): (r: seq<string>)
    ensures |r| == n && forall i :: 0 <= i < n ==> r[i] == ".."
  {
    if n == 0 then [] else Parents(n - 1) + [".."]
  }

  /** `path.relative(from, to)`: climb out of `from` with `..` to the
      deepest common ancestor, then descend into `to`; the empty string when
      both resolve to the same path. */
  function Relative(cwd: string, from: string, to: string): string
  {
    var fs := ResolveSegs(cwd, from, "");
    var ts := ResolveSegs(cwd, to, "");
    var k := CommonLen(fs, ts);
    JoinSegs(Parents(|fs| - k) + ts[k..])
  }

  /** The `end` index of Node's `dirname` scan: walking from index `i` down
      to 1, the first `/` seen after a non-`/` character; -1 if there is
      none. */
  function DirEnd(p: string, i: nat, matchedSlash: bool): (r: int)
    requires i < |p|
    ensures r == -1 || 1 <= r <= i
    ensures matchedSlash && r != -1 ==> r < i
    ensures r != -1 ==> p[r] == '/'
    decreases i
  {
    if i < 1 then -1
    else if p[i] == '/' then (if !matchedSlash then i else DirEnd(p, i - 1, matchedSlash))
    else DirEnd(p, i - 1, false)
  }

  /** `path.dirname(p)`. */
  function Dirname(p: string): string
  {
    if p == [] then "."
    else
      var end := DirEnd(p, |p| - 1, true);
      if end == -1 then (if p[0] == '/' then "/" else ".")
      else if p[0] == '/' && end == 1 then "//"
      else p[..end]
  }

  /** `dirname` leaves exactly the filesystem root `/` and the current
      directory `.` where they are. */
  lemma DirnameFixedPoint(p: string)
    ensures Dirname(p) == p <==> p == "/" || p == "."
  {
    if p != [] {
      var end := DirEnd(p, |p| - 1, true);
      if end != -1 {
        assert end < |p| - 1;
        if p[0] == '/' && end == 1 {
          assert |p| >= 3;
        } else {
          assert |p[..end]| < |p|;
        }
      }
    }
  }

  /** For an absolute path other than `/`, `dirname` is a strictly shorter
      absolute path: repeated `dirname` reaches the root. */
  lemma DirnameShorter(p: string)
    requires IsAbsolute(p) && p != "/"
    ensures IsAbsolute(Dirname(p)) && |Dirname(p)| < |p|
  {
    var end := DirEnd(p, |p| - 1, true);
    if end != -1 {
      assert end < |p| - 1;
    }
  }

  /** The last non-empty segment. */
  function LastNonEmpty(segs: seq<string>): (r: string)
    ensures r == "" || r in segs
  {
    if segs == [] then ""
    else if segs[|segs| - 1] != "" then segs[|segs| - 1]
    else LastNonEmpty(segs[..|segs| - 1])
  }

  /** `path.basename(p)`: the last segment, ignoring trailing `/`s. */
  function Basename(p: string): string
  {
    LastNonEmpty(Split(p))
  }
}
