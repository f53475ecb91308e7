/** The gateway's containment as its comment means it: a request may touch
    only the root directory and what lies below it. The string-prefix check
    lets two kinds of path through that lie elsewhere; this module states
    the directory check, proves it is segment-wise containment, and guards
    the `POST` handler with it. */
module ConfinedGateway {

  import opened Common
  import opened Strings
  import opened PosixPath
  import opened FileGateway

  /** The resolved path is the resolved root or lies below it. */
  predicate Within(cwd: string, root: string, p: string)
  {
    InTree(Resolve(cwd, root, ""), Resolve(cwd, root, p))
  }

  lemma NotSlashEnded(x: string)
    requires |x| > 0 && x[|x| - 1] != '/'
    ensures !EndsWith("/" + x, "/")
  {
    var r := "/" + x;
    assert r[|r| - 1] == x[|x| - 1];
    assert r[|r| - 1..] == [x[|x| - 1]];
  }

  lemma InTreeSlash(x: string, z: string)
    requires |x| > 0 && x[|x| - 1] != '/'
    ensures InTree("/" + x, "/" + (x + "/" + z))
  {
    NotSlashEnded(x);
    assert "/" + (x + "/" + z) == ("/" + x + "/") + z;
  }

  lemma InTreeRest(x: string, y: string)
    requires |x| > 0 && x[|x| - 1] != '/'
    requires InTree("/" + x, "/" + y) && y != x
    ensures |x| + 1 <= |y| && y == x + "/" + y[|x| + 1..]
  {
    NotSlashEnded(x);
    var t := "/" + y;
    assert t != "/" + x by { assert t[1..] == y && ("/" + x)[1..] == x; }
    assert IsPrefix("/" + x + "/", t);
    assert t[1..] == y;
    assert y[..|x| + 1] == t[1..|x| + 2];
  }

  /** Segments extended by more segments give a path below. */
  lemma TreeFromSegPrefix(a: seq<string>, b: seq<string>)
    requires PlainSegs(a) && PlainSegs(b) && a <= b
    ensures InTree("/" + JoinSegs(a), "/" + JoinSegs(b))
  {
    if a == [] {
      assert "/" + JoinSegs(a) == "/";
      assert EndsWith("/", "/");
    } else if a != b {
      JoinPlainLast(a);
      var c := b[|a|..];
      assert b == a + c;
      JoinSegsAppend(a, c);
      InTreeSlash(JoinSegs(a), JoinSegs(c));
    }
  }

  /** A path below consists of the root's segments and more. */
  lemma SegPrefixFromTree(a: seq<string>, b: seq<string>)
    requires PlainSegs(a) && PlainSegs(b)
    requires InTree("/" + JoinSegs(a), "/" + JoinSegs(b))
    ensures a <= b
  {
    if a != [] {
      JoinPlainLast(a);
      SplitJoin(a);
      if b != [] {
        SplitJoin(b);
      }
      var x := JoinSegs(a);
      var y := JoinSegs(b);
      if y != x {
        InTreeRest(x, y);
        var rest := y[|x| + 1..];
        SplitAtSlash(x, rest);
        assert b == a + Split(rest);
      } else {
        assert b == a;
      }
    }
  }

  /** Directory containment is exactly a prefix relation on the resolved
      segments. */
  lemma WithinIsSegmentPrefix(cwd: string, root: string, p: string)
    ensures Within(cwd, root, p) <==> ResolveSegs(cwd, root, "") <= ResolveSegs(cwd, root, p)
  {
    var a := ResolveSegs(cwd, root, "");
    var b := ResolveSegs(cwd, root, p);
    ResolveSegsPlain(cwd, root, "");
    ResolveSegsPlain(cwd, root, p);
    if a <= b {
      TreeFromSegPrefix(a, b);
    }
    if Within(cwd, root, p) {
      SegPrefixFromTree(a, b);
    }
  }

  /** The sibling whose name extends the root's is not within it. */
  lemma SiblingNotWithin()
    ensures !Within("/", "/root", "../rootX/a.md")
  {
    SiblingPrefixPasses();
    WithinIsSegmentPrefix("/", "/root", "../rootX/a.md");
  }

  lemma PrefixesOfOne(k: string, d: string, s: string)
    requires IsPrefix(k, s) && IsPrefix(d, s)
    ensures |k| <= |d| ==> IsPrefix(k, d)
    ensures |d| <= |k| ==> IsPrefix(d, k)
  {
    if |k| <= |d| {
      assert d[..|k|] == s[..|d|][..|k|];
    } else {
      assert k[..|d|] == s[..|k|][..|d|];
    }
  }

  lemma InTreeTrans(a: string, b: string, c: string)
    requires InTree(a, b) && InTree(b, c)
    ensures InTree(a, c)
  {
    var db := if EndsWith(b, "/") then b else b + "/";
    if b != a && c != b {
      assert IsPrefix(b, db);
      PrefixTrans(b, db, c);
      PrefixTrans(if EndsWith(a, "/") then a else a + "/", b, c);
    }
  }

  /** Below the root in the directory sense implies the string check the
      handler makes. */
  lemma InTreeContained(cwd: string, root: string, p: string)
    requires Within(cwd, root, p)
    ensures Contained(cwd, root, p)
  {
    var r := Resolve(cwd, root, "");
    var t := Resolve(cwd, root, p);
    if t != r {
      var dr := if EndsWith(r, "/") then r else r + "/";
      assert IsPrefix(r, dr);
      PrefixTrans(r, dr, t);
    }
  }

  /** `POST` with the path it works in, and for the create actions the path
      it creates, both checked for directory containment. */
  function PostConfined(fs: Fs, cwd: string, req: PostRequest): (r: (Response, Fs))
    ensures !Within(cwd, PostRoot(cwd, req), OrElse(req.path, "")) ==> r == (Denied, fs)
    ensures req.action == "create_file" && req.name.Some? ==>
      (!InTree(Resolve(cwd, PostRoot(cwd, req), ""), NewFilePath(cwd, req)) ==> r == (Denied, fs))
    ensures req.action == "create_directory" && req.name.Some? ==>
      (!InTree(Resolve(cwd, PostRoot(cwd, req), ""), NewDirPath(cwd, req)) ==> r == (Denied, fs))
  {
    var root := Resolve(cwd, PostRoot(cwd, req), "");
    if !InTree(root, PostTarget(cwd, req)) then (Denied, fs)
    else if req.action == "create_file" && req.name.Some? && !InTree(root, NewFilePath(cwd, req)) then (Denied, fs)
    else if req.action == "create_directory" && req.name.Some? && !InTree(root, NewDirPath(cwd, req)) then (Denied, fs)
    else Post(fs, cwd, req)
  }

  /** A path whose node a request adds, removes or replaces. */
  predicate Changed(fs: Fs, fs': Fs, k: string)
  {
    (k in fs) != (k in fs') || (k in fs && k in fs' && fs[k] != fs'[k])
  }

  /** A checked `create_file` changes only the file it creates. */
  lemma CreateFileStays(fs: Fs, cwd: string, req: PostRequest, root: string, k: string)
    requires req.action == "create_file" && req.name.Some? && InTree(root, NewFilePath(cwd, req))
    requires Changed(fs, CreateFile(fs, cwd, req).1, k)
    ensures InTree(root, k)
  {
    assert k == NewFilePath(cwd, req);
  }

  /** A checked `create_directory` changes the directory it creates and
      missing directories on the way to it. */
  lemma CreateDirectoryStays(fs: Fs, cwd: string, req: PostRequest, root: string, k: string)
    requires req.action == "create_directory" && req.name.Some? && InTree(root, NewDirPath(cwd, req))
    requires Changed(fs, CreateDirectory(fs, cwd, req).1, k)
    ensures || InTree(root, k)
            || (k !in fs && Ancestor(k, root) && CreateDirectory(fs, cwd, req).1[k] == Directory)
  {
    var d := NewDirPath(cwd, req);
    assert k !in fs && Ancestor(k, d) && CreateDirectory(fs, cwd, req).1[k] == Directory;
    AncestorOfTree(root, d, k);
  }

  /** An ancestor of a path in `root`'s tree is in that tree or is an
      ancestor of `root`. */
  lemma AncestorOfTree(root: string, d: string, k: string)
    requires InTree(root, d) && Ancestor(k, d)
    ensures InTree(root, k) || Ancestor(k, root)
  {
    var dr := if EndsWith(root, "/") then root else root + "/";
    if d == root {
    } else if |k| >= |dr| {
      PrefixesOfOne(k, dr, d);
    } else {
      PrefixesOfOne(k, dr, d);
      assert IsPrefix(k, root) by {
        assert root == dr[..|root|];
        assert k == dr[..|k|];
      }
      if k != root && !EndsWith(k, "/") {
        assert root[|k|] == dr[|k|] == d[|k|];
      }
    }
  }

  /** A checked `save_file` changes only the file it writes. */
  lemma SaveFileStays(fs: Fs, cwd: string, req: PostRequest, root: string, k: string)
    requires InTree(root, PostTarget(cwd, req))
    requires Changed(fs, SaveFile(fs, cwd, req).1, k)
    ensures InTree(root, k)
  {
    assert k == Resolve(cwd, PostRoot(cwd, req), req.path.value) == PostTarget(cwd, req);
  }

  /** A checked `delete` removes only the target and what lies under it. */
  lemma DeleteStays(fs: Fs, cwd: string, req: PostRequest, root: string, k: string)
    requires InTree(root, PostTarget(cwd, req))
    requires Changed(fs, Delete(fs, cwd, req).1, k)
    ensures InTree(root, k)
  {
    var t := Resolve(cwd, PostRoot(cwd, req), req.path.value);
    assert t == PostTarget(cwd, req);
    if fs[t].Directory? {
      assert InTree(t, k);
      InTreeTrans(root, t, k);
    } else {
      assert k == t;
    }
  }

  /** Under the confined handler a request changes only the root and what
      lies below it — apart from directories `mkdir -p` creates among the
      ancestors of a root that does not exist yet. */
  lemma PostConfinedStaysInside(fs: Fs, cwd: string, req: PostRequest, k: string)
    requires Changed(fs, PostConfined(fs, cwd, req).1, k)
    ensures var root := Resolve(cwd, PostRoot(cwd, req), "");
      || InTree(root, k)
      || (k !in fs && Ancestor(k, root) && PostConfined(fs, cwd, req).1[k] == Directory)
  {
    var rootPath := PostRoot(cwd, req);
    var root := Resolve(cwd, rootPath, "");
    InTreeContained(cwd, rootPath, OrElse(req.path, ""));
    assert PostConfined(fs, cwd, req) == Post(fs, cwd, req);
    if req.action == "create_file" {
      CreateFileStays(fs, cwd, req, root, k);
    } else if req.action == "create_directory" {
      CreateDirectoryStays(fs, cwd, req, root, k);
    } else if req.action == "save_file" {
      SaveFileStays(fs, cwd, req, root, k);
    } else {
      DeleteStays(fs, cwd, req, root, k);
    }
  }

  lemma NotesRoot()
    ensures Resolve("/", "/notes", "") == "/notes"
    ensures ResolveSegs("/", "/notes", "") == ["notes"]
  {
    assert "/" + "notes" == "/notes";
    ResolveTop("notes");
  }

  lemma EscapeName()
    ensures MdName("../a") == "../a.md"
  {
    assert !EndsWith("../a", ".md") by { assert "../a"[1..] != ".md"; }
  }

  /** Joining `../x` to a top-level directory climbs to the sibling `x`. */
  lemma JoinClimb(r: string, x: string)
    requires IsPlainSegment(r) && '/' !in r
    requires IsPlainSegment(x) && '/' !in x
    ensures JoinPath("/" + r, "../" + x) == "/" + x
  {
    var segs := ["", r, "..", x];
    var s := ("/" + r) + "/" + ("../" + x);
    assert JoinSegs(segs[3..]) == x;
    assert JoinSegs(segs[2..]) == ".." + "/" + x;
    assert JoinSegs(segs[1..]) == r + "/" + JoinSegs(segs[2..]);
    assert JoinSegs(segs) == "" + "/" + JoinSegs(segs[1..]);
    assert JoinSegs(segs) == s;
    SplitJoin(segs);
    assert segs[3..][0] == x && segs[3..][1..] == [] && [] + [x] == [x];
    assert NormFrom([], segs[3..], false) == [x];
    assert segs[2..][0] == ".." && segs[2..][1..] == segs[3..] && [r][..0] == [];
    assert NormFrom([r], segs[2..], false) == [x];
    assert segs[1..][0] == r && segs[1..][1..] == segs[2..] && [] + [r] == [r];
    assert NormFrom([], segs, false) == [x];
    assert IsAbsolute(s);
  }

  lemma EscapeJoin()
    ensures JoinPath("/notes", "../a.md") == "/a.md"
  {
    assert "/" + "notes" == "/notes";
    assert "../" + "a.md" == "../a.md";
    JoinClimb("notes", "a.md");
    assert "/" + "a.md" == "/a.md";
  }

  lemma EscapeTarget()
    ensures Dirname("/a.md") == "/"
    ensures Relative("/", "/notes", "/a.md") == "../a.md"
    ensures !InTree("/notes", "/a.md")
  {
    var p := "/a.md";
    assert DirEnd(p, 1, false) == -1;
    assert DirEnd(p, 2, false) == -1;
    assert DirEnd(p, 3, false) == -1;
    assert DirEnd(p, 4, true) == -1;
    NotesRoot();
    assert "/" + "a.md" == "/a.md";
    ResolveTop("a.md");
    assert CommonLen(["notes"], ["a.md"]) == 0;
    assert Parents(1) + ["a.md"] == ["..", "a.md"];
    assert !IsPrefix("/notes/", "/a.md");
  }

  /** What the unconfined handler does with a name that climbs out: the
      file lands beside the root, not inside it; the confined handler
      refuses it. */
  lemma CreateFileEscapesRoot()
    ensures var fs := map["/" := Directory, "/notes" := Directory];
      var req := PostRequest("create_file", None, None, Some("../a"), Some("/notes"));
      && Post(fs, "/", req) == (Created("../a.md", "../a.md"), fs["/a.md" := File("")])
      && !InTree(Resolve("/", "/notes", ""), "/a.md")
      && PostConfined(fs, "/", req) == (Denied, fs)
  {
    var fs := map["/" := Directory, "/notes" := Directory];
    var req := PostRequest("create_file", None, None, Some("../a"), Some("/notes"));
    NotesRoot();
    EscapeName();
    EscapeJoin();
    EscapeTarget();
    assert PostTarget("/", req) == "/notes";
    assert NewFilePath("/", req) == "/a.md";
    assert Contained("/", "/notes", "");
    assert WriteFile(fs, "/a.md", "") == Ok(fs["/a.md" := File("")]);
  }
}
