/** The filesystem gateway: `GET` lists a directory or returns a file,
    `POST` creates, saves or deletes; every request first passes the
    containment check `resolve(root, p).startsWith(resolve(root))`. The disk
    is an abstract map from canonical absolute paths to nodes. */
module FileGateway {

  import opened Common
  import opened Strings
  import opened PosixPath
  import opened Ordering

  datatype Node = File(content: string) | Directory

  /** The disk: what each absolute path names. */
  type Fs = map<string, Node>

  /** The errors the filesystem calls throw, surfaced as 500. */
  datatype FsError =
    | NoSuchEntry(path: string)      // ENOENT
    | NotADirectory(path: string)    // ENOTDIR
    | IsADirectory(path: string)     // EISDIR
    | InvalidArgument(arg: string)   // TypeError: a required argument was undefined

  /** An entry of `readdir(dir, {withFileTypes: true})`; a symbolic link or
      any other special file is `OtherDirent`. */
  datatype DirentKind = FileDirent | DirectoryDirent | OtherDirent
  datatype Dirent = Dirent(name: string, kind: DirentKind)

  datatype ItemKind = FileItem | DirectoryItem

  /** One element of a listing; only files carry a size. */
  datatype Item = Item(name: string, kind: ItemKind, path: string, size: Option<nat>)

  datatype Response =
    | Denied                                                   // 403 Access denied
    | Failed(error: FsError)                                   // 500 error.message
    | Conflict(message: string)                                // 409
    | BadRequest(message: string)                              // 400
    | Listing(items: seq<Item>)                                // 200 {items}
    | Document(content: string, name: string, path: string, size: nat)  // 200 file contents
    | Created(path: string, name: string)                      // 200 {success, path, name}
    | Done                                                     // 200 {success: true}

  function Status(r: Response): nat
  {
    match r
    case Denied => 403
    case Failed(_) => 500
    case Conflict(_) => 409
    case BadRequest(_) => 400
    case _ => 200
  }

  // ---------------------------------------------------------------------
  // The containment check

  /** `path.resolve(root, p).startsWith(path.resolve(root))` */
  predicate Contained(cwd: string, root: string, p: string)
  {
    IsPrefix(Resolve(cwd, root, ""), Resolve(cwd, root, p))
  }

  lemma ResolvedRootSegs(cwd: string, root: string)
    ensures ResolveSegs(cwd, root, "") == NormFrom([], Split(ResolveBase(cwd, root)), false)
  {
    var b := ResolveBase(cwd, root);
    SplitAtSlash(b, "");
    NormFromAppend([], Split(b), [""], false);
  }

  /** A relative path without `..` segments is never denied: it resolves to
      the root followed by its own non-empty segments. */
  lemma ContainedWithoutParentSegments(cwd: string, root: string, p: string)
    requires !IsAbsolute(p) && ".." !in Split(p)
    ensures Contained(cwd, root, p)
    ensures ResolveSegs(cwd, root, p) == ResolveSegs(cwd, root, "") + Clean(Split(p))
  {
    ResolveBelowRoot(cwd, root, p);
    JoinedPrefix(ResolveSegs(cwd, root, ""), Clean(Split(p)));
  }

  lemma ResolveBelowRoot(cwd: string, root: string, p: string)
    requires !IsAbsolute(p) && ".." !in Split(p)
    ensures ResolveSegs(cwd, root, p) == ResolveSegs(cwd, root, "") + Clean(Split(p))
  {
    var b := ResolveBase(cwd, root);
    ResolvedRootSegs(cwd, root);
    SplitAtSlash(b, p);
    NormFromAppend([], Split(b), Split(p), false);
    NormFromNoParent(NormFrom([], Split(b), false), Split(p), false);
  }

  /** Appending segments extends the joined absolute path. */
  lemma JoinedPrefix(st: seq<string>, c: seq<string>)
    ensures IsPrefix("/" + JoinSegs(st), "/" + JoinSegs(st + c))
  {
    if st != [] && c != [] {
      JoinSegsAppend(st, c);
      assert "/" + JoinSegs(st + c) == ("/" + JoinSegs(st)) + ("/" + JoinSegs(c));
    } else if c == [] {
      assert st + c == st;
    } else {
      assert st + c == c;
    }
  }

  /** Concrete paths, with the only `/`-free segments shown. */
  lemma ResolveExample(cwd: string, base: string, p: string, segs: seq<string>, kept: seq<string>)
    requires IsAbsolute(base) && !IsAbsolute(p)
    requires segs != [] && forall i :: 0 <= i < |segs| ==> '/' !in segs[i]
    requires JoinSegs(segs) == base + "/" + p
    requires NormFrom([], segs, false) == kept
    ensures ResolveSegs(cwd, base, p) == kept
    ensures Resolve(cwd, base, p) == "/" + JoinSegs(kept)
  {
    SplitJoin(segs);
  }

  /** A top-level directory resolves to itself. */
  lemma ResolveTop(r: string)
    requires IsPlainSegment(r) && '/' !in r
    ensures ResolveSegs("/", "/" + r, "") == [r]
    ensures Resolve("/", "/" + r, "") == "/" + r
  {
    var segs := ["", r, ""];
    assert JoinSegs(segs[1..]) == r + "/" + "";
    assert JoinSegs(segs) == ("/" + r) + "/" + "";
    assert segs[1..][0] == r && segs[1..][1..] == segs[2..] && [] + [r] == [r];
    assert NormFrom([r], segs[2..], false) == [r];
    assert NormFrom([], segs[1..], false) == NormFrom([r], segs[2..], false);
    ResolveExample("/", "/" + r, "", segs, [r]);
  }

  /** From a top-level directory, `../x/y` climbs to the sibling `x`. */
  lemma ResolveClimb(r: string, x: string, y: string)
    requires IsPlainSegment(r) && '/' !in r
    requires IsPlainSegment(x) && '/' !in x
    requires IsPlainSegment(y) && '/' !in y
    ensures ResolveSegs("/", "/" + r, "../" + x + "/" + y) == [x, y]
    ensures Resolve("/", "/" + r, "../" + x + "/" + y) == "/" + x + "/" + y
  {
    var segs := ["", r, "..", x, y];
    var p := "../" + x + "/" + y;
    assert JoinSegs(segs[3..]) == x + "/" + y;
    assert JoinSegs(segs[2..]) == ".." + "/" + (x + "/" + y);
    assert JoinSegs(segs[1..]) == r + "/" + JoinSegs(segs[2..]);
    assert JoinSegs(segs) == "" + "/" + JoinSegs(segs[1..]);
    assert JoinSegs(segs) == ("/" + r) + "/" + p;
    assert segs[3..][0] == x && segs[3..][1..] == segs[4..] && [] + [x] == [x];
    assert NormFrom([x], segs[4..], false) == [x, y];
    assert NormFrom([], segs[3..], false) == [x, y];
    assert segs[2..][0] == ".." && segs[2..][1..] == segs[3..] && [r][..0] == [];
    assert NormFrom([r], segs[2..], false) == [x, y];
    assert segs[1..][0] == r && segs[1..][1..] == segs[2..] && [] + [r] == [r];
    assert NormFrom([], segs, false) == [x, y];
    assert p[0] == '.';
    ResolveExample("/", "/" + r, p, segs, [x, y]);
    assert JoinSegs([x, y]) == x + "/" + y;
  }

  /** The check compares strings, not segments: a sibling directory whose
      name extends the root's passes it. */
  lemma SiblingPrefixPasses()
    ensures Resolve("/", "/root", "../rootX/a.md") == "/rootX/a.md"
    ensures Contained("/", "/root", "../rootX/a.md")
    ensures ResolveSegs("/", "/root", "") == ["root"]
    ensures ResolveSegs("/", "/root", "../rootX/a.md") == ["rootX", "a.md"]
  {
    assert "/" + "root" == "/root";
    assert "../" + "rootX" + "/" + "a.md" == "../rootX/a.md";
    ResolveTop("root");
    ResolveClimb("root", "rootX", "a.md");
    assert "/" + "rootX" + "/" + "a.md" == "/rootX/a.md";
    assert "/rootX/a.md"[..5] == "/root";
  }

  /** Climbing out of the root into an unrelated directory is denied. */
  lemma ParentEscapeDenied()
    ensures Resolve("/", "/root", "../etc/passwd") == "/etc/passwd"
    ensures !Contained("/", "/root", "../etc/passwd")
  {
    assert "/" + "root" == "/root";
    assert "../" + "etc" + "/" + "passwd" == "../etc/passwd";
    ResolveTop("root");
    ResolveClimb("root", "etc", "passwd");
    assert "/" + "etc" + "/" + "passwd" == "/etc/passwd";
    assert "/etc/passwd"[1] != "/root"[1];
  }

  // ---------------------------------------------------------------------
  // GET: listing a directory

  /** Directories are always listed; files only when named `*.md`. */
  predicate Shown(e: Dirent)
  {
    e.kind == DirectoryDirent || (e.kind == FileDirent && EndsWith(e.name, ".md"))
  }

  function SizeOf(n: Node): nat
  {
    match n
    case File(content) => |content|
    case Directory => 0
  }

  /** `path.join(dir, name)`: where an entry of `dir` lives. */
  function Under(dir: string): string -> string
  {
    (name: string) => JoinPath(dir, name)
  }

  /** `path.relative(rootPath, p)`: how a listing names a path. */
  function RelTo(cwd: string, rootPath: string): string -> string
  {
    (p: string) => Relative(cwd, rootPath, p)
  }

  /** The listing element for a shown entry, given where entries live
      (`at`) and how the listing names a path (`rel`, the path relative to
      the root). Files carry the size `stat` reports. */
  function MakeItem(fs: Fs, at: string -> string, rel: string -> string, e: Dirent): Item
    requires at(e.name) in fs
  {
    var p := at(e.name);
    if e.kind == DirectoryDirent then Item(e.name, DirectoryItem, rel(p), None)
    else Item(e.name, FileItem, rel(p), Some(SizeOf(fs[p])))
  }

  /** The `push` loop over the entries, before sorting: every entry is
      `stat`ed in order, and the first one that cannot be fails the whole
      request. */
  function Collect(fs: Fs, at: string -> string, rel: string -> string, entries: seq<Dirent>): Result<seq<Item>, FsError>
  {
    if entries == [] then Ok([])
    else
      match Collect(fs, at, rel, entries[..|entries| - 1])
      case Err(e) => Err(e)
      case Ok(items) =>
        var e := entries[|entries| - 1];
        var p := at(e.name);
        if p !in fs then Err(NoSuchEntry(p))
        else if Shown(e) then Ok(items + [MakeItem(fs, at, rel, e)])
        else Ok(items)
  }

  /** The listing exists exactly when every entry can be `stat`ed. */
  lemma {:induction false} CollectSucceeds(fs: Fs, at: string -> string, rel: string -> string, entries: seq<Dirent>)
    ensures Collect(fs, at, rel, entries).Ok? <==>
      forall j :: 0 <= j < |entries| ==> at(entries[j].name) in fs
  {
    if entries != [] {
      var init := entries[..|entries| - 1];
      var p := at(entries[|entries| - 1].name);
      CollectSucceeds(fs, at, rel, init);
      assert forall j :: 0 <= j < |init| ==> init[j] == entries[j];
      if Collect(fs, at, rel, init).Err? {
        var j :| 0 <= j < |init| && at(init[j].name) !in fs;
        assert at(entries[j].name) !in fs;
      } else {
        assert Collect(fs, at, rel, entries).Ok? <==> p in fs;
      }
    }
  }

  /** One more entry that can be `stat`ed adds its item when it is shown. */
  lemma CollectStep(fs: Fs, at: string -> string, rel: string -> string, entries: seq<Dirent>)
    requires entries != [] && Collect(fs, at, rel, entries).Ok?
    ensures var init := entries[..|entries| - 1];
      var e := entries[|entries| - 1];
      && Collect(fs, at, rel, init).Ok?
      && at(e.name) in fs
      && Collect(fs, at, rel, entries).value ==
           Collect(fs, at, rel, init).value + (if Shown(e) then [MakeItem(fs, at, rel, e)] else [])
  {
    var init := entries[..|entries| - 1];
    assert Collect(fs, at, rel, init).value + [] == Collect(fs, at, rel, init).value;
  }

  /** Every subdirectory and every `*.md` file is listed. */
  lemma {:induction false} CollectComplete(fs: Fs, at: string -> string, rel: string -> string, entries: seq<Dirent>)
    requires Collect(fs, at, rel, entries).Ok?
    ensures forall j :: 0 <= j < |entries| && Shown(entries[j]) ==>
      at(entries[j].name) in fs &&
      MakeItem(fs, at, rel, entries[j]) in Collect(fs, at, rel, entries).value
  {
    if entries != [] {
      var init := entries[..|entries| - 1];
      var e := entries[|entries| - 1];
      CollectStep(fs, at, rel, entries);
      var items := Collect(fs, at, rel, init).value;
      CollectComplete(fs, at, rel, init);
      var all := Collect(fs, at, rel, entries).value;
      forall j | 0 <= j < |entries| && Shown(entries[j])
        ensures at(entries[j].name) in fs
        ensures MakeItem(fs, at, rel, entries[j]) in all
      {
        if j < |init| {
          assert init[j] == entries[j];
          assert MakeItem(fs, at, rel, init[j]) in items;
        }
      }
    }
  }

  /** Nothing else is listed: each item is that of a shown entry. */
  lemma {:induction false} CollectSound(fs: Fs, at: string -> string, rel: string -> string, entries: seq<Dirent>)
    requires Collect(fs, at, rel, entries).Ok?
    ensures forall x :: x in Collect(fs, at, rel, entries).value ==>
      exists j :: 0 <= j < |entries| && Shown(entries[j]) && at(entries[j].name) in fs &&
        x == MakeItem(fs, at, rel, entries[j])
  {
    if entries != [] {
      var init := entries[..|entries| - 1];
      CollectSound(fs, at, rel, init);
      assert forall j :: 0 <= j < |init| ==> init[j] == entries[j];
    }
  }

  /** Once a prefix of the entries fails, the whole listing fails with the
      same error. */
  lemma {:induction false} CollectErrorSticks(fs: Fs, at: string -> string, rel: string -> string, entries: seq<Dirent>, k: nat)
    requires k <= |entries|
    requires Collect(fs, at, rel, entries[..k]).Err?
    ensures Collect(fs, at, rel, entries) == Collect(fs, at, rel, entries[..k])
    decreases |entries| - k
  {
    if k < |entries| {
      assert entries[..k + 1][..k] == entries[..k];
      CollectErrorSticks(fs, at, rel, entries, k + 1);
    } else {
      assert entries[..k] == entries;
    }
  }

  /** The listing order: directories before files, by name within each. */
  function ItemKey(it: Item): SortKey
  {
    SortKey(if it.kind == DirectoryItem then 0 else 1, it.name)
  }

  /** In a listing sorted by `ItemKey` no file precedes a directory, and
      names ascend within each kind. */
  lemma ListingOrder(items: seq<Item>, i: nat, j: nat)
    requires SortedBy(items, ItemKey) && i < j < |items|
    ensures !(items[i].kind == FileItem && items[j].kind == DirectoryItem)
    ensures items[i].kind == items[j].kind ==> StrLe(items[i].name, items[j].name)
  {
    assert KeyLe(ItemKey(items[i]), ItemKey(items[j]));
  }

  /** The directory branch of `GET`: the `push` loop over readdir's entries,
      then the in-place sort. */
  method ListDirectory(fs: Fs, cwd: string, rootPath: string, dir: string, entries: seq<Dirent>)
    returns (r: Result<seq<Item>, FsError>)
    ensures Collect(fs, Under(dir), RelTo(cwd, rootPath), entries).Err? ==> r == Collect(fs, Under(dir), RelTo(cwd, rootPath), entries)
    ensures Collect(fs, Under(dir), RelTo(cwd, rootPath), entries).Ok? ==>
      && r.Ok?
      && SortedBy(r.value, ItemKey)
      && multiset(r.value) == multiset(Collect(fs, Under(dir), RelTo(cwd, rootPath), entries).value)
  {
    var collected := CollectItems(fs, dir, Under(dir), RelTo(cwd, rootPath), entries);
    match collected {
      case Err(_) => r := collected;
      case Ok(items) =>
        var sorted := SortItems(items);
        r := Ok(sorted);
    }
  }

  /** The `push` loop: each entry of `dir` is looked up in order, the first
      missing one ends the loop with its error. */
  method CollectItems(fs: Fs, dir: string, at: string -> string, rel: string -> string, entries: seq<Dirent>)
    returns (r: Result<seq<Item>, FsError>)
    requires at == Under(dir)
    ensures r == Collect(fs, at, rel, entries)
  {
    var items: seq<Item> := [];
    var i := 0;
    while i < |entries|
      invariant 0 <= i <= |entries|
      invariant Collect(fs, at, rel, entries[..i]) == Ok(items)
    {
      var e := entries[i];
      var p := JoinPath(dir, e.name);
      assert p == at(e.name);
      assert entries[..i + 1][..i] == entries[..i];
      if p !in fs {
        CollectErrorSticks(fs, at, rel, entries, i + 1);
        return Err(NoSuchEntry(p));
      }
      if Shown(e) {
        items := items + [MakeItem(fs, at, rel, e)];
      }
      i := i + 1;
    }
    assert entries[..i] == entries;
    r := Ok(items);
  }

  /** `items.sort(...)`: the items copied into an array and sorted in place. */
  method SortItems(items: seq<Item>) returns (sorted: seq<Item>)
    ensures SortedBy(sorted, ItemKey) && multiset(sorted) == multiset(items)
  {
    var a := new Item[|items|](j requires 0 <= j < |items| => items[j]);
    assert a[..] == items;
    SortByKey(a, ItemKey);
    sorted := a[..];
  }

  /** The query of a `GET`. */
  datatype GetRequest = GetRequest(root: Option<string>, path: Option<string>)

  /** `param || default` */
  function OrElse(s: Option<string>, default: string): string
  {
    if s.None? || s.value == "" then default else s.value
  }

  /** `GET`. `entries` is what `readdir` answers for the requested path when
      that is a directory (its order is the operating system's). */
  method Get(fs: Fs, cwd: string, req: GetRequest, entries: seq<Dirent>) returns (resp: Response)
    ensures var rootPath := OrElse(req.root, cwd);
      var rel := OrElse(req.path, "");
      var full := Resolve(cwd, rootPath, rel);
      && (!Contained(cwd, rootPath, rel) <==> resp == Denied)
      && (Contained(cwd, rootPath, rel) && full !in fs ==> resp == Failed(NoSuchEntry(full)))
      && (Contained(cwd, rootPath, rel) && full in fs && fs[full].File? ==>
            resp == Document(fs[full].content, Basename(full), Relative(cwd, rootPath, full), |fs[full].content|))
      && (Contained(cwd, rootPath, rel) && full in fs && fs[full].Directory? ==>
            var c := Collect(fs, Under(full), RelTo(cwd, rootPath), entries);
            && (c.Err? ==> resp == Failed(c.error))
            && (c.Ok? ==> resp.Listing? && SortedBy(resp.items, ItemKey) && multiset(resp.items) == multiset(c.value)))
  {
    var rootPath := OrElse(req.root, cwd);
    var rel := OrElse(req.path, "");
    var full := Resolve(cwd, rootPath, rel);
    if !IsPrefix(Resolve(cwd, rootPath, ""), full) {
      return Denied;
    }
    if full !in fs {
      return Failed(NoSuchEntry(full));
    }
    match fs[full]
    case Directory =>
      var listing := ListDirectory(fs, cwd, rootPath, full, entries);
      match listing {
        case Err(e) => resp := Failed(e);
        case Ok(items) => resp := Listing(items);
      }
    case File(content) =>
      resp := Document(content, Basename(full), Relative(cwd, rootPath, full), |content|);
  }

  // ---------------------------------------------------------------------
  // POST: mutations

  /** `name.endsWith('.md') ? name : name + '.md'` */
  function MdName(name: string): (r: string)
    ensures EndsWith(r, ".md")
    ensures EndsWith(name, ".md") ==> r == name
    ensures !EndsWith(name, ".md") ==> r == name + ".md"
  {
    if EndsWith(name, ".md") then name
    else
      EndsWithAppend(name, ".md");
      name + ".md"
  }

  /** `fs.promises.writeFile(p, content)`: the parent must be an existing
      directory and `p` must not be one. */
  function WriteFile(fs: Fs, p: string, content: string): (r: Result<Fs, FsError>)
    ensures r.Ok? <==> !(p in fs && fs[p].Directory?) && Dirname(p) in fs && fs[Dirname(p)].Directory?
    ensures r.Ok? ==> r.value.Keys == fs.Keys + {p}
    ensures r.Ok? ==> r.value[p] == File(content)
    ensures r.Ok? ==> forall k :: k in fs && k != p ==> r.value[k] == fs[k]
  {
    if p in fs && fs[p].Directory? then Err(IsADirectory(p))
    else if Dirname(p) !in fs then Err(NoSuchEntry(p))
    else if fs[Dirname(p)].File? then Err(NotADirectory(p))
    else Ok(fs[p := File(content)])
  }

  lemma DirnamePrefix(p: string)
    requires IsAbsolute(p)
    ensures IsPrefix(Dirname(p), p)
  {
    var end := DirEnd(p, |p| - 1, true);
    if end == 1 {
      assert p[..2] == "//";
    }
  }

  lemma PrefixTrans(a: string, b: string, c: string)
    requires IsPrefix(a, b) && IsPrefix(b, c)
    ensures IsPrefix(a, c)
  {
    assert c[..|a|] == c[..|b|][..|a|];
  }

  /** `k` is `p` itself or a directory `p` lies in: a prefix of `p` that
      ends at a separator. */
  predicate Ancestor(k: string, p: string)
  {
    IsPrefix(k, p) && (k == p || EndsWith(k, "/") || p[|k|] == '/')
  }

  /** `dirname` of an absolute path other than `/` is an ancestor of it. */
  lemma DirnameAncestor(p: string)
    requires IsAbsolute(p) && p != "/"
    ensures Ancestor(Dirname(p), p)
  {
    DirnamePrefix(p);
    var end := DirEnd(p, |p| - 1, true);
    if end == -1 {
      assert Dirname(p) == "/";
      assert EndsWith("/", "/");
    } else if end == 1 {
      assert Dirname(p) == "//";
      assert EndsWith("//", "/") by { assert "//"[1..] == "/"; }
    } else {
      assert Dirname(p) == p[..end] && p[end] == '/';
    }
  }

  lemma AncestorTrans(a: string, b: string, c: string)
    requires Ancestor(a, b) && Ancestor(b, c)
    ensures Ancestor(a, c)
  {
    PrefixTrans(a, b, c);
    if a != b && b != c && !EndsWith(a, "/") {
      assert c[|a|] == c[..|b|][|a|] == b[|a|];
    }
  }

  /** `fs.promises.mkdir(p, {recursive: true})`: creates `p` and every
      missing ancestor; fails if one of them is a file. */
  function MakeDirs(fs: Fs, p: string): (r: Result<Fs, FsError>)
    requires IsAbsolute(p)
    ensures r.Ok? ==> p in r.value && r.value[p] == Directory
    ensures r.Ok? ==> forall k :: k in fs ==> k in r.value && r.value[k] == fs[k]
    ensures r.Ok? ==> forall k :: k in r.value && k !in fs ==> r.value[k] == Directory && Ancestor(k, p)
    ensures r.Err? ==> exists k :: k in fs && fs[k].File? && Ancestor(k, p)
    decreases |p|
  {
    if p in fs then
      (if fs[p].Directory? then Ok(fs)
       else assert Ancestor(p, p); Err(NotADirectory(p)))
    else if p == "/" then Ok(fs[p := Directory])
    else
      DirnameShorter(p);
      DirnameAncestor(p);
      assert forall k :: Ancestor(k, Dirname(p)) ==> Ancestor(k, p) by {
        forall k | Ancestor(k, Dirname(p)) ensures Ancestor(k, p) { AncestorTrans(k, Dirname(p), p); }
      }
      match MakeDirs(fs, Dirname(p))
      case Err(e) => Err(e)
      case Ok(fs') =>
        assert Ancestor(p, p);
        Ok(fs'[p := Directory])
  }

  /** Everything under `t`, `t` included (`rm -r t`). */
  predicate InTree(t: string, k: string)
  {
    k == t || IsPrefix(if EndsWith(t, "/") then t else t + "/", k)
  }

  /** `fs.promises.rm(t, {recursive: true})` on a directory. */
  function RemoveTree(fs: Fs, t: string): (r: Fs)
    ensures forall k :: k in r <==> k in fs && !InTree(t, k)
    ensures forall k :: k in r ==> r[k] == fs[k]
  {
    map k | k in fs && !InTree(t, k) :: fs[k]
  }

  /** The body of a `POST`. Any missing field is `None`. */
  datatype PostRequest = PostRequest(
    action: string,
    path: Option<string>,
    content: Option<string>,
    name: Option<string>,
    rootPath: Option<string>)

  /** `rootPath = DEFAULT_ROOT`: the default applies only when the field is absent. */
  function PostRoot(cwd: string, req: PostRequest): string
  {
    if req.rootPath.None? then cwd else req.rootPath.value
  }

  /** The path of the directory `create_file` and `create_directory` work in. */
  function PostTarget(cwd: string, req: PostRequest): string
  {
    Resolve(cwd, PostRoot(cwd, req), OrElse(req.path, ""))
  }

  /** Where `create_file` writes: the resolved path joined with the name,
      `.md` appended when missing. */
  function NewFilePath(cwd: string, req: PostRequest): string
    requires req.name.Some?
  {
    JoinPath(PostTarget(cwd, req), MdName(req.name.value))
  }

  function NewDirPath(cwd: string, req: PostRequest): string
    requires req.name.Some?
  {
    JoinPath(PostTarget(cwd, req), req.name.value)
  }

  /** What every action answers: never 403 or 400, and the disk stays as
      it was unless the answer is 200. */
  predicate ActionOutcome(fs: Fs, r: (Response, Fs))
  {
    !r.0.Denied? && !r.0.BadRequest? && (Status(r.0) != 200 ==> r.1 == fs)
  }

  function CreateFile(fs: Fs, cwd: string, req: PostRequest): (r: (Response, Fs))
    ensures ActionOutcome(fs, r)
  {
    if req.name.None? then (Failed(InvalidArgument("name")), fs)
    else
      var target := NewFilePath(cwd, req);
      if target in fs then (Conflict("File already exists"), fs)
      else
        match WriteFile(fs, target, OrElse(req.content, ""))
        case Err(e) => (Failed(e), fs)
        case Ok(fs') => (Created(Relative(cwd, PostRoot(cwd, req), target), MdName(req.name.value)), fs')
  }

  function CreateDirectory(fs: Fs, cwd: string, req: PostRequest): (r: (Response, Fs))
    ensures ActionOutcome(fs, r)
  {
    if req.name.None? then (Failed(InvalidArgument("path")), fs)
    else
      var target := NewDirPath(cwd, req);
      if target in fs then (Conflict("Directory already exists"), fs)
      else
        match MakeDirs(fs, target)
        case Err(e) => (Failed(e), fs)
        case Ok(fs') => (Created(Relative(cwd, PostRoot(cwd, req), target), req.name.value), fs')
  }

  function SaveFile(fs: Fs, cwd: string, req: PostRequest): (r: (Response, Fs))
    ensures ActionOutcome(fs, r)
  {
    if req.path.None? then (Failed(InvalidArgument("paths[1]")), fs)
    else if req.content.None? then (Failed(InvalidArgument("data")), fs)
    else
      match WriteFile(fs, Resolve(cwd, PostRoot(cwd, req), req.path.value), req.content.value)
      case Err(e) => (Failed(e), fs)
      case Ok(fs') => (Done, fs')
  }

  function Delete(fs: Fs, cwd: string, req: PostRequest): (r: (Response, Fs))
    ensures ActionOutcome(fs, r)
  {
    if req.path.None? then (Failed(InvalidArgument("paths[1]")), fs)
    else
      var target := Resolve(cwd, PostRoot(cwd, req), req.path.value);
      if target !in fs then (Failed(NoSuchEntry(target)), fs)
      else if fs[target].Directory? then (Done, RemoveTree(fs, target))
      else (Done, fs - {target})
  }

  /** `POST`: the response and the disk afterwards. A request that is
      denied, conflicts, is unknown or fails leaves the disk as it was. */
  function Post(fs: Fs, cwd: string, req: PostRequest): (r: (Response, Fs))
    ensures !Contained(cwd, PostRoot(cwd, req), OrElse(req.path, "")) ==> r.0 == Denied
    ensures r.0 == Denied ==> !Contained(cwd, PostRoot(cwd, req), OrElse(req.path, ""))
    ensures Status(r.0) != 200 ==> r.1 == fs
    ensures r.0.BadRequest? <==>
      Contained(cwd, PostRoot(cwd, req), OrElse(req.path, "")) &&
      req.action !in {"create_file", "create_directory", "save_file", "delete"}
  {
    if !Contained(cwd, PostRoot(cwd, req), OrElse(req.path, "")) then (Denied, fs)
    else if req.action == "create_file" then CreateFile(fs, cwd, req)
    else if req.action == "create_directory" then CreateDirectory(fs, cwd, req)
    else if req.action == "save_file" then SaveFile(fs, cwd, req)
    else if req.action == "delete" then Delete(fs, cwd, req)
    else (BadRequest("Unknown action"), fs)
  }

  /** A successful `create_file` writes exactly the new file; asking again
      conflicts and leaves the disk alone. */
  lemma CreateFileTwiceConflicts(fs: Fs, cwd: string, req: PostRequest)
    requires req.action == "create_file"
    requires Post(fs, cwd, req).0.Created?
    ensures req.name.Some?
    ensures var fs' := Post(fs, cwd, req).1;
      && NewFilePath(cwd, req) !in fs
      && fs' == fs[NewFilePath(cwd, req) := File(OrElse(req.content, ""))]
      && Post(fs', cwd, req) == (Conflict("File already exists"), fs')
  {
  }

  /** A successful `create_directory` creates the directory and any missing
      ancestors of it, and changes nothing that existed. */
  lemma CreateDirectoryEffect(fs: Fs, cwd: string, req: PostRequest)
    requires req.action == "create_directory"
    requires Post(fs, cwd, req).0.Created?
    ensures req.name.Some?
    ensures var fs' := Post(fs, cwd, req).1;
      && NewDirPath(cwd, req) !in fs
      && NewDirPath(cwd, req) in fs' && fs'[NewDirPath(cwd, req)] == Directory
      && (forall k :: k in fs ==> k in fs' && fs'[k] == fs[k])
      && (forall k :: k in fs' && k !in fs ==> fs'[k] == Directory && Ancestor(k, NewDirPath(cwd, req)))
      && Post(fs', cwd, req) == (Conflict("Directory already exists"), fs')
  {
  }

  /** The path a `POST` works in passes the handler's containment check. */
  predicate PathAllowed(cwd: string, req: PostRequest)
  {
    Contained(cwd, PostRoot(cwd, req), OrElse(req.path, ""))
  }

  /** `create_file` on every disk: a missing name fails, a target that
      exists (file or directory) answers 409 and writes nothing, and
      otherwise the file is created with `content || ''` exactly when its
      parent is a directory. */
  lemma CreateFileOutcome(fs: Fs, cwd: string, req: PostRequest)
    requires req.action == "create_file"
    ensures PathAllowed(cwd, req) && req.name.None? ==>
      Post(fs, cwd, req) == (Failed(InvalidArgument("name")), fs)
    ensures PathAllowed(cwd, req) && req.name.Some? && NewFilePath(cwd, req) in fs ==>
      Post(fs, cwd, req) == (Conflict("File already exists"), fs)
    ensures PathAllowed(cwd, req) && req.name.Some? && NewFilePath(cwd, req) !in fs ==>
      var t := NewFilePath(cwd, req);
      && (Post(fs, cwd, req).0.Created? <==> Dirname(t) in fs && fs[Dirname(t)].Directory?)
      && (Post(fs, cwd, req).0.Created? ==>
            Post(fs, cwd, req) ==
              (Created(Relative(cwd, PostRoot(cwd, req), t), MdName(req.name.value)),
               fs[t := File(OrElse(req.content, ""))]))
      && (!Post(fs, cwd, req).0.Created? ==> Post(fs, cwd, req).0.Failed? && Post(fs, cwd, req).1 == fs)
  {
  }

  /** `create_directory` on every disk: a missing name fails, a target that
      exists (directory or file) answers 409 and writes nothing, and
      otherwise the answer is that of `mkdir -p` on the target: created,
      with `mkdir`'s disk, or its error with the disk unchanged. */
  lemma CreateDirectoryOutcome(fs: Fs, cwd: string, req: PostRequest)
    requires req.action == "create_directory"
    ensures PathAllowed(cwd, req) && req.name.None? ==>
      Post(fs, cwd, req) == (Failed(InvalidArgument("path")), fs)
    ensures PathAllowed(cwd, req) && req.name.Some? && NewDirPath(cwd, req) in fs ==>
      Post(fs, cwd, req) == (Conflict("Directory already exists"), fs)
    ensures PathAllowed(cwd, req) && req.name.Some? && NewDirPath(cwd, req) !in fs ==>
      var t := NewDirPath(cwd, req);
      && IsAbsolute(t)
      && (MakeDirs(fs, t).Ok? ==>
            Post(fs, cwd, req) == (Created(Relative(cwd, PostRoot(cwd, req), t), req.name.value), MakeDirs(fs, t).value))
      && (MakeDirs(fs, t).Err? ==> Post(fs, cwd, req) == (Failed(MakeDirs(fs, t).error), fs))
  {
    if PathAllowed(cwd, req) {
      assert Post(fs, cwd, req) == CreateDirectory(fs, cwd, req);
    }
  }

  /** A successful `save_file` replaces the content at the resolved path and
      nothing else. */
  lemma SaveFileEffect(fs: Fs, cwd: string, req: PostRequest)
    requires req.action == "save_file"
    requires Post(fs, cwd, req).0 == Done
    ensures req.path.Some? && req.content.Some?
    ensures var t := Resolve(cwd, PostRoot(cwd, req), req.path.value);
      Post(fs, cwd, req).1 == fs[t := File(req.content.value)]
  {
  }

  /** Deleting removes the target and, for a directory, everything under
      it; other paths keep their nodes. */
  lemma DeleteEffect(fs: Fs, cwd: string, req: PostRequest)
    requires req.action == "delete"
    requires Post(fs, cwd, req).0 == Done
    ensures req.path.Some?
    ensures var t := Resolve(cwd, PostRoot(cwd, req), req.path.value);
      var fs' := Post(fs, cwd, req).1;
      && t in fs && t !in fs'
      && (forall k :: k in fs' ==> k in fs && fs'[k] == fs[k])
      && (fs[t].File? ==> fs' == fs - {t})
      && (fs[t].Directory? ==> forall k :: k in fs ==> (k in fs' <==> !InTree(t, k)))
  {
  }

  /** The server's disk, which the handlers read and `POST` changes in place. */
  class Disk {
    var nodes: Fs

    constructor(nodes: Fs)
      ensures this.nodes == nodes
    {
      this.nodes := nodes;
    }

    /** One `POST` request: the disk becomes what `Post` says, and is left
      untouched by every request that does not succeed. */
    method HandlePost(cwd: string, req: PostRequest) returns (resp: Response)
      modifies this
      ensures (resp, nodes) == Post(old(nodes), cwd, req)
      ensures Status(resp) != 200 ==> nodes == old(nodes)
    {
      var r := Post(nodes, cwd, req);
      resp := r.0;
      nodes := r.1;
    }
  }
}
