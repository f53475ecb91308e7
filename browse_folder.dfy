/** The folder browser behind the "choose notes root" dialog: the
    subdirectories of a path, with a `..` entry for climbing up. */
module BrowseFolder {

  import opened Common
  import opened Strings
  import opened PosixPath
  import opened Ordering
  import opened FileGateway

  datatype Folder = Folder(name: string, path: string, isParent: bool)

  datatype BrowseResponse =
    | NotADirectoryPath                                  // 400 Path is not a directory
    | BrowseFailed(error: FsError)                       // 500 error.message
    | Browsed(currentPath: string, folders: seq<Folder>) // 200

  /** The `..` entry, present unless `dirname` leaves the path where it is
      (`/` and `.`). */
  function ParentEntry(cur: string): (r: seq<Folder>)
    ensures |r| <= 1
    ensures r != [] <==> Dirname(cur) != cur
    ensures r != [] ==> r[0] == Folder("..", Dirname(cur), true)
  {
    if Dirname(cur) != cur then [Folder("..", Dirname(cur), true)] else []
  }

  /** The `push` loop over readdir's entries: one non-parent folder per
      directory entry, in entry order. */
  function Subfolders(cur: string, entries: seq<Dirent>): seq<Folder>
  {
    if entries == [] then []
    else
      var e := entries[|entries| - 1];
      var init := Subfolders(cur, entries[..|entries| - 1]);
      if e.kind == DirectoryDirent then init + [Folder(e.name, JoinPath(cur, e.name), false)] else init
  }

  /** The number of directory entries. */
  function DirCount(entries: seq<Dirent>): nat
  {
    if entries == [] then 0
    else DirCount(entries[1..]) + (if entries[0].kind == DirectoryDirent then 1 else 0)
  }

  lemma {:induction false} DirCountSnoc(entries: seq<Dirent>, e: Dirent)
    ensures DirCount(entries + [e]) == DirCount(entries) + (if e.kind == DirectoryDirent then 1 else 0)
  {
    if entries != [] {
      assert (entries + [e])[1..] == entries[1..] + [e];
      DirCountSnoc(entries[1..], e);
    }
  }

  /** The subfolders are exactly the directory entries, none of them the
      parent, joined onto the current path; one per directory entry. */
  lemma {:induction false} SubfoldersContents(cur: string, entries: seq<Dirent>)
    ensures |Subfolders(cur, entries)| == DirCount(entries)
    ensures forall x :: x in Subfolders(cur, entries) ==> !x.isParent
    ensures forall j :: 0 <= j < |entries| && entries[j].kind == DirectoryDirent ==>
      Folder(entries[j].name, JoinPath(cur, entries[j].name), false) in Subfolders(cur, entries)
    ensures forall x :: x in Subfolders(cur, entries) ==>
      exists j :: 0 <= j < |entries| && entries[j].kind == DirectoryDirent &&
        x == Folder(entries[j].name, JoinPath(cur, entries[j].name), false)
  {
    if entries != [] {
      var init := entries[..|entries| - 1];
      SubfoldersContents(cur, init);
      assert forall j :: 0 <= j < |init| ==> init[j] == entries[j];
      assert entries == init + [entries[|entries| - 1]];
      DirCountSnoc(init, entries[|entries| - 1]);
    }
  }

  /** The sort order: the parent first, then by name. */
  function FolderKey(f: Folder): SortKey
  {
    SortKey(if f.isParent then 0 else 1, f.name)
  }

  lemma TwoIndices<T>(s: seq<T>, i: nat, j: nat)
    requires i < j < |s| && s[i] == s[j]
    ensures multiset(s)[s[i]] >= 2
  {
    assert s == s[..i] + [s[i]] + s[i + 1..j] + [s[j]] + s[j + 1..];
  }

  /** A listing sorted by `FolderKey` that holds the parent entry once and
      otherwise only non-parents starts with the parent, has no other parent,
      and lists the rest in ascending name order. */
  lemma ParentFirst(folders: seq<Folder>, p: Folder, rest: seq<Folder>)
    requires SortedBy(folders, FolderKey)
    requires multiset(folders) == multiset([p] + rest)
    requires p.isParent && forall x :: x in rest ==> !x.isParent
    ensures |folders| > 0 && folders[0] == p
    ensures forall i :: 0 < i < |folders| ==> !folders[i].isParent
  {
    assert p in multiset(folders);
    var k :| 0 <= k < |folders| && folders[k] == p;
    forall i | 0 <= i < |folders| && folders[i].isParent
      ensures folders[i] == p
    {
      assert folders[i] in multiset([p] + rest);
      assert folders[i] !in rest;
    }
    assert p !in rest;
    assert multiset([p] + rest)[p] == 1;
    if k > 0 {
      assert KeyLe(FolderKey(folders[0]), FolderKey(folders[k]));
      TwoIndices(folders, 0, k);
    }
    forall i | 0 < i < |folders|
      ensures !folders[i].isParent
    {
      if folders[i].isParent {
        TwoIndices(folders, 0, i);
      }
    }
  }

  /** Folders sorted by `FolderKey` ascend by name among the non-parents. */
  lemma NamesAscend(folders: seq<Folder>, i: nat, j: nat)
    requires SortedBy(folders, FolderKey) && i < j < |folders|
    requires !folders[i].isParent && !folders[j].isParent
    ensures StrLe(folders[i].name, folders[j].name)
  {
    assert KeyLe(FolderKey(folders[i]), FolderKey(folders[j]));
  }

  /** The kernel's lookup of a path, one component at a time: `kept` are
      the segments of the directory reached so far, `rest` the components
      still to read. Each component is read from a directory, so a file
      followed by anything (a further name, `.`, `..` or a trailing `/`) is
      `ENOTDIR`, and a missing name is `ENOENT` even when a later `..` would
      leave it again. `..` climbs from the directory reached, and never
      above the root. Errors name the path as given (`raw`). */
  function Lookup(fs: Fs, raw: string, kept: seq<string>, rest: seq<string>): Result<Node, FsError>
    decreases |rest|
  {
    var key := "/" + JoinSegs(kept);
    if key !in fs then Err(NoSuchEntry(raw))
    else if rest == [] then Ok(fs[key])
    else if fs[key].File? then Err(NotADirectory(raw))
    else
      var seg := rest[0];
      if seg == "" || seg == "." then Lookup(fs, raw, kept, rest[1..])
      else if seg == ".." then
        Lookup(fs, raw, if |kept| > 0 && kept[|kept| - 1] != ".." then kept[..|kept| - 1] else kept, rest[1..])
      else Lookup(fs, raw, kept + [seg], rest[1..])
  }

  /** `fs.promises.stat(p)` on the path exactly as given: a relative path
      is read from the working directory. */
  function Stat(fs: Fs, cwd: string, p: string): Result<Node, FsError>
  {
    Lookup(fs, p, [], Split(ResolveBase(cwd, p)))
  }

  /** A lookup that succeeds ends at the node of the lexically normalised
      path. */
  lemma {:induction false} LookupNormalises(fs: Fs, raw: string, kept: seq<string>, rest: seq<string>)
    requires Lookup(fs, raw, kept, rest).Ok?
    ensures "/" + JoinSegs(NormFrom(kept, rest, false)) in fs
    ensures fs["/" + JoinSegs(NormFrom(kept, rest, false))] == Lookup(fs, raw, kept, rest).value
    decreases |rest|
  {
    if rest != [] {
      var seg := rest[0];
      if seg == "" || seg == "." {
        LookupNormalises(fs, raw, kept, rest[1..]);
      } else if seg == ".." {
        LookupNormalises(fs, raw, if |kept| > 0 && kept[|kept| - 1] != ".." then kept[..|kept| - 1] else kept, rest[1..]);
      } else {
        LookupNormalises(fs, raw, kept + [seg], rest[1..]);
      }
    }
  }

  /** A `stat` that succeeds finds the node at `path.resolve(p)`: the
      kernel's lookup refines the lexical one. */
  lemma StatResolves(fs: Fs, cwd: string, p: string)
    requires Stat(fs, cwd, p).Ok?
    ensures Resolve(cwd, p, "") in fs && fs[Resolve(cwd, p, "")] == Stat(fs, cwd, p).value
  {
    LookupNormalises(fs, p, [], Split(ResolveBase(cwd, p)));
    ResolveAlone(cwd, p);
  }

  /** `path.resolve(p)` normalises the segments `stat` reads. */
  lemma ResolveAlone(cwd: string, p: string)
    ensures Resolve(cwd, p, "") == "/" + JoinSegs(NormFrom([], Split(ResolveBase(cwd, p)), false))
  {
    var b := ResolveBase(cwd, p);
    assert !IsAbsolute("");
    SplitAtSlash(b, "");
    assert b + "/" + "" == b + "/";
    assert Split("") == [""];
    NormFromAppend([], Split(b), [""], false);
    assert NormFrom(NormFrom([], Split(b), false), [""], false) == NormFrom([], Split(b), false);
  }

  /** The components of `/x/y` for slash-free `x` and `y`. */
  lemma SplitTwo(x: string, y: string)
    requires '/' !in x && '/' !in y
    ensures Split("/" + x + "/" + y) == ["", x, y]
  {
    assert "/" + x + "/" + y == "" + "/" + (x + "/" + y);
    SplitAtSlash("", x + "/" + y);
    SplitAtSlash(x, y);
    SplitNoSlash(x);
    SplitNoSlash(y);
    assert Split("") == [""];
  }

  /** A `..` after a missing directory is not looked through: `/g/..`
      fails although it resolves to the existing root. */
  lemma MissingThenParent(fs: Fs, cwd: string, g: string)
    requires "/" in fs && fs["/"] == Directory
    requires IsPlainSegment(g) && '/' !in g && "/" + g !in fs
    ensures Resolve(cwd, "/" + g + "/..", "") == "/"
    ensures Stat(fs, cwd, "/" + g + "/..") == Err(NoSuchEntry("/" + g + "/.."))
  {
    var p := "/" + g + "/..";
    var segs := ["", g, ".."];
    assert p == "/" + g + "/" + "..";
    SplitTwo(g, "..");
    assert ResolveBase(cwd, p) == p;
    ResolveAlone(cwd, p);
    assert "/" + JoinSegs([]) == "/";
    assert "/" + JoinSegs([g]) == "/" + g;
    assert segs[1..] == [g, ".."] && segs[1..][1..] == [".."] && segs[2..] == [".."] && segs[2..][1..] == [];
    assert [] + [g] == [g] && [g][..0] == [];
    assert Lookup(fs, p, [g], [".."]) == Err(NoSuchEntry(p));
    assert Lookup(fs, p, [], segs[1..]) == Err(NoSuchEntry(p));
    assert Lookup(fs, p, [], segs) == Err(NoSuchEntry(p));
    assert NormFrom([g], [".."], false) == [];
    assert NormFrom([], segs[1..], false) == [];
    assert NormFrom([], segs, false) == [];
  }

  /** A trailing `/` needs a directory: `/f/` on a file fails with
      `ENOTDIR` although it resolves to the file. */
  lemma FileWithTrailingSlash(fs: Fs, cwd: string, f: string)
    requires "/" in fs && fs["/"] == Directory
    requires IsPlainSegment(f) && '/' !in f && "/" + f in fs && fs["/" + f].File?
    ensures Resolve(cwd, "/" + f + "/", "") == "/" + f
    ensures Stat(fs, cwd, "/" + f + "/") == Err(NotADirectory("/" + f + "/"))
  {
    var p := "/" + f + "/";
    var segs := ["", f, ""];
    SplitTwo(f, "");
    assert p == "/" + f + "/" + "";
    assert ResolveBase(cwd, p) == p;
    ResolveAlone(cwd, p);
    assert "/" + JoinSegs([]) == "/";
    assert "/" + JoinSegs([f]) == "/" + f;
    assert segs[1..] == [f, ""] && segs[1..][1..] == [""] && segs[2..] == [""] && segs[2..][1..] == [];
    assert [] + [f] == [f];
    assert Lookup(fs, p, [f], [""]) == Err(NotADirectory(p));
    assert Lookup(fs, p, [], segs[1..]) == Err(NotADirectory(p));
    assert Lookup(fs, p, [], segs) == Err(NotADirectory(p));
    assert NormFrom([f], [""], false) == [f];
    assert NormFrom([], segs, false) == [f] by {
      assert [] + [f] == [f];
    }
  }

  /** `GET /api/browse-folder`. `listing` is readdir's outcome for the path
      when it is a directory. */
  method Browse(fs: Fs, cwd: string, pathParam: Option<string>, listing: Result<seq<Dirent>, FsError>)
    returns (resp: BrowseResponse)
    ensures var cur := OrElse(pathParam, cwd);
      var st := Stat(fs, cwd, cur);
      && (st.Err? ==> resp == BrowseFailed(st.error))
      && (st.Ok? && st.value.File? ==> resp == NotADirectoryPath)
      && (st == Ok(Directory) && listing.Err? ==> resp == BrowseFailed(listing.error))
      && (st == Ok(Directory) && listing.Ok? ==>
            && resp.Browsed? && resp.currentPath == cur
            && SortedBy(resp.folders, FolderKey)
            && multiset(resp.folders) == multiset(ParentEntry(cur) + Subfolders(cur, listing.value))
            && |resp.folders| == DirCount(listing.value) + |ParentEntry(cur)|)
  {
    var cur := OrElse(pathParam, cwd);
    var st := Stat(fs, cwd, cur);
    if st.Err? {
      return BrowseFailed(st.error);
    }
    if st.value.File? {
      return NotADirectoryPath;
    }
    if listing.Err? {
      return BrowseFailed(listing.error);
    }
    var folders := CollectFolders(cur, listing.value);
    SubfoldersContents(cur, listing.value);
    var sorted := SortFolders(folders);
    assert |multiset(sorted)| == |multiset(folders)|;
    resp := Browsed(cur, sorted);
  }

  /** The parent entry, then one folder pushed per directory entry. */
  method CollectFolders(cur: string, entries: seq<Dirent>) returns (folders: seq<Folder>)
    ensures folders == ParentEntry(cur) + Subfolders(cur, entries)
  {
    folders := [];
    var parent := Dirname(cur);
    if parent != cur {
      folders := folders + [Folder("..", parent, true)];
    }
    var i := 0;
    while i < |entries|
      invariant 0 <= i <= |entries|
      invariant folders == ParentEntry(cur) + Subfolders(cur, entries[..i])
    {
      var e := entries[i];
      assert entries[..i + 1][..i] == entries[..i];
      if e.kind == DirectoryDirent {
        folders := folders + [Folder(e.name, JoinPath(cur, e.name), false)];
      }
      i := i + 1;
    }
    assert entries[..i] == entries;
  }

  /** `folders.sort(...)`: the folders copied into an array and sorted in place. */
  method SortFolders(folders: seq<Folder>) returns (sorted: seq<Folder>)
    ensures SortedBy(sorted, FolderKey) && multiset(sorted) == multiset(folders)
  {
    var a := new Folder[|folders|](j requires 0 <= j < |folders| => folders[j]);
    assert a[..] == folders;
    SortByKey(a, FolderKey);
    sorted := a[..];
  }

  /** What the dialog shows: the parent entry first when there is one, no
      other parent, and the subfolders in ascending name order. */
  lemma BrowseOrder(cur: string, entries: seq<Dirent>, folders: seq<Folder>)
    requires SortedBy(folders, FolderKey)
    requires multiset(folders) == multiset(ParentEntry(cur) + Subfolders(cur, entries))
    ensures Dirname(cur) != cur ==> |folders| > 0 && folders[0] == Folder("..", Dirname(cur), true)
    ensures forall i :: 0 <= i < |folders| && folders[i].isParent ==> i == 0 && Dirname(cur) != cur
    ensures forall i, j :: 0 <= i < j < |folders| && !folders[i].isParent ==> StrLe(folders[i].name, folders[j].name)
  {
    SubfoldersContents(cur, entries);
    var subs := Subfolders(cur, entries);
    if Dirname(cur) != cur {
      ParentFirst(folders, Folder("..", Dirname(cur), true), subs);
    } else {
      assert ParentEntry(cur) + subs == subs;
      forall i | 0 <= i < |folders|
        ensures !folders[i].isParent
      {
        assert folders[i] in multiset(folders);
        assert folders[i] in subs;
      }
    }
    forall i, j | 0 <= i < j < |folders| && !folders[i].isParent
      ensures StrLe(folders[i].name, folders[j].name)
    {
      assert KeyLe(FolderKey(folders[i]), FolderKey(folders[j]));
    }
  }
}
