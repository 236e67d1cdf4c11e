/**
  Path resolution (`VFS::resolve_path`, `Inode::find`, `Inode::resolve_link`, `VFS::get_mount`) and the printing of
  a resolved path (`LinkedInode::get_full_path`), over an arbitrary graph of inodes.
 */
module PathResolution {
  import opened Helpers

  const RECURSION_LIMIT: nat := 5
  const CHAIN_LENGTH: nat := 128

  /** An inode: the number of its filesystem and its number in it. */
  datatype Id = Id(fsid: nat, ino: nat)

  datatype Kind = Directory(entries: map<string, Id>) | File | Symlink(target: string)
  datatype Inode = Inode(kind: Kind, executors: set<nat>)

  /** A directory that is covered by the root of another filesystem. */
  datatype Mount = Mount(host: Id, guest: Id)

  datatype Vfs = Vfs(inodes: map<Id, Inode>, root: Id, mounts: seq<Mount>)

  /** An inode together with the names that led to it. */
  datatype Chain = Root(inode: Id) | Child(inode: Id, name: string, parent: Chain)

  datatype Error = ELOOP | ENOTDIR | EACCES | ENOENT | EIO
  datatype Result = Found(chain: Chain) | Failed(error: Error)
  datatype Options = Options(noFollow: bool, returnLink: bool)

  // ---------------------------------------------------------------- the steps of a resolution

  predicate AtEnd(path: string) { path == "" || path[0] == '\0' }

  /** The position of the first slash, or the length. */
  function Slash(path: string): (i: nat)
    ensures i <= |path| && '/' !in path[..i] && (i < |path| ==> path[i] == '/')
  {
    if path == "" || path[0] == '/' then 0 else 1 + Slash(path[1..])
  }

  function Part(path: string): string { path[..Slash(path)] }

  function Rest(path: string): (r: string)
    ensures !AtEnd(path) ==> |r| < |path|
  {
    if Slash(path) < |path| then path[Slash(path) + 1..] else ""
  }

  predicate IsDirectory(v: Vfs, c: Chain) { c.inode in v.inodes && v.inodes[c.inode].kind.Directory? }

  predicate MayTraverse(v: Vfs, c: Chain, user: nat) { c.inode in v.inodes && user in v.inodes[c.inode].executors }

  /** The entry of a directory, if there is one. */
  function Find(v: Vfs, c: Chain, name: string): Option<Id>
    requires IsDirectory(v, c)
  {
    var entries := v.inodes[c.inode].kind.entries;
    if name in entries && entries[name] in v.inodes then Some(entries[name]) else None
  }

  predicate IsSymlink(v: Vfs, id: Id) { id in v.inodes && v.inodes[id].kind.Symlink? }

  /** The root of what is mounted on an inode, or the inode itself. */
  function Covered(v: Vfs, mounts: seq<Mount>, id: Id): Id {
    if mounts == [] then id else if mounts[0].host == id then mounts[0].guest else Covered(v, mounts[1..], id)
  }

  function Up(c: Chain): Chain { if c.Child? then c.parent else c }

  function Start(v: Vfs, path: string, base: Chain): Chain { if path != "" && path[0] == '/' then Root(v.root) else base }

  function Relative(path: string): string { if path != "" && path[0] == '/' then path[1..] else path }

  /** What a path resolves to. */
  function Resolve(v: Vfs, path: string, base: Chain, user: nat, opts: Options, level: nat): Result
    decreases RECURSION_LIMIT + 1 - level, |path| + 1
  {
    if level > RECURSION_LIMIT then Failed(ELOOP)
    else if path == "/" then Found(Root(v.root))
    else Walk(v, Relative(path), Start(v, path, base), user, opts, level)
  }

  function Walk(v: Vfs, path: string, at: Chain, user: nat, opts: Options, level: nat): Result
    requires level <= RECURSION_LIMIT
    decreases RECURSION_LIMIT + 1 - level, |path|
  {
    if AtEnd(path) then Found(at)
    else if !IsDirectory(v, at) then Failed(ENOTDIR)
    else if !MayTraverse(v, at, user) then Failed(EACCES)
    else
      var part, rest := Part(path), Rest(path);
      if part == ".." then Walk(v, rest, Up(at), user, opts, level)
      else if part == "." then Walk(v, rest, at, user, opts, level)
      else
        match Find(v, at, part)
        case None => Failed(ENOENT)
        case Some(id) =>
          if IsSymlink(v, id) then
            if rest == "" && opts.noFollow then Failed(ELOOP)
            else if rest == "" && opts.returnLink then Found(Child(id, part, at))
            else
              var link := Resolve(v, v.inodes[id].kind.target, at, user, opts, level + 1);
              if rest == "" || link.Failed? then link else Resolve(v, rest, link.chain, user, opts, level + 1)
          else if Covered(v, v.mounts, id) !in v.inodes then Failed(EIO)
          else Walk(v, rest, Child(Covered(v, v.mounts, id), part, at), user, opts, level)
  }

  // ---------------------------------------------------------------- the code

  method GetMount(v: Vfs, id: Id) returns (guest: Option<Id>)
    ensures Covered(v, v.mounts, id) == if guest.Some? then guest.value else id
  {
    for i := 0 to |v.mounts|
      invariant Covered(v, v.mounts, id) == Covered(v, v.mounts[i..], id)
    {
      if v.mounts[i].host == id {
        return Some(v.mounts[i].guest);
      }
      assert v.mounts[i..][1..] == v.mounts[i + 1..];
    }
    return None;
  }

  /** `resolve_path`. It also counts the invocations it takes: symlinks double them at most five times over. */
  method ResolvePath(v: Vfs, fullPath: string, base: Chain, user: nat, opts: Options, level: nat) returns (r: Result, calls: nat)
    requires level <= RECURSION_LIMIT + 1
    ensures r == Resolve(v, fullPath, base, user, opts, level)
    ensures 1 <= calls <= Pow2(RECURSION_LIMIT + 2 - level) - 1
    decreases RECURSION_LIMIT + 1 - level
  {
    calls := 1;
    assert Pow2(RECURSION_LIMIT + 2 - level) == 2 * Pow2(RECURSION_LIMIT + 1 - level);
    if level > RECURSION_LIMIT {
      return Failed(ELOOP), calls;
    }
    assert Pow2(RECURSION_LIMIT + 1 - level) >= 2;
    if fullPath == "/" {
      return Found(Root(v.root)), calls;
    }
    var path, at := fullPath, base;
    if path != "" && path[0] == '/' {
      path, at := path[1..], Root(v.root);
    }
    while !AtEnd(path)
      invariant Resolve(v, fullPath, base, user, opts, level) == Walk(v, path, at, user, opts, level)
      decreases |path|
    {
      if !IsDirectory(v, at) {
        return Failed(ENOTDIR), calls;
      }
      if !MayTraverse(v, at, user) {
        return Failed(EACCES), calls;
      }
      var part, rest := Part(path), Rest(path);
      path := rest;
      if part == ".." {
        if at.Child? { at := at.parent; }
        continue;
      } else if part == "." {
        continue;
      }
      var child := Find(v, at, part);
      if child.None? {
        return Failed(ENOENT), calls;
      }
      if IsSymlink(v, child.value) {
        if rest == "" && opts.noFollow {
          return Failed(ELOOP), calls;
        }
        if rest == "" && opts.returnLink {
          return Found(Child(child.value, part, at)), calls;
        }
        var link, n := ResolvePath(v, v.inodes[child.value].kind.target, at, user, opts, level + 1);
        calls := calls + n;
        if rest == "" || link.Failed? {
          return link, calls;
        }
        var last, m := ResolvePath(v, rest, link.chain, user, opts, level + 1);
        return last, calls + m;
      }
      var guest := GetMount(v, child.value);
      var inode := if guest.Some? then guest.value else child.value;
      if inode !in v.inodes {
        return Failed(EIO), calls;
      }
      at := Child(inode, part, at);
    }
    r := Found(at);
  }

  // ---------------------------------------------------------------- what resolution can produce

  predicate GoodName(name: string) { name != "" && name[0] != '\0' && '/' !in name && name != "." && name != ".." }

  /** Each inode of the chain is the entry of that name in the one above it, followed through a mount, and no symlink. */
  ghost predicate Real(v: Vfs, c: Chain) {
    match c
    case Root(inode) => inode == v.root
    case Child(inode, name, parent) =>
      && Real(v, parent) && GoodName(name) && IsDirectory(v, parent) && inode in v.inodes
      && Find(v, parent, name).Some? && !IsSymlink(v, Find(v, parent, name).value)
      && inode == Covered(v, v.mounts, Find(v, parent, name).value)
  }

  ghost predicate NoEmptyNames(v: Vfs) {
    forall id :: id in v.inodes && v.inodes[id].kind.Directory? ==> "" !in v.inodes[id].kind.entries
  }

  /** A symlink itself, as only `O_INTERNAL_RETLINK` returns it. */
  ghost predicate RealLink(v: Vfs, c: Chain) {
    && c.Child? && Real(v, c.parent) && GoodName(c.name) && IsDirectory(v, c.parent)
    && Find(v, c.parent, c.name) == Some(c.inode) && IsSymlink(v, c.inode)
  }

  /** What a resolution that set out from a real chain, or from a link, may find. */
  ghost predicate Genuine(v: Vfs, r: Result, from: Chain, opts: Options) {
    r.Found? ==> Real(v, r.chain) || (RealLink(v, r.chain) && ((opts.returnLink && !opts.noFollow) || r.chain == from))
  }

  ghost predicate Sound(v: Vfs, c: Chain) { NoEmptyNames(v) && (Real(v, c) || RealLink(v, c)) }

  lemma {:induction false} EntryIsGood(v: Vfs, at: Chain, path: string)
    requires NoEmptyNames(v) && !AtEnd(path) && IsDirectory(v, at) && Find(v, at, Part(path)).Some?
    requires Part(path) != "." && Part(path) != ".."
    ensures GoodName(Part(path))
  {
    assert Part(path) in v.inodes[at.inode].kind.entries;
  }

  /** Whatever the path, the base, `..`, symlinks and mounts: from a real chain only real ones are reached. */
  lemma {:induction false} ResolveIsReal(v: Vfs, path: string, base: Chain, user: nat, opts: Options, level: nat)
    requires Sound(v, base)
    ensures Genuine(v, Resolve(v, path, base, user, opts, level), base, opts)
    decreases RECURSION_LIMIT + 1 - level, |path| + 1
  {
    if level <= RECURSION_LIMIT && path != "/" {
      WalkIsReal(v, Relative(path), Start(v, path, base), user, opts, level);
    }
  }

  lemma {:induction false} WalkIsReal(v: Vfs, path: string, at: Chain, user: nat, opts: Options, level: nat)
    requires level <= RECURSION_LIMIT && Sound(v, at)
    ensures Genuine(v, Walk(v, path, at, user, opts, level), at, opts)
    decreases RECURSION_LIMIT + 1 - level, |path|
  {
    if !AtEnd(path) && IsDirectory(v, at) && MayTraverse(v, at, user) {
      var part, rest := Part(path), Rest(path);
      if part == ".." {
        WalkIsReal(v, rest, Up(at), user, opts, level);
      } else if part == "." {
        WalkIsReal(v, rest, at, user, opts, level);
      } else if Find(v, at, part).Some? {
        var id := Find(v, at, part).value;
        EntryIsGood(v, at, path);
        if IsSymlink(v, id) {
          if !(rest == "" && (opts.noFollow || opts.returnLink)) { LinkIsReal(v, id, rest, at, user, opts, level); }
        } else if Covered(v, v.mounts, id) in v.inodes {
          assert Real(v, at);
          WalkIsReal(v, rest, Child(Covered(v, v.mounts, id), part, at), user, opts, level);
        }
      }
    }
  }

  /** The two resolutions that a symlink takes: of its target, and of what follows it in the path. */
  lemma {:induction false} LinkIsReal(v: Vfs, id: Id, rest: string, at: Chain, user: nat, opts: Options, level: nat)
    requires level <= RECURSION_LIMIT && Sound(v, at) && IsDirectory(v, at) && IsSymlink(v, id)
    ensures
      var link := Resolve(v, v.inodes[id].kind.target, at, user, opts, level + 1);
      && Genuine(v, link, at, opts)
      && (link.Found? ==> Genuine(v, Resolve(v, rest, link.chain, user, opts, level + 1), at, opts))
    decreases RECURSION_LIMIT + 1 - level, 0
  {
    ResolveIsReal(v, v.inodes[id].kind.target, at, user, opts, level + 1);
    var link := Resolve(v, v.inodes[id].kind.target, at, user, opts, level + 1);
    if link.Found? { ResolveIsReal(v, rest, link.chain, user, opts, level + 1); }
  }

  // ---------------------------------------------------------------- printing, and resolving what was printed

  function PathBelowRoot(c: Chain): string { if c.Root? then "" else PathBelowRoot(c.parent) + "/" + c.name }

  function FullPath(c: Chain): string { if c.Root? then "/" else PathBelowRoot(c) }

  function Depth(c: Chain): nat { if c.Root? then 1 else 1 + Depth(c.parent) }

  function Above(c: Chain, n: nat): Chain
    requires n < Depth(c)
  {
    if n == 0 then c else Above(c.parent, n - 1)
  }

  lemma {:induction false} AboveStep(c: Chain, n: nat)
    requires n < Depth(c)
    ensures Above(c, n).Root? <==> n + 1 == Depth(c)
    ensures n + 1 < Depth(c) ==> Above(c, n + 1) == Above(c, n).parent
  {
    if n > 0 { AboveStep(c.parent, n - 1); }
  }

  /** `get_full_path`. The ancestors are collected in an array of fixed length; a longer chain runs over its end: `None`. */
  method GetFullPath(c: Chain) returns (r: Option<string>)
    ensures r.None? <==> Depth(c) > CHAIN_LENGTH
    ensures r.Some? ==> r.value == FullPath(c)
  {
    if c.Root? {
      return Some("/");
    }
    var chain := new Chain[CHAIN_LENGTH](_ => c);
    var i, ref := 0, c;
    while true
      invariant 0 <= i < Depth(c) && i <= chain.Length && ref == Above(c, i)
      invariant forall n :: 0 <= n < i ==> chain[n] == Above(c, n)
      decreases Depth(c) - i
    {
      if i == chain.Length {
        return None;
      }
      chain[i] := ref;
      i := i + 1;
      AboveStep(c, i - 1);
      if ref.Root? { break; }
      ref := ref.parent;
    }
    i := i - 2;
    var path := "";
    AboveStep(c, i);
    while i >= 0
      invariant -1 <= i < Depth(c) - 1 && path == PathBelowRoot(Above(c, i + 1))
      invariant forall n :: 0 <= n < Depth(c) ==> chain[n] == Above(c, n)
    {
      AboveStep(c, i);
      path := path + "/" + chain[i].name;
      i := i - 1;
    }
    r := Some(path);
  }

  function Names(c: Chain): seq<string> { if c.Root? then [] else Names(c.parent) + [c.name] }

  function Join(names: seq<string>): string {
    if names == [] then "" else if |names| == 1 then names[0] else names[0] + "/" + Join(names[1..])
  }

  lemma {:induction false} JoinSnoc(names: seq<string>, n: string)
    requires names != []
    ensures Join(names + [n]) == Join(names) + "/" + n
  {
    if |names| > 1 {
      JoinSnoc(names[1..], n);
      assert (names + [n])[1..] == names[1..] + [n];
    } else {
      assert (names + [n])[1..] == [n];
    }
  }

  lemma {:induction false} PathIsJoin(c: Chain)
    requires c.Child?
    ensures PathBelowRoot(c) == "/" + Join(Names(c))
  {
    if c.parent.Child? {
      PathIsJoin(c.parent);
      JoinSnoc(Names(c.parent), c.name);
    }
  }

  lemma {:induction false} SlashIn(name: string, tail: string)
    requires '/' !in name
    ensures Slash(name) == |name| && Slash(name + "/" + tail) == |name|
  {
    if name != "" {
      SlashIn(name[1..], tail);
      assert (name + "/" + tail)[1..] == name[1..] + "/" + tail;
    }
  }

  /** The first name of a joined path is its first part, and the other names are the rest. */
  lemma {:induction false} PartOfJoin(name: string, tail: seq<string>)
    requires GoodName(name)
    ensures var path := Join([name] + tail); !AtEnd(path) && Part(path) == name && Rest(path) == Join(tail)
  {
    SlashIn(name, Join(tail));
    assert ([name] + tail)[1..] == tail;
    if tail != [] { assert (name + "/" + Join(tail))[|name| + 1..] == Join(tail); }
  }

  /** The user may traverse every directory above the chain's inode. */
  ghost predicate Reachable(v: Vfs, c: Chain, user: nat) {
    c.Child? ==> MayTraverse(v, c.parent, user) && Reachable(v, c.parent, user)
  }

  /** Walking the names of a real chain from the root leads to it. */
  lemma {:induction false} WalkDown(v: Vfs, c: Chain, tail: seq<string>, user: nat, opts: Options, level: nat)
    requires Real(v, c) && Reachable(v, c, user) && level <= RECURSION_LIMIT
    ensures Walk(v, Join(Names(c) + tail), Root(v.root), user, opts, level) == Walk(v, Join(tail), c, user, opts, level)
    decreases c
  {
    if c.Root? {
      assert Names(c) + tail == tail;
    } else {
      assert Names(c) + tail == Names(c.parent) + ([c.name] + tail);
      WalkDown(v, c.parent, [c.name] + tail, user, opts, level);
      PartOfJoin(c.name, tail);
    }
  }

  /** Resolving the printed path of a real chain, from any base, leads back to the chain. */
  lemma {:induction false} RoundTrip(v: Vfs, c: Chain, base: Chain, user: nat, opts: Options, level: nat)
    requires Reachable(v, c, user) && level <= RECURSION_LIMIT
    requires Real(v, c) || (RealLink(v, c) && opts.returnLink && !opts.noFollow)
    ensures Resolve(v, FullPath(c), base, user, opts, level) == Found(c)
  {
    if c.Child? {
      PathIsJoin(c);
      PartOfJoin(c.name, []);
      var path := Join(Names(c));
      NamesNonEmpty(c);
      assert FullPath(c)[1..] == path;
      if Real(v, c) {
        assert Names(c) + [] == Names(c);
        WalkDown(v, c, [], user, opts, level);
      } else {
        assert [c.name] + [] == [c.name];
        WalkDown(v, c.parent, [c.name], user, opts, level);
      }
    }
  }

  lemma {:induction false} NamesNonEmpty(c: Chain)
    requires c.Child? && c.name != ""
    ensures Join(Names(c)) != ""
  {
    if c.parent.Child? { JoinSnoc(Names(c.parent), c.name); }
  }

  /** What a resolution found is found again under its printed path. */
  lemma {:induction false} ResolvedRoundTrip(v: Vfs, path: string, base: Chain, base': Chain, user: nat, opts: Options, level: nat)
    requires Real(v, base) && NoEmptyNames(v) && level <= RECURSION_LIMIT
    ensures
      var r := Resolve(v, path, base, user, opts, level);
      r.Found? && Reachable(v, r.chain, user) ==> Resolve(v, FullPath(r.chain), base', user, opts, 0) == r
  {
    ResolveIsReal(v, path, base, user, opts, level);
    var r := Resolve(v, path, base, user, opts, level);
    if r.Found? && Reachable(v, r.chain, user) {
      RoundTrip(v, r.chain, base', user, opts, 0);
    }
  }
}
