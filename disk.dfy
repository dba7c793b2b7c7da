/** The file system as the core uses it through Node's `fs` module, relative to the
    application directory: a map from file path to contents and a set of directory
    paths. Paths are `/`-separated strings without a leading `/`; the application
    directory itself is the empty path and always exists. Each method is one `fs` call
    (`existsSync`, `mkdirSync`, `writeFileSync`, `copyFileSync`, `unlinkSync`,
    `rmSync(..., {recursive: true, force: true})`); a call that Node would reject
    returns `Threw` with the error code and changes nothing. */
module Disk {
  import opened Text

  /** The result of an external step that may fail with a message. */
  datatype Attempt<T> = Done(value: T) | Failed(message: string)

  /** How a call that returns nothing ended: normally, or by throwing. */
  datatype Completion = Completed | Threw(error: string)

  /** `p` is `dir` or lies below it. */
  predicate Within(p: string, dir: string)
  {
    p == dir || StartsWith(p, dir + "/")
  }

  predicate EndsWithSlash(p: string)
  {
    p != "" && p[|p| - 1] == '/'
  }

  /** The path without one trailing `/`. */
  function StripSlash(p: string): (r: string)
    ensures EndsWithSlash(p) ==> r + "/" == p
    ensures !EndsWithSlash(p) ==> r == p
  {
    if EndsWithSlash(p) then p[..|p| - 1] else p
  }

  /** `fs.existsSync(p)`: a path with a trailing `/` names only a directory. */
  predicate ExistsIn(files: map<string, string>, dirs: set<string>, p: string)
  {
    if EndsWithSlash(p) then p[..|p| - 1] in dirs else p in files || p in dirs
  }

  /** Every directory `mkdirSync(p, {recursive: true})` creates or passes through: the
      prefixes of `p` that end where a segment ends. */
  function Ancestors(p: string): (r: set<string>)
    ensures forall a :: a in r ==> a != "" && |a| <= |p| && p[..|a|] == a && (|a| == |p| || p[|a|] == '/')
    ensures p != "" ==> p in r
  {
    assert p != "" ==> p[..|p|] == p;
    set i | 0 < i <= |p| && (i == |p| || p[i] == '/') :: p[..i]
  }

  /** Nothing exists at or below `dir`. */
  predicate NothingWithin(files: map<string, string>, dirs: set<string>, dir: string)
  {
    (forall p :: p in files ==> !Within(p, dir)) && (forall d :: d in dirs ==> !Within(d, dir))
  }

  /** The files that are not at or below `dir`. */
  function FilesOutside(files: map<string, string>, dir: string): (r: map<string, string>)
    ensures forall p :: p in r <==> p in files && !Within(p, dir)
    ensures forall p :: p in r ==> r[p] == files[p]
  {
    map p | p in files && !Within(p, dir) :: files[p]
  }

  /** The directories that are not at or below `dir`. */
  function DirsOutside(dirs: set<string>, dir: string): (r: set<string>)
    ensures forall d :: d in r <==> d in dirs && !Within(d, dir)
  {
    set d | d in dirs && !Within(d, dir)
  }

  lemma PrefixInjective(dir: string)
    ensures forall a: string, b: string :: dir + "/" + a == dir + "/" + b ==> a == b
  {
    forall a: string, b: string | dir + "/" + a == dir + "/" + b ensures a == b {
      assert a == (dir + "/" + a)[|dir| + 1..];
      assert b == (dir + "/" + b)[|dir| + 1..];
    }
  }

  /** A tree of files placed below `dir`. */
  function Prefixed(dir: string, tree: map<string, string>): (r: map<string, string>)
    ensures forall k :: k in tree ==> dir + "/" + k in r && r[dir + "/" + k] == tree[k]
    ensures forall p :: p in r ==> Within(p, dir) && p != dir
  {
    PrefixInjective(dir);
    map k | k in tree :: dir + "/" + k := tree[k]
  }

  /** The directories a tree of files placed below `dir` brings with it. */
  function PrefixedDirs(dir: string, tree: map<string, string>): (r: set<string>)
    ensures forall d :: d in r ==> Within(d, dir) && d != dir
  {
    set k, i | k in tree && 0 < i < |k| && k[i] == '/' :: dir + "/" + k[..i]
  }

  /** The files at or below `dir`, keyed by their path relative to `dir`. */
  function Relative(files: map<string, string>, dir: string): (r: map<string, string>)
    ensures forall k :: k in r <==> dir + "/" + k in files
    ensures forall k :: k in r ==> r[k] == files[dir + "/" + k]
  {
    var keys := set p | p in files && StartsWith(p, dir + "/") :: p[|dir| + 1..];
    assert forall k :: k in keys <==> dir + "/" + k in files by {
      forall p | p in files && StartsWith(p, dir + "/") ensures p == dir + "/" + p[|dir| + 1..] {
        assert p[..|dir| + 1] == dir + "/";
      }
      forall k ensures k in keys <==> dir + "/" + k in files {
        if dir + "/" + k in files {
          assert (dir + "/" + k)[|dir| + 1..] == k;
        }
      }
    }
    map k | k in keys :: files[dir + "/" + k]
  }

  /** The directory part of `p`, or the empty path when `p` has no `/`. */
  function Parent(p: string): (r: string)
    ensures Within(p, r) || r == ""
  {
    LastPartIsSuffix(p, '/');
    var name := LastPart(p, '/');
    if |name| == |p| then ""
    else
      var r := p[..|p| - |name| - 1];
      assert p == r + "/" + name;
      r
  }

  /** A regular file can be created or truncated at `p`: it is no directory and its
      parent directory exists. */
  predicate Writable(files: map<string, string>, dirs: set<string>, p: string)
  {
    p != "" && !EndsWithSlash(p) && p !in dirs && (Parent(p) == "" || Parent(p) in dirs)
  }

  /** The code Node reports when a file cannot be written at `p`. */
  function WriteError(dirs: set<string>, p: string): string
  {
    if p in dirs || EndsWithSlash(p) then "EISDIR" else "ENOENT"
  }

  class FileSystem {
    var files: map<string, string>
    var dirs: set<string>

    constructor (files0: map<string, string>, dirs0: set<string>)
      ensures files == files0 && dirs == dirs0
    {
      files, dirs := files0, dirs0;
    }

    /** `fs.existsSync(p)`: a path without a trailing `/` exists when it is a file or a
        directory; one with a trailing `/` only when it names a directory, so a file
        followed by `/` does not exist. */
    predicate Exists(p: string)
      reads this
      ensures !EndsWithSlash(p) ==> (Exists(p) <==> Read(p).Some? || p in dirs)
      ensures EndsWithSlash(p) ==> (Exists(p) <==> p[..|p| - 1] in dirs)
    {
      ExistsIn(files, dirs, p)
    }

    /** The contents of the file at `p`, if there is one. */
    function Read(p: string): (r: Option<string>)
      reads this
      ensures r.Some? <==> p in files
      ensures r.Some? ==> r.value == files[p]
    {
      if p in files then Some(files[p]) else None
    }

    /** `fs.mkdirSync(p)`: creates one directory; it fails when something exists at `p`
        or the parent directory is missing. */
    method MakeDir(p: string) returns (r: Completion)
      modifies this
      ensures r.Completed? <==> Writable(old(files), old(dirs), p) && p !in old(files)
      ensures r.Completed? ==> files == old(files) && dirs == old(dirs) + {p}
      ensures r.Threw? ==> files == old(files) && dirs == old(dirs)
    {
      if !Writable(files, dirs, p) || p in files {
        return Threw(if p in files || p in dirs then "EEXIST" else "ENOENT");
      }
      dirs := dirs + {p};
      return Completed;
    }

    /** `fs.mkdirSync(p, {recursive: true})`: it fails on the empty path and when a file
        stands where a directory is needed. */
    method MkdirAll(p: string) returns (r: Completion)
      modifies this
      ensures r.Completed? <==> StripSlash(p) != "" && forall a :: a in Ancestors(StripSlash(p)) ==> a !in old(files)
      ensures r.Completed? ==> files == old(files) && dirs == old(dirs) + Ancestors(StripSlash(p))
      ensures r.Threw? ==> files == old(files) && dirs == old(dirs)
    {
      var q := StripSlash(p);
      if q == "" {
        return Threw("ENOENT");
      }
      if exists a :: a in Ancestors(q) && a in files {
        return Threw(if q in files then "EEXIST" else "ENOTDIR");
      }
      dirs := dirs + Ancestors(q);
      return Completed;
    }

    /** Writing a whole file (`fs.writeFileSync`, a write stream): creates or truncates. */
    method Save(p: string, content: string) returns (r: Completion)
      modifies this
      ensures r.Completed? <==> Writable(old(files), old(dirs), p)
      ensures r.Completed? ==> files == old(files)[p := content] && dirs == old(dirs)
      ensures r.Threw? ==> files == old(files) && dirs == old(dirs)
    {
      if !Writable(files, dirs, p) {
        return Threw(WriteError(dirs, p));
      }
      files := files[p := content];
      return Completed;
    }

    /** `downloadFile(url, target)`: the response body, if the fetch succeeds, is written
        to `target`. What the network answers is the `fetch` parameter. */
    method Download(url: string, target: string, fetch: string -> Attempt<string>) returns (r: Completion)
      modifies this
      ensures r.Completed? <==> fetch(url).Done? && Writable(old(files), old(dirs), target)
      ensures r.Completed? ==> files == old(files)[target := fetch(url).value] && dirs == old(dirs)
      ensures r.Threw? ==> files == old(files) && dirs == old(dirs)
    {
      match fetch(url)
      case Failed(message) =>
        return Threw(message);
      case Done(body) =>
        r := Save(target, body);
    }

    /** `fs.writeFileSync(p, content)` over an existing file. */
    method Overwrite(p: string, content: string)
      requires p in files
      modifies this
      ensures files == old(files)[p := content] && dirs == old(dirs)
    {
      files := files[p := content];
    }

    /** `fs.copyFileSync(src, dst)`. */
    method CopyFile(src: string, dst: string) returns (r: Completion)
      modifies this
      ensures r.Completed? <==> src in old(files) && Writable(old(files), old(dirs), dst)
      ensures r.Completed? ==> files == old(files)[dst := old(files)[src]] && dirs == old(dirs)
      ensures r.Threw? ==> files == old(files) && dirs == old(dirs)
    {
      if src !in files {
        return Threw(if src in dirs then "EISDIR" else "ENOENT");
      }
      if !Writable(files, dirs, dst) {
        return Threw(WriteError(dirs, dst));
      }
      files := files[dst := files[src]];
      return Completed;
    }

    /** `fs.unlinkSync(p)`: only a file can be unlinked. */
    method Unlink(p: string) returns (r: Completion)
      modifies this
      ensures r.Completed? <==> p in old(files) && !EndsWithSlash(p)
      ensures r.Completed? ==> files == old(files) - {p} && dirs == old(dirs)
      ensures r.Threw? ==> files == old(files) && dirs == old(dirs)
    {
      if p !in files || EndsWithSlash(p) {
        return Threw(if p in dirs || EndsWithSlash(p) then "EISDIR" else "ENOENT");
      }
      files := files - {p};
      return Completed;
    }

    /** `fs.rmSync(p, {recursive: true, force: true})`: removes `p` and everything below
        it, and never fails. */
    method RemoveTree(p: string)
      modifies this
      ensures files == FilesOutside(old(files), p) && dirs == DirsOutside(old(dirs), p)
    {
      files := FilesOutside(files, p);
      dirs := DirsOutside(dirs, p);
    }

    /** A tool writes a tree of files below `dir`, creating `dir` and the directories
        the tree needs, and overwriting files already there. */
    method PlaceTree(dir: string, tree: map<string, string>)
      modifies this
      ensures files == old(files) + Prefixed(dir, tree)
      ensures dirs == old(dirs) + {dir} + PrefixedDirs(dir, tree)
    {
      files := files + Prefixed(dir, tree);
      dirs := dirs + {dir} + PrefixedDirs(dir, tree);
    }
  }

  /** Removing a directory that was absent before a series of writes below it gives
      back the files there were. */
  lemma RemoveRestores(before: map<string, string>, after: map<string, string>, dir: string)
    requires forall p :: p in before ==> !Within(p, dir)
    requires FilesOutside(after, dir) == FilesOutside(before, dir)
    ensures FilesOutside(after, dir) == before
  {
    assert FilesOutside(before, dir) == before;
  }

  /** The text before the first `/`. */
  function FirstSegment(s: string): (r: string)
    ensures '/' !in r && StartsWith(s, r)
  {
    s[..IndexOfChar(s, '/', 0)]
  }

  /** Everything at or below a single-segment directory starts with that segment. */
  lemma FirstSegmentWithin(a: string, dir: string)
    requires '/' !in dir
    ensures Within(a, dir) ==> FirstSegment(a) == dir
  {
    if a == dir {
      assert IndexOfChar(a, '/', 0) == |a|;
    } else if StartsWith(a, dir + "/") {
      assert a[|dir|] == '/';
      assert forall j :: 0 <= j < |dir| ==> a[j] == dir[j];
      assert IndexOfChar(a, '/', 0) == |dir|;
    }
  }

  /** The ancestors of a path all start with its first segment. */
  lemma FirstSegmentAncestor(p: string, a: string, first: string)
    requires first != "" && '/' !in first && StartsWith(p, first)
    requires |p| == |first| || p[|first|] == '/'
    requires a != "" && |a| <= |p| && p[..|a|] == a && (|a| == |p| || p[|a|] == '/')
    ensures FirstSegment(a) == first
  {
    assert forall j :: 0 <= j < |first| ==> p[j] == first[j] && p[j] != '/';
    assert |a| >= |first|;
    assert forall j :: 0 <= j < |first| ==> a[j] == first[j];
    if |a| == |first| {
      assert IndexOfChar(a, '/', 0) == |first|;
    } else {
      assert a[|first|] == '/';
      assert IndexOfChar(a, '/', 0) == |first|;
    }
  }

  /** A path below a single-segment directory `first` has no ancestor at or below another
      single-segment directory. */
  lemma AncestorsOutside(p: string, first: string, other: string)
    requires first != "" && '/' !in first && StartsWith(p, first)
    requires |p| == |first| || p[|first|] == '/'
    requires '/' !in other && other != first
    ensures forall a :: a in Ancestors(p) ==> !Within(a, other)
  {
    forall a | a in Ancestors(p) ensures !Within(a, other) {
      FirstSegmentAncestor(p, a, first);
      FirstSegmentWithin(a, other);
    }
  }

  lemma WithinSlash(dir: string, rest: string)
    ensures Within(dir + "/" + rest, dir)
  {
    assert (dir + "/" + rest)[..|dir| + 1] == dir + "/";
  }

  lemma WithinTrans(p: string, sub: string, dir: string)
    requires Within(p, sub) && Within(sub, dir)
    ensures Within(p, dir)
  {
    if p != sub && sub != dir {
      assert p[..|sub| + 1] == sub + "/";
      assert sub[..|dir| + 1] == dir + "/";
      assert p[..|dir| + 1] == sub[..|dir| + 1];
    }
  }

  /** Writing a file at or below `dir` changes nothing outside it. */
  lemma OutsideUpdate(files: map<string, string>, p: string, content: string, dir: string)
    requires Within(p, dir)
    ensures FilesOutside(files[p := content], dir) == FilesOutside(files, dir)
  {
  }

  /** Removing a file at or below `dir` changes nothing outside it. */
  lemma OutsideRemove(files: map<string, string>, p: string, dir: string)
    requires Within(p, dir)
    ensures FilesOutside(files - {p}, dir) == FilesOutside(files, dir)
  {
  }

  /** Placing a tree at or below `dir` changes nothing outside it. */
  lemma OutsidePlace(files: map<string, string>, sub: string, dir: string, tree: map<string, string>)
    requires Within(sub, dir)
    ensures FilesOutside(files + Prefixed(sub, tree), dir) == FilesOutside(files, dir)
  {
    forall p | p in Prefixed(sub, tree) ensures Within(p, dir) {
      WithinTrans(p, sub, dir);
    }
  }

  /** Adding directories at or below `dir` changes nothing outside it. */
  lemma DirsOutsideAdd(dirs: set<string>, extra: set<string>, dir: string)
    requires forall d :: d in extra ==> Within(d, dir)
    ensures DirsOutside(dirs + extra, dir) == DirsOutside(dirs, dir)
  {
  }

  /** A name without `/` lies directly in the working directory. */
  lemma ParentOfName(p: string)
    requires '/' !in p
    ensures Parent(p) == ""
  {
    SplitNoSep(p, '/');
  }

  /** A single-segment name is its own only ancestor. */
  lemma AncestorsOfName(p: string)
    requires p != "" && '/' !in p
    ensures Ancestors(p) == {p}
  {
  }

  /** Nothing lies within two different single-segment directories. */
  lemma WithinDistinct(p: string, a: string, b: string)
    requires '/' !in a && '/' !in b && a != b
    ensures Within(p, a) ==> !Within(p, b)
  {
    FirstSegmentWithin(p, a);
    FirstSegmentWithin(p, b);
  }

  /** Writing a file outside `dir` shows outside `dir`. */
  lemma OutsideUpdateOutside(files: map<string, string>, p: string, content: string, dir: string)
    requires !Within(p, dir)
    ensures FilesOutside(files[p := content], dir) == FilesOutside(files, dir)[p := content]
  {
  }

  /** The parent of `dir/name` is `dir`. */
  lemma ParentOfChild(dir: string, name: string)
    requires '/' !in name
    ensures Parent(dir + "/" + name) == dir
  {
    LastPartConcat(dir, name, '/');
    SplitNoSep(name, '/');
    var p := dir + "/" + name;
    assert LastPart(p, '/') == name;
    assert p[..|p| - |name| - 1] == dir;
  }

  /** With nothing at or below `dir`, removing what is there removes nothing. */
  lemma OutsideOfNothing(files: map<string, string>, dirs: set<string>, dir: string)
    requires NothingWithin(files, dirs, dir)
    ensures FilesOutside(files, dir) == files && DirsOutside(dirs, dir) == dirs
  {
  }
}
