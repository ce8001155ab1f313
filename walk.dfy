// The directory walk shared by `_process_directory` and
// `process_files_to_markdown`: `os.walk` from the top, visiting the files of
// a directory before descending into its subdirectories, after the loop body
// has pruned the subdirectory list (`dirs[:] = [d for d in dirs if d not in
// ignore_dirs]`). The file system is given as a tree value.
module DirWalk {
  import opened TextOps
  import opened Outcomes

  /** A file as the walk reaches it: its name, and its text or `None` when
      opening it as UTF-8 text fails. */
  datatype FileNode = FileNode(name: string, content: Option<string>)

  /** A directory: its files and its subdirectories, in the order the file
      system lists them. */
  datatype Tree = Tree(files: seq<FileNode>, subdirs: seq<SubDir>)

  datatype SubDir = SubDir(name: string, tree: Tree)

  /** A file reached by the walk, with the names of the directories between
      the top and the file. */
  datatype Walked = Walked(dirs: seq<string>, file: FileNode)

  /** The path of a walked file relative to the top of the walk. */
  function RelativePath(w: Walked): string {
    JoinWith(w.dirs + [w.file.name], "/")
  }

  /** The pruned subdirectory list: the ignored names are dropped, the others
      kept in order. */
  function Pruned(ds: seq<SubDir>, ignore: seq<string>): (r: seq<SubDir>)
    ensures |r| <= |ds|
    ensures forall d :: d in r <==> d in ds && d.name !in ignore
  {
    if |ds| == 0 then []
    else (if ds[0].name in ignore then [] else [ds[0]]) + Pruned(ds[1..], ignore)
  }

  /** The walk below `t`, whose path from the top is `dirs`: the files of `t`
      first, then the walk of each subdirectory that survives pruning. */
  function WalkTree(t: Tree, dirs: seq<string>, ignore: seq<string>): seq<Walked>
    decreases t, 1
  {
    FilesHere(t.files, dirs) + WalkSubdirs(t, Pruned(t.subdirs, ignore), dirs, ignore)
  }

  function FilesHere(files: seq<FileNode>, dirs: seq<string>): (r: seq<Walked>)
    ensures |r| == |files|
    ensures forall k :: 0 <= k < |r| ==> r[k] == Walked(dirs, files[k])
  {
    seq(|files|, k requires 0 <= k < |files| => Walked(dirs, files[k]))
  }

  function WalkSubdirs(t: Tree, ds: seq<SubDir>, dirs: seq<string>, ignore: seq<string>): seq<Walked>
    requires forall d :: d in ds ==> d in t.subdirs
    decreases t, 0, |ds|
  {
    if |ds| == 0 then []
    else
      assert ds[0] in t.subdirs;
      WalkTree(ds[0].tree, dirs + [ds[0].name], ignore) + WalkSubdirs(t, ds[1..], dirs, ignore)
  }

  // ---------------------------------------------------------------------
  // Properties of pruning

  /** Pruning distributes over concatenation, so the kept names stay in their
      original order. */
  lemma {:induction false} PrunedAppend(a: seq<SubDir>, b: seq<SubDir>, ignore: seq<string>)
    ensures Pruned(a + b, ignore) == Pruned(a, ignore) + Pruned(b, ignore)
    decreases |a|
  {
    if |a| == 0 {
      assert a + b == b;
    } else {
      assert (a + b)[1..] == a[1..] + b;
      PrunedAppend(a[1..], b, ignore);
    }
  }

  /** A list none of whose names is ignored is kept whole. */
  lemma {:induction false} PrunedKeepsAll(ds: seq<SubDir>, ignore: seq<string>)
    requires forall k :: 0 <= k < |ds| ==> ds[k].name !in ignore
    ensures Pruned(ds, ignore) == ds
    decreases |ds|
  {
    if |ds| > 0 {
      PrunedKeepsAll(ds[1..], ignore);
      assert ds == [ds[0]] + ds[1..];
    }
  }

  /** Pruning twice with the same names prunes nothing more. */
  lemma PrunedIdempotent(ds: seq<SubDir>, ignore: seq<string>)
    ensures Pruned(Pruned(ds, ignore), ignore) == Pruned(ds, ignore)
  {
    var r := Pruned(ds, ignore);
    forall k | 0 <= k < |r| ensures r[k].name !in ignore {
      assert r[k] in r;
    }
    PrunedKeepsAll(r, ignore);
  }

  // ---------------------------------------------------------------------
  // Properties of the walk

  /** Every file the walk reaches lies below the directory it started from,
      and no directory it passes through below that point has an ignored
      name. */
  lemma {:induction false} WalkAvoidsIgnored(t: Tree, dirs: seq<string>, ignore: seq<string>)
    ensures forall w :: w in WalkTree(t, dirs, ignore) ==> BelowAvoiding(w, dirs, ignore)
    decreases t, 1
  {
    var ds := Pruned(t.subdirs, ignore);
    SubdirsAvoidIgnored(t, ds, dirs, ignore);
    forall w | w in WalkTree(t, dirs, ignore) ensures BelowAvoiding(w, dirs, ignore) {
      if w in FilesHere(t.files, dirs) {
        assert w.dirs == dirs;
      }
    }
  }

  /** w's directories extend `dirs`, and none of the added names is ignored. */
  predicate BelowAvoiding(w: Walked, dirs: seq<string>, ignore: seq<string>) {
    |dirs| <= |w.dirs| && w.dirs[..|dirs|] == dirs
    && forall k :: |dirs| <= k < |w.dirs| ==> w.dirs[k] !in ignore
  }

  lemma {:induction false} SubdirsAvoidIgnored(t: Tree, ds: seq<SubDir>, dirs: seq<string>, ignore: seq<string>)
    requires forall d :: d in ds ==> d in t.subdirs && d.name !in ignore
    ensures forall w :: w in WalkSubdirs(t, ds, dirs, ignore) ==> BelowAvoiding(w, dirs, ignore)
    decreases t, 0, |ds|
  {
    if |ds| > 0 {
      var d := ds[0];
      var below := dirs + [d.name];
      WalkAvoidsIgnored(d.tree, below, ignore);
      SubdirsAvoidIgnored(t, ds[1..], dirs, ignore);
      forall w | w in WalkTree(d.tree, below, ignore) ensures BelowAvoiding(w, dirs, ignore) {
        assert BelowAvoiding(w, below, ignore);
        assert w.dirs[..|below|][..|dirs|] == dirs;
        assert w.dirs[|dirs|] == below[|dirs|];
      }
    }
  }

  /** The number of files in a tree, subdirectories included. */
  function FileCount(t: Tree): nat
    decreases t, 1
  {
    |t.files| + FileCountOf(t, t.subdirs)
  }

  function FileCountOf(t: Tree, ds: seq<SubDir>): nat
    requires forall d :: d in ds ==> d in t.subdirs
    decreases t, 0, |ds|
  {
    if |ds| == 0 then 0
    else
      assert ds[0] in t.subdirs;
      FileCount(ds[0].tree) + FileCountOf(t, ds[1..])
  }

  /** With nothing ignored the walk yields as many files as the tree holds. */
  lemma {:induction false} WalkReachesAll(t: Tree, dirs: seq<string>)
    ensures |WalkTree(t, dirs, [])| == FileCount(t)
    decreases t, 1
  {
    PrunedKeepsAll(t.subdirs, []);
    WalkSubdirsReachAll(t, t.subdirs, dirs);
  }

  lemma {:induction false} WalkSubdirsReachAll(t: Tree, ds: seq<SubDir>, dirs: seq<string>)
    requires forall d :: d in ds ==> d in t.subdirs
    ensures |WalkSubdirs(t, ds, dirs, [])| == FileCountOf(t, ds)
    decreases t, 0, |ds|
  {
    if |ds| > 0 {
      assert ds[0] in t.subdirs;
      WalkReachesAll(ds[0].tree, dirs + [ds[0].name]);
      WalkSubdirsReachAll(t, ds[1..], dirs);
    }
  }
  // ---------------------------------------------------------------------
  // Which files the walk reaches

  /** `f` is a file of the directory reached from `t` by descending through
      the subdirectories named `path`, none of whose names is ignored. */
  predicate Reaches(t: Tree, path: seq<string>, f: FileNode, ignore: seq<string>)
    decreases |path|
  {
    if |path| == 0 then f in t.files
    else
      exists d :: d in t.subdirs && d.name == path[0] && d.name !in ignore
                  && Reaches(d.tree, path[1..], f, ignore)
  }

  /** The walk reaches every file below the top that lies in no ignored
      directory, under the path of directory names that leads to it. */
  lemma {:induction false} WalkComplete(t: Tree, dirs: seq<string>, path: seq<string>,
                                        f: FileNode, ignore: seq<string>)
    requires Reaches(t, path, f, ignore)
    ensures Walked(dirs + path, f) in WalkTree(t, dirs, ignore)
    decreases |path|
  {
    if |path| == 0 {
      var k :| 0 <= k < |t.files| && t.files[k] == f;
      assert dirs + path == dirs;
      assert FilesHere(t.files, dirs)[k] == Walked(dirs, f);
    } else {
      var d :| d in t.subdirs && d.name == path[0] && d.name !in ignore
        && Reaches(d.tree, path[1..], f, ignore);
      var below := dirs + [d.name];
      WalkComplete(d.tree, below, path[1..], f, ignore);
      assert below + path[1..] == dirs + path;
      var ds := Pruned(t.subdirs, ignore);
      assert d in ds;
      SubdirWalkIncluded(t, ds, d, dirs, ignore, Walked(dirs + path, f));
    }
  }

  /** What the walk finds below a surviving subdirectory is part of the
      walk of its parent. */
  lemma {:induction false} SubdirWalkIncluded(t: Tree, ds: seq<SubDir>, d: SubDir,
                                              dirs: seq<string>, ignore: seq<string>, w: Walked)
    requires forall e :: e in ds ==> e in t.subdirs
    requires d in ds && w in WalkTree(d.tree, dirs + [d.name], ignore)
    ensures w in WalkSubdirs(t, ds, dirs, ignore)
    decreases |ds|
  {
    if ds[0] != d {
      SubdirWalkIncluded(t, ds[1..], d, dirs, ignore, w);
    }
  }

  /** Conversely, every file the walk yields is reached from the top along
      its directory names, none of them ignored. */
  lemma {:induction false} WalkSound(t: Tree, dirs: seq<string>, ignore: seq<string>, w: Walked)
    requires w in WalkTree(t, dirs, ignore)
    ensures |dirs| <= |w.dirs| && w.dirs[..|dirs|] == dirs
    ensures Reaches(t, w.dirs[|dirs|..], w.file, ignore)
    decreases t, 1
  {
    var ds := Pruned(t.subdirs, ignore);
    if w in FilesHere(t.files, dirs) {
      var k :| 0 <= k < |t.files| && FilesHere(t.files, dirs)[k] == w;
      assert w.dirs[|dirs|..] == [];
      assert w.file in t.files;
    } else {
      SubdirsSound(t, ds, dirs, ignore, w);
    }
  }

  lemma {:induction false} SubdirsSound(t: Tree, ds: seq<SubDir>, dirs: seq<string>,
                                        ignore: seq<string>, w: Walked)
    requires forall d :: d in ds ==> d in t.subdirs && d.name !in ignore
    requires w in WalkSubdirs(t, ds, dirs, ignore)
    ensures |dirs| <= |w.dirs| && w.dirs[..|dirs|] == dirs
    ensures Reaches(t, w.dirs[|dirs|..], w.file, ignore)
    decreases t, 0, |ds|
  {
    var d := ds[0];
    var below := dirs + [d.name];
    if w in WalkTree(d.tree, below, ignore) {
      WalkSound(d.tree, below, ignore, w);
      var path := w.dirs[|dirs|..];
      assert w.dirs[..|below|][..|dirs|] == dirs;
      assert path[0] == d.name;
      assert path[1..] == w.dirs[|below|..];
      assert Reaches(d.tree, path[1..], w.file, ignore);
    } else {
      SubdirsSound(t, ds[1..], dirs, ignore, w);
    }
  }
}
