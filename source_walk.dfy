/**
  SuffixProject.get_source_codes: a top-down os.walk of the source directory that never descends
  into the default excluded directories, yielding every file that has a wanted suffix, matches
  no exclude pattern and passes the optional file filter. The directory tree is a value; reading
  a file is the parameter `read`.
 */
module SourceWalk {
  import opened Results
  import opened Strings
  import opened Seqs
  import F = SuffixFilter

  /** default_exclude_dirs. */
  const DefaultExcludeDirs: seq<string> := [".git", ".svn", ".hg", "build", "dist", "__pycache__", "node_modules"]

  /** A directory: its name, its file names and its subdirectories, in the order the walk lists them. */
  datatype Dir = Dir(name: string, files: seq<string>, subdirs: seq<Dir>)

  /** One triple of os.walk, with the directory given by its components below the top directory. */
  datatype WalkStep = WalkStep(at: seq<string>, dirs: seq<string>, files: seq<string>)

  function Names(ds: seq<Dir>): (r: seq<string>)
    ensures |r| == |ds| && forall k :: 0 <= k < |ds| ==> r[k] == ds[k].name
  {
    seq(|ds|, k requires 0 <= k < |ds| => ds[k].name)
  }

  /** Whether the walk may go on into a subdirectory of this name. */
  predicate Kept(name: string)
  {
    name !in DefaultExcludeDirs
  }

  /** The subdirectory names the walk goes on into: `[d for d in dirs if d not in default_exclude_dirs]`. */
  function Prune(dirs: seq<string>): (r: seq<string>)
    ensures |r| <= |dirs|
    ensures forall d :: d in r <==> d in dirs && d !in DefaultExcludeDirs
  {
    FilterMembers(Kept, dirs);
    Filter(Kept, dirs)
  }

  /** Pruning keeps the remaining names in their order. */
  lemma PruneAppend(a: seq<string>, b: seq<string>)
    ensures Prune(a + b) == Prune(a) + Prune(b)
  {
    FilterAppend(Kept, a, b);
  }

  /** Names outside the excluded list are all kept. */
  lemma PruneKeepsOthers(dirs: seq<string>)
    requires forall d :: d in dirs ==> d !in DefaultExcludeDirs
    ensures Prune(dirs) == dirs
  {
    FilterAll(Kept, dirs);
  }

  /**
    The triples os.walk produces from the directory `d` reached through `at`: first its own, then
    those of each subdirectory that survives the pruning of its listing, in order.
   */
  function Walk(at: seq<string>, d: Dir): seq<WalkStep>
    decreases d, 1
  {
    [WalkStep(at, Names(d.subdirs), d.files)] + WalkSubdirs(at, d, 0)
  }

  function WalkSubdirs(at: seq<string>, d: Dir, i: nat): seq<WalkStep>
    decreases d, 0, |d.subdirs| - i
  {
    if i >= |d.subdirs| then []
    else
      var sub := d.subdirs[i];
      (if sub.name in Prune(Names(d.subdirs)) then Walk(at + [sub.name], sub) else []) + WalkSubdirs(at, d, i + 1)
  }

  /** The walk reached by `at` stays below `at` and passes through no excluded directory. */
  ghost predicate Below(at: seq<string>, steps: seq<WalkStep>)
  {
    forall k :: 0 <= k < |steps| ==>
      |at| <= |steps[k].at| && steps[k].at[..|at|] == at
      && forall c :: c in steps[k].at[|at|..] ==> c !in DefaultExcludeDirs
  }

  lemma BelowAppend(at: seq<string>, a: seq<WalkStep>, b: seq<WalkStep>)
    requires Below(at, a) && Below(at, b)
    ensures Below(at, a + b)
  {
    forall k | 0 <= k < |a + b|
      ensures |at| <= |(a + b)[k].at| && (a + b)[k].at[..|at|] == at
      ensures forall c :: c in (a + b)[k].at[|at|..] ==> c !in DefaultExcludeDirs
    {
      if k < |a| {
        assert (a + b)[k] == a[k];
      } else {
        assert (a + b)[k] == b[k - |a|];
      }
    }
  }

  /** Going one kept directory deeper keeps the walk below the parent. */
  lemma BelowChild(at: seq<string>, name: string, steps: seq<WalkStep>)
    requires name !in DefaultExcludeDirs
    requires Below(at + [name], steps)
    ensures Below(at, steps)
  {
    forall k | 0 <= k < |steps|
      ensures |at| <= |steps[k].at| && steps[k].at[..|at|] == at
      ensures forall c :: c in steps[k].at[|at|..] ==> c !in DefaultExcludeDirs
    {
      var s := steps[k].at;
      assert s[..|at|] == (at + [name])[..|at|] == at by {
        assert s[..|at| + 1] == at + [name];
      }
      assert s[|at|..] == [name] + s[|at| + 1..] by {
        assert s[|at|] == name;
      }
    }
  }

  /**
    No directory the walk visits lies inside one of the default excluded directories: each
    visited directory is the top one or is reached through kept directories only.
   */
  lemma {:induction false} WalkAvoidsExcluded(at: seq<string>, d: Dir)
    ensures Below(at, Walk(at, d))
    decreases d, 1
  {
    WalkSubdirsAvoidExcluded(at, d, 0);
    var first := [WalkStep(at, Names(d.subdirs), d.files)];
    assert first[0].at[..|at|] == at && first[0].at[|at|..] == [];
    BelowAppend(at, first, WalkSubdirs(at, d, 0));
  }

  lemma {:induction false} WalkSubdirsAvoidExcluded(at: seq<string>, d: Dir, i: nat)
    ensures Below(at, WalkSubdirs(at, d, i))
    decreases d, 0, |d.subdirs| - i
  {
    if i < |d.subdirs| {
      var sub := d.subdirs[i];
      WalkSubdirsAvoidExcluded(at, d, i + 1);
      var here := if sub.name in Prune(Names(d.subdirs)) then Walk(at + [sub.name], sub) else [];
      if sub.name in Prune(Names(d.subdirs)) {
        WalkAvoidsExcluded(at + [sub.name], sub);
        BelowChild(at, sub.name, here);
      }
      assert WalkSubdirs(at, d, i) == here + WalkSubdirs(at, d, i + 1);
      BelowAppend(at, here, WalkSubdirs(at, d, i + 1));
    }
  }

  /**
    The directory t is reached from d by following the names in q: each name is that of a
    subdirectory of the directory before it, and none is one of the default excluded directories.
   */
  ghost predicate Reaches(d: Dir, q: seq<string>, t: Dir)
    decreases |q|
  {
    if q == [] then t == d
    else Kept(q[0]) && exists i :: 0 <= i < |d.subdirs| && d.subdirs[i].name == q[0] && Reaches(d.subdirs[i], q[1..], t)
  }

  /** Every directory reachable through kept names is visited, with its own listing. */
  lemma {:induction false} WalkVisitsReachable(at: seq<string>, d: Dir, q: seq<string>, t: Dir)
    requires Reaches(d, q, t)
    ensures WalkStep(at + q, Names(t.subdirs), t.files) in Walk(at, d)
    decreases |q|
  {
    if q == [] {
      assert at + q == at;
      assert Walk(at, d)[0] == WalkStep(at, Names(d.subdirs), d.files);
    } else {
      var i :| 0 <= i < |d.subdirs| && d.subdirs[i].name == q[0] && Reaches(d.subdirs[i], q[1..], t);
      WalkVisitsReachable(at + [q[0]], d.subdirs[i], q[1..], t);
      DescendPath(at, q[0], q[1..]);
      assert [q[0]] + q[1..] == q;
      WalkSubdirsHas(at, d, 0, i, WalkStep(at + q, Names(t.subdirs), t.files));
    }
  }

  /** The walk below a kept subdirectory is part of the walk of its parent. */
  lemma {:induction false} WalkSubdirsHas(at: seq<string>, d: Dir, j: nat, i: nat, s: WalkStep)
    requires j <= i < |d.subdirs| && Kept(d.subdirs[i].name)
    requires s in Walk(at + [d.subdirs[i].name], d.subdirs[i])
    ensures s in WalkSubdirs(at, d, j)
  {
    WalkSubdirsFirst(at, d, i, s);
    WalkSubdirsFrom(at, d, j, i, s);
  }

  /** What the walk from the i-th subdirectory on produces, the walk from an earlier one produces too. */
  lemma WalkSubdirsFrom(at: seq<string>, d: Dir, j: nat, i: nat, s: WalkStep)
    requires j <= i < |d.subdirs| && s in WalkSubdirs(at, d, i)
    ensures s in WalkSubdirs(at, d, j)
  {
    var f := (k: nat) => WalkSubdirs(at, d, k);
    forall k: nat, m: nat | j <= k && m == k + 1 && m <= i && s in f(m)
      ensures s in f(k)
    {
      WalkSubdirsLater(at, d, k, s);
    }
    InEarlier(f, s, j, i);
  }

  lemma WalkSubdirsLater(at: seq<string>, d: Dir, j: nat, s: WalkStep)
    requires j < |d.subdirs| && s in WalkSubdirs(at, d, j + 1)
    ensures s in WalkSubdirs(at, d, j)
  {
    var sub := d.subdirs[j];
    var here := if sub.name in Prune(Names(d.subdirs)) then Walk(at + [sub.name], sub) else [];
    assert WalkSubdirs(at, d, j) == here + WalkSubdirs(at, d, j + 1);
  }

  lemma WalkSubdirsFirst(at: seq<string>, d: Dir, i: nat, s: WalkStep)
    requires i < |d.subdirs| && Kept(d.subdirs[i].name)
    requires s in Walk(at + [d.subdirs[i].name], d.subdirs[i])
    ensures s in WalkSubdirs(at, d, i)
  {
    assert Names(d.subdirs)[i] in Names(d.subdirs);
    assert d.subdirs[i].name in Prune(Names(d.subdirs));
  }

  /** Every triple of the walk is the listing of a directory reachable through kept names. */
  lemma {:induction false} WalkOnlyReachable(at: seq<string>, d: Dir, s: WalkStep)
    requires s in Walk(at, d)
    ensures exists q, t :: Reaches(d, q, t) && s == WalkStep(at + q, Names(t.subdirs), t.files)
    decreases d, 1
  {
    if s == WalkStep(at, Names(d.subdirs), d.files) {
      assert Reaches(d, [], d) && at + [] == at;
    } else {
      WalkSubdirsOnlyReachable(at, d, 0, s);
    }
  }

  lemma {:induction false} WalkSubdirsOnlyReachable(at: seq<string>, d: Dir, j: nat, s: WalkStep)
    requires s in WalkSubdirs(at, d, j)
    ensures exists q, t :: Reaches(d, q, t) && s == WalkStep(at + q, Names(t.subdirs), t.files)
    decreases d, 0, |d.subdirs| - j
  {
    var sub := d.subdirs[j];
    var kept := sub.name in Prune(Names(d.subdirs));
    var here := if kept then Walk(at + [sub.name], sub) else [];
    var rest := WalkSubdirs(at, d, j + 1);
    assert WalkSubdirs(at, d, j) == here + rest;
    if s in here {
      WalkOnlyReachable(at + [sub.name], sub, s);
      var q', t :| Reaches(sub, q', t) && s == WalkStep(at + [sub.name] + q', Names(t.subdirs), t.files);
      ReachesChild(d, j, q', t);
      DescendPath(at, sub.name, q');
    } else {
      WalkSubdirsOnlyReachable(at, d, j + 1, s);
    }
  }

  lemma DescendPath(at: seq<string>, name: string, q: seq<string>)
    ensures at + [name] + q == at + ([name] + q)
  {
  }

  /** A directory reached from a kept subdirectory is reached from its parent. */
  lemma ReachesChild(d: Dir, j: nat, q: seq<string>, t: Dir)
    requires j < |d.subdirs| && d.subdirs[j].name in Prune(Names(d.subdirs))
    requires Reaches(d.subdirs[j], q, t)
    ensures Reaches(d, [d.subdirs[j].name] + q, t)
  {
    var q' := [d.subdirs[j].name] + q;
    assert q'[0] == d.subdirs[j].name && q'[1..] == q;
  }

  /** os.path.join for a name produced by a directory listing. */
  function PathJoin(root: string, name: string): (r: string)
    ensures StartsWith(r, root) && EndsWith(r, name)
  {
    if root == "" || EndsWith(root, "/") then root + name else root + "/" + name
  }

  /** The `root` of a walk triple: the top directory joined with the components leading to it. */
  function RootPath(top: string, at: seq<string>): string
  {
    if at == [] then top else PathJoin(RootPath(top, at[..|at| - 1]), at[|at| - 1])
  }

  /** The file paths of one walk triple, in listing order. */
  function FilePaths(top: string, step: WalkStep): (r: seq<string>)
    ensures |r| == |step.files|
    ensures forall k :: 0 <= k < |r| ==> r[k] == PathJoin(RootPath(top, step.at), step.files[k])
  {
    seq(|step.files|, k requires 0 <= k < |step.files| => PathJoin(RootPath(top, step.at), step.files[k]))
  }

  /** Every file path the walk visits, in visiting order. */
  function Candidates(top: string, steps: seq<WalkStep>): seq<string>
    decreases |steps|
  {
    if steps == [] then [] else Candidates(top, steps[..|steps| - 1]) + FilePaths(top, steps[|steps| - 1])
  }

  /** The settings get_source_codes consults for each file. */
  datatype Selection = Selection(
    suffixes: seq<string>,
    patterns: seq<F.Pattern>,
    search: (F.Pattern, string) -> bool,
    fileFilter: Option<(string, seq<string>) -> bool>)

  /** The three conditions a file must meet to be yielded. */
  predicate Selected(cfg: Selection, path: string)
  {
    && F.IsSuffixFile(cfg.suffixes, path)
    && !F.ShouldExclude(cfg.patterns, path, cfg.search)
    && (cfg.fileFilter.None? || cfg.fileFilter.value(path, cfg.suffixes))
  }

  /** The candidate paths that are yielded, in order. */
  function Chosen(cfg: Selection, paths: seq<string>): (r: seq<string>)
    ensures forall p :: p in r <==> p in paths && Selected(cfg, p)
  {
    FilterMembers(p => Selected(cfg, p), paths);
    Filter(p => Selected(cfg, p), paths)
  }

  /** The files are selected one at a time, so the yielded files keep the walk's order. */
  lemma ChosenAppend(cfg: Selection, a: seq<string>, b: seq<string>)
    ensures Chosen(cfg, a + b) == Chosen(cfg, a) + Chosen(cfg, b)
  {
    FilterAppend(p => Selected(cfg, p), a, b);
  }

  /** A SourceCode: the file's path as module name, and its text. */
  datatype SourceCode = SourceCode(moduleName: string, sourceCode: string)

  function CodesOf(paths: seq<string>, read: string -> string): (r: seq<SourceCode>)
    ensures |r| == |paths| && forall k :: 0 <= k < |paths| ==> r[k] == SourceCode(paths[k], read(paths[k]))
  {
    seq(|paths|, k requires 0 <= k < |paths| => SourceCode(paths[k], read(paths[k])))
  }

  lemma CodesOfLast(paths: seq<string>, p: string, read: string -> string)
    ensures CodesOf(paths + [p], read) == CodesOf(paths, read) + [SourceCode(p, read(p))]
  {
  }

  lemma CandidatesLast(top: string, steps: seq<WalkStep>, i: nat)
    requires i < |steps|
    ensures Candidates(top, steps[..i + 1]) == Candidates(top, steps[..i]) + FilePaths(top, steps[i])
  {
    assert steps[..i + 1][..i] == steps[..i];
  }

  /**
    get_source_codes: the source codes of the selected files, in walk order; the walk starts at the
    top directory `top`, whose contents are `tree`.
   */
  method GetSourceCodes(top: string, tree: Dir, cfg: Selection, read: string -> string) returns (codes: seq<SourceCode>)
    ensures codes == CodesOf(Chosen(cfg, Candidates(top, Walk([], tree))), read)
  {
    var walk := Walk([], tree);
    codes := [];
    for i := 0 to |walk|
      invariant codes == CodesOf(Chosen(cfg, Candidates(top, walk[..i])), read)
    {
      var root, files := RootPath(top, walk[i].at), walk[i].files;
      ghost var before := Candidates(top, walk[..i]);
      ghost var paths := FilePaths(top, walk[i]);
      assert before + paths[..0] == before;
      for j := 0 to |files|
        invariant codes == CodesOf(Chosen(cfg, before + paths[..j]), read)
      {
        var filePath := PathJoin(root, files[j]);
        assert paths[j] == filePath;
        SliceExtend(before, paths, j);
        FilterLast(p => Selected(cfg, p), before + paths[..j], filePath);
        CodesOfLast(Chosen(cfg, before + paths[..j]), filePath, read);
        if Selected(cfg, filePath) {
          codes := codes + [SourceCode(filePath, read(filePath))];
        }
      }
      CandidatesLast(top, walk, i);
      assert paths[..|files|] == paths;
    }
    assert walk[..|walk|] == walk;
  }

  /**
    What get_source_codes yields: exactly the visited files that have a wanted suffix, match no
    exclude pattern and pass the filter, each with its content, and none inside an excluded directory.
   */
  lemma SourceCodesSelected(top: string, tree: Dir, cfg: Selection, read: string -> string, path: string)
    ensures var codes := CodesOf(Chosen(cfg, Candidates(top, Walk([], tree))), read);
      (SourceCode(path, read(path)) in codes <==> path in Candidates(top, Walk([], tree)) && Selected(cfg, path))
  {
    var chosen := Chosen(cfg, Candidates(top, Walk([], tree)));
    var codes := CodesOf(chosen, read);
    if SourceCode(path, read(path)) in codes {
      var k :| 0 <= k < |codes| && codes[k] == SourceCode(path, read(path));
      assert chosen[k] == path;
    }
    if path in chosen {
      var k :| 0 <= k < |chosen| && chosen[k] == path;
      assert codes[k] == SourceCode(path, read(path));
    }
  }
}
