/** The fixed four-root taxonomy of src/lib.rs: the home directory, the four
    root directories below it, the module directories one level below the roots,
    and the `para.yaml` metadata document of a module. */
module Taxonomy {
  import opened Wrappers
  import opened Fs

  /** The configured home directory (`PARA_HOME`): the node found at
      `parent + [home.name]`. */
  datatype Tree = Tree(parent: Path, home: Node)

  function HomePath(t: Tree): Path
  {
    t.parent + [t.home.name]
  }

  const RootNames: seq<Name> := ["projects", "areas", "resources", "archive"]

  const MetadataFile: Name := "para.yaml"

  /** `get_root_paths`: the four roots below home, whether or not they exist. */
  function RootPaths(home: Path): seq<Path>
  {
    seq(|RootNames|, i requires 0 <= i < |RootNames| => home + [RootNames[i]])
  }

  /** The roots are four distinct children of home, in the fixed order, and a
      path is a root path exactly when it is home extended by a root name. */
  lemma RootPathsAreTheFourRoots(home: Path, q: Path)
    ensures |RootPaths(home)| == 4
    ensures forall i, j :: 0 <= i < j < 4 ==> RootPaths(home)[i] != RootPaths(home)[j]
    ensures q in RootPaths(home) <==> |q| == |home| + 1 && q[..|home|] == home && q[|home|] in RootNames
  {
    var r := RootPaths(home);
    forall i, j | 0 <= i < j < 4
      ensures r[i] != r[j]
    {
      assert r[i][|home|] == RootNames[i] && r[j][|home|] == RootNames[j];
    }
    if |q| == |home| + 1 && q[..|home|] == home && q[|home|] in RootNames {
      var i :| 0 <= i < 4 && RootNames[i] == q[|home|];
      assert q == r[i];
    }
  }

  /** `read_dir` of `home/<name>`: the listing of the entry of that name in the
      home directory, or `None` when the operating system could not list it. */
  function RootListing(t: Tree, name: Name): Option<seq<Node>>
  {
    match ReadDir(t.home)
    case None => None
    case Some(top) =>
      match FindChild(top, name)
      case None => None
      case Some(c) => ReadDir(c)
  }

  /** The directories of a listing at `p`, as entries, in listing order
      (`filter(|module| module.is_dir())`). */
  function DirEntries(p: Path, cs: seq<Node>): (r: seq<Entry>)
    ensures forall e :: e in r <==> e in Children(p, cs) && IsDir(e.node)
    ensures forall e :: e in r ==> |e.path| == |p| + 1 && e.path[..|p|] == p && Named(e)
    ensures |r| <= |cs|
  {
    if cs == [] then []
    else
      var rest := DirEntries(p, cs[1..]);
      assert Children(p, cs) == [Entry(p + [cs[0].name], cs[0])] + Children(p, cs[1..]);
      if IsDir(cs[0]) then [Entry(p + [cs[0].name], cs[0])] + rest else rest
  }

  /** The filter keeps the order of `read_dir`: filtering a listing made of two
      parts filters each part in turn. */
  lemma {:induction false} DirEntriesAppend(p: Path, a: seq<Node>, b: seq<Node>)
    ensures DirEntries(p, a + b) == DirEntries(p, a) + DirEntries(p, b)
  {
    if a != [] {
      assert (a + b)[0] == a[0] && (a + b)[1..] == a[1..] + b;
      DirEntriesAppend(p, a[1..], b);
      var head := if IsDir(a[0]) then [Entry(p + [a[0].name], a[0])] else [];
      assert DirEntries(p, a + b) == head + DirEntries(p, a[1..] + b);
      assert DirEntries(p, a) == head + DirEntries(p, a[1..]);
      assert head + (DirEntries(p, a[1..]) + DirEntries(p, b)) == (head + DirEntries(p, a[1..])) + DirEntries(p, b);
    } else {
      assert a + b == b;
    }
  }

  /** A one-entry listing keeps its entry exactly when `is_dir` accepts it. */
  lemma DirEntriesSingle(p: Path, c: Node)
    ensures DirEntries(p, [c]) == if IsDir(c) then [Entry(p + [c.name], c)] else []
  {
    assert [c][1..] == [];
  }

  /** Distinct names in a listing give distinct module paths. */
  lemma {:induction false} DirEntriesAtDistinctPaths(p: Path, cs: seq<Node>)
    requires UniqueNames(cs)
    ensures DistinctPaths(DirEntries(p, cs))
  {
    if cs != [] {
      var rest := DirEntries(p, cs[1..]);
      assert UniqueNames(cs[1..]) by {
        forall i, j | 0 <= i < j < |cs[1..]|
          ensures cs[1..][i].name != cs[1..][j].name
        {
          assert cs[1..][i] == cs[i + 1] && cs[1..][j] == cs[j + 1];
        }
      }
      DirEntriesAtDistinctPaths(p, cs[1..]);
      if IsDir(cs[0]) {
        var head := [Entry(p + [cs[0].name], cs[0])];
        forall x, y | x in head && y in rest
          ensures x.path != y.path
        {
          var i :| 0 <= i < |cs[1..]| && Children(p, cs[1..])[i] == y;
          assert cs[1..][i] == cs[i + 1];
          assert y.path[|p|] == cs[i + 1].name && x.path[|p|] == cs[0].name;
        }
        DistinctPathsAppend(head, rest);
      }
    }
  }

  /** Every root can be listed. */
  predicate RootsReadable(t: Tree)
  {
    forall k :: 0 <= k < 4 ==> RootListing(t, RootNames[k]).Some?
  }

  /** The first root, in root order, that cannot be listed. */
  function FirstUnreadableRoot(t: Tree): (k: nat)
    requires !RootsReadable(t)
    ensures k < 4 && RootListing(t, RootNames[k]).None?
    ensures k > 0 ==> RootListing(t, RootNames[0]).Some?
    ensures k > 1 ==> RootListing(t, RootNames[1]).Some?
    ensures k > 2 ==> RootListing(t, RootNames[2]).Some?
  {
    if RootListing(t, RootNames[0]).None? then 0
    else if RootListing(t, RootNames[1]).None? then 1
    else if RootListing(t, RootNames[2]).None? then 2
    else
      LastRootUnreadable(t);
      3
  }

  /** When some root cannot be listed and the first three can, the last cannot. */
  lemma LastRootUnreadable(t: Tree)
    requires !RootsReadable(t)
    requires RootListing(t, RootNames[0]).Some? && RootListing(t, RootNames[1]).Some? && RootListing(t, RootNames[2]).Some?
    ensures RootListing(t, RootNames[3]).None?
  {
    var k :| 0 <= k < 4 && RootListing(t, RootNames[k]).None?;
    assert k != 0 && k != 1 && k != 2;
    assert k == 3;
  }

  /** The modules of root `k` (of a readable tree), in listing order. */
  function RootModules(t: Tree, k: nat): seq<Entry>
    requires k < 4 && RootsReadable(t)
  {
    DirEntries(HomePath(t) + [RootNames[k]], RootListing(t, RootNames[k]).value)
  }

  /** `get_module_paths`: the roots are listed in order, and the first one that
      cannot be listed aborts the whole enumeration. */
  function ModulePaths(t: Tree): Result<seq<Entry>, Path>
  {
    if !RootsReadable(t) then Err(HomePath(t) + [RootNames[FirstUnreadableRoot(t)]])
    else Ok(RootModules(t, 0) + RootModules(t, 1) + RootModules(t, 2) + RootModules(t, 3))
  }

  /** The modules are exactly the directory entries of the four roots, and the
      enumeration fails exactly when some root cannot be listed. */
  lemma ModulePathsAreRootDirectories(t: Tree, e: Entry)
    ensures ModulePaths(t).Ok? <==> RootsReadable(t)
    ensures ModulePaths(t).Err? ==> ModulePaths(t).error in RootPaths(HomePath(t))
    ensures ModulePaths(t).Ok? ==>
              (e in ModulePaths(t).value <==>
               exists k :: 0 <= k < 4 && e in Children(HomePath(t) + [RootNames[k]], RootListing(t, RootNames[k]).value)
                           && IsDir(e.node))
  {
    if !RootsReadable(t) {
      assert ModulePaths(t).error == RootPaths(HomePath(t))[FirstUnreadableRoot(t)];
    } else {
      ModuleInSomeRoot(t, e);
      var home := HomePath(t);
      forall k | 0 <= k < 4
        ensures e in RootModules(t, k) <==>
                  e in Children(home + [RootNames[k]], RootListing(t, RootNames[k]).value) && IsDir(e.node)
      {
      }
    }
  }

  /** When no root lists two entries of the same name, as in any real
      directory, no two modules share a path. */
  lemma ModulesAtDistinctPaths(t: Tree)
    requires RootsReadable(t)
    requires forall k :: 0 <= k < 4 ==> UniqueNames(RootListing(t, RootNames[k]).value)
    ensures ModulePaths(t).Ok? && DistinctPaths(ModulePaths(t).value)
  {
    var home := HomePath(t);
    forall k | 0 <= k < 4
      ensures DistinctPaths(RootModules(t, k))
      ensures forall e :: e in RootModules(t, k) ==> |e.path| > |home| && e.path[|home|] == RootNames[k]
    {
      DirEntriesAtDistinctPaths(home + [RootNames[k]], RootListing(t, RootNames[k]).value);
      forall e | e in RootModules(t, k)
        ensures |e.path| > |home| && e.path[|home|] == RootNames[k]
      {
        assert e.path[..|home| + 1] == home + [RootNames[k]];
        assert e.path[..|home| + 1][|home|] == e.path[|home|];
      }
    }
    RootsApart(t, 0, 1);
    DistinctPathsAppend(RootModules(t, 0), RootModules(t, 1));
    var ab := RootModules(t, 0) + RootModules(t, 1);
    RootsApart(t, 0, 2);
    RootsApart(t, 1, 2);
    DistinctPathsAppend(ab, RootModules(t, 2));
    var abc := ab + RootModules(t, 2);
    RootsApart(t, 0, 3);
    RootsApart(t, 1, 3);
    RootsApart(t, 2, 3);
    DistinctPathsAppend(abc, RootModules(t, 3));
  }

  /** Modules of two different roots lie at different paths. */
  lemma RootsApart(t: Tree, i: nat, j: nat)
    requires RootsReadable(t) && i < j < 4
    requires forall e :: e in RootModules(t, i) ==> |e.path| > |HomePath(t)| && e.path[|HomePath(t)|] == RootNames[i]
    requires forall e :: e in RootModules(t, j) ==> |e.path| > |HomePath(t)| && e.path[|HomePath(t)|] == RootNames[j]
    ensures forall x, y :: x in RootModules(t, i) && y in RootModules(t, j) ==> x.path != y.path
  {
    assert RootNames[i] != RootNames[j];
  }

  /** A module comes from the block of one root. */
  lemma ModuleInSomeRoot(t: Tree, e: Entry)
    requires RootsReadable(t)
    ensures e in ModulePaths(t).value <==> exists k :: 0 <= k < 4 && e in RootModules(t, k)
  {
    var m0, m1, m2, m3 := RootModules(t, 0), RootModules(t, 1), RootModules(t, 2), RootModules(t, 3);
    assert ModulePaths(t).value == m0 + m1 + m2 + m3;
    if e in m0 { assert e in RootModules(t, 0); }
    if e in m1 { assert e in RootModules(t, 1); }
    if e in m2 { assert e in RootModules(t, 2); }
    if e in m3 { assert e in RootModules(t, 3); }
    if exists k :: 0 <= k < 4 && e in RootModules(t, k) {
      var k :| 0 <= k < 4 && e in RootModules(t, k);
      assert k == 0 || k == 1 || k == 2 || k == 3;
    }
  }

  /** Every module is a directory (following links) whose parent is one of the
      four roots, and whose path ends in its own name. */
  lemma ModulesLieUnderRoots(t: Tree, e: Entry)
    requires ModulePaths(t).Ok? && e in ModulePaths(t).value
    ensures IsDir(e.node) && Named(e)
    ensures e.path[..|e.path| - 1] in RootPaths(HomePath(t))
  {
    ModulePathsAreRootDirectories(t, e);
    var home := HomePath(t);
    var k :| 0 <= k < 4 && e in Children(home + [RootNames[k]], RootListing(t, RootNames[k]).value) && IsDir(e.node);
    var root := home + [RootNames[k]];
    var cs := RootListing(t, RootNames[k]).value;
    var j :| 0 <= j < |cs| && Children(root, cs)[j] == e;
    assert e.path == root + [cs[j].name];
    assert e.path[..|e.path| - 1] == root;
    assert root == RootPaths(home)[k];
  }

  /** `read_yaml(module)`: the parsed `para.yaml` of a module directory; `None`
      when it cannot be opened (absent, dangling) or does not parse. */
  function ReadYaml(m: Node): (r: Option<Doc>)
    ensures MetadataFile !in Names(Contents(m)) ==> r.None?
    ensures r.Some? ==> exists i :: 0 <= i < |Contents(m)| && Contents(m)[i].name == MetadataFile
                                    && Resolve(Contents(m)[i]).Some?
                                    && Resolve(Contents(m)[i]).value.File?
                                    && Resolve(Contents(m)[i]).value.yaml == r
  {
    match FindChild(Contents(m), MetadataFile)
    case None => None
    case Some(f) =>
      match Resolve(f)
      case Some(File(_, doc)) => doc
      case _ => None
  }

  /** In a directory with uniquely named entries, a `para.yaml` that is (or
      links to) a file that parses is exactly what `read_yaml` returns. */
  lemma ReadYamlFindsParsedMetadata(m: Node, i: nat, d: Doc)
    requires UniqueNames(Contents(m))
    requires i < |Contents(m)| && Contents(m)[i].name == MetadataFile
    requires Resolve(Contents(m)[i]).Some? && Resolve(Contents(m)[i]).value.File?
    requires Resolve(Contents(m)[i]).value.yaml == Some(d)
    ensures ReadYaml(m) == Some(d)
  {
    var cs := Contents(m);
    assert Names(cs)[i] == MetadataFile;
    var f := FindChild(cs, MetadataFile).value;
    var j :| 0 <= j < |cs| && cs[j] == f && cs[j].name == MetadataFile && MetadataFile !in Names(cs[..j]);
  }
}
