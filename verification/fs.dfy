/** An immutable directory tree and the post-order, symlink-avoiding walker
    `visit_all` of src/lib.rs. Paths are sequences of names; an entry's path is
    its parent's path extended by the entry's own name. */
module Fs {
  import opened Wrappers

  type Name = string
  type Path = seq<Name>

  /** One item of the `tags` sequence of a metadata document. Only strings are
      ever used; every other YAML value is `NonStr`. */
  datatype Value = Str(text: string) | NonStr

  /** A successfully parsed metadata document, reduced to what is read from it:
      `tags` is the `tags` entry when that entry is a sequence, and `None` when
      it is absent or is not a sequence. */
  datatype Doc = Doc(tags: Option<seq<Value>>)

  /** A directory entry. A file carries what the YAML parser makes of its
      contents (`None` when they do not parse). A symbolic link carries a
      snapshot of what it resolves to (`None` when it dangles); following it is
      what `is_dir`, `read_dir` and `File::open` do, and what the walker never
      does. */
  datatype Node =
    | File(name: Name, yaml: Option<Doc>)
    | Dir(name: Name, children: seq<Node>)
    | Symlink(name: Name, target: Option<Node>)

  /** A node together with the path at which it is found. */
  datatype Entry = Entry(path: Path, node: Node)

  /** The entry reached by following symbolic links, if any. */
  function Resolve(n: Node): (r: Option<Node>)
    ensures r.Some? ==> !r.value.Symlink?
    ensures !n.Symlink? ==> r == Some(n)
    decreases n
  {
    match n
    case Symlink(_, None) => None
    case Symlink(_, Some(t)) => Resolve(t)
    case _ => Some(n)
  }

  /** `read_dir`: the listing of a directory, following symbolic links; `None`
      where the operating system would report an error. */
  function ReadDir(n: Node): Option<seq<Node>>
  {
    match Resolve(n)
    case Some(Dir(_, cs)) => Some(cs)
    case _ => None
  }

  /** `Path::is_dir`, which follows symbolic links. */
  predicate IsDir(n: Node)
  {
    ReadDir(n).Some?
  }

  /** The listing of a directory, empty for anything that is not one. */
  function Contents(n: Node): seq<Node>
  {
    match ReadDir(n)
    case Some(cs) => cs
    case None => []
  }

  function Names(cs: seq<Node>): seq<Name>
  {
    seq(|cs|, i requires 0 <= i < |cs| => cs[i].name)
  }

  /** `dir.join(name)` looked up in a listing: the first entry with that name. */
  function FindChild(cs: seq<Node>, name: Name): (r: Option<Node>)
    ensures r.None? <==> name !in Names(cs)
    ensures r.Some? ==> exists i :: 0 <= i < |cs| && cs[i] == r.value && cs[i].name == name
                                    && name !in Names(cs[..i])
  {
    if |cs| == 0 then None
    else if cs[0].name == name then
      assert Names(cs[..0]) == [] && Names(cs)[0] == name;
      Some(cs[0])
    else
      var r := FindChild(cs[1..], name);
      assert Names(cs) == [cs[0].name] + Names(cs[1..]);
      if r.Some? then
        ghost var i :| 0 <= i < |cs[1..]| && cs[1..][i] == r.value && cs[1..][i].name == name
                      && name !in Names(cs[1..][..i]);
        assert Names(cs[..i + 1]) == [cs[0].name] + Names(cs[1..][..i]);
        r
      else r
  }

  /** The entries of a listing, each at its parent's path extended by its name. */
  function Children(p: Path, cs: seq<Node>): seq<Entry>
  {
    seq(|cs|, i requires 0 <= i < |cs| => Entry(p + [cs[i].name], cs[i]))
  }

  /** The last component of the entry's path is the entry's own name, so
      `file_name()` of the path is `node.name`. */
  predicate Named(e: Entry)
  {
    |e.path| > 0 && e.path[|e.path| - 1] == e.node.name
  }

  /** `visit_all(p, cb)`: the sequence of entries handed to the callback.
      Directories that are not symbolic links are entered, children first;
      the start entry is always handed over last. */
  function Walk(p: Path, n: Node): (r: seq<Entry>)
    ensures |r| > 0 && r[|r| - 1] == Entry(p, n)
    ensures forall v :: v in r ==> p <= v.path
    ensures forall v :: v in r && |v.path| == |p| ==> v == Entry(p, n)
    ensures Named(Entry(p, n)) ==> forall v :: v in r ==> Named(v)
    decreases n, 1
  {
    (if n.Dir? then WalkAll(p, n.children) else []) + [Entry(p, n)]
  }

  /** The walks of every child of a directory at `p`, in listing order. */
  function WalkAll(p: Path, cs: seq<Node>): (r: seq<Entry>)
    ensures forall v :: v in r ==> p < v.path && v.path[|p|] in Names(cs) && Named(v)
    decreases cs, 0
  {
    if cs == [] then []
    else
      assert Names(cs) == [cs[0].name] + Names(cs[1..]);
      Walk(p + [cs[0].name], cs[0]) + WalkAll(p, cs[1..])
  }

  /** Reference meaning of "an entry of the subtree": `m` is found at the
      relative path `rel` below `n`, descending only through real directories. */
  ghost predicate Reaches(n: Node, rel: Path, m: Node)
    decreases rel
  {
    if rel == [] then m == n
    else n.Dir? && exists c :: c in n.children && c.name == rel[0] && Reaches(c, rel[1..], m)
  }

  lemma {:induction false} WalkAllMember(p: Path, cs: seq<Node>, v: Entry)
    ensures v in WalkAll(p, cs) <==> exists c :: c in cs && v in Walk(p + [c.name], c)
    decreases cs
  {
    if cs != [] {
      WalkAllMember(p, cs[1..], v);
      assert forall c :: c in cs <==> c == cs[0] || c in cs[1..];
    }
  }

  /** The walk from a node is the start entry after the walks of its children. */
  lemma WalkMember(p: Path, n: Node, v: Entry)
    ensures v in Walk(p, n) <==> v == Entry(p, n) || (n.Dir? && v in WalkAll(p, n.children))
  {
  }

  /** Everything the walker hands over belongs to the subtree. */
  lemma {:induction false} WalkStaysInSubtree(p: Path, n: Node, q: Path, m: Node)
    requires Entry(q, m) in Walk(p, n)
    ensures p <= q && Reaches(n, q[|p|..], m)
    decreases n
  {
    if Entry(q, m) != Entry(p, n) {
      WalkMember(p, n, Entry(q, m));
      WalkAllMember(p, n.children, Entry(q, m));
      var c :| c in n.children && Entry(q, m) in Walk(p + [c.name], c);
      WalkStaysInSubtree(p + [c.name], c, q, m);
      SuffixStep(p, c.name, q);
      ReachesThrough(n, c, q[|p|..], m);
    }
  }

  /** Reaching `m` from a child reaches it from the directory. */
  lemma ReachesThrough(n: Node, c: Node, rel: Path, m: Node)
    requires n.Dir? && c in n.children && rel != [] && c.name == rel[0] && Reaches(c, rel[1..], m)
    ensures Reaches(n, rel, m)
  {
  }

  /** Below `p + [x]`, the part of a path after `p` starts with `x`. */
  lemma SuffixStep(p: Path, x: Name, q: Path)
    requires p + [x] <= q
    ensures p <= q && q[|p|..][0] == x && q[|p|..][1..] == q[|p| + 1..]
  {
    assert q[|p|] == (p + [x])[|p|];
  }

  /** Every entry of the subtree is handed over. */
  lemma {:induction false} WalkCoversSubtree(p: Path, n: Node, q: Path, m: Node)
    requires p <= q && Reaches(n, q[|p|..], m)
    ensures Entry(q, m) in Walk(p, n)
    decreases n
  {
    var rel := q[|p|..];
    if rel != [] {
      var c :| c in n.children && c.name == rel[0] && Reaches(c, rel[1..], m);
      assert p + [c.name] <= q && rel[1..] == q[|p| + 1..];
      WalkCoversSubtree(p + [c.name], c, q, m);
      WalkAllMember(p, n.children, Entry(q, m));
    } else {
      assert q == p;
    }
  }

  /** The walker visits exactly the entries of the subtree: `(q, m)` is handed to
      the callback iff `m` is reachable from the start along `q`. In particular a
      symbolic link is visited but nothing beneath it is. */
  lemma WalkVisitsExactlyTheSubtree(p: Path, n: Node, q: Path, m: Node)
    ensures Entry(q, m) in Walk(p, n) <==> p <= q && Reaches(n, q[|p|..], m)
  {
    if Entry(q, m) in Walk(p, n) {
      WalkStaysInSubtree(p, n, q, m);
    }
    if p <= q && Reaches(n, q[|p|..], m) {
      WalkCoversSubtree(p, n, q, m);
    }
  }

  /** No two entries of a listing share a name, as in any real directory. */
  predicate UniqueNames(cs: seq<Node>)
  {
    forall i, j :: 0 <= i < j < |cs| ==> cs[i].name != cs[j].name
  }

  /** Every directory reachable by the walker has uniquely named entries. */
  ghost predicate WellFormed(n: Node)
    decreases n
  {
    n.Dir? ==> UniqueNames(n.children) && forall c :: c in n.children ==> WellFormed(c)
  }

  ghost predicate DistinctPaths(s: seq<Entry>)
  {
    forall i, j :: 0 <= i < j < |s| ==> s[i].path != s[j].path
  }

  /** Children before parents: an entry whose path is a proper prefix of
      another's comes after it. */
  ghost predicate PostOrdered(s: seq<Entry>)
  {
    forall i, j :: 0 <= i < |s| && 0 <= j < |s| && s[i].path < s[j].path ==> j < i
  }

  lemma DistinctPathsAppend(a: seq<Entry>, b: seq<Entry>)
    requires DistinctPaths(a) && DistinctPaths(b)
    requires forall x, y :: x in a && y in b ==> x.path != y.path
    ensures DistinctPaths(a + b)
  {
    forall i, j | 0 <= i < j < |a + b|
      ensures (a + b)[i].path != (a + b)[j].path
    {
      if i < |a| && j >= |a| {
        assert (a + b)[i] in a && (a + b)[j] in b;
      }
    }
  }

  lemma PostOrderedAppend(a: seq<Entry>, b: seq<Entry>)
    requires PostOrdered(a) && PostOrdered(b)
    requires forall x, y :: x in a && y in b ==> !(x.path < y.path)
    ensures PostOrdered(a + b)
  {
    forall i, j | 0 <= i < |a + b| && 0 <= j < |a + b| && (a + b)[i].path < (a + b)[j].path
      ensures j < i
    {
      if i < |a| && j >= |a| {
        assert false;
      } else if i < |a| {
        assert (a + b)[i] == a[i] && (a + b)[j] == a[j];
      } else if j >= |a| {
        assert (a + b)[i] == b[i - |a|] && (a + b)[j] == b[j - |a|];
      }
    }
  }

  /** In a well-formed tree the walker hands each entry over exactly once: no
      path is visited twice. */
  lemma {:induction false} WalkVisitsEachPathOnce(p: Path, n: Node)
    requires WellFormed(n)
    ensures DistinctPaths(Walk(p, n))
    decreases n, 1
  {
    if n.Dir? {
      WalkAllVisitsEachPathOnce(p, n.children);
      DistinctPathsAppend(WalkAll(p, n.children), [Entry(p, n)]);
    }
  }

  lemma {:induction false} WalkAllVisitsEachPathOnce(p: Path, cs: seq<Node>)
    requires UniqueNames(cs) && forall c :: c in cs ==> WellFormed(c)
    ensures DistinctPaths(WalkAll(p, cs))
    decreases cs, 0
  {
    if cs != [] {
      var head, tail := Walk(p + [cs[0].name], cs[0]), WalkAll(p, cs[1..]);
      WalkVisitsEachPathOnce(p + [cs[0].name], cs[0]);
      WalkAllVisitsEachPathOnce(p, cs[1..]);
      assert cs[0].name !in Names(cs[1..]);
      forall x, y | x in head && y in tail
        ensures x.path != y.path
      {
        assert x.path[|p|] == cs[0].name;
      }
      DistinctPathsAppend(head, tail);
    }
  }

  /** In a well-formed tree the walk is post-order: every entry is handed over
      after all the entries beneath it, and the start entry comes last. */
  lemma {:induction false} WalkIsPostOrder(p: Path, n: Node)
    requires WellFormed(n)
    ensures PostOrdered(Walk(p, n))
    ensures Walk(p, n)[|Walk(p, n)| - 1] == Entry(p, n)
    decreases n, 1
  {
    if n.Dir? {
      WalkAllIsPostOrder(p, n.children);
      PostOrderedAppend(WalkAll(p, n.children), [Entry(p, n)]);
    }
  }

  lemma {:induction false} WalkAllIsPostOrder(p: Path, cs: seq<Node>)
    requires UniqueNames(cs) && forall c :: c in cs ==> WellFormed(c)
    ensures PostOrdered(WalkAll(p, cs))
    decreases cs, 0
  {
    if cs != [] {
      var head, tail := Walk(p + [cs[0].name], cs[0]), WalkAll(p, cs[1..]);
      WalkIsPostOrder(p + [cs[0].name], cs[0]);
      WalkAllIsPostOrder(p, cs[1..]);
      assert cs[0].name !in Names(cs[1..]);
      forall x, y | x in head && y in tail
        ensures !(x.path < y.path)
      {
        assert x.path[|p|] == cs[0].name;
      }
      PostOrderedAppend(head, tail);
    }
  }
}
