/**
  The tree-like directory structure of SuffixProject.get_tree_like_directory_structure: every
  relative path, given as its components, becomes a chain of nested dict keys (structure_dict),
  and generate_tree renders the nesting one line per key, a key with children as "name/" with
  its subtree indented four more spaces, a key without children as its bare name.
 */
module DirectoryTree {
  import opened Results
  import opened Strings

  /** A nested dict: its keys, in insertion order, each with the dict below it. */
  datatype Tree = Tree(entries: seq<Entry>)
  datatype Entry = Entry(name: string, sub: Tree)

  const Empty := Tree([])

  function Keys(t: Tree): (r: seq<string>)
    ensures |r| == |t.entries| && forall k :: 0 <= k < |r| ==> r[k] == t.entries[k].name
  {
    seq(|t.entries|, k requires 0 <= k < |t.entries| => t.entries[k].name)
  }

  /** The position of a key among the entries, if it is there. */
  function IndexOf(es: seq<Entry>, name: string, from: nat): (r: Option<nat>)
    ensures r.Some? ==> from <= r.value < |es| && es[r.value].name == name
    ensures r.Some? ==> forall k :: from <= k < r.value ==> es[k].name != name
    ensures r.None? ==> forall k :: from <= k < |es| ==> es[k].name != name
    decreases |es| - from
  {
    if from >= |es| then None
    else if es[from].name == name then Some(from)
    else IndexOf(es, name, from + 1)
  }

  /**
    One relative path walked into the dict through `current_level`: each component is added as
    a key with an empty dict when missing, and the walk goes on in the dict under it.
   */
  function Insert(t: Tree, parts: seq<string>): Tree
    decreases |parts|
  {
    if parts == [] then t
    else
      match IndexOf(t.entries, parts[0], 0)
      case Some(i) => Tree(t.entries[i := Entry(parts[0], Insert(t.entries[i].sub, parts[1..]))])
      case None => Tree(t.entries + [Entry(parts[0], Insert(Empty, parts[1..]))])
  }

  /** structure_dict after the given paths, in order. */
  function BuildAll(paths: seq<seq<string>>): Tree
    decreases |paths|
  {
    if paths == [] then Empty else Insert(BuildAll(paths[..|paths| - 1]), paths[|paths| - 1])
  }

  /** The loop that fills structure_dict from the relative paths of the source files. */
  method BuildTree(paths: seq<seq<string>>) returns (structureDict: Tree)
    ensures structureDict == BuildAll(paths)
  {
    structureDict := Empty;
    for i := 0 to |paths|
      invariant structureDict == BuildAll(paths[..i])
    {
      assert paths[..i + 1][..i] == paths[..i];
      structureDict := Insert(structureDict, paths[i]);
    }
    assert paths[..|paths|] == paths;
  }

  /** A dict is never given the same key twice, at any level. */
  ghost predicate UniqueKeys(t: Tree)
    decreases t
  {
    && (forall i, j :: 0 <= i < j < |t.entries| ==> t.entries[i].name != t.entries[j].name)
    && (forall i :: 0 <= i < |t.entries| ==> UniqueKeys(t.entries[i].sub))
  }

  /** The dict reached by following the given keys, if they are all there. */
  function Subtree(t: Tree, q: seq<string>): Option<Tree>
    decreases |q|
  {
    if q == [] then Some(t)
    else
      match IndexOf(t.entries, q[0], 0)
      case Some(i) => Subtree(t.entries[i].sub, q[1..])
      case None => None
  }

  /** Keys keep their insertion order: a path adds its first component only when it is new. */
  lemma InsertKeys(t: Tree, parts: seq<string>)
    ensures Keys(Insert(t, parts)) == Keys(t) + (if parts != [] && parts[0] !in Keys(t) then [parts[0]] else [])
  {
    if parts != [] {
      match IndexOf(t.entries, parts[0], 0)
      case Some(i) =>
        assert Keys(t)[i] == parts[0];
      case None =>
        assert parts[0] !in Keys(t);
    }
  }

  /** Adding a path never gives a dict a duplicate key. */
  lemma {:induction false} InsertUnique(t: Tree, parts: seq<string>)
    requires UniqueKeys(t)
    ensures UniqueKeys(Insert(t, parts))
    decreases |parts|
  {
    if parts != [] {
      match IndexOf(t.entries, parts[0], 0)
      case Some(i) =>
        InsertUnique(t.entries[i].sub, parts[1..]);
      case None =>
        InsertUnique(Empty, parts[1..]);
    }
  }

  /**
    After a path is added, the chains of keys present are those present before and the prefixes
    of the path: shared prefixes share the existing nodes.
   */
  lemma {:induction false} InsertSubtree(t: Tree, parts: seq<string>, q: seq<string>)
    ensures Subtree(Insert(t, parts), q).Some? <==> Subtree(t, q).Some? || (|q| <= |parts| && q == parts[..|q|])
    decreases |parts|
  {
    if parts != [] && q != [] {
      var r := Insert(t, parts);
      match IndexOf(t.entries, parts[0], 0)
      case Some(i) =>
        if q[0] == parts[0] {
          assert IndexOf(r.entries, q[0], 0) == Some(i) by {
            SameKeysSameIndex(t.entries, r.entries, q[0], 0);
          }
          InsertSubtree(t.entries[i].sub, parts[1..], q[1..]);
          PrefixStep(q, parts);
        } else {
          assert IndexOf(r.entries, q[0], 0) == IndexOf(t.entries, q[0], 0) by {
            SameKeysSameIndex(t.entries, r.entries, q[0], 0);
          }
        }
      case None =>
        if q[0] == parts[0] {
          assert IndexOf(r.entries, q[0], 0) == Some(|t.entries|) by {
            assert r.entries[|t.entries|].name == q[0];
            FirstIndex(r.entries, q[0], |t.entries|);
          }
          InsertSubtree(Empty, parts[1..], q[1..]);
          NothingBelowEmpty(q[1..]);
          PrefixStep(q, parts);
        } else {
          assert IndexOf(r.entries, q[0], 0) == IndexOf(t.entries, q[0], 0) by {
            ExtendedIndex(t.entries, Entry(parts[0], Insert(Empty, parts[1..])), q[0], 0);
          }
        }
    }
  }

  lemma PrefixStep(q: seq<string>, parts: seq<string>)
    requires q != [] && parts != [] && q[0] == parts[0]
    ensures (|q| <= |parts| && q == parts[..|q|]) <==> (|q[1..]| <= |parts[1..]| && q[1..] == parts[1..][..|q[1..]|])
  {
    if |q| <= |parts| && q[1..] == parts[1..][..|q[1..]|] {
      assert q == [q[0]] + q[1..];
      assert parts[..|q|] == [parts[0]] + parts[1..][..|q| - 1];
    }
  }

  lemma NothingBelowEmpty(q: seq<string>)
    ensures Subtree(Empty, q).Some? <==> q == []
  {
  }

  lemma {:induction false} SameKeysSameIndex(a: seq<Entry>, b: seq<Entry>, name: string, from: nat)
    requires |a| == |b| && forall k :: 0 <= k < |a| ==> a[k].name == b[k].name
    ensures IndexOf(a, name, from) == IndexOf(b, name, from)
    decreases |a| - from
  {
    if from < |a| {
      SameKeysSameIndex(a, b, name, from + 1);
    }
  }

  lemma {:induction false} ExtendedIndex(a: seq<Entry>, e: Entry, name: string, from: nat)
    requires e.name != name
    ensures IndexOf(a + [e], name, from) == IndexOf(a, name, from)
    decreases |a| + 1 - from
  {
    if from < |a| {
      assert (a + [e])[from] == a[from];
      ExtendedIndex(a, e, name, from + 1);
    }
  }

  lemma FirstIndex(es: seq<Entry>, name: string, i: nat)
    requires i < |es| && es[i].name == name
    requires forall k :: 0 <= k < i ==> es[k].name != name
    ensures IndexOf(es, name, 0) == Some(i)
  {
  }

  /** What the tree holds for a set of paths: every non-empty prefix of them, and nothing else. */
  lemma {:induction false} BuildContents(paths: seq<seq<string>>, q: seq<string>)
    ensures Subtree(BuildAll(paths), q).Some? <==> q == [] || exists p :: p in paths && |q| <= |p| && q == p[..|q|]
    ensures UniqueKeys(BuildAll(paths))
    decreases |paths|
  {
    if paths == [] {
      NothingBelowEmpty(q);
    } else {
      var init := paths[..|paths| - 1];
      var last := paths[|paths| - 1];
      BuildContents(init, q);
      InsertSubtree(BuildAll(init), last, q);
      InsertUnique(BuildAll(init), last);
      assert forall p :: p in paths <==> p in init || p == last;
    }
  }

  /** The indentation of a line at the given depth: four spaces per level. */
  function Indent(depth: nat): (r: string)
    ensures |r| == 4 * depth && forall k :: 0 <= k < |r| ==> r[k] == ' '
  {
    if depth == 0 then "" else "    " + Indent(depth - 1)
  }

  /** generate_tree(d, indent): each key in order, followed by the lines of its non-empty dict. */
  function Render(t: Tree, indent: string): seq<string>
    decreases t, 1
  {
    RenderFrom(t, indent, 0)
  }

  function RenderFrom(t: Tree, indent: string, i: nat): seq<string>
    decreases t, 0, |t.entries| - i
  {
    if i >= |t.entries| then []
    else
      var e := t.entries[i];
      (if e.sub.entries != [] then [indent + e.name + "/"] + Render(e.sub, indent + "    ") else [indent + e.name])
      + RenderFrom(t, indent, i + 1)
  }

  /** The "structure" text: the rendered lines joined with newlines. */
  function Structure(t: Tree): string
  {
    Join(Render(t, ""), '\n')
  }

  /** The key chains of a tree in depth-first order, each key before those below it. */
  function Nodes(t: Tree): seq<seq<string>>
    decreases t, 1
  {
    NodesFrom(t, 0)
  }

  function NodesFrom(t: Tree, i: nat): seq<seq<string>>
    decreases t, 0, |t.entries| - i
  {
    if i >= |t.entries| then []
    else
      var e := t.entries[i];
      [[e.name]] + Prefixed(e.name, Nodes(e.sub)) + NodesFrom(t, i + 1)
  }

  function Prefixed(name: string, qs: seq<seq<string>>): (r: seq<seq<string>>)
    ensures |r| == |qs| && forall k :: 0 <= k < |qs| ==> r[k] == [name] + qs[k]
  {
    seq(|qs|, k requires 0 <= k < |qs| => [name] + qs[k])
  }

  /**
    The line a node of `t` is rendered as: indented by its depth, its key, and "/" when its
    dict is not empty.
   */
  function LineOf(t: Tree, q: seq<string>, indent: string): string
    requires q != []
  {
    var below := Subtree(t, q);
    indent + Indent(|q| - 1) + q[|q| - 1] + (if below.Some? && below.value.entries != [] then "/" else "")
  }

  /** The lines are, one for one, the lines of the given nodes. */
  ghost predicate LinesOf(t: Tree, indent: string, lines: seq<string>, nodes: seq<seq<string>>)
  {
    |lines| == |nodes| && forall k :: 0 <= k < |nodes| ==> nodes[k] != [] && lines[k] == LineOf(t, nodes[k], indent)
  }

  lemma LinesOfAppend(t: Tree, indent: string, l1: seq<string>, n1: seq<seq<string>>, l2: seq<string>, n2: seq<seq<string>>)
    requires LinesOf(t, indent, l1, n1) && LinesOf(t, indent, l2, n2)
    ensures LinesOf(t, indent, l1 + l2, n1 + n2)
  {
    forall k | 0 <= k < |n1 + n2|
      ensures (n1 + n2)[k] != [] && (l1 + l2)[k] == LineOf(t, (n1 + n2)[k], indent)
    {
      if k >= |n1| {
        assert (n1 + n2)[k] == n2[k - |n1|] && (l1 + l2)[k] == l2[k - |n1|];
      }
    }
  }

  /** Below a key, a node's line is its line in the key's own dict, indented four more spaces. */
  lemma LineOfChild(t: Tree, i: nat, q: seq<string>, indent: string)
    requires i < |t.entries| && q != []
    requires forall j :: 0 <= j < i ==> t.entries[j].name != t.entries[i].name
    ensures LineOf(t, [t.entries[i].name] + q, indent) == LineOf(t.entries[i].sub, q, indent + "    ")
  {
    var q' := [t.entries[i].name] + q;
    FirstIndex(t.entries, t.entries[i].name, i);
    assert q'[1..] == q;
    assert Subtree(t, q') == Subtree(t.entries[i].sub, q);
  }

  lemma ChildLines(t: Tree, i: nat, indent: string)
    requires i < |t.entries| && UniqueKeys(t)
    requires LinesOf(t.entries[i].sub, indent + "    ", Render(t.entries[i].sub, indent + "    "), Nodes(t.entries[i].sub))
    ensures LinesOf(t, indent, Render(t.entries[i].sub, indent + "    "), Prefixed(t.entries[i].name, Nodes(t.entries[i].sub)))
  {
    var e := t.entries[i];
    var nodes := Nodes(e.sub);
    forall k | 0 <= k < |nodes|
      ensures Render(e.sub, indent + "    ")[k] == LineOf(t, [e.name] + nodes[k], indent)
    {
      LineOfChild(t, i, nodes[k], indent);
    }
  }

  lemma KeyLine(t: Tree, i: nat, indent: string)
    requires i < |t.entries| && UniqueKeys(t)
    ensures var e := t.entries[i];
      LineOf(t, [e.name], indent) == indent + e.name + (if e.sub.entries != [] then "/" else "")
  {
    var e := t.entries[i];
    FirstIndex(t.entries, e.name, i);
    assert [e.name][1..] == [];
    assert Subtree(t, [e.name]) == Some(e.sub);
    assert Indent(0) == "";
  }

  /**
    The rendering has one line per node of the tree, in depth-first order: the node's key indented
    by four spaces per level, followed by "/" exactly when the node has children.
   */
  lemma {:induction false} RenderNodes(t: Tree, indent: string)
    requires UniqueKeys(t)
    ensures LinesOf(t, indent, Render(t, indent), Nodes(t))
    decreases t, 1
  {
    RenderFromNodes(t, indent, 0);
  }

  lemma {:induction false} RenderFromNodes(t: Tree, indent: string, i: nat)
    requires UniqueKeys(t)
    ensures LinesOf(t, indent, RenderFrom(t, indent, i), NodesFrom(t, i))
    decreases t, 0, |t.entries| - i
  {
    if i < |t.entries| {
      var e := t.entries[i];
      RenderFromNodes(t, indent, i + 1);
      RenderNodes(e.sub, indent + "    ");
      ChildLines(t, i, indent);
      KeyLine(t, i, indent);
      var first := if e.sub.entries != [] then [indent + e.name + "/"] + Render(e.sub, indent + "    ") else [indent + e.name];
      assert LinesOf(t, indent, [first[0]], [[e.name]]);
      if e.sub.entries != [] {
        LinesOfAppend(t, indent, [first[0]], [[e.name]], Render(e.sub, indent + "    "), Prefixed(e.name, Nodes(e.sub)));
        assert first == [first[0]] + Render(e.sub, indent + "    ");
      } else {
        assert Nodes(e.sub) == [];
        assert [[e.name]] + Prefixed(e.name, Nodes(e.sub)) == [[e.name]];
      }
      LinesOfAppend(t, indent, first, [[e.name]] + Prefixed(e.name, Nodes(e.sub)), RenderFrom(t, indent, i + 1), NodesFrom(t, i + 1));
    }
  }

  /** The nodes listed are exactly the key chains present in the tree. */
  lemma {:induction false} NodesPresent(t: Tree, q: seq<string>)
    requires UniqueKeys(t)
    ensures q in Nodes(t) <==> q != [] && Subtree(t, q).Some?
    decreases t, 1
  {
    NodesFromPresent(t, 0, q);
  }

  lemma {:induction false} NodesFromPresent(t: Tree, i: nat, q: seq<string>)
    requires UniqueKeys(t)
    ensures q in NodesFrom(t, i) <==> q != [] && (exists j :: i <= j < |t.entries| && q[0] == t.entries[j].name) && Subtree(t, q).Some?
    decreases t, 0, |t.entries| - i
  {
    if i < |t.entries| {
      var e := t.entries[i];
      NodesFromPresent(t, i + 1, q);
      if q != [] && q[0] == e.name {
        FirstIndex(t.entries, e.name, i);
        assert Subtree(t, q) == Subtree(e.sub, q[1..]);
        NodesPresent(e.sub, q[1..]);
        assert q == [e.name] + q[1..];
        assert q in Prefixed(e.name, Nodes(e.sub)) <==> q[1..] in Nodes(e.sub);
        assert forall j :: i < j < |t.entries| ==> t.entries[j].name != q[0];
        assert q !in NodesFrom(t, i + 1);
        assert i <= i < |t.entries| && q[0] == t.entries[i].name;
        var own := Prefixed(e.name, Nodes(e.sub));
        assert NodesFrom(t, i) == [[e.name]] + own + NodesFrom(t, i + 1);
        assert q in NodesFrom(t, i) <==> q == [e.name] || q in own;
        if q == [e.name] {
          assert q[1..] == [];
        }
      } else {
        assert q !in Prefixed(e.name, Nodes(e.sub));
      }
    }
  }

  /** No key chain is listed twice. */
  ghost predicate Distinct(qs: seq<seq<string>>)
  {
    forall a, b :: 0 <= a < b < |qs| ==> qs[a] != qs[b]
  }

  lemma DistinctAppend(x: seq<seq<string>>, y: seq<seq<string>>)
    requires Distinct(x) && Distinct(y)
    requires forall q :: q in x ==> q !in y
    ensures Distinct(x + y)
  {
    forall a, b | 0 <= a < b < |x + y|
      ensures (x + y)[a] != (x + y)[b]
    {
      if b < |x| {
        assert (x + y)[a] == x[a] && (x + y)[b] == x[b];
      } else if a >= |x| {
        assert (x + y)[a] == y[a - |x|] && (x + y)[b] == y[b - |x|];
      } else {
        assert (x + y)[a] == x[a] && (x + y)[b] == y[b - |x|];
        assert x[a] in x;
      }
    }
  }

  /** In a dict without duplicate keys, every node is listed once. */
  lemma {:induction false} NodesDistinct(t: Tree)
    requires UniqueKeys(t)
    ensures Distinct(Nodes(t))
    decreases t, 1
  {
    NodesFromDistinct(t, 0);
  }

  lemma {:induction false} NodesFromDistinct(t: Tree, i: nat)
    requires UniqueKeys(t)
    ensures Distinct(NodesFrom(t, i))
    decreases t, 0, |t.entries| - i
  {
    if i < |t.entries| {
      var e := t.entries[i];
      var below := Nodes(e.sub);
      var own := Prefixed(e.name, below);
      var head := [[e.name]] + own;
      NodesFromDistinct(t, i + 1);
      NodesDistinct(e.sub);
      assert Distinct(own) by {
        forall a, b | 0 <= a < b < |own|
          ensures own[a] != own[b]
        {
          assert own[a][1..] == below[a] && own[b][1..] == below[b];
        }
      }
      forall q | q in own
        ensures q != [e.name] && q[0] == e.name
      {
        var k :| 0 <= k < |own| && own[k] == q;
        NodesPresent(e.sub, below[k]);
      }
      DistinctAppend([[e.name]], own);
      forall q | q in head
        ensures q !in NodesFrom(t, i + 1)
      {
        assert q != [] && q[0] == e.name;
        NodesFromPresent(t, i + 1, q);
      }
      DistinctAppend(head, NodesFrom(t, i + 1));
      assert NodesFrom(t, i) == head + NodesFrom(t, i + 1);
    }
  }

  /**
    The rendered structure of a set of relative paths: one line per distinct non-empty prefix of
    the paths, each prefix once, and those prefixes are all the key chains of the tree.
   */
  lemma RenderedPaths(paths: seq<seq<string>>, q: seq<string>)
    ensures var t := BuildAll(paths);
      && LinesOf(t, "", Render(t, ""), Nodes(t))
      && (q in Nodes(t) <==> q != [] && exists p :: p in paths && |q| <= |p| && q == p[..|q|])
      && (forall a, b :: 0 <= a < b < |Nodes(t)| ==> Nodes(t)[a] != Nodes(t)[b])
  {
    BuildContents(paths, q);
    RenderNodes(BuildAll(paths), "");
    NodesPresent(BuildAll(paths), q);
    NodesDistinct(BuildAll(paths));
  }
}
