/**
 How the configuration tree is built at start-up, after lib/dtv-util/src/registrator.cpp and
 lib/dtv-util/src/cfg/: registrators are called in the order of the dots in their names, and each
 adds the last part of its name below the node of the rest.
 */
module ConfigInit {
  import opened Sorting
  import opened TreePath

  class PropertyNode {
    const name: string
    var nodes: seq<PropertyNode>

    constructor (name: string)
      ensures this.name == name && nodes == []
    {
      this.name, nodes := name, [];
    }
  }

  /** A node, or the exception that is thrown instead. */
  datatype Answer = Found(node: PropertyNode) | NotExists(name: string) | AlreadyExists(name: string)

  class Config {
    const root: PropertyNode

    // The node at every path
    ghost var index: map<seq<string>, PropertyNode>

    constructor ()
      ensures Valid() && fresh(root) && index.Keys == {[]}
    {
      root := new PropertyNode("root");
      index := map[[] := root];
    }

    /** The children of the node at every path. */
    ghost function Kids(): (r: Children)
      reads this, index.Values
      ensures r.Keys == index.Keys
    {
      map p | p in index :: index[p].nodes
    }

    ghost predicate Valid()
      reads this, index.Values
    {
      [] in index && index[[]] == root && IsTree(index, Kids())
    }

    lemma ChildIsThere(p: seq<string>, c: PropertyNode)
      requires Valid() && p in index && c in index[p].nodes
      ensures p + [c.name] in index && index[p + [c.name]] == c
    {
      assert HasChildren(index, Kids(), p);
    }

    lemma ParentIsThere(p: seq<string>, name: string)
      requires Valid() && p + [name] in index
      ensures p in index && index[p + [name]] in index[p].nodes && index[p + [name]].name == name
    {
      var q := p + [name];
      assert q[..|q| - 1] == p && q[|q| - 1] == name;
      assert HasParent(index, Kids(), q);
    }

    /** The first child of that name. */
    method GetChildOrNull(at: PropertyNode, name: string, ghost p: seq<string>) returns (r: PropertyNode?)
      requires Valid() && p in index && index[p] == at
      ensures if p + [name] in index then r == index[p + [name]] else r == null
    {
      hide Valid;
      r := null;
      var i := 0;
      while i < |at.nodes|
        invariant i <= |at.nodes| && r == null && forall j :: 0 <= j < i ==> at.nodes[j].name != name
      {
        if at.nodes[i].name == name {
          ChildIsThere(p, at.nodes[i]);
          return at.nodes[i];
        }
        i := i + 1;
      }
      if p + [name] in index {
        ParentIsThere(p, name);
      }
    }

    /** The node that the parts of the name lead to. */
    method GetNodeRecursively(at: PropertyNode, name: string, ghost p: seq<string>) returns (r: PropertyNode?)
      requires Valid() && p in index && index[p] == at
      ensures if p + Components(name) in index then r == index[p + Components(name)] else r == null
      decreases |name|
    {
      hide Valid;
      if Walkable(name) {
        assert p + Components(name) == p + [Root(name)] + Components(WithoutRoot(name));
        r := GetChildOrNull(at, Root(name), p);
        if r == null {
          NothingBelow(p + [Root(name)], Components(WithoutRoot(name)));
        } else {
          r := GetNodeRecursively(r, WithoutRoot(name), p + [Root(name)]);
        }
      } else {
        r := GetChildOrNull(at, name, p);
      }
    }

    /** Paths do not go on below a node that is not there. */
    lemma {:induction false} NothingBelow(p: seq<string>, rest: seq<string>)
      requires Valid() && p !in index
      ensures p + rest !in index
      decreases |rest|
    {
      if rest == [] {
        assert p + rest == p;
      } else {
        var above, last := rest[..|rest| - 1], rest[|rest| - 1];
        NothingBelow(p, above);
        assert p + rest == (p + above) + [last];
        if p + rest in index {
          ParentIsThere(p + above, last);
        }
      }
    }

    /** `addNode`. */
    method AddNode(at: PropertyNode, name: string, ghost p: seq<string>) returns (r: Answer)
      requires Valid() && p in index && index[p] == at
      modifies this, at
      ensures Valid()
      ensures if p + [name] in old(index) then r == AlreadyExists(name) && index == old(index)
              else r.Found? && fresh(r.node) && index == old(index)[p + [name] := r.node]
    {
      hide IsTree, OnePath, Components, Join, FirstDot;
      var child := GetChildOrNull(at, name, p);
      if child != null {
        return AlreadyExists(name);
      }
      var node := new PropertyNode(name);
      Attach(at, node, p);
      r := Found(node);
    }

    /** The node becomes the last child. */
    method Attach(at: PropertyNode, node: PropertyNode, ghost p: seq<string>)
      requires Valid() && p in index && index[p] == at && p + [node.name] !in index
      requires node !in index.Values && node.nodes == []
      modifies this, at
      ensures Valid() && index == old(index)[p + [node.name] := node]
    {
      hide IsTree, OnePath;
      ghost var before, kids := index, Kids();
      NodeAdded(before, kids, p, node);
      OthersDiffer(before, kids, p);
      at.nodes := at.nodes + [node];
      index := index[p + [node.name] := node];
      assert Kids() == kids[p := kids[p] + [node]][p + [node.name] := []];
    }

    /** `operator()`: the node of that name. */
    method Lookup(name: string) returns (r: Answer)
      requires Valid()
      ensures r == if Components(name) in index then Found(index[Components(name)]) else NotExists(name)
    {
      hide Valid, Components;
      assert [] + Components(name) == Components(name);
      assert [] in index && index[[]] == root by {
        RootIsThere();
      }
      var node := GetNodeRecursively(root, name, []);
      r := if node == null then NotExists(name) else Found(node);
    }

    lemma OnlyRoot()
      requires Valid() && index.Keys == {[]}
      ensures index.Values == {root}
    {
      assert index[[]] in index.Values;
    }

    lemma RootIsThere()
      requires Valid()
      ensures [] in index && index[[]] == root
    {
    }

    /** The registrator's `root`: the node of all but the last part of its name. */
    method RootOf(name: string) returns (r: Answer)
      requires Valid()
      ensures var above := Components(name)[..|Components(name)| - 1];
              if above in index then r == Found(index[above])
              else Walkable(name) && r == NotExists(Path(name))
    {
      hide HasChildren, HasParent, OnePath;
      if Walkable(name) {
        PathAndProperty(name);
        assert Components(name)[..|Components(name)| - 1] == Components(Path(name));
        r := Lookup(Path(name));
      } else {
        r := Found(root);
      }
    }

    /** A callback that adds the last part of its own name. */
    method Call(name: string) returns (r: Answer)
      requires Valid()
      modifies this, index.Values
      ensures Valid()
      ensures r.Found? <==> CanAdd(old(index).Keys, Components(name))
      ensures if r.Found?
              then index.Keys == old(index).Keys + {Components(name)} && fresh(index.Values - old(index).Values)
              else index == old(index)
    {
      hide Valid, Components, Property, Walkable;
      var parts := Components(name);
      r := RootOf(name);
      if r.Found? {
        assert parts == parts[..|parts| - 1] + [parts[|parts| - 1]];
        LastPart(name);
        r := AddNode(r.node, Property(name), parts[..|parts| - 1]);
      }
    }
  }

  type Index = map<seq<string>, PropertyNode>

  type Children = map<seq<string>, seq<PropertyNode>>

  /** No node is at two paths. */
  ghost predicate OnePath(index: Index) {
    forall p, q :: p in index && q in index && index[p] == index[q] ==> p == q
  }

  /** The children of the node at a path are at the paths that go on with their names. */
  ghost predicate HasChildren(index: Index, kids: Children, p: seq<string>)
    requires p in kids
  {
    forall c :: c in kids[p] ==> p + [c.name] in index && index[p + [c.name]] == c
  }

  /** The node at a path is a child of the node at the path without the last part, which is its name. */
  ghost predicate HasParent(index: Index, kids: Children, p: seq<string>)
    requires p in index && index.Keys == kids.Keys
  {
    p != [] ==>
      && p[..|p| - 1] in index && index[p] in kids[p[..|p| - 1]] && index[p].name == p[|p| - 1]
  }

  ghost predicate IsTree(index: Index, kids: Children)
    requires index.Keys == kids.Keys
  {
    OnePath(index) && forall p :: p in index ==> HasChildren(index, kids, p) && HasParent(index, kids, p)
  }

  lemma ChildrenAfter(index: Index, kids: Children, p: seq<string>, node: PropertyNode, q: seq<string>)
    requires index.Keys == kids.Keys && p in index && p + [node.name] !in index
    requires q in index ==> HasChildren(index, kids, q)
    requires q in index || q == p + [node.name]
    ensures HasChildren(index[p + [node.name] := node], kids[p := kids[p] + [node]][p + [node.name] := []], q)
  {
  }

  lemma ParentAfter(index: Index, kids: Children, p: seq<string>, node: PropertyNode, q: seq<string>)
    requires index.Keys == kids.Keys && p in index && p + [node.name] !in index
    requires q in index ==> HasParent(index, kids, q)
    requires q in index || q == p + [node.name]
    ensures HasParent(index[p + [node.name] := node], kids[p := kids[p] + [node]][p + [node.name] := []], q)
  {
    if q !in index {
      assert q[..|q| - 1] == p;
    }
  }

  /** The tree stays a tree when the node at a path gets a new child. */
  lemma NodeAdded(index: Index, kids: Children, p: seq<string>, node: PropertyNode)
    requires index.Keys == kids.Keys && IsTree(index, kids) && p in index && p + [node.name] !in index
    requires node !in index.Values
    ensures IsTree(index[p + [node.name] := node], kids[p := kids[p] + [node]][p + [node.name] := []])
  {
    hide HasChildren, HasParent;
    var index', kids' := index[p + [node.name] := node], kids[p := kids[p] + [node]][p + [node.name] := []];
    assert OnePath(index');
    forall q | q in index'
      ensures HasChildren(index', kids', q) && HasParent(index', kids', q)
    {
      ChildrenAfter(index, kids, p, node, q);
      ParentAfter(index, kids, p, node, q);
    }
  }

  lemma OthersDiffer(index: Index, kids: Children, p: seq<string>)
    requires index.Keys == kids.Keys && IsTree(index, kids) && p in index
    ensures forall q :: q in index && q != p ==> index[q] != index[p]
  {
  }

  /** The node above is there, and the node itself is not. */
  predicate CanAdd(paths: set<seq<string>>, parts: seq<string>)
    requires parts != []
  {
    parts[..|parts| - 1] in paths && parts !in paths
  }

  lemma LastPart(name: string)
    ensures Property(name) == Components(name)[|Components(name)| - 1]
  {
    if Walkable(name) {
      PathAndProperty(name);
    }
  }

  // ----- The registrators

  /** The name of a registrator: the dots of its identifier are written as underscores. */
  function Dotted(id: string): (r: string)
    ensures |r| == |id| && forall i :: 0 <= i < |id| ==> r[i] == if id[i] == '_' then DOT else id[i]
  {
    seq(|id|, i requires 0 <= i < |id| => if id[i] == '_' then DOT else id[i])
  }

  /** `priority`. */
  function ByDots(): string -> int {
    (s: string) => Dots(s)
  }

  datatype Outcome = Done | Threw(answer: Answer)

  class Registry {
    var calls: seq<string>

    constructor ()
      ensures calls == []
    {
      calls := [];
    }

    /** `addinitCallbacks`: a new registrator goes to the front. */
    method Register(id: string)
      modifies this
      ensures calls == [Dotted(id)] + old(calls)
    {
      calls := [Dotted(id)] + calls;
    }

    /**
     `init`, on a tree with nothing but the root.  It throws nothing exactly when the names are
     distinct and with every name there is the one without its last part, in whatever order they
     were registered; and then every name leads to a node.
     */
    method Init(config: Config) returns (r: Outcome)
      requires config.Valid() && config.index.Keys == {[]}
      modifies this, config, config.root
      ensures config.Valid()
      ensures r.Done? <==> IsSensible(old(calls))
      ensures r.Done? ==> calls == [] && config.index.Keys == Paths(old(calls))
    {
      hide Paths, IsSensible, CanAdd, Config.Valid;
      ghost var names := calls;
      calls := StableSort(calls, ByDots());
      StableSortSorted(names, ByDots());
      SameNames(calls, names);
      ghost var last;
      r, last := CallEach(config, calls);
      if r.Threw? {
        if IsSensible(calls) {
          SensibleCanAdd(calls, last);
        }
        return;
      }
      AddedIsSensible(calls);
      calls := [];
    }
  }

  /** The loop of `call`; at the `last`th name it throws. */
  method CallEach(config: Config, calls: seq<string>) returns (r: Outcome, ghost last: nat)
    requires config.Valid() && config.index.Keys == {[]}
    modifies config, config.root
    ensures config.Valid()
    ensures r.Done? ==> config.index.Keys == Paths(calls)
    ensures r.Done? ==> forall j :: 0 <= j < |calls| ==> CanAdd(Paths(calls[..j]), Components(calls[j]))
    ensures r.Threw? ==> last < |calls| && !CanAdd(Paths(calls[..last]), Components(calls[last]))
  {
    hide Paths, CanAdd, Config.Valid, Components;
    config.OnlyRoot();
    NoPaths();
    last := 0;
    var i := 0;
    while i < |calls|
      invariant i <= |calls| && config.Valid()
      invariant config.index.Keys == Paths(calls[..i])
      invariant fresh(config.index.Values - {config.root})
      invariant forall j :: 0 <= j < i ==> CanAdd(Paths(calls[..j]), Components(calls[j]))
    {
      OneMorePath(calls, i);
      var answer := config.Call(calls[i]);
      if !answer.Found? {
        return Threw(answer), i;
      }
      i := i + 1;
    }
    assert calls[..i] == calls;
    r := Done;
  }

  /** The paths of the names, and that of the root. */
  ghost function Paths(names: seq<string>): set<seq<string>> {
    {[]} + set n | n in names :: Components(n)
  }

  /** Distinct, and closed under removing the last part. */
  ghost predicate IsSensible(names: seq<string>) {
    && (forall n :: n in names ==> multiset(names)[n] == 1)
    && (forall n :: n in names && Walkable(n) ==> Path(n) in names)
  }

  lemma SameNames(a: seq<string>, b: seq<string>)
    requires multiset(a) == multiset(b)
    ensures IsSensible(a) <==> IsSensible(b)
    ensures Paths(a) == Paths(b)
  {
    assert forall n :: n in a <==> n in multiset(a);
    assert forall n :: n in b <==> n in multiset(b);
  }

  lemma OneMorePath(names: seq<string>, i: nat)
    requires i < |names|
    ensures Paths(names[..i + 1]) == Paths(names[..i]) + {Components(names[i])}
  {
    assert names[..i + 1] == names[..i] + [names[i]];
  }

  lemma {:induction false} SortedAt(s: seq<string>, i: nat, k: nat)
    requires Sorted(s, ByDots()) && i <= k < |s|
    ensures Dots(s[i]) <= Dots(s[k])
  {
    if 0 < i {
      SortedAt(s[1..], i - 1, k - 1);
    } else if i < k {
      assert s[1..][k - 1] == s[k] && s[k] in s[1..];
      assert ByDots()(s[0]) <= ByDots()(s[k]);
    }
  }

  lemma OnlyOnce(s: seq<string>, i: nat, k: nat)
    requires i < k < |s| && s[i] == s[k]
    ensures multiset(s)[s[i]] >= 2
  {
    assert s == s[..i] + [s[i]] + s[i + 1..k] + [s[k]] + s[k + 1..];
  }

  lemma NoPaths()
    ensures Paths([]) == {[]}
  {
  }

  /** In the order of dots, the name without its last part comes first. */
  lemma ParentIsEarlier(names: seq<string>, i: nat)
    requires IsSensible(names) && Sorted(names, ByDots()) && i < |names| && Walkable(names[i])
    ensures Path(names[i]) in names[..i]
  {
    hide Components, Path, Sorted, Dots;
    var name := names[i];
    PathAndProperty(name);
    DotsAndComponents(name);
    DotsAndComponents(Path(name));
    var k :| 0 <= k < |names| && names[k] == Path(name);
    if i <= k {
      SortedAt(names, i, k);
    }
    assert names[..i][k] == Path(name);
  }

  lemma NotYetThere(names: seq<string>, i: nat)
    requires IsSensible(names) && i < |names|
    ensures names[i] !in names[..i]
  {
    hide Path, Walkable;
    if names[i] in names[..i] {
      var k :| 0 <= k < i && names[k] == names[i];
      OnlyOnce(names, k, i);
    }
  }

  /** In the order of dots the node above a name is there before the name, which is not there yet. */
  lemma SensibleCanAdd(names: seq<string>, i: nat)
    requires IsSensible(names) && Sorted(names, ByDots()) && i < |names|
    ensures CanAdd(Paths(names[..i]), Components(names[i]))
  {
    hide Path, Property, IsSensible, Sorted;
    var name := names[i];
    var parts := Components(name);
    if Walkable(name) {
      PathAndProperty(name);
      assert parts[..|parts| - 1] == Components(Path(name));
      ParentIsEarlier(names, i);
    }
    NotYetThere(names, i);
    forall n | n in names[..i]
      ensures Components(n) != parts
    {
      if Components(n) == parts {
        SameComponents(n, name);
      }
    }
  }

  /** Names that could be added one after another are distinct, and each has the one above it. */
  lemma AddedIsSensible(names: seq<string>)
    requires forall j :: 0 <= j < |names| ==> CanAdd(Paths(names[..j]), Components(names[j]))
    ensures IsSensible(names)
  {
    forall j | 0 <= j < |names| && Walkable(names[j])
      ensures Path(names[j]) in names
    {
      var name := names[j];
      PathAndProperty(name);
      assert Components(name)[..|Components(name)| - 1] == Components(Path(name));
      assert Components(Path(name)) in Paths(names[..j]);
      var n :| n in names[..j] && Components(n) == Components(Path(name));
      SameComponents(n, Path(name));
    }
    AddedOnce(names);
  }

  lemma {:induction false} AddedOnce(names: seq<string>)
    requires forall j :: 0 <= j < |names| ==> CanAdd(Paths(names[..j]), Components(names[j]))
    ensures forall n :: n in names ==> multiset(names)[n] == 1
  {
    if names != [] {
      var k := |names| - 1;
      var before := names[..k];
      assert names == before + [names[k]];
      forall j | 0 <= j < k
        ensures CanAdd(Paths(before[..j]), Components(before[j]))
      {
        assert before[..j] == names[..j];
      }
      AddedOnce(before);
      assert CanAdd(Paths(names[..k]), Components(names[k]));
      assert names[k] !in before;
    }
  }
}
