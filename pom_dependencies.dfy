/** The `pom.withXml` hook of the library's publication: it appends one
    `dependencies` node to the POM tree and, walking the declared
    `implementation` dependencies in order, one `dependency` node for each
    that has both a group and a version. */
module PomDependencies {
  import opened Wrappers

  /** A declared dependency; `group` and `version` may be `null`. */
  datatype Dependency = Dependency(group: Option<string>, name: string, version: Option<string>)

  /** What one emitted `dependency` node says. */
  datatype ManifestEntry = ManifestEntry(groupId: string, artifactId: string, version: string, scope: string)

  const RuntimeScope: string := "runtime"

  /** The filter: both coordinates are non-null. The name plays no part. */
  predicate Qualifies(d: Dependency)
  {
    d.group.Some? && d.version.Some?
  }

  /** The projection of a qualifying dependency. */
  function EntryOf(d: Dependency): ManifestEntry
    requires Qualifies(d)
  {
    ManifestEntry(d.group.value, d.name, d.version.value, RuntimeScope)
  }

  /** The entries the hook emits for `declared`, in declaration order:
      filter on `Qualifies`, project with `EntryOf`. */
  function Manifest(declared: seq<Dependency>): (r: seq<ManifestEntry>)
    ensures |r| <= |declared|
    ensures forall k :: 0 <= k < |r| ==> r[k].scope == RuntimeScope
  {
    if declared == [] then []
    else
      var last := declared[|declared| - 1];
      Manifest(declared[..|declared| - 1]) + (if Qualifies(last) then [EntryOf(last)] else [])
  }

  /** The manifest of a concatenation is the concatenation of the manifests. */
  lemma {:induction false} ManifestAppend(a: seq<Dependency>, b: seq<Dependency>)
    ensures Manifest(a + b) == Manifest(a) + Manifest(b)
    decreases |b|
  {
    if b == [] {
      assert a + b == a;
    } else {
      var b' := b[..|b| - 1];
      assert (a + b)[..|a + b| - 1] == a + b';
      ManifestAppend(a, b');
    }
  }

  /** The number of declared dependencies that qualify, counted from the front. */
  function CountQualifying(declared: seq<Dependency>): nat
  {
    if declared == [] then 0
    else (if Qualifies(declared[0]) then 1 else 0) + CountQualifying(declared[1..])
  }

  /** One entry per qualifying dependency, and no more. */
  lemma {:induction false} ManifestCount(declared: seq<Dependency>)
    ensures |Manifest(declared)| == CountQualifying(declared)
    decreases |declared|
  {
    if declared != [] {
      assert declared == [declared[0]] + declared[1..];
      ManifestAppend([declared[0]], declared[1..]);
      assert [declared[0]][..0] == [];
      ManifestCount(declared[1..]);
    }
  }

  /** Every entry comes from a qualifying dependency, and every qualifying
      dependency has its entry. */
  lemma {:induction false} ManifestMembership(declared: seq<Dependency>, e: ManifestEntry)
    ensures e in Manifest(declared) <==>
      exists i :: 0 <= i < |declared| && Qualifies(declared[i]) && e == EntryOf(declared[i])
    decreases |declared|
  {
    if declared != [] {
      var n := |declared| - 1;
      var front := declared[..n];
      ManifestMembership(front, e);
      assert forall i :: 0 <= i < n ==> front[i] == declared[i];
    }
  }

  /** The entry of a qualifying dependency sits where the dependencies before
      it put it: after the entries of all of them. */
  lemma EntryPosition(declared: seq<Dependency>, i: nat)
    requires i < |declared| && Qualifies(declared[i])
    ensures |Manifest(declared[..i])| < |Manifest(declared)|
    ensures Manifest(declared)[|Manifest(declared[..i])|] == EntryOf(declared[i])
  {
    assert declared == declared[..i] + [declared[i]] + declared[i + 1..];
    ManifestAppend(declared[..i] + [declared[i]], declared[i + 1..]);
    ManifestAppend(declared[..i], [declared[i]]);
    assert [declared[i]][..0] == [];
  }

  /** Declaration order is kept: of two qualifying dependencies, the earlier
      one's entry comes first. */
  lemma ManifestKeepsOrder(declared: seq<Dependency>, i: nat, j: nat)
    requires i < j < |declared| && Qualifies(declared[i]) && Qualifies(declared[j])
    ensures exists k, l ::
              && 0 <= k < l < |Manifest(declared)|
              && Manifest(declared)[k] == EntryOf(declared[i])
              && Manifest(declared)[l] == EntryOf(declared[j])
  {
    EntryPosition(declared, i);
    EntryPosition(declared, j);
    ManifestStep(declared, i);
    assert declared[..j] == declared[..i + 1] + declared[i + 1..j];
    ManifestAppend(declared[..i + 1], declared[i + 1..j]);
    var k, l := |Manifest(declared[..i])|, |Manifest(declared[..j])|;
    assert k < l;
  }

  /** A node of the POM tree (`groovy.util.Node`): a name, an optional text
      value and the children appended to it. */
  class Node {
    const name: string
    const text: Option<string>
    var children: seq<Node>

    constructor (name: string, text: Option<string>)
      ensures this.name == name && this.text == text && children == []
    {
      this.name := name;
      this.text := text;
      children := [];
    }

    /** `appendNode(name, value)`: a new leaf, added as the last child and
        returned. */
    method AppendNode(name: string, text: Option<string>) returns (child: Node)
      modifies this
      ensures fresh(child)
      ensures child.name == name && child.text == text && child.children == []
      ensures children == old(children) + [child]
    {
      child := new Node(name, text);
      children := children + [child];
    }
  }

  /** `n` is a leaf element `<name>value</name>`. */
  ghost predicate IsLeaf(n: Node, name: string, value: string)
    reads n
  {
    n.name == name && n.text == Some(value) && n.children == []
  }

  /** `n` is the `dependency` element for `e`: exactly the four leaves
      `groupId`, `artifactId`, `version`, `scope`, in that order. */
  ghost predicate Describes(n: Node, e: ManifestEntry)
    reads n, n.children
  {
    && n.name == "dependency" && n.text == None && |n.children| == 4
    && IsLeaf(n.children[0], "groupId", e.groupId)
    && IsLeaf(n.children[1], "artifactId", e.artifactId)
    && IsLeaf(n.children[2], "version", e.version)
    && IsLeaf(n.children[3], "scope", e.scope)
  }

  /** No node stands at two leaf positions of the `dependency` nodes `ds`. */
  ghost predicate LeavesDistinct(ds: seq<Node>)
    reads ds
  {
    forall k, m, l, n ::
      0 <= k < |ds| && 0 <= l < |ds| && 0 <= m < |ds[k].children| && 0 <= n < |ds[l].children| && (k, m) != (l, n)
      ==> ds[k].children[m] != ds[l].children[n]
  }

  /** Appending a node whose leaves are distinct and shared with no earlier
      node keeps the leaves distinct. */
  lemma LeavesDistinctSnoc(ds: seq<Node>, node: Node)
    requires LeavesDistinct(ds)
    requires forall m, n :: 0 <= m < n < |node.children| ==> node.children[m] != node.children[n]
    requires forall k, m, n :: 0 <= k < |ds| && 0 <= m < |ds[k].children| && 0 <= n < |node.children| ==>
      ds[k].children[m] != node.children[n]
    ensures LeavesDistinct(ds + [node])
  {
  }

  /** The `dependency` nodes `ds` describe `entries` one by one; they and
      their leaves all belong to `made`, and no leaf is shared. */
  ghost predicate Emitted(ds: seq<Node>, entries: seq<ManifestEntry>, made: set<Node>)
    reads ds, made
  {
    && |ds| == |entries|
    && (forall k :: 0 <= k < |ds| ==> ds[k] in made && forall m :: 0 <= m < |ds[k].children| ==> ds[k].children[m] in made)
    && (forall k :: 0 <= k < |ds| ==> Describes(ds[k], entries[k]))
    && LeavesDistinct(ds)
  }

  /** One more `dependency` node, with leaves of its own, keeps `Emitted`. */
  lemma EmittedSnoc(ds: seq<Node>, entries: seq<ManifestEntry>, made: set<Node>, node: Node, e: ManifestEntry)
    requires Emitted(ds, entries, made)
    requires Describes(node, e)
    requires forall m, n :: 0 <= m < n < |node.children| ==> node.children[m] != node.children[n]
    requires forall m :: 0 <= m < |node.children| ==> node.children[m] !in made
    ensures Emitted(ds + [node], entries + [e], made + {node} + set x | x in node.children)
  {
    LeavesDistinctSnoc(ds, node);
    var ds' := ds + [node];
    assert forall k :: 0 <= k < |ds| ==> ds'[k] == ds[k];
  }

  /** The body of the `if` in the hook: a new `dependency` node, appended to
      `deps`, holding four new leaves with the dependency's coordinates. */
  method AppendDependency(deps: Node, dependency: Dependency) returns (node: Node)
    requires Qualifies(dependency)
    modifies deps
    ensures fresh(node) && deps.children == old(deps.children) + [node]
    ensures Describes(node, EntryOf(dependency))
    ensures forall m :: 0 <= m < |node.children| ==> fresh(node.children[m])
    ensures forall m, n :: 0 <= m < n < |node.children| ==> node.children[m] != node.children[n]
  {
    node := deps.AppendNode("dependency", None);
    var _ := node.AppendNode("groupId", dependency.group);
    var _ := node.AppendNode("artifactId", Some(dependency.name));
    var _ := node.AppendNode("version", dependency.version);
    var _ := node.AppendNode("scope", Some(RuntimeScope));
  }

  /** The manifest of one more declared dependency: its entry is added at the
      end exactly when it qualifies. */
  lemma ManifestStep(declared: seq<Dependency>, i: nat)
    requires i < |declared|
    ensures Qualifies(declared[i]) ==> Manifest(declared[..i + 1]) == Manifest(declared[..i]) + [EntryOf(declared[i])]
    ensures !Qualifies(declared[i]) ==> Manifest(declared[..i + 1]) == Manifest(declared[..i])
  {
    ManifestAppend(declared[..i], [declared[i]]);
    assert declared[..i] + [declared[i]] == declared[..i + 1];
  }

  /** `AppendDependency` with the bookkeeping of the loop: the new node and
      its leaves join `made`, and the nodes so far describe one more entry. */
  method EmitNode(deps: Node, dependency: Dependency, ghost entries: seq<ManifestEntry>, ghost made: set<Node>)
    returns (ghost made': set<Node>)
    requires Qualifies(dependency)
    requires deps !in made && Emitted(deps.children, entries, made)
    modifies deps
    ensures |deps.children| == |old(deps.children)| + 1 && deps.children[..|old(deps.children)|] == old(deps.children)
    ensures deps !in made' && Emitted(deps.children, entries + [EntryOf(dependency)], made')
    ensures forall x :: x in made' ==> x in made || fresh(x)
  {
    ghost var before := deps.children;
    assert deps !in before;
    var node := AppendDependency(deps, dependency);
    assert Emitted(before, entries, made);
    EmittedSnoc(before, entries, made, node, EntryOf(dependency));
    made' := made + {node} + set x | x in node.children;
  }

  /** One turn of the hook's loop, for `declared[i]`: a dependency whose
      group and version are both non-null gets its `dependency` node, any
      other leaves `deps` as it is. `made` holds the nodes added for
      `declared[..i]`; the result adds the new ones. */
  method EmitStep(deps: Node, declared: seq<Dependency>, i: nat, ghost made: set<Node>)
    returns (ghost made': set<Node>)
    requires i < |declared|
    requires deps !in made && Emitted(deps.children, Manifest(declared[..i]), made)
    modifies deps
    ensures Qualifies(declared[i]) ==>
      |deps.children| == |old(deps.children)| + 1 && deps.children[..|old(deps.children)|] == old(deps.children)
    ensures !Qualifies(declared[i]) ==> deps.children == old(deps.children)
    ensures deps !in made' && Emitted(deps.children, Manifest(declared[..i + 1]), made')
    ensures forall x :: x in made' ==> x in made || fresh(x)
  {
    var dependency := declared[i];
    ManifestStep(declared, i);
    if dependency.group.Some? && dependency.version.Some? {
      made' := EmitNode(deps, dependency, Manifest(declared[..i]), made);
    } else {
      made' := made;
    }
  }

  /** The `forEach` of the hook: the declared dependencies, in order, each
      take one turn of `EmitStep` on the empty `dependencies` node. Every
      node added is new, and together they describe the manifest. */
  method AppendDependencies(deps: Node, declared: seq<Dependency>) returns (ghost made: set<Node>)
    requires deps.children == []
    modifies deps
    ensures fresh(made) && deps !in made
    ensures Emitted(deps.children, Manifest(declared), made)
  {
    made := {};
    var i := 0;
    while i < |declared|
      invariant 0 <= i <= |declared|
      invariant fresh(made) && deps !in made
      invariant Emitted(deps.children, Manifest(declared[..i]), made)
    {
      made := EmitStep(deps, declared, i, made);
      i := i + 1;
    }
    assert declared[..i] == declared;
  }

  /** The `pom.withXml` block: `root` is `asNode()`. One `dependencies` node is
      appended to the root whatever `declared` holds, and it ends up with one
      `dependency` node per manifest entry, in order; every node it adds is a
      new object, so no two positions of the new subtree share a node; the
      root gains nothing else and no node that existed before is changed
      except the root. */
  method WithXml(root: Node, declared: seq<Dependency>) returns (deps: Node)
    modifies root
    ensures fresh(deps) && root.children == old(root.children) + [deps]
    ensures deps.name == "dependencies" && deps.text == None
    ensures |deps.children| == |Manifest(declared)|
    ensures forall k :: 0 <= k < |deps.children| ==>
      fresh(deps.children[k]) && Describes(deps.children[k], Manifest(declared)[k])
    ensures forall k, l :: 0 <= k < l < |deps.children| ==> deps.children[k] != deps.children[l]
    ensures forall k, m :: 0 <= k < |deps.children| && 0 <= m < |deps.children[k].children| ==> fresh(deps.children[k].children[m])
    ensures LeavesDistinct(deps.children)
  {
    deps := root.AppendNode("dependencies", None);
    ghost var made := AppendDependencies(deps, declared);
    DistinctLeavesDistinctNodes(deps.children);
  }

  /** Nodes that have children and share no leaf are distinct nodes. */
  lemma DistinctLeavesDistinctNodes(ds: seq<Node>)
    requires LeavesDistinct(ds)
    requires forall k :: 0 <= k < |ds| ==> |ds[k].children| > 0
    ensures forall k, l :: 0 <= k < l < |ds| ==> ds[k] != ds[l]
  {
    forall k, l | 0 <= k < l < |ds|
      ensures ds[k] != ds[l]
    {
      assert ds[k].children[0] != ds[l].children[0];
    }
  }

  /** A declaration without a group and one without a version are skipped;
      an empty artifact name does not stop an entry. */
  lemma FilterScenario()
    ensures Manifest(ScenarioDeclared()) ==
      [ManifestEntry("com.x", "lib", "1.0", "runtime"), ManifestEntry("com.q", "", "3.1", "runtime")]
  {
    var s := ScenarioDeclared();
    assert s[..3][..2][..1][..0] == [];
    assert Manifest(s[..3][..2][..1]) == [EntryOf(s[0])];
    assert Manifest(s[..3][..2]) == [EntryOf(s[0])];
    assert Manifest(s[..3]) == [EntryOf(s[0])];
  }

  function ScenarioDeclared(): seq<Dependency>
  {
    [ Dependency(Some("com.x"), "lib", Some("1.0")),
      Dependency(None, "y", Some("2.0")),
      Dependency(Some("com.z"), "w", None),
      Dependency(Some("com.q"), "", Some("3.1")) ]
  }
}
