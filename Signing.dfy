/** `EnableSigning` (Crypt/Program.cs:201-264) on an already loaded project
    file: find the project element, find its last `PropertyGroup` child and
    insert right after it a new `PropertyGroup` that turns on assembly
    signing with the given key file. Loading and saving the XML are not
    modelled; a document is its list of top-level nodes. */
module Signing {
  import opened Wrappers

  /** An XML node: an element (qualified name, namespace URI, children), a
      text node, or any other node (declaration, comment, processing
      instruction), known by its name. */
  datatype Node =
    | Element(name: string, namespace: string, children: seq<Node>)
    | Text(value: string)
    | Other(name: string)

  /** `XmlNode.Name`. */
  function NodeName(n: Node): string
  {
    match n
    case Element(name, _, _) => name
    case Text(_) => "#text"
    case Other(name) => name
  }

  /** `XmlNode.ChildNodes`; only elements have children here. */
  function ChildNodes(n: Node): seq<Node>
  {
    if n.Element? then n.children else []
  }

  predicate IsPropertyGroup(n: Node)
  {
    n.Element? && n.name == "PropertyGroup"
  }

  /** Namespace of the MSBuild 2003 project format. */
  const MsBuild2003: string := "http://schemas.microsoft.com/developer/msbuild/2003"

  /** Why the edit throws: the document is empty (`FirstChild` is null),
      there is no node after a non-`Project` first node (`NextSibling` is
      null), or the project node has no `PropertyGroup` child (`Last`
      finds no match). */
  datatype SigningError = NoRoot | NoProject | NoPropertyGroup

  /** `.OfType<XmlElement>().Last(x => x.Name == "PropertyGroup")`: the
      index of the last `PropertyGroup` element among the children. */
  function LastPropertyGroup(children: seq<Node>): (r: Option<nat>)
    ensures r.Some? ==> r.value < |children| && IsPropertyGroup(children[r.value])
    ensures r.Some? ==> forall j :: r.value < j < |children| ==> !IsPropertyGroup(children[j])
    ensures r.None? <==> forall j :: 0 <= j < |children| ==> !IsPropertyGroup(children[j])
  {
    if children == [] then None
    else if IsPropertyGroup(children[|children| - 1]) then Some(|children| - 1)
    else LastPropertyGroup(children[..|children| - 1])
  }

  /** `parent.InsertAfter(x, s[i])` on the child list `s`. */
  function InsertAfter<T>(s: seq<T>, i: nat, x: T): (r: seq<T>)
    requires i < |s|
    ensures |r| == |s| + 1 && r[i + 1] == x
    ensures r[..i + 1] == s[..i + 1] && r[i + 2..] == s[i + 1..]
  {
    s[..i + 1] + [x] + s[i + 1..]
  }

  /** The inserted node sits right after position i; the nodes before it
      keep their positions and the nodes after it move up by one. */
  lemma InsertAfterShape<T>(s: seq<T>, i: nat, x: T)
    requires i < |s|
    ensures var r := InsertAfter(s, i, x);
      && |r| == |s| + 1
      && r[i + 1] == x
      && (forall k :: 0 <= k <= i ==> r[k] == s[k])
      && (forall k :: i < k < |s| ==> r[k + 1] == s[k])
  {
  }

  /** Removing the inserted node gives the original list back. */
  lemma InsertAfterRemove<T>(s: seq<T>, i: nat, x: T)
    requires i < |s|
    ensures var r := InsertAfter(s, i, x); r[..i + 1] + r[i + 2..] == s
  {
    var r := InsertAfter(s, i, x);
    assert r[..i + 1] == s[..i + 1];
    assert r[i + 2..] == s[i + 1..];
  }

  /** The new group: `SignAssembly` set to `true`, then
      `AssemblyOriginatorKeyFile` set to the key file, all in namespace
      `ns`. */
  function SigningGroup(ns: string, keyFile: string): (g: Node)
    ensures IsPropertyGroup(g) && g.namespace == ns
    ensures |g.children| == 2
    ensures forall c :: c in g.children ==> c.Element? && c.namespace == ns && !IsPropertyGroup(c)
    ensures NodeName(g.children[0]) == "SignAssembly" && g.children[0].children == [Text("true")]
    ensures NodeName(g.children[1]) == "AssemblyOriginatorKeyFile" && g.children[1].children == [Text(keyFile)]
  {
    Element("PropertyGroup", ns, [
      Element("SignAssembly", ns, [Text("true")]),
      Element("AssemblyOriginatorKeyFile", ns, [Text(keyFile)])])
  }

  /** Whether the first node is the project (the SDK format, no namespace)
      or precedes it (the MSBuild 2003 format, which starts with an XML
      declaration). */
  predicate IsNewFormat(nodes: seq<Node>)
    requires nodes != []
  {
    NodeName(nodes[0]) == "Project"
  }

  /** Position of the project node among the top-level nodes: the first
      node in the SDK format, its next sibling otherwise. */
  function ProjectIndex(nodes: seq<Node>): (p: nat)
    requires nodes != []
    ensures p <= 1
    ensures p == 0 <==> NodeName(nodes[0]) == "Project"
  {
    if IsNewFormat(nodes) then 0 else 1
  }

  /** Namespace of the elements the edit creates. */
  function ProjectNamespace(nodes: seq<Node>): (ns: string)
    requires nodes != []
    ensures ns == "" <==> IsNewFormat(nodes)
    ensures ns != "" ==> ns == MsBuild2003
  {
    if IsNewFormat(nodes) then "" else MsBuild2003
  }

  predicate HasPropertyGroup(children: seq<Node>)
  {
    exists j :: 0 <= j < |children| && IsPropertyGroup(children[j])
  }

  /** The document after the edit, or the error the edit throws. */
  function SignedDocument(nodes: seq<Node>, keyFile: string): (r: Result<seq<Node>, SigningError>)
    ensures r == Err(NoRoot) <==> nodes == []
    ensures r.Ok? ==> nodes != [] && ProjectIndex(nodes) < |nodes| && |r.value| == |nodes|
    ensures r.Ok? ==> forall q :: 0 <= q < |nodes| && q != ProjectIndex(nodes) ==> r.value[q] == nodes[q]
  {
    if nodes == [] then Err(NoRoot)
    else if ProjectIndex(nodes) >= |nodes| then Err(NoProject)
    else
      var project := nodes[ProjectIndex(nodes)];
      var last := LastPropertyGroup(ChildNodes(project));
      if last.None? then Err(NoPropertyGroup)
      else
        var children := InsertAfter(ChildNodes(project), last.value, SigningGroup(ProjectNamespace(nodes), keyFile));
        Ok(nodes[ProjectIndex(nodes) := Element(project.name, project.namespace, children)])
  }

  /** The edit succeeds exactly when the document has a project node
      (the first node if it is named `Project`, otherwise the second) that
      has a `PropertyGroup` child; otherwise it reports which of the three
      is missing. */
  lemma SignedDocumentSucceeds(nodes: seq<Node>, keyFile: string)
    ensures nodes == [] <==> SignedDocument(nodes, keyFile) == Err(NoRoot)
    ensures SignedDocument(nodes, keyFile) == Err(NoProject) <==>
      nodes != [] && !IsNewFormat(nodes) && |nodes| == 1
    ensures SignedDocument(nodes, keyFile).Ok? <==>
      && nodes != []
      && ProjectIndex(nodes) < |nodes|
      && HasPropertyGroup(ChildNodes(nodes[ProjectIndex(nodes)]))
  {
    if nodes != [] && ProjectIndex(nodes) < |nodes| {
      var children := ChildNodes(nodes[ProjectIndex(nodes)]);
      if LastPropertyGroup(children).Some? {
        var j := LastPropertyGroup(children).value;
        assert IsPropertyGroup(children[j]);
      }
    }
  }

  /** On success exactly one node is added, to the project node's children,
      right after the last `PropertyGroup`; it is the signing group, in no
      namespace for the SDK format and in the MSBuild 2003 namespace
      otherwise; every other node, child or not, keeps its place and
      content. */
  lemma SignedDocumentShape(nodes: seq<Node>, keyFile: string)
    requires SignedDocument(nodes, keyFile).Ok?
    ensures nodes != [] && ProjectIndex(nodes) < |nodes| && nodes[ProjectIndex(nodes)].Element?
    ensures var r := SignedDocument(nodes, keyFile).value;
      var p := ProjectIndex(nodes);
      && |r| == |nodes|
      && (forall q :: 0 <= q < |nodes| && q != p ==> r[q] == nodes[q])
      && r[p] == Element(nodes[p].name, nodes[p].namespace, ChildNodes(r[p]))
      && SignedChildren(ChildNodes(nodes[p]), ChildNodes(r[p]), SigningGroup(ProjectNamespace(nodes), keyFile))
  {
    var p := ProjectIndex(nodes);
    var before := ChildNodes(nodes[p]);
    var j := LastPropertyGroup(before).value;
    var group := SigningGroup(ProjectNamespace(nodes), keyFile);
    var after := InsertAfter(before, j, group);
    assert ChildNodes(SignedDocument(nodes, keyFile).value[p]) == after;
    InsertAfterRemove(before, j, group);
    assert SignedChildrenAt(before, after, group, j);
  }

  /** `after` is `before` with `group` inserted right after the last
      `PropertyGroup`, which sits at position j. */
  predicate SignedChildrenAt(before: seq<Node>, after: seq<Node>, group: Node, j: nat)
  {
    && j < |before|
    && IsPropertyGroup(before[j])
    && (forall k :: j < k < |before| ==> !IsPropertyGroup(before[k]))
    && |after| == |before| + 1
    && after[j + 1] == group
    && after[..j + 1] == before[..j + 1]
    && after[j + 2..] == before[j + 1..]
  }

  ghost predicate SignedChildren(before: seq<Node>, after: seq<Node>, group: Node)
  {
    exists j: nat :: SignedChildrenAt(before, after, group, j)
  }

  /** The inserted group is itself the last `PropertyGroup` afterwards, so
      a second edit goes right after the first one's group. */
  lemma SignedGroupIsLast(nodes: seq<Node>, keyFile: string)
    requires SignedDocument(nodes, keyFile).Ok?
    ensures nodes != [] && ProjectIndex(nodes) < |nodes|
    ensures var r := SignedDocument(nodes, keyFile).value;
      var p := ProjectIndex(nodes);
      LastPropertyGroup(ChildNodes(r[p])) == Some(LastPropertyGroup(ChildNodes(nodes[p])).value + 1)
  {
    var p := ProjectIndex(nodes);
    var before := ChildNodes(nodes[p]);
    var group := SigningGroup(ProjectNamespace(nodes), keyFile);
    assert ChildNodes(SignedDocument(nodes, keyFile).value[p])
        == InsertAfter(before, LastPropertyGroup(before).value, group);
    InsertedGroupIsLast(before, LastPropertyGroup(before).value, group);
  }

  /** A `PropertyGroup` inserted after the last one becomes the last one. */
  lemma InsertedGroupIsLast(children: seq<Node>, j: nat, group: Node)
    requires j < |children| && IsPropertyGroup(group)
    requires forall k :: j < k < |children| ==> !IsPropertyGroup(children[k])
    ensures LastPropertyGroup(InsertAfter(children, j, group)) == Some(j + 1)
  {
    var after := InsertAfter(children, j, group);
    forall k | j + 1 < k < |after|
      ensures !IsPropertyGroup(after[k])
    {
      assert after[k] == after[j + 2..][k - (j + 2)] == children[j + 1..][k - (j + 2)];
    }
    LastPropertyGroupIs(after, j + 1);
  }

  /** A `PropertyGroup` with none after it is the one `Last` finds. */
  lemma {:induction false} LastPropertyGroupIs(children: seq<Node>, j: nat)
    requires j < |children| && IsPropertyGroup(children[j])
    requires forall k :: j < k < |children| ==> !IsPropertyGroup(children[k])
    ensures LastPropertyGroup(children) == Some(j)
  {
    if j < |children| - 1 {
      LastPropertyGroupIs(children[..|children| - 1], j);
    }
  }

  /** The loaded project file that the edit changes in place. */
  class ProjectDocument {
    var nodes: seq<Node>

    constructor (nodes: seq<Node>)
      ensures this.nodes == nodes
    {
      this.nodes := nodes;
    }

    /** Edit the document; on an error nothing has been changed. */
    method EnableSigning(keyFile: string) returns (error: Option<SigningError>)
      modifies this
      ensures match SignedDocument(old(nodes), keyFile)
        case Ok(signed) => error == None && nodes == signed
        case Err(e) => error == Some(e) && nodes == old(nodes)
    {
      if nodes == [] {
        return Some(NoRoot);
      }
      var p := ProjectIndex(nodes);
      if p >= |nodes| {
        return Some(NoProject);
      }
      var project := nodes[p];
      var last := LastPropertyGroup(ChildNodes(project));
      if last.None? {
        return Some(NoPropertyGroup);
      }
      var propertyGroup := SigningGroup(ProjectNamespace(nodes), keyFile);
      var children := InsertAfter(ChildNodes(project), last.value, propertyGroup);
      nodes := nodes[p := Element(project.name, project.namespace, children)];
      return None;
    }
  }
}
