/**
 The in-memory value model of a dialog document (src/lib.rs): documents,
 nodes, content elements, branch options, destinations, conditions and
 variable values, and the builders that assemble them.
 */
module Model {
  import opened Strings

  /** The error kinds the parser raises; messages are not modelled. */
  datatype Error = ParseError | VariableError | NodeError | DependencyError

  datatype Result<+T> = Ok(value: T) | Err(error: Error)

  /** A variable value. A number keeps the literal text it was read from. */
  datatype Value = String(text: string) | Number(literal: string) | Boolean(flag: bool) | Empty

  /** The header fields, each absent unless the header declares it. */
  datatype Metadata = Metadata(
    topic: Option<string>,
    description: Option<string>,
    author: Option<string>,
    version: Option<string>,
    required: Option<seq<string>>)

  const NoMetadata := Metadata(None, None, None, None, None)

  datatype ContentElement =
    | Text(text: string)
    | Variable(name: string)
    | FunctionCall(name: string, resultVars: seq<string>)

  datatype Destination =
    | ToNode(node: string)
    | FileTransfer(file: string, node: string)
    | Exit

  datatype Condition = Condition(variable: string)

  datatype BranchOption = BranchOption(keywords: seq<string>, destination: Destination, condition: Option<Condition>)

  datatype Node = Node(name: string, content: seq<ContentElement>, options: seq<BranchOption>)

  datatype Document = Document(
    metadata: Metadata,
    globalVars: Option<map<string, Value>>,
    localVars: map<string, Value>,
    nodes: map<string, Node>)

  /** `Document::new`: the given metadata and otherwise nothing. */
  function NewDocument(metadata: Metadata): (d: Document)
    ensures d.metadata == metadata
    ensures d.globalVars.None? && |d.localVars| == 0 && |d.nodes| == 0
  {
    Document(metadata, None, map[], map[])
  }

  /**
   `Document::add_node`: insert the node under its own name and report
   success; a name already present is rejected and the document is left as
   it was.
   */
  function AddNode(d: Document, node: Node): (r: (Document, Result<()>))
    ensures r.1.Err? <==> node.name in d.nodes
    ensures r.1.Err? ==> r.1.error == NodeError && r.0 == d
    ensures r.1.Ok? ==> r.0.nodes.Keys == d.nodes.Keys + {node.name}
    ensures r.1.Ok? ==> r.0.nodes[node.name] == node
    ensures r.1.Ok? ==> forall k :: k in d.nodes ==> r.0.nodes[k] == d.nodes[k]
    ensures r.1.Ok? ==> r.0.metadata == d.metadata && r.0.globalVars == d.globalVars && r.0.localVars == d.localVars
  {
    if node.name in d.nodes then (d, Err(NodeError))
    else (d.(nodes := d.nodes[node.name := node]), Ok(()))
  }

  /** `Node::new`: a named node with no content and no options. */
  function NewNode(name: string): (n: Node)
    ensures n.name == name && |n.content| == 0 && |n.options| == 0
  {
    Node(name, [], [])
  }

  /** `Node::add_content`: append one element after the existing content. */
  function AddContent(n: Node, e: ContentElement): (r: Node)
    ensures r.name == n.name && r.options == n.options
    ensures |r.content| == |n.content| + 1
    ensures r.content[..|n.content|] == n.content && r.content[|n.content|] == e
  {
    n.(content := n.content + [e])
  }

  /** `Node::add_option`: append one option after the existing options. */
  function AddOption(n: Node, o: BranchOption): (r: Node)
    ensures r.name == n.name && r.content == n.content
    ensures |r.options| == |n.options| + 1
    ensures r.options[..|n.options|] == n.options && r.options[|n.options|] == o
  {
    n.(options := n.options + [o])
  }

  /** Names of a sequence of nodes, in order. */
  function NamesOf(ns: seq<Node>): (names: seq<string>)
    ensures |names| == |ns|
    ensures forall i :: 0 <= i < |ns| ==> names[i] == ns[i].name
  {
    seq(|ns|, i requires 0 <= i < |ns| => ns[i].name)
  }

  /** Insert the nodes one after another with `AddNode`, stopping at the first rejection. */
  function AddNodes(d: Document, ns: seq<Node>): Result<Document>
    decreases |ns|
  {
    if ns == [] then Ok(d)
    else match AddNodes(d, ns[..|ns| - 1])
      case Err(e) => Err(e)
      case Ok(d') =>
        var (d'', outcome) := AddNode(d', ns[|ns| - 1]);
        if outcome.Err? then Err(outcome.error) else Ok(d'')
  }

  /**
   Incremental assembly succeeds exactly when the node names are pairwise
   distinct and new to the document, and fails with a node error otherwise.
   */
  lemma {:induction false} AddNodesSucceedsIffDistinct(d: Document, ns: seq<Node>)
    ensures AddNodes(d, ns).Ok? <==> NoDuplicates(NamesOf(ns)) && forall i :: 0 <= i < |ns| ==> ns[i].name !in d.nodes
    ensures AddNodes(d, ns).Err? ==> AddNodes(d, ns).error == NodeError
    decreases |ns|
  {
    if ns != [] {
      var init := ns[..|ns| - 1];
      var last := ns[|ns| - 1];
      AddNodesSucceedsIffDistinct(d, init);
      assert NamesOf(ns) == NamesOf(init) + [last.name];
      NoDuplicatesSnoc(NamesOf(init), last.name);
      if AddNodes(d, init).Ok? {
        AddNodesContents(d, init);
      }
    }
  }

  /**
   After a successful incremental assembly the document holds exactly its
   earlier nodes plus the added ones, each under its own name, and nothing
   else about it has changed.
   */
  lemma AddNodesContents(d: Document, ns: seq<Node>)
    requires AddNodes(d, ns).Ok?
    ensures forall i :: 0 <= i < |ns| ==> ns[i].name in AddNodes(d, ns).value.nodes && AddNodes(d, ns).value.nodes[ns[i].name] == ns[i]
    ensures forall k :: k in AddNodes(d, ns).value.nodes <==> k in d.nodes || k in NamesOf(ns)
    ensures forall k :: k in d.nodes ==> AddNodes(d, ns).value.nodes[k] == d.nodes[k]
    ensures AddNodes(d, ns).value.(nodes := d.nodes) == d
  {
    AddNodesValues(d, ns);
    AddNodesKeys(d, ns);
  }

  lemma {:induction false} AddNodesValues(d: Document, ns: seq<Node>)
    requires AddNodes(d, ns).Ok?
    ensures forall i :: 0 <= i < |ns| ==> ns[i].name in AddNodes(d, ns).value.nodes && AddNodes(d, ns).value.nodes[ns[i].name] == ns[i]
    ensures forall k :: k in d.nodes ==> k in AddNodes(d, ns).value.nodes && AddNodes(d, ns).value.nodes[k] == d.nodes[k]
    ensures AddNodes(d, ns).value.(nodes := d.nodes) == d
    decreases |ns|
  {
    if ns != [] {
      AddNodesLast(d, ns);
      AddNodesValues(d, ns[..|ns| - 1]);
    }
  }

  lemma {:induction false} AddNodesKeys(d: Document, ns: seq<Node>)
    requires AddNodes(d, ns).Ok?
    ensures forall k :: k in AddNodes(d, ns).value.nodes <==> k in d.nodes || k in NamesOf(ns)
    decreases |ns|
  {
    if ns != [] {
      var init := ns[..|ns| - 1];
      AddNodesLast(d, ns);
      AddNodesKeys(d, init);
      assert NamesOf(ns) == NamesOf(init) + [ns[|ns| - 1].name];
    }
  }

  /** A successful assembly is the assembly of all but the last node with the last one inserted. */
  lemma AddNodesLast(d: Document, ns: seq<Node>)
    requires ns != [] && AddNodes(d, ns).Ok?
    ensures AddNodes(d, ns[..|ns| - 1]).Ok?
    ensures ns[|ns| - 1].name !in AddNodes(d, ns[..|ns| - 1]).value.nodes
    ensures AddNodes(d, ns).value == AddNode(AddNodes(d, ns[..|ns| - 1]).value, ns[|ns| - 1]).0
  {
  }
}
