/**
 Node parsing (src/parser/mod.rs, `parse_nodes`): every line starting with
 `@` opens a node named by the rest of the line, and the lines after it, up
 to the next header, are that node's content, one text element per line.
 Comments, blank lines and everything before the first header are ignored;
 a header repeating an earlier name is a node error; an option line inside
 a node hands over to option parsing, which the source leaves
 unimplemented and which aborts.

 As for variables, the walk runs over classified lines (`NodeLine`), and
 its result is compared with an independent reference: the list of nodes
 the headers and content lines describe (`NodesOf`), assembled into a
 document with `AddNodes`.
 */
module NodeParser {
  import opened Strings
  import opened Model

  /** How the loop body of `parse_nodes` treats one line. */
  datatype NodeLine =
    | Blank
    | Header(name: string)
    | OptionLine(line: string)
    | ContentLine(text: string)

  /** A line handed to option parsing: it starts with `{` or `?{`. */
  predicate IsOptionText(line: string) {
    line != [] && (line[0] == '{' || (line[0] == '?' && |line| >= 2 && line[1] == '{'))
  }

  /**
   Classify one raw line: trimmed, a blank line or comment, a node header
   (its name trimmed), an option line, or a content line.
   */
  function NodeLineOf(raw: string): (k: NodeLine)
    ensures k.Blank? <==> Trim(raw) == [] || Trim(raw)[0] == '#'
    ensures k.Header? <==> Trim(raw) != [] && Trim(raw)[0] == '@'
    ensures k.Header? ==> k.name == Trim(Trim(raw)[1..])
    ensures k.OptionLine? <==> IsOptionText(Trim(raw))
    ensures k.ContentLine? ==> k.text == Trim(raw) && k.text != [] && !IsOptionText(k.text)
    ensures k.ContentLine? ==> k.text[0] != '#' && k.text[0] != '@'
  {
    ClassifyNodeLine(Trim(raw))
  }

  /** The classification of an already trimmed line. */
  function ClassifyNodeLine(line: string): (k: NodeLine)
    ensures k.Blank? <==> line == [] || line[0] == '#'
    ensures k.Header? <==> line != [] && line[0] == '@'
    ensures k.Header? ==> k.name == Trim(line[1..])
    ensures k.OptionLine? <==> IsOptionText(line)
    ensures k.ContentLine? ==> k.text == line && k.text != [] && !IsOptionText(k.text)
    ensures k.ContentLine? ==> k.text[0] != '#' && k.text[0] != '@'
  {
    if line == [] || line[0] == '#' then Blank
    else if line[0] == '@' then Header(Trim(line[1..]))
    else if IsOptionText(line) then OptionLine(line)
    else ContentLine(line)
  }

  /** A header written as `@name` is read back as that name. */
  lemma HeaderLineRoundTrip(name: string)
    requires name != [] && IsTrimmed(name)
    ensures NodeLineOf(['@'] + name) == Header(name)
  {
    HeaderTextTrimmed(name);
    HeaderClassified(name);
  }

  lemma HeaderClassified(name: string)
    requires IsTrimmed(name)
    ensures ClassifyNodeLine(['@'] + name) == Header(name)
  {
    assert (['@'] + name)[1..] == name;
    TrimOfTrimmed(name);
  }

  lemma HeaderTextTrimmed(name: string)
    requires name != [] && IsTrimmed(name)
    ensures Trim(['@'] + name) == ['@'] + name
  {
    var raw := ['@'] + name;
    assert raw[|raw| - 1] == name[|name| - 1];
    TrimOfTrimmed(raw);
  }

  /** A trimmed line that starts like no other kind of line is read as content, unchanged. */
  lemma ContentLineRoundTrip(text: string)
    requires text != [] && IsTrimmed(text) && !IsOptionText(text)
    requires text[0] != '#' && text[0] != '@'
    ensures NodeLineOf(text) == ContentLine(text)
  {
    TrimOfTrimmed(text);
  }

  function NodeLines(lines: seq<string>): (ks: seq<NodeLine>)
    ensures |ks| == |lines|
    ensures forall i :: 0 <= i < |lines| ==> ks[i] == NodeLineOf(lines[i])
  {
    seq(|lines|, i requires 0 <= i < |lines| => NodeLineOf(lines[i]))
  }

  /** The loop state: the nodes already saved and the node being filled, if any. */
  datatype NodeState = NodeState(nodes: map<string, Node>, current: Option<Node>)

  const Initial := NodeState(map[], None)

  /** Where the walk is: still going, stopped by a node error, or aborted by option parsing. */
  datatype Walk = Walking(state: NodeState) | Rejected(error: Error) | Aborted(line: string)

  /** The nodes with the current one saved under its name. */
  function Saved(st: NodeState): (m: map<string, Node>)
    ensures st.current.Some? ==> m.Keys == st.nodes.Keys + {st.current.value.name}
    ensures st.current.None? ==> m == st.nodes
  {
    if st.current.Some? then st.nodes[st.current.value.name := st.current.value] else st.nodes
  }

  /**
   One pass of the loop body. A header saves the current node and opens a
   new one, unless its name is already saved; inside a node an option line
   aborts and a content line is appended as one text element; outside a
   node both are ignored.
   */
  function NodeStep(st: NodeState, k: NodeLine): (w: Walk)
    ensures w.Rejected? <==> k.Header? && k.name in Saved(st)
    ensures w.Rejected? ==> w.error == NodeError
    ensures w.Aborted? <==> k.OptionLine? && st.current.Some?
  {
    match k
    case Blank => Walking(st)
    case Header(name) =>
      var nodes := Saved(st);
      if name in nodes then Rejected(NodeError)
      else Walking(NodeState(nodes, Some(NewNode(name))))
    case OptionLine(line) =>
      if st.current.Some? then Aborted(line) else Walking(st)
    case ContentLine(text) =>
      if st.current.Some? then Walking(st.(current := Some(AddContent(st.current.value, Text(text)))))
      else Walking(st)
  }

  /** The walk from `w` over the lines `ks`; once stopped it stays stopped. */
  function RunFrom(w: Walk, ks: seq<NodeLine>): (r: Walk)
    ensures !w.Walking? ==> r == w
    ensures r.Rejected? && !w.Rejected? ==> r.error == NodeError
    decreases |ks|
  {
    if ks == [] then w
    else match RunFrom(w, ks[..|ks| - 1])
      case Walking(st) => NodeStep(st, ks[|ks| - 1])
      case other => other
  }

  function RunNodes(ks: seq<NodeLine>): Walk {
    RunFrom(Walking(Initial), ks)
  }

  /** What `parse_nodes` ends with: the node map, an error, or the abort of option parsing. */
  datatype NodesOutcome =
    | Parsed(nodes: map<string, Node>)
    | Failed(error: Error)
    | Unimplemented(line: string)

  /** `parse_nodes`: walk the lines, then save the last node. */
  function ParseNodes(lines: seq<string>): (r: NodesOutcome)
    ensures r.Failed? ==> r.error == NodeError
  {
    match RunNodes(NodeLines(lines))
    case Walking(st) => Parsed(Saved(st))
    case Rejected(e) => Failed(e)
    case Aborted(line) => Unimplemented(line)
  }

  /** The names of the header lines, in order. */
  function HeadersOf(ks: seq<NodeLine>): seq<string>
    decreases |ks|
  {
    if ks == [] then []
    else
      var names := HeadersOf(ks[..|ks| - 1]);
      if ks[|ks| - 1].Header? then names + [ks[|ks| - 1].name] else names
  }

  /**
   Reference definition: the nodes the lines describe, in order. Each
   header starts an empty node; each content line after it becomes one text
   element of the latest node; everything else adds nothing.
   */
  function NodesOf(ks: seq<NodeLine>): seq<Node>
    decreases |ks|
  {
    if ks == [] then []
    else
      var ns := NodesOf(ks[..|ks| - 1]);
      match ks[|ks| - 1]
      case Header(name) => ns + [NewNode(name)]
      case ContentLine(text) =>
        if ns == [] then ns else ns[..|ns| - 1] + [AddContent(ns[|ns| - 1], Text(text))]
      case _ => ns
  }

  /** Walking over two stretches of lines is walking over the first, then the second. */
  lemma {:induction false} RunFromAppend(w: Walk, a: seq<NodeLine>, b: seq<NodeLine>)
    ensures RunFrom(w, a + b) == RunFrom(RunFrom(w, a), b)
    decreases |b|
  {
    if b == [] {
      assert a + b == a;
    } else {
      assert (a + b)[..|a + b| - 1] == a + b[..|b| - 1];
      RunFromAppend(w, a, b[..|b| - 1]);
    }
  }

  /**
   The first duplicate header or in-node option line decides the outcome:
   once the walk has stopped, no later line changes it.
   */
  lemma OutcomeIsFinal(ks: seq<NodeLine>, n: nat)
    requires n <= |ks| && !RunNodes(ks[..n]).Walking?
    ensures RunNodes(ks) == RunNodes(ks[..n])
  {
    assert ks == ks[..n] + ks[n..];
    RunFromAppend(Walking(Initial), ks[..n], ks[n..]);
  }

  /** Before the first header nothing is kept: content and option lines there are ignored. */
  lemma {:induction false} HeaderlessLinesIgnored(ks: seq<NodeLine>)
    requires forall i :: 0 <= i < |ks| ==> !ks[i].Header?
    ensures RunNodes(ks) == Walking(Initial)
    decreases |ks|
  {
    if ks != [] {
      HeaderlessLinesIgnored(ks[..|ks| - 1]);
    }
  }

  /** Lines before the first header have no effect on the walk. */
  lemma PreambleIgnored(pre: seq<NodeLine>, rest: seq<NodeLine>)
    requires forall i :: 0 <= i < |pre| ==> !pre[i].Header?
    ensures RunNodes(pre + rest) == RunNodes(rest)
  {
    HeaderlessLinesIgnored(pre);
    RunFromAppend(Walking(Initial), pre, rest);
  }

  /** The reference lists one node per header, under the header's name, in order. */
  lemma {:induction false} NodeNamesAreHeaders(ks: seq<NodeLine>)
    ensures NamesOf(NodesOf(ks)) == HeadersOf(ks)
    decreases |ks|
  {
    if ks != [] {
      var init := ks[..|ks| - 1];
      NodeNamesAreHeaders(init);
      var ns := NodesOf(init);
      match ks[|ks| - 1]
      case Header(name) =>
        assert NamesOf(ns + [NewNode(name)]) == NamesOf(ns) + [name];
      case ContentLine(text) =>
        if ns != [] {
          var ns' := ns[..|ns| - 1] + [AddContent(ns[|ns| - 1], Text(text))];
          assert NamesOf(ns') == NamesOf(ns);
        }
      case _ =>
    }
  }

  const EmptyDocument := NewDocument(NoMetadata)

  /** No option line follows a header: option parsing is never reached. */
  predicate NoOptionInNode(ks: seq<NodeLine>) {
    forall i, j :: 0 <= i < j < |ks| && ks[i].Header? ==> !ks[j].OptionLine?
  }

  lemma NoOptionInPrefix(ks: seq<NodeLine>)
    requires ks != []
    ensures NoOptionInNode(ks) ==> NoOptionInNode(ks[..|ks| - 1])
  {
  }

  /**
   The walk's state agrees with the reference: the current node is the
   latest listed node, and the saved nodes are what assembling the earlier
   ones into an empty document gives.
   */
  predicate Assembled(ks: seq<NodeLine>, st: NodeState) {
    var ns := NodesOf(ks);
    (st.current.None? ==> ns == [] && st.nodes == map[]) &&
    (st.current.Some? ==>
      ns != [] && st.current.value == ns[|ns| - 1] &&
      AddNodes(EmptyDocument, ns[..|ns| - 1]) == Ok(EmptyDocument.(nodes := st.nodes)) &&
      st.current.value.name !in st.nodes)
  }

  /** In an assembled state, saving the current node completes the assembly. */
  lemma AssembledSaved(ks: seq<NodeLine>, st: NodeState)
    requires Assembled(ks, st)
    ensures AddNodes(EmptyDocument, NodesOf(ks)) == Ok(EmptyDocument.(nodes := Saved(st)))
  {
    var ns := NodesOf(ks);
    if st.current.Some? {
      assert ns[..|ns| - 1] + [ns[|ns| - 1]] == ns;
    }
  }

  /** In an assembled state a name is saved exactly when an earlier header gave it. */
  lemma SavedNamesAreHeaders(ks: seq<NodeLine>, st: NodeState, name: string)
    requires Assembled(ks, st)
    ensures name in Saved(st) <==> name in HeadersOf(ks)
  {
    AssembledSaved(ks, st);
    AddNodesContents(EmptyDocument, NodesOf(ks));
    NodeNamesAreHeaders(ks);
  }

  lemma HeaderStep(ks: seq<NodeLine>, st: NodeState)
    requires ks != [] && ks[|ks| - 1].Header?
    requires NoDuplicates(HeadersOf(ks[..|ks| - 1])) && Assembled(ks[..|ks| - 1], st)
    ensures NodeStep(st, ks[|ks| - 1]).Walking? ==>
      NoDuplicates(HeadersOf(ks)) && Assembled(ks, NodeStep(st, ks[|ks| - 1]).state)
    ensures NodeStep(st, ks[|ks| - 1]).Rejected? ==> !NoDuplicates(HeadersOf(ks))
  {
    var init := ks[..|ks| - 1];
    var name := ks[|ks| - 1].name;
    SavedNamesAreHeaders(init, st, name);
    NoDuplicatesSnoc(HeadersOf(init), name);
    AssembledSaved(init, st);
    var ns := NodesOf(ks);
    assert ns[..|ns| - 1] == NodesOf(init);
  }

  lemma ContentStep(ks: seq<NodeLine>, st: NodeState)
    requires ks != [] && ks[|ks| - 1].ContentLine?
    requires Assembled(ks[..|ks| - 1], st)
    ensures NodeStep(st, ks[|ks| - 1]).Walking?
    ensures HeadersOf(ks) == HeadersOf(ks[..|ks| - 1])
    ensures Assembled(ks, NodeStep(st, ks[|ks| - 1]).state)
  {
    var ns := NodesOf(ks[..|ks| - 1]);
    if st.current.Some? {
      var ns' := NodesOf(ks);
      assert ns'[..|ns'| - 1] == ns[..|ns| - 1];
    }
  }

  lemma OptionStep(ks: seq<NodeLine>, st: NodeState)
    requires ks != [] && ks[|ks| - 1].OptionLine?
    requires Assembled(ks[..|ks| - 1], st)
    ensures NodeStep(st, ks[|ks| - 1]).Walking? ==> Assembled(ks, NodeStep(st, ks[|ks| - 1]).state)
    ensures NodeStep(st, ks[|ks| - 1]).Aborted? ==> !NoOptionInNode(ks)
    ensures HeadersOf(ks) == HeadersOf(ks[..|ks| - 1])
  {
    var init := ks[..|ks| - 1];
    if st.current.Some? {
      NodeNamesAreHeaders(init);
      HeaderPresent(init);
      var i :| 0 <= i < |init| && init[i].Header?;
      assert ks[i] == init[i];
    }
  }

  /** A line sequence whose headers list is non-empty contains a header line. */
  lemma {:induction false} HeaderPresent(ks: seq<NodeLine>)
    requires HeadersOf(ks) != []
    ensures exists i :: 0 <= i < |ks| && ks[i].Header?
    decreases |ks|
  {
    var init := ks[..|ks| - 1];
    if !ks[|ks| - 1].Header? {
      HeaderPresent(init);
      var i :| 0 <= i < |init| && init[i].Header?;
      assert ks[i] == init[i];
    }
  }

  /**
   Invariant of the walk: while it goes on, the headers so far are distinct
   and its state agrees with the reference assembly; it is rejected only
   after a repeated header and aborted only by an option line inside a node.
   */
  lemma {:induction false} WalkInvariant(ks: seq<NodeLine>)
    ensures RunNodes(ks).Walking? ==> NoDuplicates(HeadersOf(ks)) && Assembled(ks, RunNodes(ks).state)
    ensures RunNodes(ks).Rejected? ==> !NoDuplicates(HeadersOf(ks))
    ensures RunNodes(ks).Aborted? ==> !NoOptionInNode(ks)
    decreases |ks|
  {
    if ks != [] {
      var init := ks[..|ks| - 1];
      var k := ks[|ks| - 1];
      WalkInvariant(init);
      match RunNodes(init)
      case Walking(st) =>
        match k {
          case Blank =>
          case Header(_) => HeaderStep(ks, st);
          case ContentLine(_) => ContentStep(ks, st);
          case OptionLine(_) => OptionStep(ks, st);
        }
      case Rejected(_) =>
        if k.Header? {
          NoDuplicatesSnoc(HeadersOf(init), k.name);
        }
      case Aborted(_) =>
        NoOptionInPrefix(ks);
    }
  }

  lemma {:induction false} HeaderListed(ks: seq<NodeLine>, i: nat)
    requires i < |ks| && ks[i].Header?
    ensures ks[i].name in HeadersOf(ks)
    decreases |ks|
  {
    if i < |ks| - 1 {
      var init := ks[..|ks| - 1];
      assert init[i] == ks[i];
      HeaderListed(init, i);
    }
  }

  /**
   Without option lines inside nodes, the walk finishes exactly when the
   header names are pairwise distinct, and otherwise fails with a node error.
   */
  lemma WalkSucceedsIffDistinct(ks: seq<NodeLine>)
    requires NoOptionInNode(ks)
    ensures RunNodes(ks).Walking? <==> NoDuplicates(HeadersOf(ks))
    ensures !RunNodes(ks).Walking? ==> RunNodes(ks) == Rejected(NodeError)
  {
    WalkInvariant(ks);
  }

  /**
   A finished walk saves exactly the reference nodes: the map is what
   assembling them into an empty document gives, its keys are the header
   names, and each name maps to the node the reference lists for it.
   */
  lemma WalkMatchesReference(ks: seq<NodeLine>)
    requires RunNodes(ks).Walking?
    ensures AddNodes(EmptyDocument, NodesOf(ks)) == Ok(EmptyDocument.(nodes := Saved(RunNodes(ks).state)))
    ensures forall n :: n in Saved(RunNodes(ks).state) <==> n in HeadersOf(ks)
    ensures forall i :: 0 <= i < |NodesOf(ks)| ==>
      NodesOf(ks)[i].name in Saved(RunNodes(ks).state) && Saved(RunNodes(ks).state)[NodesOf(ks)[i].name] == NodesOf(ks)[i]
  {
    WalkInvariant(ks);
    AssembledSaved(ks, RunNodes(ks).state);
    AddNodesContents(EmptyDocument, NodesOf(ks));
    NodeNamesAreHeaders(ks);
  }

  /** A header repeating an earlier one is a node error, unless option parsing aborted first. */
  lemma DuplicateHeaderRejected(ks: seq<NodeLine>, i: nat, j: nat)
    requires i < j < |ks| && ks[i].Header? && ks[j] == ks[i]
    requires NoOptionInNode(ks[..j])
    ensures RunNodes(ks) == Rejected(NodeError)
  {
    var pre := ks[..j];
    WalkInvariant(pre);
    if RunNodes(pre).Walking? {
      assert pre[i] == ks[i];
      HeaderListed(pre, i);
      SavedNamesAreHeaders(pre, RunNodes(pre).state, ks[i].name);
      SavedHeaderRejected(ks, j);
      OutcomeIsFinal(ks, j + 1);
    } else {
      OutcomeIsFinal(ks, j);
    }
  }

  /** The step for a header whose name is already saved rejects the walk. */
  lemma SavedHeaderRejected(ks: seq<NodeLine>, j: nat)
    requires j < |ks| && ks[j].Header? && RunNodes(ks[..j]).Walking?
    requires ks[j].name in Saved(RunNodes(ks[..j]).state)
    ensures RunNodes(ks[..j + 1]) == Rejected(NodeError)
  {
    assert ks[..j + 1][..j] == ks[..j];
  }

  /** An option line inside a node aborts, unless a repeated header was rejected first. */
  lemma OptionInNodeAborts(ks: seq<NodeLine>, i: nat, j: nat)
    requires i < j < |ks| && ks[i].Header? && ks[j].OptionLine?
    requires NoDuplicates(HeadersOf(ks[..j]))
    ensures RunNodes(ks).Aborted?
  {
    var pre := ks[..j];
    WalkInvariant(pre);
    if RunNodes(pre).Walking? {
      assert pre[i] == ks[i];
      HeaderListed(pre, i);
      NodeNamesAreHeaders(pre);
      assert ks[..j + 1][..j] == pre;
      OutcomeIsFinal(ks, j + 1);
    } else {
      OutcomeIsFinal(ks, j);
    }
  }

  /** The text elements the content lines of a node body contribute, in order. */
  function TextsOf(body: seq<NodeLine>): seq<ContentElement>
    decreases |body|
  {
    if body == [] then []
    else
      var texts := TextsOf(body[..|body| - 1]);
      if body[|body| - 1].ContentLine? then texts + [Text(body[|body| - 1].text)] else texts
  }

  /**
   A node's content is one text element per content line of its body, in
   order, and it has no options: lines are never merged into one element.
   */
  lemma {:induction false} NodeBodyContent(pre: seq<NodeLine>, name: string, body: seq<NodeLine>)
    requires forall i :: 0 <= i < |body| ==> !body[i].Header?
    ensures NodesOf(pre + [Header(name)] + body) == NodesOf(pre) + [Node(name, TextsOf(body), [])]
    decreases |body|
  {
    var ks := pre + [Header(name)] + body;
    if body == [] {
      assert ks[..|ks| - 1] == pre;
    } else {
      var init := body[..|body| - 1];
      assert ks[..|ks| - 1] == pre + [Header(name)] + init;
      NodeBodyContent(pre, name, init);
    }
  }

  /** `parse_nodes` on raw lines, without option lines inside nodes: it succeeds iff the headers are distinct. */
  lemma ParseNodesSucceedsIffDistinct(lines: seq<string>)
    requires NoOptionInNode(NodeLines(lines))
    ensures ParseNodes(lines).Parsed? <==> NoDuplicates(HeadersOf(NodeLines(lines)))
    ensures !ParseNodes(lines).Parsed? ==> ParseNodes(lines) == Failed(NodeError)
  {
    WalkSucceedsIffDistinct(NodeLines(lines));
  }

  /** The nodes `parse_nodes` returns are the reference nodes, keyed by the header names. */
  lemma ParseNodesMatchesReference(lines: seq<string>)
    requires ParseNodes(lines).Parsed?
    ensures AddNodes(EmptyDocument, NodesOf(NodeLines(lines))) == Ok(EmptyDocument.(nodes := ParseNodes(lines).nodes))
    ensures forall n :: n in ParseNodes(lines).nodes <==> n in HeadersOf(NodeLines(lines))
  {
    WalkMatchesReference(NodeLines(lines));
  }

  /** The classified lines of the duplicate-name test are rejected. */
  lemma DuplicateNodesExample(ks: seq<NodeLine>)
    requires ks == [
      Blank, Header("node1"), ContentLine("Some content"), Blank,
      Header("node1"), ContentLine("Other content")]
    ensures RunNodes(ks) == Rejected(NodeError)
  {
    DuplicateHeaderRejected(ks, 1, 4);
  }

  /** One more line of a walk still under way is one more step. */
  lemma RunNodesStep(ks: seq<NodeLine>, n: nat)
    requires n < |ks| && RunNodes(ks[..n]).Walking?
    ensures RunNodes(ks[..n + 1]) == NodeStep(RunNodes(ks[..n]).state, ks[n])
  {
    assert ks[..n + 1][..n] == ks[..n];
  }

  /** Two text lines under one header give one node with two text elements. */
  lemma TextNodeExample(ks: seq<NodeLine>, a: string, b: string)
    requires ks == [Blank, Header("greeting"), ContentLine(a), ContentLine(b)]
    ensures RunNodes(ks).Walking?
    ensures Saved(RunNodes(ks).state) == map["greeting" := Node("greeting", [Text(a), Text(b)], [])]
  {
    var node := Node("greeting", [], []);
    assert ks[..0] == [];
    RunNodesStep(ks, 0);
    assert RunNodes(ks[..1]) == Walking(Initial);
    RunNodesStep(ks, 1);
    assert RunNodes(ks[..2]) == Walking(NodeState(map[], Some(node)));
    RunNodesStep(ks, 2);
    assert RunNodes(ks[..3]) == Walking(NodeState(map[], Some(node.(content := [Text(a)]))));
    RunNodesStep(ks, 3);
    assert [Text(a)] + [Text(b)] == [Text(a), Text(b)];
    assert ks[..4] == ks;
  }

  /** The single-header document of the empty-node test. */
  lemma EmptyNodeExample(lines: seq<string>)
    requires lines == ["@empty_node"]
    ensures ParseNodes(lines) == Parsed(map["empty_node" := Node("empty_node", [], [])])
  {
    var ks := NodeLines(lines);
    assert ks == [Header("empty_node")] by {
      EmptyNodeLine(lines[0]);
    }
    EmptyNodeWalk(ks);
  }

  lemma EmptyNodeLine(line: string)
    requires line == "@empty_node"
    ensures NodeLineOf(line) == Header("empty_node")
  {
    var name := line[1..];
    assert line == ['@'] + name;
    EmptyNodeNameTrimmed(name);
    HeaderLineRoundTrip(name);
  }

  lemma EmptyNodeNameTrimmed(name: string)
    requires name == "empty_node"
    ensures name != [] && IsTrimmed(name)
  {
    assert name[0] == 'e' && name[|name| - 1] == 'e';
  }

  lemma EmptyNodeWalk(ks: seq<NodeLine>)
    requires ks == [Header("empty_node")]
    ensures RunNodes(ks) == Walking(NodeState(map[], Some(Node("empty_node", [], []))))
    ensures Saved(RunNodes(ks).state) == map["empty_node" := Node("empty_node", [], [])]
  {
    assert ks[..0] == [];
    assert RunFrom(Walking(Initial), ks[..0]) == Walking(Initial);
    assert Saved(Initial) == map[];
  }
}
