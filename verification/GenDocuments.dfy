/**
 Which groups the documents hold, said by child numbers from the roots, and that
 the collection finds each of them once, in the order of the documents.
 */
module GenDocuments {
  import opened GenGroups

  /** A path of child numbers leads to an element of the forest. */
  predicate Leads(nodes: seq<Node>, path: seq<nat>) {
    |path| > 0 && path[0] < |nodes| && (|path| == 1 || Leads(nodes[path[0]].children, path[1..]))
  }

  function NodeAt(nodes: seq<Node>, path: seq<nat>): Node
    requires Leads(nodes, path)
  {
    if |path| == 1 then nodes[path[0]] else NodeAt(nodes[path[0]].children, path[1..])
  }

  /** The first of the children that is a field, a group or a component has this name. */
  ghost predicate OpensWith(children: seq<Node>, name: string) {
    exists i: nat ::
      && i < |children|
      && (children[i].kind == FieldElement || children[i].kind == GroupElement || children[i].kind == ComponentElement)
      && children[i].name == name
      && forall j | 0 <= j < i :: children[j].kind == OtherElement
  }

  /** The first child that is no other element decides. */
  lemma {:induction false} FirstMemberIs(children: seq<Node>, i: nat)
    requires i < |children| && children[i].kind != OtherElement
    requires forall j | 0 <= j < i :: children[j].kind == OtherElement
    ensures FirstMember(children) == children[i].name
  {
    if i > 0 {
      FirstMemberIs(children[1..], i - 1);
    }
  }

  lemma {:induction false} FirstMemberFound(children: seq<Node>) returns (i: nat)
    requires FirstMember(children) != ""
    ensures i < |children| && children[i].kind != OtherElement && children[i].name == FirstMember(children)
    ensures forall j | 0 <= j < i :: children[j].kind == OtherElement
  {
    i := 0;
    if children[0].kind == OtherElement {
      var k := FirstMemberFound(children[1..]);
      i := k + 1;
      forall j | 0 <= j < i ensures children[j].kind == OtherElement {
        if j > 0 { assert children[j] == children[1..][j - 1]; }
      }
    }
  }

  lemma FirstMemberOpens(children: seq<Node>, name: string)
    requires name != ""
    ensures FirstMember(children) == name <==> OpensWith(children, name)
  {
    hide FirstMember;
    if FirstMember(children) == name {
      var i := FirstMemberFound(children);
      assert children[i].name == name;
    }
    if OpensWith(children, name) {
      var i: nat :| i < |children| && children[i].kind != OtherElement && children[i].name == name
                    && forall j | 0 <= j < i :: children[j].kind == OtherElement;
      FirstMemberIs(children, i);
    }
  }

  /** At the path stands a group element with a name and a first member. */
  predicate IsGroupAt(nodes: seq<Node>, path: seq<nat>) {
    && Leads(nodes, path)
    && NodeAt(nodes, path).kind == GroupElement && NodeAt(nodes, path).name != ""
    && FirstMember(NodeAt(nodes, path).children) != ""
  }

  /** The order of the document: a parent before its children, earlier children first. */
  predicate PathBefore(p: seq<nat>, q: seq<nat>) {
    |q| > 0 && (|p| == 0 || p[0] < q[0] || (p[0] == q[0] && PathBefore(p[1..], q[1..])))
  }

  function Below(paths: seq<seq<nat>>): (r: seq<seq<nat>>)
    ensures |r| == |paths| && forall i | 0 <= i < |r| :: r[i] == [0] + paths[i]
  {
    seq(|paths|, i requires 0 <= i < |paths| => [0] + paths[i])
  }

  function Beside(paths: seq<seq<nat>>): (r: seq<seq<nat>>)
    requires forall i | 0 <= i < |paths| :: |paths[i]| > 0
    ensures |r| == |paths| && forall i | 0 <= i < |r| :: r[i] == [paths[i][0] + 1] + paths[i][1..]
  {
    seq(|paths|, i requires 0 <= i < |paths| => [paths[i][0] + 1] + paths[i][1..])
  }

  function OccurrenceAt(nodes: seq<Node>, path: seq<nat>, context: string): Occurrence
    requires Leads(nodes, path)
  {
    Occurrence(NodeAt(nodes, path).name, FirstMember(NodeAt(nodes, path).children), context)
  }

  lemma LeadsBelow(nodes: seq<Node>, path: seq<nat>)
    requires |nodes| > 0 && |path| > 0
    ensures Leads(nodes, [0] + path) <==> Leads(nodes[0].children, path)
    ensures Leads(nodes[0].children, path) ==> NodeAt(nodes, [0] + path) == NodeAt(nodes[0].children, path)
  {
    assert ([0] + path)[1..] == path;
  }

  lemma LeadsBeside(nodes: seq<Node>, path: seq<nat>)
    requires |nodes| > 0 && |path| > 0
    ensures var beside := [path[0] + 1] + path[1..];
            && (Leads(nodes, beside) <==> Leads(nodes[1..], path))
            && (Leads(nodes[1..], path) ==> NodeAt(nodes, beside) == NodeAt(nodes[1..], path))
  {
    assert ([path[0] + 1] + path[1..])[1..] == path[1..];
  }

  /** Every path leads to the first element, below it, or beside it. */
  lemma PathCases(nodes: seq<Node>, path: seq<nat>)
    requires IsGroupAt(nodes, path)
    ensures |nodes| > 0 && |path| > 0
    ensures path[0] == 0 && |path| > 1 ==> IsGroupAt(nodes[0].children, path[1..]) && path == [0] + path[1..]
    ensures path[0] > 0 ==>
              IsGroupAt(nodes[1..], [path[0] - 1] + path[1..]) && path == [path[0]] + path[1..]
  {
    if path[0] == 0 && |path| > 1 {
      assert path == [0] + path[1..];
      LeadsBelow(nodes, path[1..]);
    } else if path[0] > 0 {
      var q: seq<nat> := [path[0] - 1] + path[1..];
      assert path == [q[0] + 1] + q[1..];
      LeadsBeside(nodes, q);
    }
  }

  lemma PathOrderBelow(p: seq<nat>, q: seq<nat>)
    requires PathBefore(p, q)
    ensures PathBefore([0] + p, [0] + q)
  {
    assert ([0] + p)[1..] == p && ([0] + q)[1..] == q;
  }

  lemma PathOrderBeside(p: seq<nat>, q: seq<nat>)
    requires |p| > 0 && |q| > 0 && PathBefore(p, q)
    ensures PathBefore([p[0] + 1] + p[1..], [q[0] + 1] + q[1..])
  {
    assert ([p[0] + 1] + p[1..])[1..] == p[1..] && ([q[0] + 1] + q[1..])[1..] == q[1..];
  }

  ghost predicate InOrder(paths: seq<seq<nat>>) {
    forall i, j | 0 <= i < j < |paths| :: PathBefore(paths[i], paths[j])
  }

  ghost predicate AllPositive(paths: seq<seq<nat>>) {
    forall i | 0 <= i < |paths| :: |paths[i]| > 0
  }

  /** The element itself comes before what is below it, and that before what is beside it. */
  lemma OrderedTogether(itself: bool, inner: seq<seq<nat>>, outer: seq<seq<nat>>)
    requires InOrder(inner) && AllPositive(inner) && InOrder(outer) && AllPositive(outer)
    ensures InOrder((if itself then [[0]] else []) + Below(inner) + Beside(outer))
  {
    var own: seq<seq<nat>> := if itself then [[0]] else [];
    var below, beside := Below(inner), Beside(outer);
    var paths := own + below + beside;
    var o, n := |own|, |own| + |below|;
    forall i, j | 0 <= i < j < |paths| ensures PathBefore(paths[i], paths[j]) {
      if j < n {
        if o <= i { PathOrderBelow(inner[i - o], inner[j - o]); }
        else { assert [0][1..] == []; assert paths[j] == [0] + inner[j - o]; assert paths[j][1..] == inner[j - o]; }
      } else if n <= i {
        PathOrderBeside(outer[i - n], outer[j - n]);
      } else {
        assert paths[i][0] == 0 && paths[j][0] > 0;
      }
    }
  }

  /** The occurrences stand at these paths, one by one. */
  ghost predicate Lists(nodes: seq<Node>, context: string, occurrences: seq<Occurrence>, paths: seq<seq<nat>>) {
    && |paths| == |occurrences|
    && forall i | 0 <= i < |paths| ::
         IsGroupAt(nodes, paths[i]) && occurrences[i] == OccurrenceAt(nodes, paths[i], context)
  }

  ghost predicate Complete(nodes: seq<Node>, paths: seq<seq<nat>>) {
    forall path {:trigger IsGroupAt(nodes, path)} | IsGroupAt(nodes, path) :: path in paths
  }

  lemma GroupBelow(nodes: seq<Node>, path: seq<nat>, context: string)
    requires |nodes| > 0 && |path| > 0 && IsGroupAt(nodes[0].children, path)
    ensures IsGroupAt(nodes, [0] + path)
    ensures OccurrenceAt(nodes, [0] + path, context) == OccurrenceAt(nodes[0].children, path, context)
  {
    hide FirstMember, NodeAt, Leads;
    LeadsBelow(nodes, path);
  }

  lemma GroupBeside(nodes: seq<Node>, path: seq<nat>, context: string)
    requires |nodes| > 0 && |path| > 0 && IsGroupAt(nodes[1..], path)
    ensures var beside := [path[0] + 1] + path[1..];
            IsGroupAt(nodes, beside) && OccurrenceAt(nodes, beside, context) == OccurrenceAt(nodes[1..], path, context)
  {
    hide FirstMember, NodeAt, Leads;
    LeadsBeside(nodes, path);
  }

  function OwnPath(nodes: seq<Node>): (r: seq<seq<nat>>) {
    if IsGroupAt(nodes, [0]) then [[0]] else []
  }

  lemma OwnListed(nodes: seq<Node>, context: string)
    requires |nodes| > 0
    ensures Lists(nodes, context, GroupOf(nodes[0], context), OwnPath(nodes))
  {
  }

  lemma ListsJoined(nodes: seq<Node>, context: string, a: seq<Occurrence>, p: seq<seq<nat>>,
                    b: seq<Occurrence>, q: seq<seq<nat>>)
    requires Lists(nodes, context, a, p) && Lists(nodes, context, b, q)
    ensures Lists(nodes, context, a + b, p + q)
  {
    hide FirstMember, NodeAt, Leads, IsGroupAt;
  }

  lemma ListsBelow(nodes: seq<Node>, context: string, occurrences: seq<Occurrence>, inner: seq<seq<nat>>)
    requires |nodes| > 0 && AllPositive(inner) && Lists(nodes[0].children, context, occurrences, inner)
    ensures Lists(nodes, context, occurrences, Below(inner))
  {
    var below := Below(inner);
    forall i | 0 <= i < |below|
      ensures IsGroupAt(nodes, below[i]) && occurrences[i] == OccurrenceAt(nodes, below[i], context)
    {
      GroupBelow(nodes, inner[i], context);
    }
  }

  lemma ListsBeside(nodes: seq<Node>, context: string, occurrences: seq<Occurrence>, outer: seq<seq<nat>>)
    requires |nodes| > 0 && AllPositive(outer) && Lists(nodes[1..], context, occurrences, outer)
    ensures Lists(nodes, context, occurrences, Beside(outer))
  {
    var beside := Beside(outer);
    forall i | 0 <= i < |beside|
      ensures IsGroupAt(nodes, beside[i]) && occurrences[i] == OccurrenceAt(nodes, beside[i], context)
    {
      GroupBeside(nodes, outer[i], context);
    }
  }

  lemma InBelow(inner: seq<seq<nat>>, path: seq<nat>)
    requires path in inner
    ensures [0] + path in Below(inner)
  {
    var k :| 0 <= k < |inner| && inner[k] == path;
    assert Below(inner)[k] == [0] + path;
  }

  lemma InBeside(outer: seq<seq<nat>>, path: seq<nat>)
    requires AllPositive(outer) && |path| > 0 && path in outer
    ensures [path[0] + 1] + path[1..] in Beside(outer)
  {
    var k :| 0 <= k < |outer| && outer[k] == path;
    assert Beside(outer)[k] == [path[0] + 1] + path[1..];
  }

  lemma CompleteTogether(nodes: seq<Node>, inner: seq<seq<nat>>, outer: seq<seq<nat>>)
    requires |nodes| > 0 && AllPositive(outer) && Complete(nodes[0].children, inner) && Complete(nodes[1..], outer)
    ensures Complete(nodes, OwnPath(nodes) + Below(inner) + Beside(outer))
  {
    hide IsGroupAt;
    forall path | IsGroupAt(nodes, path) ensures path in OwnPath(nodes) + Below(inner) + Beside(outer) {
      PathCases(nodes, path);
      if path[0] > 0 {
        InBeside(outer, [path[0] - 1] + path[1..]);
      } else if |path| > 1 {
        InBelow(inner, path[1..]);
      } else {
        assert path == [0];
      }
    }
  }

  /** Every group of a forest is recorded once, a group before the groups inside it, earlier elements first. */
  lemma {:induction false} GroupPaths(nodes: seq<Node>, context: string) returns (paths: seq<seq<nat>>)
    ensures Lists(nodes, context, Occurrences(nodes, context), paths)
    ensures InOrder(paths) && AllPositive(paths) && Complete(nodes, paths)
    decreases nodes
  {
    if |nodes| == 0 {
      paths := [];
    } else {
      var inner := GroupPaths(nodes[0].children, context);
      var outer := GroupPaths(nodes[1..], context);
      paths := OwnPath(nodes) + Below(inner) + Beside(outer);
      hide FirstMember, Lists, Complete, InOrder, IsGroupAt, PathBefore;
      OrderedTogether(IsGroupAt(nodes, [0]), inner, outer);
      var own, below := GroupOf(nodes[0], context), Occurrences(nodes[0].children, context);
      OwnListed(nodes, context);
      ListsBelow(nodes, context, below, inner);
      ListsBeside(nodes, context, Occurrences(nodes[1..], context), outer);
      ListsJoined(nodes, context, own, OwnPath(nodes), below, Below(inner));
      ListsJoined(nodes, context, own + below, OwnPath(nodes) + Below(inner),
                  Occurrences(nodes[1..], context), Beside(outer));
      CompleteTogether(nodes, inner, outer);
    }
  }

  /** The trees of a document that are a context of their own, in the order in which they are searched. */
  function DocumentRoots(doc: Document): (r: seq<Node>) {
    doc.messages + doc.components +
    [Node(OtherElement, "header", doc.header), Node(OtherElement, "trailer", doc.trailer)]
  }

  function Roots(docs: seq<Document>): (r: seq<Node>) {
    if |docs| == 0 then [] else DocumentRoots(docs[0]) + Roots(docs[1..])
  }

  lemma RootsStep(root: Node, rest: seq<Node>)
    ensures Contexts([root] + rest) == Occurrences(root.children, root.name) + Contexts(rest)
  {
    hide Occurrences;
    assert ([root] + rest)[1..] == rest;
  }

  lemma NoRoot(rest: seq<Node>)
    ensures [] + rest == rest && Contexts([]) + Contexts(rest) == Contexts(rest)
  {
    hide Occurrences;
  }

  lemma {:induction false} RootsAppend(a: seq<Node>, b: seq<Node>)
    ensures Contexts(a + b) == Contexts(a) + Contexts(b)
  {
    hide Occurrences, Contexts;
    if |a| == 0 {
      NoRoot(b);
      assert a == [];
    } else {
      var first, rest := a[0], a[1..];
      assert a == [first] + rest;
      assert a + b == [first] + (rest + b);
      RootsAppend(rest, b);
      RootsStep(first, rest);
      RootsStep(first, rest + b);
    }
  }

  lemma OneRoot(root: Node)
    ensures Contexts([root]) == Occurrences(root.children, root.name)
  {
    hide Occurrences;
    assert Contexts([root][1..]) == [];
  }

  lemma DocumentCollected(doc: Document)
    ensures DocumentOccurrences(doc) == Contexts(DocumentRoots(doc))
  {
    hide Occurrences, Contexts;
    var header, trailer := Node(OtherElement, "header", doc.header), Node(OtherElement, "trailer", doc.trailer);
    OneRoot(header);
    OneRoot(trailer);
    RootsAppend([header], [trailer]);
    RootsAppend(doc.messages, doc.components);
    RootsAppend(doc.messages + doc.components, [header] + [trailer]);
    assert [header] + [trailer] == [header, trailer];
  }

  lemma {:induction false} RootsCollected(docs: seq<Document>)
    ensures AllOccurrences(docs) == Contexts(Roots(docs))
  {
    hide Occurrences, DocumentRoots, DocumentOccurrences;
    if |docs| > 0 {
      DocumentCollected(docs[0]);
      RootsCollected(docs[1..]);
      RootsAppend(DocumentRoots(docs[0]), Roots(docs[1..]));
    }
  }

  /** The occurrences are the groups at these paths below the roots, with the root's name as their context. */
  ghost predicate Collects(roots: seq<Node>, occurrences: seq<Occurrence>, paths: seq<seq<nat>>) {
    && |paths| == |occurrences|
    && forall i | 0 <= i < |paths| ::
         && |paths[i]| > 1 && IsGroupAt(roots, paths[i])
         && occurrences[i] == OccurrenceAt(roots, paths[i], roots[paths[i][0]].name)
  }

  ghost predicate CompleteInside(roots: seq<Node>, paths: seq<seq<nat>>) {
    forall path {:trigger IsGroupAt(roots, path)} | IsGroupAt(roots, path) && |path| > 1 :: path in paths
  }

  lemma {:induction false} CollectsTogether(roots: seq<Node>, inner: seq<seq<nat>>, outer: seq<seq<nat>>)
    requires |roots| > 0 && AllPositive(inner)
    requires Lists(roots[0].children, roots[0].name, Occurrences(roots[0].children, roots[0].name), inner)
    requires Collects(roots[1..], Contexts(roots[1..]), outer)
    ensures Collects(roots, Contexts(roots), Below(inner) + Beside(outer))
  {
    var paths, occurrences, n := Below(inner) + Beside(outer), Contexts(roots), |inner|;
    forall i | 0 <= i < |paths|
      ensures |paths[i]| > 1 && IsGroupAt(roots, paths[i])
      ensures occurrences[i] == OccurrenceAt(roots, paths[i], roots[paths[i][0]].name)
    {
      if i < n {
        GroupBelow(roots, inner[i], roots[0].name);
        assert paths[i] == [0] + inner[i];
      } else {
        var path := outer[i - n];
        GroupBeside(roots, path, roots[path[0] + 1].name);
        assert paths[i] == [path[0] + 1] + path[1..];
      }
    }
  }

  lemma {:induction false} CompleteInsideTogether(roots: seq<Node>, inner: seq<seq<nat>>, outer: seq<seq<nat>>)
    requires |roots| > 0 && AllPositive(outer) && Complete(roots[0].children, inner) && CompleteInside(roots[1..], outer)
    ensures CompleteInside(roots, Below(inner) + Beside(outer))
  {
    hide IsGroupAt;
    forall path | |path| > 1 && IsGroupAt(roots, path) ensures path in Below(inner) + Beside(outer) {
      PathCases(roots, path);
      if path[0] > 0 {
        InBeside(outer, [path[0] - 1] + path[1..]);
      } else {
        InBelow(inner, path[1..]);
      }
    }
  }

  lemma CollectedPositive(roots: seq<Node>, occurrences: seq<Occurrence>, paths: seq<seq<nat>>)
    requires Collects(roots, occurrences, paths)
    ensures AllPositive(paths)
  {
    hide IsGroupAt, OccurrenceAt;
  }

  lemma NoRoots()
    ensures Collects([], Contexts([]), []) && CompleteInside([], []) && InOrder([]) && AllPositive([])
  {
  }

  lemma {:induction false} RootPaths(roots: seq<Node>) returns (paths: seq<seq<nat>>)
    ensures Collects(roots, Contexts(roots), paths)
    ensures InOrder(paths) && AllPositive(paths) && CompleteInside(roots, paths)
  {
    hide Lists, Collects, Complete, CompleteInside, InOrder, PathBefore, IsGroupAt, Occurrences, Contexts;
    if |roots| == 0 {
      NoRoots();
      assert roots == [];
      paths := [];
    } else {
      var inner := GroupPaths(roots[0].children, roots[0].name);
      var outer := RootPaths(roots[1..]);
      paths := Below(inner) + Beside(outer);
      OrderedTogether(false, inner, outer);
      assert [] + Below(inner) + Beside(outer) == paths;
      CollectsTogether(roots, inner, outer);
      CompleteInsideTogether(roots, inner, outer);
      CollectedPositive(roots, Contexts(roots), paths);
    }
  }

  /**
   What the documents hold is collected exactly: each named group with a first member,
   at any depth below a message, a component, the header or the trailer, once and with
   that root's name; outer before inner, and in the order of the documents.
   */
  lemma GroupsCollected(docs: seq<Document>) returns (paths: seq<seq<nat>>)
    ensures Collects(Roots(docs), AllOccurrences(docs), paths)
    ensures InOrder(paths) && CompleteInside(Roots(docs), paths)
  {
    paths := RootPaths(Roots(docs));
    RootsCollected(docs);
  }

  // ---- single groups and components -----------------------------------------------------------

  /** A message, a component, the header or the trailer of one of the documents. */
  ghost predicate IsRoot(docs: seq<Document>, root: Node) {
    exists doc | doc in docs ::
      || root in doc.messages
      || root in doc.components
      || root == Node(OtherElement, "header", doc.header)
      || root == Node(OtherElement, "trailer", doc.trailer)
  }

  lemma {:induction false} RootsAre(docs: seq<Document>, root: Node)
    ensures root in Roots(docs) <==> IsRoot(docs, root)
  {
    if |docs| > 0 {
      RootsAre(docs[1..], root);
      assert root in Roots(docs) <==> root in DocumentRoots(docs[0]) || root in Roots(docs[1..]);
      assert docs[0] in docs;
      assert forall doc | doc in docs[1..] :: doc in docs;
      assert forall doc | doc in docs && doc != docs[0] :: doc in docs[1..];
    }
  }

  /** Below the root stands a group of this name that opens with this member. */
  ghost predicate HoldsGroup(root: Node, countName: string, firstName: string) {
    exists path: seq<nat> ::
      && Leads(root.children, path)
      && NodeAt(root.children, path).kind == GroupElement
      && NodeAt(root.children, path).name == countName
      && OpensWith(NodeAt(root.children, path).children, firstName)
  }

  lemma PathSplits(roots: seq<Node>, path: seq<nat>)
    requires |path| > 1 && path[0] < |roots|
    ensures Leads(roots, path) <==> Leads(roots[path[0]].children, path[1..])
    ensures Leads(roots, path) ==> NodeAt(roots, path) == NodeAt(roots[path[0]].children, path[1..])
  {
  }

  /**
   A group is recorded exactly when some message, component, header or trailer of some
   document holds it, with that root's name as its context and the name of its first field,
   group or component child as its delimiter.
   */
  lemma GroupRecorded(docs: seq<Document>, o: Occurrence)
    ensures o in AllOccurrences(docs) <==>
            o.countName != "" && o.firstName != "" &&
            exists root :: IsRoot(docs, root) && root.name == o.context && HoldsGroup(root, o.countName, o.firstName)
  {
    var roots, occurrences := Roots(docs), AllOccurrences(docs);
    var paths := GroupsCollected(docs);
    hide AllOccurrences, Roots, IsRoot, FirstMember, OpensWith, InOrder, PathBefore;
    if o in occurrences {
      var i :| 0 <= i < |occurrences| && occurrences[i] == o;
      var path := paths[i];
      var root := roots[path[0]];
      PathSplits(roots, path);
      FirstMemberOpens(NodeAt(roots, path).children, o.firstName);
      RootsAre(docs, root);
      assert HoldsGroup(root, o.countName, o.firstName);
    }
    if o.countName != "" && o.firstName != "" {
      forall root | IsRoot(docs, root) && root.name == o.context && HoldsGroup(root, o.countName, o.firstName)
        ensures o in occurrences
      {
        RootsAre(docs, root);
        HeldIsRecorded(roots, root, o, occurrences, paths);
      }
    }
  }

  lemma HeldIsRecorded(roots: seq<Node>, root: Node, o: Occurrence, occurrences: seq<Occurrence>, paths: seq<seq<nat>>)
    requires root in roots && root.name == o.context && HoldsGroup(root, o.countName, o.firstName)
    requires o.countName != "" && o.firstName != ""
    requires Collects(roots, occurrences, paths) && CompleteInside(roots, paths)
    ensures o in occurrences
  {
    hide FirstMember, OpensWith;
    var r :| 0 <= r < |roots| && roots[r] == root;
    var path: seq<nat> :| Leads(root.children, path)
      && NodeAt(root.children, path).kind == GroupElement
      && NodeAt(root.children, path).name == o.countName
      && OpensWith(NodeAt(root.children, path).children, o.firstName);
    var whole: seq<nat> := [r] + path;
    assert whole[1..] == path;
    PathSplits(roots, whole);
    FirstMemberOpens(NodeAt(roots, whole).children, o.firstName);
    assert IsGroupAt(roots, whole);
    var i :| 0 <= i < |paths| && paths[i] == whole;
    assert occurrences[i] == o;
  }

  /** The components of the documents and nothing else. */
  lemma {:induction false} ComponentsAre(docs: seq<Document>, c: Node)
    ensures c in AllComponents(docs) <==> exists doc :: doc in docs && c in doc.components
  {
    if |docs| > 0 {
      ComponentsAre(docs[1..], c);
      assert c in AllComponents(docs) <==> c in docs[0].components || c in AllComponents(docs[1..]);
      assert docs[0] in docs;
      assert forall doc | doc in docs[1..] :: doc in docs;
      assert forall doc | doc in docs && doc != docs[0] :: doc in docs[1..];
    }
  }

  /** They keep the order of the documents and their order inside one. */
  lemma {:induction false} ComponentsInOrder(docs: seq<Document>, more: seq<Document>)
    ensures AllComponents(docs + more) == AllComponents(docs) + AllComponents(more)
    ensures |docs| == 1 ==> AllComponents(docs) == docs[0].components
  {
    if |docs| == 0 {
      assert docs + more == more;
    } else {
      ComponentsInOrder(docs[1..], more);
      assert (docs + more)[0] == docs[0] && (docs + more)[1..] == docs[1..] + more;
      assert AllComponents(docs + more) == docs[0].components + AllComponents(docs[1..] + more);
      assert AllComponents(docs) == docs[0].components + AllComponents(docs[1..]);
    }
  }

  // ---- the first of its name --------------------------------------------------------------------

  /** Of the occurrences with one count name the first in the list decides the delimiter. */
  lemma {:induction false} FirstOccurrence(seen: seq<Occurrence>, countName: string) returns (i: nat)
    ensures Of(seen, countName) == [] ==> forall o | o in seen :: o.countName != countName
    ensures Of(seen, countName) != [] ==>
              && i < |seen|
              && Of(seen, countName)[0] == seen[i]
              && seen[i].countName == countName
              && forall j | 0 <= j < i :: seen[j].countName != countName
  {
    i := 0;
    if |seen| > 0 {
      var n := |seen| - 1;
      assert seen == seen[..n] + [seen[n]];
      i := FirstOccurrence(seen[..n], countName);
      if Of(seen[..n], countName) == [] {
        i := n;
        assert forall j | 0 <= j < n :: seen[j] in seen[..n];
      }
    }
  }

  /** A component definition that gives its name a first member. */
  ghost predicate Defines(c: Node, name: string, first: string) {
    c.name == name && name != "" && first != "" && OpensWith(c.children, first)
  }

  lemma DefinesFirst(c: Node, name: string, first: string)
    ensures Defines(c, name, first) <==> c.name == name && name != "" && first != "" && FirstMember(c.children) == first
  {
    if first != "" {
      FirstMemberOpens(c.children, first);
    }
  }

  /** The first definition of a component that has a first member is the one that counts. */
  lemma {:induction false} FirstDefinition(components: seq<Node>, name: string) returns (i: nat)
    ensures Candidates(components, name) == [] ==> forall c, first | c in components :: !Defines(c, name, first)
    ensures Candidates(components, name) != [] ==>
              && i < |components|
              && Defines(components[i], name, Candidates(components, name)[0])
              && forall j, first | 0 <= j < i :: !Defines(components[j], name, first)
  {
    hide FirstMember, OpensWith;
    i := 0;
    if |components| > 0 {
      var n := |components| - 1;
      var last := components[n];
      assert components == components[..n] + [last];
      i := FirstDefinition(components[..n], name);
      forall first
        ensures Defines(last, name, first) <==>
                last.name == name && name != "" && first != "" && FirstMember(last.children) == first
      {
        DefinesFirst(last, name, first);
      }
      if Candidates(components[..n], name) == [] {
        i := n;
        assert forall j | 0 <= j < n :: components[j] in components[..n];
      }
    }
  }

  /** What a component's name refers to. */
  lemma ComponentRefers(componentFirst: map<string, string>, components: seq<Node>, name: string)
    requires RefersFirst(componentFirst, components)
    ensures name in componentFirst <==> exists c, first :: c in components && Defines(c, name, first)
    ensures name in componentFirst ==> exists i: nat ::
              && i < |components|
              && Defines(components[i], name, componentFirst[name])
              && forall j, first | 0 <= j < i :: !Defines(components[j], name, first)
  {
    hide Candidates, Defines;
    var i := FirstDefinition(components, name);
    if name in componentFirst {
      assert components[i] in components;
    }
  }
}
