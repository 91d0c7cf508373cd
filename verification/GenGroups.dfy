/**
 The group half of the table generator: repeating groups are collected from the
 message trees, their delimiters are chased through component references to a
 field, and groups declared with different delimiters are kept in a conflict table.
 */
module GenGroups {
  import opened KeyOrder

  datatype Kind = FieldElement | GroupElement | ComponentElement | OtherElement

  /** An element of a specification document. */
  datatype Node = Node(kind: Kind, name: string, children: seq<Node>)

  datatype Document = Document(messages: seq<Node>, components: seq<Node>, header: seq<Node>, trailer: seq<Node>)

  datatype GroupDef = GroupDef(countName: string, firstName: string)

  /** A delimiter seen for a group, with the messages it was seen in. */
  datatype Alternate = Alternate(firstName: string, messages: seq<string>)

  /** A group element with a count name and a first member, as met in some context. */
  datatype Occurrence = Occurrence(countName: string, firstName: string, context: string)

  const MAX_COMPONENT_DEPTH := 32

  // ---- the document trees ------------------------------------------------------------

  /** The name of the first field, component or group among the children; empty if none. */
  function FirstMember(children: seq<Node>): (r: string) {
    if |children| == 0 then ""
    else if children[0].kind != OtherElement then children[0].name
    else FirstMember(children[1..])
  }

  /** The groups of a forest, outer before inner. */
  function Occurrences(nodes: seq<Node>, context: string): (r: seq<Occurrence>) {
    if |nodes| == 0 then []
    else GroupOf(nodes[0], context) + Occurrences(nodes[0].children, context) + Occurrences(nodes[1..], context)
  }

  function GroupOf(node: Node, context: string): (r: seq<Occurrence>) {
    if node.kind == GroupElement && node.name != "" && FirstMember(node.children) != ""
    then [Occurrence(node.name, FirstMember(node.children), context)]
    else []
  }

  /** Every message and every component is a context of its own. */
  function Contexts(nodes: seq<Node>): (r: seq<Occurrence>) {
    if |nodes| == 0 then []
    else Occurrences(nodes[0].children, nodes[0].name) + Contexts(nodes[1..])
  }

  function DocumentOccurrences(doc: Document): (r: seq<Occurrence>) {
    Contexts(doc.messages) + Contexts(doc.components) +
    Occurrences(doc.header, "header") + Occurrences(doc.trailer, "trailer")
  }

  function AllOccurrences(docs: seq<Document>): (r: seq<Occurrence>) {
    if |docs| == 0 then [] else DocumentOccurrences(docs[0]) + AllOccurrences(docs[1..])
  }

  function AllComponents(docs: seq<Document>): (r: seq<Node>) {
    if |docs| == 0 then [] else docs[0].components + AllComponents(docs[1..])
  }

  method FindFirstMember(children: seq<Node>) returns (first: string)
    ensures first == FirstMember(children)
  {
    first := "";
    var i := 0;
    assert children[0..] == children;
    while i < |children|
      invariant 0 <= i <= |children|
      invariant first == "" && FirstMember(children[i..]) == FirstMember(children)
    {
      assert children[i..][1..] == children[i + 1..];
      if children[i].kind == FieldElement || children[i].kind == ComponentElement || children[i].kind == GroupElement {
        return children[i].name;
      }
      i := i + 1;
    }
  }

  // ---- what the occurrences of a group amount to --------------------------------------

  function Of(seen: seq<Occurrence>, countName: string): (r: seq<Occurrence>)
    ensures forall o :: o in r <==> o in seen && o.countName == countName
  {
    if |seen| == 0 then []
    else
      var last := seen[|seen| - 1];
      assert seen == seen[..|seen| - 1] + [last];
      if last.countName == countName then Of(seen[..|seen| - 1], countName) + [last]
      else Of(seen[..|seen| - 1], countName)
  }

  function Firsts(seen: seq<Occurrence>): (r: seq<string>)
    ensures |r| == |seen|
  {
    seq(|seen|, i requires 0 <= i < |seen| => seen[i].firstName)
  }

  /** The named contexts in which a delimiter was seen. */
  function ContextsOf(seen: seq<Occurrence>, firstName: string): (r: seq<string>) {
    if |seen| == 0 then []
    else
      var last := seen[|seen| - 1];
      ContextsOf(seen[..|seen| - 1], firstName) +
      if last.firstName == firstName && last.context != "" then [last.context] else []
  }

  /** One alternate for each delimiter, in order of appearance, each with its contexts. */
  ghost predicate Tallies(alts: seq<Alternate>, seen: seq<Occurrence>) {
    && Names(alts) == Distinct(Firsts(seen))
    && forall i | 0 <= i < |alts| :: alts[i].messages == Distinct(ContextsOf(seen, alts[i].firstName))
  }

  function Names(alts: seq<Alternate>): (r: seq<string>)
    ensures |r| == |alts|
  {
    seq(|alts|, i requires 0 <= i < |alts| => alts[i].firstName)
  }

  function FindAlternate(alts: seq<Alternate>, firstName: string): (i: nat)
    ensures i <= |alts|
    ensures i < |alts| ==> alts[i].firstName == firstName
    ensures forall j | 0 <= j < i :: alts[j].firstName != firstName
  {
    if |alts| == 0 || alts[0].firstName == firstName then 0
    else 1 + FindAlternate(alts[1..], firstName)
  }

  lemma OfAppend(seen: seq<Occurrence>, o: Occurrence, countName: string)
    ensures Of(seen + [o], countName) == if o.countName == countName then Of(seen, countName) + [o] else Of(seen, countName)
  {
    assert (seen + [o])[..|seen|] == seen;
  }

  lemma FirstsAppend(seen: seq<Occurrence>, o: Occurrence)
    ensures Firsts(seen + [o]) == Firsts(seen) + [o.firstName]
  {
  }

  lemma ContextsAppend(seen: seq<Occurrence>, o: Occurrence, firstName: string)
    ensures ContextsOf(seen + [o], firstName) ==
            if o.firstName == firstName && o.context != "" then ContextsOf(seen, firstName) + [o.context]
            else ContextsOf(seen, firstName)
  {
    assert (seen + [o])[..|seen|] == seen;
  }

  /** A delimiter not seen has no contexts. */
  lemma {:induction false} Unseen(seen: seq<Occurrence>, firstName: string)
    requires firstName !in Firsts(seen)
    ensures ContextsOf(seen, firstName) == []
  {
    if |seen| > 0 {
      var n := |seen| - 1;
      assert Firsts(seen)[n] == seen[n].firstName;
      assert Firsts(seen) == Firsts(seen[..n]) + [seen[n].firstName];
      Unseen(seen[..n], firstName);
    }
  }

  // ---- chasing component references ---------------------------------------------------

  /** The name k references away, staying at the first that refers no further. */
  function Hop(componentFirst: map<string, string>, name: string, k: nat): (r: string) {
    if k == 0 then name
    else
      var n := Hop(componentFirst, name, k - 1);
      if n in componentFirst then componentFirst[n] else n
  }

  /** The leaf a name leads to within the allowed number of references; empty if there is none. */
  function Resolve(componentFirst: map<string, string>, name: string): (r: string) {
    var leaf := Hop(componentFirst, name, MAX_COMPONENT_DEPTH - 1);
    if leaf in componentFirst then "" else leaf
  }

  lemma {:induction false} HopStays(componentFirst: map<string, string>, name: string, k: nat, l: nat)
    requires k <= l && Hop(componentFirst, name, k) !in componentFirst
    ensures Hop(componentFirst, name, l) == Hop(componentFirst, name, k)
  {
    if k < l {
      HopStays(componentFirst, name, k, l - 1);
    }
  }

  lemma {:induction false} HopAgrees(componentFirst: map<string, string>, name: string, i: nat, j: nat, d: nat)
    requires Hop(componentFirst, name, i) == Hop(componentFirst, name, j)
    ensures Hop(componentFirst, name, i + d) == Hop(componentFirst, name, j + d)
  {
    if d > 0 {
      HopAgrees(componentFirst, name, i, j, d - 1);
    }
  }

  /** Coming back to a component means never reaching a leaf. */
  lemma {:induction false} CycleHasNoLeaf(componentFirst: map<string, string>, name: string, i: nat, j: nat, k: nat)
    requires i < j
    requires Hop(componentFirst, name, i) == Hop(componentFirst, name, j)
    requires forall m: nat | m <= j :: Hop(componentFirst, name, m) in componentFirst
    ensures Hop(componentFirst, name, k) in componentFirst
  {
    if k > j {
      HopAgrees(componentFirst, name, i, j, k - j);
      CycleHasNoLeaf(componentFirst, name, i, j, i + (k - j));
    }
  }

  /** `resolve_first_field`; its set of visited components only ends the chase early. */
  method ResolveFirstField(name: string, componentFirst: map<string, string>) returns (resolved: string)
    ensures resolved == Resolve(componentFirst, name)
  {
    var current := name;
    var visited: set<string> := {};
    var depth := 0;
    while depth < MAX_COMPONENT_DEPTH
      invariant 0 <= depth <= MAX_COMPONENT_DEPTH
      invariant current == Hop(componentFirst, name, depth)
      invariant forall m: nat | m < depth :: Hop(componentFirst, name, m) in componentFirst
      invariant forall v :: v in visited <==> exists m: nat :: m < depth && v == Hop(componentFirst, name, m)
    {
      if current !in componentFirst {
        HopStays(componentFirst, name, depth, MAX_COMPONENT_DEPTH - 1);
        return current;
      }
      if current in visited {
        ghost var m: nat :| m < depth && current == Hop(componentFirst, name, m);
        CycleHasNoLeaf(componentFirst, name, m, depth, MAX_COMPONENT_DEPTH - 1);
        return "";
      }
      visited := visited + {current};
      current := componentFirst[current];
      depth := depth + 1;
    }
    resolved := "";
  }

  /** Distinct components, all of them keys, are no more than the keys. */
  lemma {:induction false} DistinctKeys(names: seq<string>, keys: set<string>)
    requires NoRepeats(names) && forall i | 0 <= i < |names| :: names[i] in keys
    ensures |names| <= |keys|
  {
    if |names| > 0 {
      var n := |names| - 1;
      DistinctKeys(names[..n], keys - {names[n]});
    }
  }

  /** The depth limit costs nothing while there are at most 31 components: a name is unresolved
      exactly when its references never leave the components. */
  lemma {:induction false} LimitHarmless(componentFirst: map<string, string>, name: string)
    requires |componentFirst| <= 31
    requires name != "" && "" !in componentFirst.Values
    ensures Resolve(componentFirst, name) == "" <==> forall k: nat :: Hop(componentFirst, name, k) in componentFirst
  {
    var last := MAX_COMPONENT_DEPTH - 1;
    NotEmpty(componentFirst, name, last);
    if Hop(componentFirst, name, last) in componentFirst {
      forall m: nat | m <= last
        ensures Hop(componentFirst, name, m) in componentFirst
      {
        if Hop(componentFirst, name, m) !in componentFirst {
          HopStays(componentFirst, name, m, last);
        }
      }
      var names := seq(last + 1, i requires 0 <= i <= last => Hop(componentFirst, name, i));
      if NoRepeats(names) {
        DistinctKeys(names, componentFirst.Keys);
      }
      var i, j :| 0 <= i < j < |names| && names[i] == names[j];
      forall k: nat
        ensures Hop(componentFirst, name, k) in componentFirst
      {
        CycleHasNoLeaf(componentFirst, name, i, j, k);
      }
    }
  }

  lemma {:induction false} NotEmpty(componentFirst: map<string, string>, name: string, k: nat)
    requires name != "" && "" !in componentFirst.Values
    ensures Hop(componentFirst, name, k) != ""
  {
    if k > 0 {
      NotEmpty(componentFirst, name, k - 1);
    }
  }

  /** A tower of n components, each referring to the next. */
  function Tower(n: nat): (r: map<string, string>) {
    if n == 0 then map[] else Tower(n - 1)[Storey(n - 1) := Storey(n)]
  }

  function Storey(n: nat): (r: string)
    ensures |r| == n + 1
  {
    if n == 0 then "x" else "x" + Storey(n - 1)
  }

  lemma {:induction false} TowerStoreys(n: nat)
    ensures |Tower(n)| == n
    ensures forall s | s in Tower(n) :: |s| <= n
    ensures forall k: nat | k < n :: Storey(k) in Tower(n) && Tower(n)[Storey(k)] == Storey(k + 1)
  {
    if n > 0 {
      TowerStoreys(n - 1);
      assert Storey(n - 1) !in Tower(n - 1);
      assert Tower(n).Keys == Tower(n - 1).Keys + {Storey(n - 1)};
      assert |Tower(n)| == |Tower(n).Keys| && |Tower(n - 1)| == |Tower(n - 1).Keys|;
    }
  }

  lemma {:induction false} Climb(n: nat, k: nat)
    requires k <= n
    ensures Hop(Tower(n), Storey(0), k) == Storey(k)
  {
    if k > 0 {
      Climb(n, k - 1);
      TowerStoreys(n);
    }
  }

  /** With 32 components in a row the limit does cost the leaf: 31 is the most that is harmless. */
  lemma LimitBites()
    ensures exists componentFirst: map<string, string>, name, k: nat ::
              && |componentFirst| == 32
              && Hop(componentFirst, name, k) !in componentFirst
              && Resolve(componentFirst, name) == ""
  {
    var n := MAX_COMPONENT_DEPTH;
    TowerStoreys(n);
    Climb(n, n);
    Climb(n, n - 1);
    assert Hop(Tower(n), Storey(0), n) !in Tower(n);
  }

  // ---- collecting -----------------------------------------------------------------------

  /** The first members of the components of one name that have any. */
  function Candidates(components: seq<Node>, name: string): (r: seq<string>)
    ensures forall c :: c in r ==> c != "" && name != ""
  {
    if |components| == 0 then []
    else
      var last := components[|components| - 1];
      Candidates(components[..|components| - 1], name) +
      if last.name == name && name != "" && FirstMember(last.children) != "" then [FirstMember(last.children)] else []
  }

  /** A component refers to the first member of its first definition that has one. */
  ghost predicate RefersFirst(componentFirst: map<string, string>, components: seq<Node>) {
    forall name ::
      if Candidates(components, name) == [] then name !in componentFirst
      else name in componentFirst && componentFirst[name] == Candidates(components, name)[0]
  }

  lemma CandidatesAppend(components: seq<Node>, c: Node, name: string)
    ensures Candidates(components + [c], name) ==
            if c.name == name && name != "" && FirstMember(c.children) != ""
            then Candidates(components, name) + [FirstMember(c.children)]
            else Candidates(components, name)
  {
    assert (components + [c])[..|components|] == components;
  }

  /** One more component: `try_emplace`. */
  lemma RefersFirstStep(componentFirst: map<string, string>, components: seq<Node>, c: Node)
    requires RefersFirst(componentFirst, components)
    ensures RefersFirst(
              if c.name == "" || FirstMember(c.children) == "" || c.name in componentFirst then componentFirst
              else componentFirst[c.name := FirstMember(c.children)],
              components + [c])
  {
    hide Candidates, FirstMember;
    forall name
      ensures Candidates(components + [c], name) ==
              if c.name == name && name != "" && FirstMember(c.children) != ""
              then Candidates(components, name) + [FirstMember(c.children)]
              else Candidates(components, name)
    {
      CandidatesAppend(components, c, name);
    }
  }

  /** `resolve_component_first` */
  method ResolveComponentFirst(components: seq<Node>, before: map<string, string>, ghost earlier: seq<Node>)
    returns (componentFirst: map<string, string>)
    requires RefersFirst(before, earlier)
    ensures RefersFirst(componentFirst, earlier + components)
  {
    hide RefersFirst;
    componentFirst := before;
    var i := 0;
    assert earlier + components[..0] == earlier;
    while i < |components|
      invariant 0 <= i <= |components|
      invariant RefersFirst(componentFirst, earlier + components[..i])
    {
      var c := components[i];
      var first := FindFirstMember(c.children);
      RefersFirstStep(componentFirst, earlier + components[..i], c);
      assert earlier + components[..i + 1] == (earlier + components[..i]) + [c];
      if c.name != "" && first != "" && c.name !in componentFirst {
        componentFirst := componentFirst[c.name := first];
      }
      i := i + 1;
    }
    assert components[..i] == components;
  }

  /** No name in the component table is empty. */
  lemma NamesNotEmpty(componentFirst: map<string, string>, components: seq<Node>)
    requires RefersFirst(componentFirst, components)
    ensures "" !in componentFirst && "" !in componentFirst.Values
  {
    forall name | name in componentFirst
      ensures name != "" && componentFirst[name] != ""
    {
      assert Candidates(components, name)[0] in Candidates(components, name);
    }
  }

  /** The delimiter first seen and the alternates of every group met so far. */
  ghost predicate Describes(dedup: map<string, GroupDef>, conflicts: map<string, seq<Alternate>>, seen: seq<Occurrence>) {
    && dedup.Keys == conflicts.Keys
    && forall countName ::
         if Of(seen, countName) == [] then countName !in dedup
         else countName in dedup && DescribesOne(dedup[countName], conflicts[countName], countName, Of(seen, countName))
  }

  ghost predicate DescribesOne(g: GroupDef, alts: seq<Alternate>, countName: string, occurrences: seq<Occurrence>) {
    && |occurrences| > 0
    && g == GroupDef(countName, occurrences[0].firstName)
    && Tallies(alts, occurrences)
  }

  /** What `collect_groups` does to a group's alternates. */
  function Tally(alts: seq<Alternate>, o: Occurrence): (r: seq<Alternate>) {
    var a := FindAlternate(alts, o.firstName);
    var found := if a == |alts| then alts + [Alternate(o.firstName, [])] else alts;
    if o.context == "" then found
    else found[a := found[a].(messages := AddOnce(found[a].messages, o.context))]
  }

  lemma NamesInto(alts: seq<Alternate>, firstName: string)
    ensures firstName in Names(alts) <==> FindAlternate(alts, firstName) < |alts|
  {
    var i := FindAlternate(alts, firstName);
    if i < |alts| {
      assert Names(alts)[i] == firstName;
    }
  }

  lemma TallyNames(alts: seq<Alternate>, o: Occurrence)
    ensures Names(Tally(alts, o)) == AddOnce(Names(alts), o.firstName)
  {
    NamesInto(alts, o.firstName);
  }

  /** The contexts of one alternate grow by the occurrence's context, if it is the alternate's. */
  lemma TallyContexts(contexts: seq<string>, seen: seq<Occurrence>, o: Occurrence, firstName: string)
    requires contexts == Distinct(ContextsOf(seen, firstName))
    ensures Distinct(ContextsOf(seen + [o], firstName)) ==
            if o.firstName == firstName && o.context != "" then AddOnce(contexts, o.context) else contexts
  {
    ContextsAppend(seen, o, firstName);
    DistinctAppend(ContextsOf(seen, firstName), o.context);
  }

  lemma TallyCorrect(alts: seq<Alternate>, seen: seq<Occurrence>, o: Occurrence)
    requires Tallies(alts, seen)
    ensures Tallies(Tally(alts, o), seen + [o])
  {
    var a := FindAlternate(alts, o.firstName);
    var r := Tally(alts, o);
    TallyNames(alts, o);
    FirstsAppend(seen, o);
    DistinctAppend(Firsts(seen), o.firstName);
    NamesInto(alts, o.firstName);
    if a == |alts| {
      assert o.firstName !in Firsts(seen);
      Unseen(seen, o.firstName);
    }
    hide Distinct, ContextsOf, FindAlternate, Firsts;
    forall i | 0 <= i < |r|
      ensures r[i].messages == Distinct(ContextsOf(seen + [o], r[i].firstName))
    {
      var before := if i < |alts| then alts[i].messages else [];
      assert before == Distinct(ContextsOf(seen, r[i].firstName)) by {
        if i == |alts| {
          assert Distinct<string>([]) == [] by { NothingDistinct(); }
        }
      }
      TallyContexts(before, seen, o, r[i].firstName);
      if i < |alts| && i != a {
        assert Names(r)[i] == r[i].firstName && NoRepeats(Names(r));
        if a < |r| {
          assert Names(r)[a] == o.firstName;
        }
      }
    }
  }

  lemma NothingDistinct()
    ensures Distinct<string>([]) == []
  {
  }

  lemma DescribesOneMore(g: GroupDef, alts: seq<Alternate>, occurrences: seq<Occurrence>, o: Occurrence)
    requires occurrences != [] ==> DescribesOne(g, alts, o.countName, occurrences)
    requires occurrences == [] ==> g == GroupDef(o.countName, o.firstName) && alts == []
    ensures DescribesOne(g, Tally(alts, o), o.countName, occurrences + [o])
  {
    if occurrences == [] {
      assert Tallies([], []) by { NothingDistinct(); }
    }
    TallyCorrect(alts, occurrences, o);
  }

  /** One more occurrence, as `collect_groups` records it. */
  lemma DescribesStep(dedup: map<string, GroupDef>, conflicts: map<string, seq<Alternate>>, seen: seq<Occurrence>,
                      o: Occurrence)
    requires Describes(dedup, conflicts, seen)
    ensures Describes(
              if o.countName in dedup then dedup else dedup[o.countName := GroupDef(o.countName, o.firstName)],
              conflicts[o.countName := Tally(if o.countName in conflicts then conflicts[o.countName] else [], o)],
              seen + [o])
  {
    hide Of, DescribesOne, Tally;
    var c := o.countName;
    var g := if c in dedup then dedup[c] else GroupDef(c, o.firstName);
    var alts := if c in conflicts then conflicts[c] else [];
    DescribesOneMore(g, alts, Of(seen, c), o);
    forall countName
      ensures Of(seen + [o], countName) == if c == countName then Of(seen, countName) + [o] else Of(seen, countName)
    {
      OfAppend(seen, o, countName);
    }
  }

  lemma OccurrencesStep(nodes: seq<Node>, i: nat, context: string)
    requires i < |nodes|
    ensures Occurrences(nodes[i..], context) ==
            GroupOf(nodes[i], context) + Occurrences(nodes[i].children, context) + Occurrences(nodes[i + 1..], context)
  {
    assert nodes[i..][0] == nodes[i] && nodes[i..][1..] == nodes[i + 1..];
  }

  lemma NoOccurrences(nodes: seq<Node>, context: string)
    requires |nodes| == 0
    ensures Occurrences(nodes, context) == []
  {
  }

  lemma Regroup<T>(before: seq<T>, a: seq<T>, b: seq<T>, c: seq<T>)
    ensures before + (a + b + c) == before + a + b + c
  {
  }

  class GroupTable {
    var dedup: map<string, GroupDef>
    var conflicts: map<string, seq<Alternate>>
    ghost var seen: seq<Occurrence>

    ghost predicate Valid()
      reads this
    {
      Describes(dedup, conflicts, seen)
    }

    constructor ()
      ensures Valid() && seen == []
    {
      dedup := map[];
      conflicts := map[];
      seen := [];
    }

    method RecordGroup(countName: string, firstName: string, context: string)
      requires Valid()
      modifies this
      ensures Valid() && seen == old(seen) + [Occurrence(countName, firstName, context)]
    {
      hide Describes;
      ghost var o := Occurrence(countName, firstName, context);
      DescribesStep(dedup, conflicts, seen, o);
      seen := seen + [o];
      if countName !in dedup {
        dedup := dedup[countName := GroupDef(countName, firstName)];
      }
      var alts := if countName in conflicts then conflicts[countName] else [];
      var a := FindAlternate(alts, firstName);
      if a == |alts| {
        alts := alts + [Alternate(firstName, [])];
      }
      if context != "" && context !in alts[a].messages {
        alts := alts[a := alts[a].(messages := alts[a].messages + [context])];
      }
      assert context != "" && context in alts[a].messages && AddOnce(alts[a].messages, context) == alts[a].messages ==>
          alts == alts[a := alts[a].(messages := AddOnce(alts[a].messages, context))];
      conflicts := conflicts[countName := alts];
    }

    method RecordNode(child: Node, context: string)
      requires Valid()
      modifies this
      ensures Valid() && seen == old(seen) + GroupOf(child, context)
    {
      hide FirstMember, Describes;
      if child.kind == GroupElement {
        var first := FindFirstMember(child.children);
        if child.name != "" && first != "" {
          RecordGroup(child.name, first, context);
        }
      }
    }

    /** `collect_groups` */
    method CollectGroups(nodes: seq<Node>, context: string)
      requires Valid()
      modifies this
      ensures Valid() && seen == old(seen) + Occurrences(nodes, context)
      decreases nodes
    {
      hide Occurrences, GroupOf, Describes;
      var i := 0;
      assert nodes[0..] == nodes;
      while i < |nodes|
        invariant 0 <= i <= |nodes|
        invariant Valid()
        invariant seen + Occurrences(nodes[i..], context) == old(seen) + Occurrences(nodes, context)
      {
        ghost var was := seen;
        OccurrencesStep(nodes, i, context);
        RecordNode(nodes[i], context);
        CollectGroups(nodes[i].children, context);
        Regroup(was, GroupOf(nodes[i], context), Occurrences(nodes[i].children, context),
                Occurrences(nodes[i + 1..], context));
        i := i + 1;
      }
      NoOccurrences(nodes[i..], context);
    }

    method CollectContexts(nodes: seq<Node>)
      requires Valid()
      modifies this
      ensures Valid() && seen == old(seen) + Contexts(nodes)
    {
      hide Occurrences, Describes;
      var i := 0;
      assert nodes[0..] == nodes;
      while i < |nodes|
        invariant 0 <= i <= |nodes|
        invariant Valid()
        invariant seen + Contexts(nodes[i..]) == old(seen) + Contexts(nodes)
      {
        assert nodes[i..][0] == nodes[i] && nodes[i..][1..] == nodes[i + 1..];
        CollectGroups(nodes[i].children, nodes[i].name);
        i := i + 1;
      }
    }

    /** `collect_all_groups` */
    method CollectAllGroups(doc: Document)
      requires Valid()
      modifies this
      ensures Valid() && seen == old(seen) + DocumentOccurrences(doc)
    {
      hide Occurrences, Contexts, Describes;
      CollectContexts(doc.messages);
      CollectContexts(doc.components);
      CollectGroups(doc.header, "header");
      CollectGroups(doc.trailer, "trailer");
    }
  }

  // ---- resolving and merging --------------------------------------------------------------

  /** An alternate that cannot be resolved keeps its name. */
  function ResolvedName(componentFirst: map<string, string>, name: string): (r: string) {
    if Resolve(componentFirst, name) != "" then Resolve(componentFirst, name) else name
  }

  function ResolvedNames(componentFirst: map<string, string>, names: seq<string>): (r: seq<string>)
    ensures |r| == |names|
    ensures forall i | 0 <= i < |names| :: r[i] == ResolvedName(componentFirst, names[i])
  {
    seq(|names|, i requires 0 <= i < |names| => ResolvedName(componentFirst, names[i]))
  }

  lemma ResolvedAppend(componentFirst: map<string, string>, names: seq<string>, x: string)
    ensures ResolvedNames(componentFirst, names + [x]) ==
            ResolvedNames(componentFirst, names) + [ResolvedName(componentFirst, x)]
  {
    hide ResolvedName;
  }

  /** Resolving distinct names and then removing repeats loses nothing and keeps the order. */
  lemma {:induction false} ResolveDistinct(componentFirst: map<string, string>, names: seq<string>)
    ensures Distinct(ResolvedNames(componentFirst, Distinct(names))) == Distinct(ResolvedNames(componentFirst, names))
  {
    hide ResolvedName, ResolvedNames;
    if |names| == 0 {
      NothingDistinct();
      assert names == [];
    } else {
      var u, x := names[..|names| - 1], names[|names| - 1];
      var y := ResolvedName(componentFirst, x);
      hide Distinct;
      ResolveDistinct(componentFirst, u);
      assert names == u + [x];
      DistinctAppend(u, x);
      ResolvedAppend(componentFirst, u, x);
      DistinctAppend(ResolvedNames(componentFirst, u), y);
      if x in Distinct(u) {
      } else {
        ResolvedAppend(componentFirst, Distinct(u), x);
        DistinctAppend(ResolvedNames(componentFirst, Distinct(u)), y);
      }
    }
  }

  /** All the contexts listed under one name. */
  function MessagesOf(alts: seq<Alternate>, firstName: string): (r: seq<string>) {
    if |alts| == 0 then []
    else
      var last := alts[|alts| - 1];
      MessagesOf(alts[..|alts| - 1], firstName) + if last.firstName == firstName then last.messages else []
  }

  /** The alternates of one name become one, at the place of the first, with all their contexts. */
  ghost predicate Collapses(merged: seq<Alternate>, alts: seq<Alternate>) {
    && Names(merged) == Distinct(Names(alts))
    && forall i | 0 <= i < |merged| :: merged[i].messages == Distinct(MessagesOf(alts, merged[i].firstName))
  }

  function Merge(merged: seq<Alternate>, a: Alternate): (r: seq<Alternate>) {
    var i := FindAlternate(merged, a.firstName);
    if i == |merged| then merged + [a]
    else merged[i := merged[i].(messages := Distinct(merged[i].messages + a.messages))]
  }

  lemma MessagesAppend(alts: seq<Alternate>, a: Alternate, firstName: string)
    ensures MessagesOf(alts + [a], firstName) ==
            if a.firstName == firstName then MessagesOf(alts, firstName) + a.messages else MessagesOf(alts, firstName)
  {
    assert (alts + [a])[..|alts|] == alts;
  }

  lemma {:induction false} NoMessages(alts: seq<Alternate>, firstName: string)
    requires firstName !in Names(alts)
    ensures MessagesOf(alts, firstName) == []
  {
    if |alts| > 0 {
      var n := |alts| - 1;
      assert Names(alts)[n] == alts[n].firstName;
      assert Names(alts) == Names(alts[..n]) + [alts[n].firstName];
      NoMessages(alts[..n], firstName);
    }
  }

  lemma MergeNames(merged: seq<Alternate>, a: Alternate)
    ensures Names(Merge(merged, a)) == AddOnce(Names(merged), a.firstName)
  {
    hide Distinct;
    NamesInto(merged, a.firstName);
  }

  /** The contexts of one alternate after a merge. */
  lemma MergeMessages(merged: seq<Alternate>, alts: seq<Alternate>, a: Alternate, i: nat)
    requires Collapses(merged, alts) && NoRepeats(a.messages) && i < |Merge(merged, a)|
    ensures var r := Merge(merged, a)[i]; r.messages == Distinct(MessagesOf(alts + [a], r.firstName))
  {
    hide Distinct, MessagesOf, FindAlternate;
    var k := FindAlternate(merged, a.firstName);
    NamesInto(merged, a.firstName);
    if i == k == |merged| {
      MessagesAppend(alts, a, a.firstName);
      NoMessages(alts, a.firstName);
      DistinctOfDistinct(a.messages);
      assert [] + a.messages == a.messages;
    } else if i == k {
      MessagesAppend(alts, a, a.firstName);
      DistinctConcat(MessagesOf(alts, a.firstName), a.messages);
    } else {
      MessagesAppend(alts, a, merged[i].firstName);
      OtherName(merged, alts, a.firstName, i);
    }
  }

  /** Only one alternate has a name. */
  lemma OtherName(merged: seq<Alternate>, alts: seq<Alternate>, firstName: string, i: nat)
    requires Collapses(merged, alts) && i < |merged| && i != FindAlternate(merged, firstName)
    ensures merged[i].firstName != firstName
  {
    hide Distinct, FindAlternate;
    var k := FindAlternate(merged, firstName);
    assert NoRepeats(Names(merged)) && Names(merged)[i] == merged[i].firstName;
    if k < |merged| {
      assert Names(merged)[k] == firstName;
    }
  }

  lemma MergeCorrect(merged: seq<Alternate>, alts: seq<Alternate>, a: Alternate)
    requires Collapses(merged, alts) && NoRepeats(a.messages)
    ensures Collapses(Merge(merged, a), alts + [a])
  {
    hide Distinct, MessagesOf, Merge, AddOnce;
    MergeNames(merged, a);
    assert Names(alts + [a]) == Names(alts) + [a.firstName];
    DistinctAppend(Names(alts), a.firstName);
    forall i | 0 <= i < |Merge(merged, a)|
      ensures Merge(merged, a)[i].messages == Distinct(MessagesOf(alts + [a], Merge(merged, a)[i].firstName))
    {
      MergeMessages(merged, alts, a, i);
    }
  }

  method AddMessages(before: seq<string>, more: seq<string>) returns (messages: seq<string>)
    requires NoRepeats(before)
    ensures messages == Distinct(before + more)
  {
    hide Distinct;
    messages := before;
    DistinctOfDistinct(before);
    assert before + more[..0] == before;
    var i := 0;
    while i < |more|
      invariant 0 <= i <= |more|
      invariant messages == Distinct(before + more[..i])
    {
      assert before + more[..i + 1] == (before + more[..i]) + [more[i]];
      DistinctAppend(before + more[..i], more[i]);
      if more[i] !in messages {
        messages := messages + [more[i]];
      }
      i := i + 1;
    }
    assert more[..i] == more;
  }

  lemma CollapsedDistinct(merged: seq<Alternate>, alts: seq<Alternate>, k: nat)
    requires Collapses(merged, alts) && k < |merged|
    ensures NoRepeats(merged[k].messages)
  {
    hide MessagesOf;
  }

  lemma NothingCollapses()
    ensures Collapses([], [])
  {
    NothingDistinct();
    assert Names([]) == [];
  }

  method CollapseAlternates(alts: seq<Alternate>) returns (merged: seq<Alternate>)
    requires forall i | 0 <= i < |alts| :: NoRepeats(alts[i].messages)
    ensures Collapses(merged, alts)
  {
    hide Collapses, NoRepeats, Distinct, FindAlternate;
    merged := [];
    NothingCollapses();
    assert alts[..0] == [];
    var i := 0;
    while i < |alts|
      invariant 0 <= i <= |alts|
      invariant Collapses(merged, alts[..i])
    {
      var a := alts[i];
      MergeCorrect(merged, alts[..i], a);
      assert alts[..i + 1] == alts[..i] + [a];
      var k := FindAlternate(merged, a.firstName);
      if k == |merged| {
        merged := merged + [a];
      } else {
        CollapsedDistinct(merged, alts[..i], k);
        var messages := AddMessages(merged[k].messages, a.messages);
        merged := merged[k := merged[k].(messages := messages)];
      }
      i := i + 1;
    }
    assert alts[..i] == alts;
  }

  function Renamed(componentFirst: map<string, string>, alts: seq<Alternate>): (r: seq<Alternate>)
    ensures |r| == |alts|
    ensures forall i | 0 <= i < |alts| ::
              r[i] == Alternate(ResolvedName(componentFirst, alts[i].firstName), alts[i].messages)
  {
    seq(|alts|, i requires 0 <= i < |alts| => Alternate(ResolvedName(componentFirst, alts[i].firstName), alts[i].messages))
  }

  /** A group's alternates after `load_groups`: every delimiter the group resolves to, once, in
      order of appearance, each with every named context it was seen in and no other. */
  ghost predicate ConflictOf(alts: seq<Alternate>, componentFirst: map<string, string>, seen: seq<Occurrence>) {
    && Names(alts) == Distinct(ResolvedNames(componentFirst, Firsts(seen)))
    && forall i | 0 <= i < |alts| ::
         && NoRepeats(alts[i].messages)
         && forall m :: m in alts[i].messages <==> SeenIn(seen, componentFirst, alts[i].firstName, m)
  }

  ghost predicate SeenIn(seen: seq<Occurrence>, componentFirst: map<string, string>, firstName: string, context: string) {
    context != "" && exists o :: o in seen && ResolvedName(componentFirst, o.firstName) == firstName && o.context == context
  }

  lemma {:induction false} ContextsIn(seen: seq<Occurrence>, firstName: string, context: string)
    ensures context in ContextsOf(seen, firstName) <==>
            context != "" && exists o :: o in seen && o.firstName == firstName && o.context == context
  {
    if |seen| > 0 {
      var n := |seen| - 1;
      ContextsIn(seen[..n], firstName, context);
      assert seen == seen[..n] + [seen[n]];
    }
  }

  lemma {:induction false} MessagesIn(alts: seq<Alternate>, firstName: string, context: string)
    ensures context in MessagesOf(alts, firstName) <==>
            exists a :: a in alts && a.firstName == firstName && context in a.messages
  {
    if |alts| > 0 {
      var n := |alts| - 1;
      MessagesIn(alts[..n], firstName, context);
      assert alts == alts[..n] + [alts[n]];
    }
  }

  /** Renaming keeps each context with what its delimiter resolves to. */
  lemma RenamedContexts(componentFirst: map<string, string>, alts: seq<Alternate>, seen: seq<Occurrence>,
                        firstName: string, context: string)
    requires Tallies(alts, seen)
    ensures context in MessagesOf(Renamed(componentFirst, alts), firstName) <==>
            SeenIn(seen, componentFirst, firstName, context)
  {
    hide ResolvedName, Distinct, ContextsOf, MessagesOf;
    var renamed := Renamed(componentFirst, alts);
    MessagesIn(renamed, firstName, context);
    if context in MessagesOf(renamed, firstName) {
      var a :| a in renamed && a.firstName == firstName && context in a.messages;
      var i :| 0 <= i < |renamed| && renamed[i] == a;
      ContextsIn(seen, alts[i].firstName, context);
    }
    if SeenIn(seen, componentFirst, firstName, context) {
      var o :| o in seen && ResolvedName(componentFirst, o.firstName) == firstName && o.context == context;
      var j :| 0 <= j < |seen| && seen[j] == o;
      assert Firsts(seen)[j] == o.firstName;
      assert o.firstName in Names(alts);
      var i :| 0 <= i < |alts| && Names(alts)[i] == o.firstName;
      ContextsIn(seen, o.firstName, context);
      assert renamed[i] in renamed;
    }
  }

  lemma CollapsedMeaning(componentFirst: map<string, string>, alts: seq<Alternate>, seen: seq<Occurrence>,
                         merged: seq<Alternate>)
    requires Tallies(alts, seen) && Collapses(merged, Renamed(componentFirst, alts))
    ensures ConflictOf(merged, componentFirst, seen)
  {
    hide ResolvedName, ContextsOf, MessagesOf, SeenIn;
    assert Names(Renamed(componentFirst, alts)) == ResolvedNames(componentFirst, Names(alts));
    ResolveDistinct(componentFirst, Firsts(seen));
    forall i, m | 0 <= i < |merged|
      ensures m in merged[i].messages <==> SeenIn(seen, componentFirst, merged[i].firstName, m)
    {
      RenamedContexts(componentFirst, alts, seen, merged[i].firstName, m);
    }
  }

  // ---- load_groups ---------------------------------------------------------------------------

  /** The leaf that a group's first-seen delimiter leads to; empty if there is none. */
  function Delimiter(componentFirst: map<string, string>, occurrences: seq<Occurrence>): (r: string) {
    if |occurrences| == 0 then "" else Resolve(componentFirst, occurrences[0].firstName)
  }

  function Counts(groups: seq<GroupDef>): (r: seq<string>)
    ensures |r| == |groups|
  {
    seq(|groups|, i requires 0 <= i < |groups| => groups[i].countName)
  }

  ghost predicate Registers(groups: seq<GroupDef>, componentFirst: map<string, string>, seen: seq<Occurrence>) {
    && StrictlyAscending(Counts(groups), StringLeq)
    && forall g :: g in groups <==> g.firstName == Delimiter(componentFirst, Of(seen, g.countName)) != ""
  }

  /** A group is listed as conflicting when it is registered and its occurrences resolve to at
      least two delimiters. */
  ghost predicate Listed(componentFirst: map<string, string>, occurrences: seq<Occurrence>) {
    && Delimiter(componentFirst, occurrences) != ""
    && |Distinct(ResolvedNames(componentFirst, Firsts(occurrences)))| >= 2
  }

  ghost predicate Conflicts(conflicts: map<string, seq<Alternate>>, componentFirst: map<string, string>,
                            seen: seq<Occurrence>)
  {
    && (forall c :: c in conflicts <==> Listed(componentFirst, Of(seen, c)))
    && (forall c | c in conflicts :: ConflictOf(conflicts[c], componentFirst, Of(seen, c)))
  }

  /** The groups and the conflict entries once the groups counted in `done` are resolved. */
  ghost predicate Registering(groups: seq<GroupDef>, left: map<string, seq<Alternate>>, done: seq<string>,
                              dedup: map<string, GroupDef>, conflicts: map<string, seq<Alternate>>,
                              componentFirst: map<string, string>)
  {
    && (forall c | c in done :: c in dedup)
    && (forall g :: g in groups <==>
          g.countName in done && g.firstName == Resolve(componentFirst, dedup[g.countName].firstName) != "")
    && (forall c :: c in left <==>
          c in conflicts && (c in done ==> Resolve(componentFirst, dedup[c].firstName) != ""))
    && (forall c | c in left :: left[c] == conflicts[c])
  }

  lemma RegisteringStep(groups: seq<GroupDef>, left: map<string, seq<Alternate>>, done: seq<string>,
                        dedup: map<string, GroupDef>, conflicts: map<string, seq<Alternate>>,
                        componentFirst: map<string, string>, c: string, resolved: string)
    requires Registering(groups, left, done, dedup, conflicts, componentFirst)
    requires c in dedup && c !in done && resolved == Resolve(componentFirst, dedup[c].firstName)
    ensures resolved == "" ==>
              Registering(groups, left - {c}, done + [c], dedup, conflicts, componentFirst)
    ensures resolved != "" ==>
              Registering(groups + [GroupDef(c, resolved)], left, done + [c], dedup, conflicts, componentFirst)
  {
    hide Resolve;
  }

  lemma CountsDone(groups: seq<GroupDef>, left: map<string, seq<Alternate>>, done: seq<string>,
                   dedup: map<string, GroupDef>, conflicts: map<string, seq<Alternate>>,
                   componentFirst: map<string, string>)
    requires Registering(groups, left, done, dedup, conflicts, componentFirst)
    ensures forall g | g in groups :: g.countName in done
  {
  }

  method RegisterGroup(g: GroupDef, groups: seq<GroupDef>, left: map<string, seq<Alternate>>,
                       componentFirst: map<string, string>,
                       ghost keys: seq<string>, ghost i: nat,
                       ghost dedup: map<string, GroupDef>, ghost conflicts: map<string, seq<Alternate>>)
    returns (groupsAfter: seq<GroupDef>, leftAfter: map<string, seq<Alternate>>)
    requires StrictlyAscending(keys, StringLeq) && i < |keys| && keys[i] in dedup
    requires g == dedup[keys[i]] && g.countName == keys[i]
    requires StrictlyAscending(Counts(groups), StringLeq)
    requires Registering(groups, left, keys[..i], dedup, conflicts, componentFirst)
    ensures StrictlyAscending(Counts(groupsAfter), StringLeq)
    ensures Registering(groupsAfter, leftAfter, keys[..i + 1], dedup, conflicts, componentFirst)
  {
    hide *;
    NotBefore(keys, i);
    assert keys[..i + 1] == keys[..i] + [keys[i]];
    var resolved := ResolveFirstField(g.firstName, componentFirst);
    RegisteringStep(groups, left, keys[..i], dedup, conflicts, componentFirst, g.countName, resolved);
    if resolved == "" {
      return groups, left - {g.countName};
    }
    CountsDone(groups, left, keys[..i], dedup, conflicts, componentFirst);
    CountsAppend(groups, GroupDef(g.countName, resolved), keys, i);
    return groups + [GroupDef(g.countName, resolved)], left;
  }

  /** The first loop of `load_groups`: register what resolves, forget the conflicts of the rest. */
  method RegisterGroups(dedup: map<string, GroupDef>, conflicts: map<string, seq<Alternate>>,
                        componentFirst: map<string, string>)
    returns (groups: seq<GroupDef>, left: map<string, seq<Alternate>>, ghost order: seq<string>)
    requires forall c | c in dedup :: dedup[c].countName == c
    ensures StrictlyAscending(Counts(groups), StringLeq)
    ensures forall c :: c in order <==> c in dedup
    ensures Registering(groups, left, order, dedup, conflicts, componentFirst)
  {
    hide *;
    StringsOrdered();
    var keys := KeysInOrder(dedup.Keys, StringLeq);
    order := keys;
    groups, left := [], conflicts;
    var i := 0;
    NothingRegistered(keys[..0], dedup, conflicts, componentFirst);
    while i < |keys|
      invariant 0 <= i <= |keys|
      invariant StrictlyAscending(Counts(groups), StringLeq)
      invariant Registering(groups, left, keys[..i], dedup, conflicts, componentFirst)
    {
      assert keys[i] in keys;
      groups, left := RegisterGroup(dedup[keys[i]], groups, left, componentFirst, keys, i, dedup, conflicts);
      i := i + 1;
    }
    assert keys[..i] == keys;
  }

  lemma NothingRegistered(done: seq<string>, dedup: map<string, GroupDef>, conflicts: map<string, seq<Alternate>>,
                          componentFirst: map<string, string>)
    requires done == []
    ensures Registering([], conflicts, done, dedup, conflicts, componentFirst)
    ensures StrictlyAscending(Counts([]), StringLeq)
  {
    hide StringLeq;
  }

  lemma NotBefore(keys: seq<string>, i: nat)
    requires StrictlyAscending(keys, StringLeq) && i < |keys|
    ensures keys[i] !in keys[..i]
  {
    hide StringLeq;
  }

  lemma CountsAppend(groups: seq<GroupDef>, g: GroupDef, keys: seq<string>, i: nat)
    requires StrictlyAscending(keys, StringLeq) && i < |keys| && g.countName == keys[i]
    requires StrictlyAscending(Counts(groups), StringLeq)
    requires forall h | h in groups :: h.countName in keys[..i]
    ensures StrictlyAscending(Counts(groups + [g]), StringLeq)
  {
    hide StringLeq;
    assert Counts(groups + [g]) == Counts(groups) + [keys[i]];
    forall k | 0 <= k < |groups|
      ensures StringLeq(Counts(groups)[k], keys[i]) && Counts(groups)[k] != keys[i]
    {
      assert groups[k] in groups;
      var j :| 0 <= j < i && keys[j] == groups[k].countName;
    }
  }

  method ResolveAlternates(alts: seq<Alternate>, componentFirst: map<string, string>) returns (renamed: seq<Alternate>)
    ensures renamed == Renamed(componentFirst, alts)
  {
    hide Resolve;
    renamed := alts;
    var i := 0;
    while i < |alts|
      invariant 0 <= i <= |alts| == |renamed|
      invariant renamed[..i] == Renamed(componentFirst, alts)[..i] && renamed[i..] == alts[i..]
    {
      var r := ResolveFirstField(alts[i].firstName, componentFirst);
      assert renamed[i] == renamed[i..][0] && renamed[i + 1..] == renamed[i..][1..] && alts[i + 1..] == alts[i..][1..];
      if r != "" {
        renamed := renamed[i := renamed[i].(firstName := r)];
      }
      assert renamed[..i + 1] == renamed[..i] + [renamed[i]];
      i := i + 1;
    }
    assert renamed[..i] == renamed && Renamed(componentFirst, alts)[..i] == Renamed(componentFirst, alts);
  }

  /** The second loop of `load_groups`: resolve and collapse the alternates of every entry. */
  method ResolveConflicts(conflicts: map<string, seq<Alternate>>, componentFirst: map<string, string>)
    returns (resolved: map<string, seq<Alternate>>)
    requires forall c, i | c in conflicts && 0 <= i < |conflicts[c]| :: NoRepeats(conflicts[c][i].messages)
    ensures resolved.Keys == conflicts.Keys
    ensures forall c | c in conflicts :: Collapses(resolved[c], Renamed(componentFirst, conflicts[c]))
  {
    hide Collapses, NoRepeats, StringLeq, TotalOrder;
    StringsOrdered();
    var keys := KeysInOrder(conflicts.Keys, StringLeq);
    resolved := map[];
    var i := 0;
    while i < |keys|
      invariant 0 <= i <= |keys|
      invariant forall c :: c in resolved <==> c in keys[..i]
      invariant forall c | c in resolved :: Collapses(resolved[c], Renamed(componentFirst, conflicts[c]))
    {
      assert keys[i] in keys;
      assert keys[..i + 1] == keys[..i] + [keys[i]];
      var renamed := ResolveAlternates(conflicts[keys[i]], componentFirst);
      var merged := CollapseAlternates(renamed);
      resolved := resolved[keys[i] := merged];
      i := i + 1;
    }
    assert keys[..i] == keys;
  }

  /** The entries left once those of the groups in `done` have been looked at. */
  ghost predicate Dropping(kept: map<string, seq<Alternate>>, conflicts: map<string, seq<Alternate>>, done: seq<string>) {
    && (forall c :: c in kept <==> c in conflicts && (c in done ==> |conflicts[c]| >= 2))
    && (forall c | c in kept :: kept[c] == conflicts[c])
  }

  lemma DropStep(kept: map<string, seq<Alternate>>, conflicts: map<string, seq<Alternate>>, done: seq<string>, c: string)
    requires Dropping(kept, conflicts, done) && c in conflicts
    ensures Dropping(if |conflicts[c]| < 2 then kept - {c} else kept, conflicts, done + [c])
  {
  }

  lemma DropEnds(kept: map<string, seq<Alternate>>, conflicts: map<string, seq<Alternate>>, keys: seq<string>)
    requires forall c :: c in keys <==> c in conflicts
    ensures Dropping(conflicts, conflicts, [])
    ensures Dropping(kept, conflicts, keys) ==> kept == map c | c in conflicts && |conflicts[c]| >= 2 :: conflicts[c]
  {
  }

  /** The last loop of `load_groups`: entries with a single delimiter are no conflict. */
  method DropSingles(conflicts: map<string, seq<Alternate>>) returns (kept: map<string, seq<Alternate>>)
    ensures kept == map c | c in conflicts && |conflicts[c]| >= 2 :: conflicts[c]
  {
    hide StringLeq, TotalOrder, Dropping, StrictlyAscending;
    StringsOrdered();
    var keys := KeysInOrder(conflicts.Keys, StringLeq);
    kept := conflicts;
    DropEnds(kept, conflicts, keys);
    var i := 0;
    assert keys[..0] == [];
    while i < |keys|
      invariant 0 <= i <= |keys|
      invariant Dropping(kept, conflicts, keys[..i])
    {
      assert keys[i] in keys;
      assert keys[..i + 1] == keys[..i] + [keys[i]];
      DropStep(kept, conflicts, keys[..i], keys[i]);
      if |conflicts[keys[i]]| < 2 {
        kept := kept - {keys[i]};
      }
      i := i + 1;
    }
    assert keys[..i] == keys;
    DropEnds(kept, conflicts, keys);
  }

  /** The registered groups, in terms of the occurrences. */
  lemma RegisteredMeaning(groups: seq<GroupDef>, left: map<string, seq<Alternate>>, order: seq<string>,
                          dedup: map<string, GroupDef>, conflicts: map<string, seq<Alternate>>,
                          componentFirst: map<string, string>, seen: seq<Occurrence>)
    requires Describes(dedup, conflicts, seen)
    requires StrictlyAscending(Counts(groups), StringLeq)
    requires forall c :: c in order <==> c in dedup
    requires Registering(groups, left, order, dedup, conflicts, componentFirst)
    ensures Registers(groups, componentFirst, seen)
    ensures forall c :: c in left <==> Delimiter(componentFirst, Of(seen, c)) != ""
    ensures forall c | c in left :: Tallies(left[c], Of(seen, c))
  {
    hide Of, Resolve, StrictlyAscending, StringLeq, Tallies, Delimiter;
    forall c
      ensures c !in dedup ==> Delimiter(componentFirst, Of(seen, c)) == ""
      ensures c in dedup ==> Delimiter(componentFirst, Of(seen, c)) == Resolve(componentFirst, dedup[c].firstName)
      ensures c in dedup ==> c in conflicts && Tallies(conflicts[c], Of(seen, c))
    {
      DescribedDelimiter(dedup, conflicts, componentFirst, seen, c);
    }
    hide Describes;
  }

  lemma DescribedDelimiter(dedup: map<string, GroupDef>, conflicts: map<string, seq<Alternate>>,
                           componentFirst: map<string, string>, seen: seq<Occurrence>, c: string)
    requires Describes(dedup, conflicts, seen)
    ensures c !in dedup ==> Delimiter(componentFirst, Of(seen, c)) == ""
    ensures c in dedup ==> Delimiter(componentFirst, Of(seen, c)) == Resolve(componentFirst, dedup[c].firstName)
    ensures c in dedup <==> c in conflicts
    ensures c in dedup ==> Tallies(conflicts[c], Of(seen, c))
  {
    hide Of, Resolve, Tallies;
  }

  /** The kept conflict entries, in terms of the occurrences. */
  lemma ConflictsMeaning(left: map<string, seq<Alternate>>, resolved: map<string, seq<Alternate>>,
                         kept: map<string, seq<Alternate>>, componentFirst: map<string, string>, seen: seq<Occurrence>)
    requires forall c :: c in left <==> Delimiter(componentFirst, Of(seen, c)) != ""
    requires forall c | c in left :: Tallies(left[c], Of(seen, c))
    requires resolved.Keys == left.Keys
    requires forall c | c in left :: Collapses(resolved[c], Renamed(componentFirst, left[c]))
    requires kept == map c | c in resolved && |resolved[c]| >= 2 :: resolved[c]
    ensures Conflicts(kept, componentFirst, seen)
  {
    hide *;
    forall c | c in resolved
      ensures ConflictOf(resolved[c], componentFirst, Of(seen, c))
      ensures |resolved[c]| >= 2 <==> Listed(componentFirst, Of(seen, c))
    {
      CollapsedMeaning(componentFirst, left[c], Of(seen, c), resolved[c]);
      ConflictSize(resolved[c], componentFirst, Of(seen, c));
    }
    ConflictsFrom(resolved, kept, componentFirst, seen);
  }

  lemma ConflictSize(alts: seq<Alternate>, componentFirst: map<string, string>, occurrences: seq<Occurrence>)
    requires ConflictOf(alts, componentFirst, occurrences) && Delimiter(componentFirst, occurrences) != ""
    ensures |alts| >= 2 <==> Listed(componentFirst, occurrences)
  {
  }

  lemma ConflictsFrom(resolved: map<string, seq<Alternate>>, kept: map<string, seq<Alternate>>,
                      componentFirst: map<string, string>, seen: seq<Occurrence>)
    requires forall c :: c in resolved <==> Delimiter(componentFirst, Of(seen, c)) != ""
    requires forall c | c in resolved ::
               && ConflictOf(resolved[c], componentFirst, Of(seen, c))
               && (|resolved[c]| >= 2 <==> Listed(componentFirst, Of(seen, c)))
    requires kept == map c | c in resolved && |resolved[c]| >= 2 :: resolved[c]
    ensures Conflicts(kept, componentFirst, seen)
  {
    hide Of, ConflictOf, Delimiter;
    forall c | c !in resolved
      ensures !Listed(componentFirst, Of(seen, c))
    {
    }
  }

  lemma TalliesDistinct(alts: seq<Alternate>, occurrences: seq<Occurrence>)
    requires Tallies(alts, occurrences)
    ensures forall i | 0 <= i < |alts| :: NoRepeats(alts[i].messages)
  {
  }

  /** `load_groups`: from the documents to the table of delimiters and the table of conflicts. */
  method LoadGroups(docs: seq<Document>)
    returns (groups: seq<GroupDef>, conflicts: map<string, seq<Alternate>>, componentFirst: map<string, string>)
    ensures RefersFirst(componentFirst, AllComponents(docs))
    ensures Registers(groups, componentFirst, AllOccurrences(docs))
    ensures Conflicts(conflicts, componentFirst, AllOccurrences(docs))
  {
    hide *;
    componentFirst := LoadComponents(docs);
    var dedup, collected := CollectDocuments(docs);
    ghost var seen := AllOccurrences(docs);
    DescribedCounts(dedup, collected, seen);
    var left;
    ghost var order;
    groups, left, order := RegisterGroups(dedup, collected, componentFirst);
    RegisteredMeaning(groups, left, order, dedup, collected, componentFirst, seen);
    forall c | c in left
      ensures forall i | 0 <= i < |left[c]| :: NoRepeats(left[c][i].messages)
    {
      TalliesDistinct(left[c], Of(seen, c));
    }
    var resolved := ResolveConflicts(left, componentFirst);
    conflicts := DropSingles(resolved);
    ConflictsMeaning(left, resolved, conflicts, componentFirst, seen);
  }

  lemma DescribedCounts(dedup: map<string, GroupDef>, conflicts: map<string, seq<Alternate>>, seen: seq<Occurrence>)
    requires Describes(dedup, conflicts, seen)
    ensures forall c | c in dedup :: dedup[c].countName == c
  {
    hide Of, Tallies;
    forall c | c in dedup
      ensures dedup[c].countName == c
    {
      assert Of(seen, c) != [];
    }
  }

  method LoadComponents(docs: seq<Document>) returns (componentFirst: map<string, string>)
    ensures RefersFirst(componentFirst, AllComponents(docs))
  {
    hide RefersFirst, AllComponents;
    componentFirst := map[];
    ghost var done: seq<Node> := [];
    NoComponents(docs);
    var i := 0;
    while i < |docs|
      invariant 0 <= i <= |docs|
      invariant RefersFirst(componentFirst, done)
      invariant done + AllComponents(docs[i..]) == AllComponents(docs)
    {
      ComponentsStep(docs, i);
      assert done + (docs[i].components + AllComponents(docs[i + 1..]))
             == done + docs[i].components + AllComponents(docs[i + 1..]);
      componentFirst := ResolveComponentFirst(docs[i].components, componentFirst, done);
      done := done + docs[i].components;
      i := i + 1;
    }
    NoDocuments(docs[i..]);
    assert done + [] == done;
  }

  lemma NoComponents(docs: seq<Document>)
    ensures RefersFirst(map[], []) && docs[0..] == docs
    ensures [] + AllComponents(docs[0..]) == AllComponents(docs)
  {
    assert docs[0..] == docs;
  }

  lemma NoDocuments(docs: seq<Document>)
    requires |docs| == 0
    ensures AllComponents(docs) == []
  {
  }

  lemma ComponentsStep(docs: seq<Document>, i: nat)
    requires i < |docs|
    ensures AllComponents(docs[i..]) == docs[i].components + AllComponents(docs[i + 1..])
  {
    assert docs[i..][0] == docs[i] && docs[i..][1..] == docs[i + 1..];
  }

  method CollectDocuments(docs: seq<Document>) returns (dedup: map<string, GroupDef>, conflicts: map<string, seq<Alternate>>)
    ensures Describes(dedup, conflicts, AllOccurrences(docs))
  {
    hide Describes, DocumentOccurrences;
    var table := new GroupTable();
    assert docs[0..] == docs;
    var i := 0;
    while i < |docs|
      invariant 0 <= i <= |docs|
      invariant fresh(table) && table.Valid()
      invariant table.seen + AllOccurrences(docs[i..]) == AllOccurrences(docs)
    {
      assert docs[i..][0] == docs[i] && docs[i..][1..] == docs[i + 1..];
      table.CollectAllGroups(docs[i]);
      i := i + 1;
    }
    assert table.seen == AllOccurrences(docs);
    dedup, conflicts := table.dedup, table.conflicts;
  }

  // ---- what the tables promise ------------------------------------------------------------

  /** Every registered delimiter is a name that refers no further, reached from the first-seen
      child through at most 31 components; where the group is listed as conflicting it is the
      first of the alternates, which are distinct; and each named context of the group is kept
      with the delimiter it uses. */
  lemma TablesSound(groups: seq<GroupDef>, conflicts: map<string, seq<Alternate>>, componentFirst: map<string, string>,
                    seen: seq<Occurrence>, g: GroupDef)
    requires Registers(groups, componentFirst, seen) && Conflicts(conflicts, componentFirst, seen)
    requires g in groups
    ensures g.firstName !in componentFirst
    ensures exists k: nat ::
              k < 32 && g.firstName == Hop(componentFirst, Of(seen, g.countName)[0].firstName, k)
    ensures g.countName in conflicts ==>
              && |conflicts[g.countName]| >= 2
              && conflicts[g.countName][0].firstName == g.firstName
              && NoRepeats(Names(conflicts[g.countName]))
              && forall o | o in Of(seen, g.countName) && o.context != "" ::
                   exists a :: a in conflicts[g.countName] && o.context in a.messages &&
                               a.firstName == ResolvedName(componentFirst, o.firstName)
  {
    hide Hop, Of, StringLeq, Distinct;
    var occurrences := Of(seen, g.countName);
    assert g.firstName == Delimiter(componentFirst, occurrences);
    assert g.firstName == Hop(componentFirst, occurrences[0].firstName, MAX_COMPONENT_DEPTH - 1);
    if g.countName in conflicts {
      var alts := conflicts[g.countName];
      assert ConflictOf(alts, componentFirst, occurrences);
      assert Names(alts)[0] == ResolvedNames(componentFirst, Firsts(occurrences))[0];
      forall o | o in occurrences && o.context != ""
        ensures exists a :: a in alts && o.context in a.messages && a.firstName == ResolvedName(componentFirst, o.firstName)
      {
        ContextKept(alts, componentFirst, occurrences, o);
      }
    }
  }

  lemma ContextKept(alts: seq<Alternate>, componentFirst: map<string, string>, occurrences: seq<Occurrence>, o: Occurrence)
    requires ConflictOf(alts, componentFirst, occurrences) && o in occurrences && o.context != ""
    ensures exists a :: a in alts && o.context in a.messages && a.firstName == ResolvedName(componentFirst, o.firstName)
  {
    hide Distinct, ResolvedName;
    var f := ResolvedName(componentFirst, o.firstName);
    var j :| 0 <= j < |occurrences| && occurrences[j] == o;
    assert Firsts(occurrences)[j] == o.firstName;
    assert ResolvedNames(componentFirst, Firsts(occurrences))[j] == f;
    assert f in Names(alts);
    var i :| 0 <= i < |alts| && Names(alts)[i] == f;
    assert SeenIn(occurrences, componentFirst, f, o.context);
    assert alts[i] in alts && o.context in alts[i].messages;
  }

  lemma TwoDistinct<T(!new)>(s: seq<T>)
    ensures |Distinct(s)| >= 2 <==> exists x, y :: x in s && y in s && x != y
  {
    var r := Distinct(s);
    hide Distinct;
    if |r| >= 2 {
      assert r[0] in r && r[1] in r && r[0] != r[1];
    }
    forall x, y | x in s && y in s && x != y ensures |r| >= 2 {
      var i :| 0 <= i < |r| && r[i] == x;
      var j :| 0 <= j < |r| && r[j] == y;
      assert i != j;
    }
  }

  /** Two occurrences of the group whose first members resolve to different names. */
  ghost predicate Differ(componentFirst: map<string, string>, seen: seq<Occurrence>, countName: string) {
    exists o, p ::
      && o in seen && p in seen && o.countName == countName && p.countName == countName
      && ResolvedName(componentFirst, o.firstName) != ResolvedName(componentFirst, p.firstName)
  }

  /** A registered group has a conflict entry exactly when two of its occurrences differ; no other group has one. */
  lemma ConflictWhen(groups: seq<GroupDef>, conflicts: map<string, seq<Alternate>>, componentFirst: map<string, string>,
                     seen: seq<Occurrence>, countName: string)
    requires Registers(groups, componentFirst, seen) && Conflicts(conflicts, componentFirst, seen)
    ensures countName in conflicts <==>
            (exists g :: g in groups && g.countName == countName) && Differ(componentFirst, seen, countName)
  {
    hide ResolvedName, Of, Distinct, ConflictOf, StrictlyAscending;
    var occurrences := Of(seen, countName);
    var names := ResolvedNames(componentFirst, Firsts(occurrences));
    assert forall g | g in groups && g.countName == countName :: g.firstName == Delimiter(componentFirst, occurrences);
    if Delimiter(componentFirst, occurrences) != "" {
      assert GroupDef(countName, Delimiter(componentFirst, occurrences)) in groups;
    }
    TwoDistinct(names);
    DifferingNames(componentFirst, seen, countName);
  }

  /** The resolved names of a group's occurrences, in order. */
  function NamesSeen(componentFirst: map<string, string>, seen: seq<Occurrence>, countName: string): (r: seq<string>) {
    ResolvedNames(componentFirst, Firsts(Of(seen, countName)))
  }

  lemma NameSeen(componentFirst: map<string, string>, seen: seq<Occurrence>, o: Occurrence)
    requires o in seen
    ensures ResolvedName(componentFirst, o.firstName) in NamesSeen(componentFirst, seen, o.countName)
  {
    hide ResolvedName, Of;
    var occurrences := Of(seen, o.countName);
    var i :| 0 <= i < |occurrences| && occurrences[i] == o;
    assert NamesSeen(componentFirst, seen, o.countName)[i] == ResolvedName(componentFirst, o.firstName);
  }

  lemma SeenUnder(componentFirst: map<string, string>, seen: seq<Occurrence>, countName: string, x: string)
    returns (o: Occurrence)
    requires x in NamesSeen(componentFirst, seen, countName)
    ensures o in seen && o.countName == countName && ResolvedName(componentFirst, o.firstName) == x
  {
    hide ResolvedName, Of;
    var names, occurrences := NamesSeen(componentFirst, seen, countName), Of(seen, countName);
    var i :| 0 <= i < |names| && names[i] == x;
    o := occurrences[i];
    assert o in occurrences;
  }

  lemma DifferingNames(componentFirst: map<string, string>, seen: seq<Occurrence>, countName: string)
    ensures var names := NamesSeen(componentFirst, seen, countName);
            Differ(componentFirst, seen, countName) <==> exists x, y :: x in names && y in names && x != y
  {
    hide NamesSeen, ResolvedName;
    var names := NamesSeen(componentFirst, seen, countName);
    forall o | o in seen && o.countName == countName ensures ResolvedName(componentFirst, o.firstName) in names {
      NameSeen(componentFirst, seen, o);
    }
    forall x, y | x in names && y in names && x != y ensures Differ(componentFirst, seen, countName) {
      var o := SeenUnder(componentFirst, seen, countName, x);
      var p := SeenUnder(componentFirst, seen, countName, y);
    }
  }

  predicate Named(seen: seq<Occurrence>) {
    forall i | 0 <= i < |seen| :: seen[i].firstName != "" && seen[i].countName != ""
  }

  lemma {:induction false} OccurrencesNamed(nodes: seq<Node>, context: string)
    ensures Named(Occurrences(nodes, context))
    decreases nodes
  {
    if |nodes| > 0 {
      OccurrencesNamed(nodes[0].children, context);
      OccurrencesNamed(nodes[1..], context);
    }
  }

  lemma {:induction false} ContextsNamed(nodes: seq<Node>)
    ensures Named(Contexts(nodes))
  {
    if |nodes| > 0 {
      OccurrencesNamed(nodes[0].children, nodes[0].name);
      ContextsNamed(nodes[1..]);
    }
  }

  lemma {:induction false} AllNamed(docs: seq<Document>)
    ensures Named(AllOccurrences(docs))
  {
    hide Occurrences, Contexts;
    if |docs| > 0 {
      var doc := docs[0];
      ContextsNamed(doc.messages);
      ContextsNamed(doc.components);
      OccurrencesNamed(doc.header, "header");
      OccurrencesNamed(doc.trailer, "trailer");
      assert Named(DocumentOccurrences(doc));
      AllNamed(docs[1..]);
    }
  }

  /** With at most 31 components, a group that occurs is left out of the table exactly when its
      first-seen delimiter leads round components forever. */
  lemma DroppedExactly(docs: seq<Document>, groups: seq<GroupDef>, componentFirst: map<string, string>, countName: string)
    requires RefersFirst(componentFirst, AllComponents(docs))
    requires Registers(groups, componentFirst, AllOccurrences(docs))
    requires |componentFirst| <= 31
    requires Of(AllOccurrences(docs), countName) != []
    ensures countName !in Counts(groups) <==>
            forall k: nat :: Hop(componentFirst, Of(AllOccurrences(docs), countName)[0].firstName, k) in componentFirst
  {
    hide AllOccurrences, AllComponents, Hop, Resolve, StringLeq;
    var occurrences := Of(AllOccurrences(docs), countName);
    var o := occurrences[0];
    assert o in occurrences;
    AllNamed(docs);
    assert o.firstName != "";
    NamesNotEmpty(componentFirst, AllComponents(docs));
    LimitHarmless(componentFirst, o.firstName);
    var g := GroupDef(countName, Resolve(componentFirst, o.firstName));
    if countName in Counts(groups) {
      var i :| 0 <= i < |groups| && Counts(groups)[i] == countName;
      assert groups[i] in groups;
    }
    if g in groups {
      var i :| 0 <= i < |groups| && groups[i] == g;
      assert Counts(groups)[i] == countName;
    }
  }

  // ---- delimiters that name a component --------------------------------------------------

  /** A name with a component definition. */
  predicate IsComponent(components: seq<Node>, name: string) {
    name != "" && exists c :: c in components && c.name == name
  }

  /** A component none of whose definitions has a field, group or component in it. */
  predicate IsMemberless(components: seq<Node>, name: string) {
    IsComponent(components, name) && Candidates(components, name) == []
  }

  /** The walk from a group's first-seen child reaches a component without a member. */
  ghost predicate EndsMemberless(components: seq<Node>, componentFirst: map<string, string>, occurrences: seq<Occurrence>) {
    |occurrences| > 0
    && exists k: nat :: k < 32 && IsMemberless(components, Hop(componentFirst, occurrences[0].firstName, k))
  }

  /** What is registered refers no further: no component of that name has a first member. */
  lemma NoFurther(componentFirst: map<string, string>, components: seq<Node>, seen: seq<Occurrence>,
                  groups: seq<GroupDef>, g: GroupDef)
    requires RefersFirst(componentFirst, components) && Registers(groups, componentFirst, seen) && g in groups
    ensures g.firstName != "" && g.firstName !in componentFirst && Candidates(components, g.firstName) == []
    ensures Of(seen, g.countName) != []
    ensures g.firstName == Hop(componentFirst, Of(seen, g.countName)[0].firstName, 31)
  {
    hide Hop, Of, Candidates, StrictlyAscending;
    assert g.firstName == Delimiter(componentFirst, Of(seen, g.countName));
  }

  /** A walk that reaches a component without a member ends there, and the group is registered with its name. */
  lemma RegisteredWithComponent(componentFirst: map<string, string>, components: seq<Node>, seen: seq<Occurrence>,
                                groups: seq<GroupDef>, countName: string, k: nat)
    requires RefersFirst(componentFirst, components) && Registers(groups, componentFirst, seen)
    requires Of(seen, countName) != [] && k < MAX_COMPONENT_DEPTH
    requires IsMemberless(components, Hop(componentFirst, Of(seen, countName)[0].firstName, k))
    ensures GroupDef(countName, Hop(componentFirst, Of(seen, countName)[0].firstName, k)) in groups
  {
    hide Hop, Of, Candidates, StrictlyAscending;
    var first := Of(seen, countName)[0].firstName;
    HopStays(componentFirst, first, k, MAX_COMPONENT_DEPTH - 1);
    var g := GroupDef(countName, Hop(componentFirst, first, k));
    assert g.firstName == Delimiter(componentFirst, Of(seen, g.countName));
  }

  /**
   Some registered delimiter names a component exactly when some group's walk ends at a
   component without a member; and none does if every named component has a definition
   with a first member.
   */
  lemma ComponentDelimiters(docs: seq<Document>, componentFirst: map<string, string>, groups: seq<GroupDef>)
    requires RefersFirst(componentFirst, AllComponents(docs))
    requires Registers(groups, componentFirst, AllOccurrences(docs))
    ensures (exists g :: g in groups && IsComponent(AllComponents(docs), g.firstName)) <==>
            (exists countName :: EndsMemberless(AllComponents(docs), componentFirst, Of(AllOccurrences(docs), countName)))
    ensures (forall c | c in AllComponents(docs) && c.name != "" :: Candidates(AllComponents(docs), c.name) != []) ==>
              forall g | g in groups :: !IsComponent(AllComponents(docs), g.firstName)
  {
    hide RefersFirst, Registers, Of, Hop, Candidates, AllOccurrences, AllComponents;
    var components, seen := AllComponents(docs), AllOccurrences(docs);
    forall g | g in groups
      ensures Candidates(components, g.firstName) == []
      ensures IsComponent(components, g.firstName) ==> EndsMemberless(components, componentFirst, Of(seen, g.countName))
    {
      NoFurther(componentFirst, components, seen, groups, g);
    }
    if exists countName :: EndsMemberless(components, componentFirst, Of(seen, countName)) {
      var countName :| EndsMemberless(components, componentFirst, Of(seen, countName));
      var first := Of(seen, countName)[0].firstName;
      var k: nat :| k < MAX_COMPONENT_DEPTH && IsMemberless(components, Hop(componentFirst, first, k));
      RegisteredWithComponent(componentFirst, components, seen, groups, countName, k);
      assert GroupDef(countName, Hop(componentFirst, first, k)).firstName == Hop(componentFirst, first, k);
    }
  }

  /** A message with a group `NoX` whose first child is a component `C` that is defined without children. */
  const MEMBERLESS_DOCUMENT: Document := Document(
    [Node(OtherElement, "M", [Node(GroupElement, "NoX", [Node(ComponentElement, "C", [])])])],
    [Node(ComponentElement, "C", [])], [], [])

  /** The group is registered with the component's name as its delimiter. */
  lemma ComponentAsDelimiter(componentFirst: map<string, string>, groups: seq<GroupDef>)
    requires RefersFirst(componentFirst, AllComponents([MEMBERLESS_DOCUMENT]))
    requires Registers(groups, componentFirst, AllOccurrences([MEMBERLESS_DOCUMENT]))
    ensures GroupDef("NoX", "C") in groups && IsComponent(AllComponents([MEMBERLESS_DOCUMENT]), "C")
  {
    MemberlessParts();
    hide RefersFirst, Registers, AllOccurrences, AllComponents, Of;
    var components, seen := AllComponents([MEMBERLESS_DOCUMENT]), AllOccurrences([MEMBERLESS_DOCUMENT]);
    assert Hop(componentFirst, "C", 0) == "C";
    RegisteredWithComponent(componentFirst, components, seen, groups, "NoX", 0);
  }

  lemma MemberlessParts()
    ensures AllComponents([MEMBERLESS_DOCUMENT]) == [Node(ComponentElement, "C", [])]
    ensures IsMemberless(AllComponents([MEMBERLESS_DOCUMENT]), "C")
    ensures Of(AllOccurrences([MEMBERLESS_DOCUMENT]), "NoX") == [Occurrence("NoX", "C", "M")]
  {
    var group := MEMBERLESS_DOCUMENT.messages[0].children;
    assert FirstMember(group[0].children) == "C";
    assert GroupOf(group[0], "M") == [Occurrence("NoX", "C", "M")];
    assert Occurrences(group[0].children, "M") == [];
    assert Occurrences(group, "M") == [Occurrence("NoX", "C", "M")];
    assert Contexts(MEMBERLESS_DOCUMENT.messages) == [Occurrence("NoX", "C", "M")];
    assert Contexts(MEMBERLESS_DOCUMENT.components) == [];
    assert DocumentOccurrences(MEMBERLESS_DOCUMENT) == [Occurrence("NoX", "C", "M")];
    assert AllOccurrences([MEMBERLESS_DOCUMENT]) == [Occurrence("NoX", "C", "M")];
    var c := Node(ComponentElement, "C", []);
    assert AllComponents([MEMBERLESS_DOCUMENT]) == [c];
    assert c in [c];
  }
}
