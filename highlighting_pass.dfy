/**
 * The resolver-to-typechecker glue of the Arend highlighting pass: counting the
 * typecheckable definitions of a file, locating the first failing segment of a
 * long name, collecting the resolved definitions, handing them to the ordering
 * engine with the last-modified definition first, and deciding whether a
 * background typechecking run is launched.
 *
 * The name resolver, the `Ordering` engine, the background typechecker and the
 * task queue are not part of this model: the resolver is represented by the
 * stream of definitions it reports, `Ordering.order` by the definitions handed
 * to the current listener, and a background run by the record of its launch.
 */
module HighlightingPass {
  import opened ArendCore

  function Max(a: int, b: int): int { if a < b then b else a }

  // ---------------------------------------------------------------------------
  // The group tree and its typecheckable definitions
  // ---------------------------------------------------------------------------

  /**
   * A group of the file: whether its referable is a `TCDefinition`, the groups
   * of its statements (a statement may have no group) and its dynamic subgroups.
   */
  datatype Group = Group(isTCDefinition: bool, statementGroups: seq<Option<Group>>, dynamicSubgroups: seq<Group>)

  /** Every group node of a tree, in pre-order. */
  function Nodes(group: Option<Group>): seq<Group>
    decreases group, 0
  {
    match group
    case None => []
    case Some(g) => GroupNodes(g)
  }

  function GroupNodes(g: Group): seq<Group>
    decreases g, |g.statementGroups| + |g.dynamicSubgroups| + 1
  {
    [g] + StatementNodes(g, |g.statementGroups|) + SubgroupNodes(g, |g.dynamicSubgroups|)
  }

  /** The nodes under the first `n` statements of `g`. */
  function StatementNodes(g: Group, n: nat): seq<Group>
    requires n <= |g.statementGroups|
    decreases g, n
  {
    if n == 0 then [] else StatementNodes(g, n - 1) + Nodes(g.statementGroups[n - 1])
  }

  /** The nodes under the first `n` dynamic subgroups of `g`. */
  function SubgroupNodes(g: Group, n: nat): seq<Group>
    requires n <= |g.dynamicSubgroups|
    decreases g, n
  {
    if n == 0 then [] else SubgroupNodes(g, n - 1) + GroupNodes(g.dynamicSubgroups[n - 1])
  }

  /** How many of `nodes` are typecheckable definitions. */
  function TCNodeCount(nodes: seq<Group>): nat
  {
    if nodes == [] then 0
    else TCNodeCount(nodes[..|nodes| - 1]) + (if nodes[|nodes| - 1].isTCDefinition then 1 else 0)
  }

  /**
   * The count `numberOfDefinitions` computes, following its recursion: 0 for a
   * missing group, otherwise 1 for a `TCDefinition` plus the counts of all
   * statement groups and all dynamic subgroups.
   */
  function DefinitionCount(group: Option<Group>): nat
    decreases group, 0
  {
    match group
    case None => 0
    case Some(g) => GroupCount(g)
  }

  function GroupCount(g: Group): nat
    decreases g, |g.statementGroups| + |g.dynamicSubgroups| + 1
  {
    (if g.isTCDefinition then 1 else 0)
    + StatementsCount(g, |g.statementGroups|)
    + SubgroupsCount(g, |g.dynamicSubgroups|)
  }

  function StatementsCount(g: Group, n: nat): nat
    requires n <= |g.statementGroups|
    decreases g, n
  {
    if n == 0 then 0 else StatementsCount(g, n - 1) + DefinitionCount(g.statementGroups[n - 1])
  }

  function SubgroupsCount(g: Group, n: nat): nat
    requires n <= |g.dynamicSubgroups|
    decreases g, n
  {
    if n == 0 then 0 else SubgroupsCount(g, n - 1) + GroupCount(g.dynamicSubgroups[n - 1])
  }

  lemma {:induction false} TCNodeCountAppend(a: seq<Group>, b: seq<Group>)
    ensures TCNodeCount(a + b) == TCNodeCount(a) + TCNodeCount(b)
    decreases |b|
  {
    if b == [] {
      assert a + b == a;
    } else {
      assert (a + b)[..|a + b| - 1] == a + b[..|b| - 1];
      TCNodeCountAppend(a, b[..|b| - 1]);
    }
  }

  /** The recursive count is exactly the number of `TCDefinition` nodes in the tree. */
  lemma {:induction false} DefinitionCountIsTCNodes(group: Option<Group>)
    ensures DefinitionCount(group) == TCNodeCount(Nodes(group))
    decreases group, 0
  {
    match group
    case None =>
    case Some(g) => GroupCountIsTCNodes(g);
  }

  lemma {:induction false} GroupCountIsTCNodes(g: Group)
    ensures GroupCount(g) == TCNodeCount(GroupNodes(g))
    decreases g, |g.statementGroups| + |g.dynamicSubgroups| + 1
  {
    var s := StatementNodes(g, |g.statementGroups|);
    var d := SubgroupNodes(g, |g.dynamicSubgroups|);
    StatementsCountIsTCNodes(g, |g.statementGroups|);
    SubgroupsCountIsTCNodes(g, |g.dynamicSubgroups|);
    TCNodeCountAppend([g] + s, d);
    TCNodeCountAppend([g], s);
    assert [g][..0] == [];
  }

  lemma {:induction false} StatementsCountIsTCNodes(g: Group, n: nat)
    requires n <= |g.statementGroups|
    ensures StatementsCount(g, n) == TCNodeCount(StatementNodes(g, n))
    decreases g, n
  {
    if n > 0 {
      StatementsCountIsTCNodes(g, n - 1);
      DefinitionCountIsTCNodes(g.statementGroups[n - 1]);
      TCNodeCountAppend(StatementNodes(g, n - 1), Nodes(g.statementGroups[n - 1]));
    }
  }

  lemma {:induction false} SubgroupsCountIsTCNodes(g: Group, n: nat)
    requires n <= |g.dynamicSubgroups|
    ensures SubgroupsCount(g, n) == TCNodeCount(SubgroupNodes(g, n))
    decreases g, n
  {
    if n > 0 {
      SubgroupsCountIsTCNodes(g, n - 1);
      GroupCountIsTCNodes(g.dynamicSubgroups[n - 1]);
      TCNodeCountAppend(SubgroupNodes(g, n - 1), GroupNodes(g.dynamicSubgroups[n - 1]));
    }
  }

  lemma {:induction false} StatementNodesCover(g: Group, k: nat, n: nat)
    requires k < n <= |g.statementGroups|
    ensures |Nodes(g.statementGroups[k])| <= |StatementNodes(g, n)|
    decreases n
  {
    if k < n - 1 {
      StatementNodesCover(g, k, n - 1);
    }
  }

  lemma {:induction false} SubgroupNodesCover(g: Group, k: nat, n: nat)
    requires k < n <= |g.dynamicSubgroups|
    ensures |GroupNodes(g.dynamicSubgroups[k])| <= |SubgroupNodes(g, n)|
    decreases n
  {
    if k < n - 1 {
      SubgroupNodesCover(g, k, n - 1);
    }
  }

  /**
   * `numberOfDefinitions`: a running total over the statements and the
   * dynamic subgroups, recursing into each.
   */
  method NumberOfDefinitions(group: Option<Group>) returns (res: nat)
    ensures res == DefinitionCount(group)
    ensures res == TCNodeCount(Nodes(group))
    decreases |Nodes(group)|
  {
    DefinitionCountIsTCNodes(group);
    if group.None? {
      return 0;
    }
    var g := group.value;
    res := if g.isTCDefinition then 1 else 0;
    for i := 0 to |g.statementGroups|
      invariant res == (if g.isTCDefinition then 1 else 0) + StatementsCount(g, i)
    {
      StatementNodesCover(g, i, |g.statementGroups|);
      var n := NumberOfDefinitions(g.statementGroups[i]);
      res := res + n;
    }
    for i := 0 to |g.dynamicSubgroups|
      invariant res == (if g.isTCDefinition then 1 else 0) + StatementsCount(g, |g.statementGroups|)
                       + SubgroupsCount(g, i)
    {
      SubgroupNodesCover(g, i, |g.dynamicSubgroups|);
      var n := NumberOfDefinitions(Some(g.dynamicSubgroups[i]));
      res := res + n;
    }
  }

  // ---------------------------------------------------------------------------
  // Resolved references
  // ---------------------------------------------------------------------------

  /** What the resolver bound one segment of a long name to. */
  datatype RefResult = Unresolved | ErrorReference | Resolved(target: DefId)

  /**
   * The loop of `resolveReference` started at `i`: it advances while there is
   * a segment after the current one and the current one did not fail.
   */
  function LongNameIndexFrom(refs: seq<RefResult>, i: nat): (r: nat)
    decreases |refs| - i
    ensures i <= r
    ensures r == i || r <= |refs| - 1
    ensures forall j :: i <= j < r ==> !refs[j].ErrorReference?
    ensures r < |refs| - 1 ==> refs[r].ErrorReference?
  {
    if i < |refs| - 1 && !refs[i].ErrorReference? then LongNameIndexFrom(refs, i + 1) else i
  }

  /**
   * The segment of a long name whose resolution failed first: the smallest
   * index before the last one that holds an `ErrorReference`, or the last
   * index when there is none (0 for an empty or one-segment name).
   */
  function LongNameIndex(refs: seq<RefResult>): (r: nat)
    ensures |refs| <= 1 ==> r == 0
    ensures |refs| > 1 ==> r <= |refs| - 1
    ensures forall j :: 0 <= j < r ==> !refs[j].ErrorReference?
    ensures r < |refs| - 1 ==> refs[r].ErrorReference?
    ensures forall j :: 0 <= j < |refs| - 1 && refs[j].ErrorReference? ==> r <= j
  {
    LongNameIndexFrom(refs, 0)
  }

  /** The `while` loop of `resolveReference` that advances `index`. */
  method FindLongNameIndex(refs: seq<RefResult>) returns (index: nat)
    ensures index == LongNameIndex(refs)
  {
    index := 0;
    while index < |refs| - 1 && !refs[index].ErrorReference?
      invariant LongNameIndexFrom(refs, index) == LongNameIndex(refs)
      decreases |refs| - index
    {
      index := index + 1;
    }
  }

  /** One reference element of a long name in the syntax tree. */
  datatype RefElement = RefElement(
    isRefOrDefIdentifier: bool,   // an `ArendRefIdentifier` or `ArendDefIdentifier`
    hasLongNameRange: bool)       // the long-name text range can be computed for it

  /** The classification of a resolved referent that the highlighting uses. */
  datatype Referent = Referent(
    isMetaWithResolver: bool,     // (the original of) a meta referable with a resolver
    isInfixGlobal: bool)          // a global referable whose precedence is infix

  datatype Highlight =
    | MetaResolverHighlight(element: nat)
    | OperatorHighlight(element: nat)
    | LongNameHighlight(element: nat)

  /**
   * The classification of the last reference element: the meta-resolver class
   * takes precedence over the operator class, and neither applies unless the
   * element is a ref/def identifier.
   */
  function ClassifyLast(referent: Option<Referent>, last: RefElement, at: nat): (h: seq<Highlight>)
    ensures |h| <= 1
    ensures h == [MetaResolverHighlight(at)]
            <==> last.isRefOrDefIdentifier && referent.Some? && referent.value.isMetaWithResolver
    ensures h == [OperatorHighlight(at)]
            <==> last.isRefOrDefIdentifier && referent.Some? && !referent.value.isMetaWithResolver
                 && referent.value.isInfixGlobal
    ensures h == [] <==> !(last.isRefOrDefIdentifier && referent.Some?
                           && (referent.value.isMetaWithResolver || referent.value.isInfixGlobal))
  {
    if !last.isRefOrDefIdentifier || referent.None? then []
    else if referent.value.isMetaWithResolver then [MetaResolverHighlight(at)]
    else if referent.value.isInfixGlobal then [OperatorHighlight(at)]
    else []
  }

  /** `resolveReference` would index `list` out of bounds exactly when this fails. */
  predicate LongNameInBounds(list: seq<RefElement>, refs: seq<RefResult>)
  {
    list != [] && LongNameIndex(refs) > 0 ==> LongNameIndex(refs) < |list|
  }

  /** The highlights one `resolveReference` call adds. */
  function ReferenceHighlights(referent: Option<Referent>, list: seq<RefElement>, refs: seq<RefResult>): (h: seq<Highlight>)
    requires LongNameInBounds(list, refs)
    ensures list == [] ==> h == []
    ensures |h| <= 2
    ensures forall k :: 0 <= k < |h| && h[k].LongNameHighlight? ==>
              h[k].element == LongNameIndex(refs) && 0 < LongNameIndex(refs)
    ensures list != [] ==> ClassifyLast(referent, list[|list| - 1], |list| - 1) <= h
    ensures LongNameHighlight(LongNameIndex(refs)) in h
            <==> list != [] && 0 < LongNameIndex(refs) && list[LongNameIndex(refs)].hasLongNameRange
    ensures list != [] ==>
              var c := ClassifyLast(referent, list[|list| - 1], |list| - 1);
              && |h| <= |c| + 1
              && forall k :: |c| <= k < |h| ==> h[k].LongNameHighlight?
  {
    if list == [] then []
    else
      var index := LongNameIndex(refs);
      ClassifyLast(referent, list[|list| - 1], |list| - 1)
      + (if index > 0 && list[index].hasLongNameRange then [LongNameHighlight(index)] else [])
  }

  // ---------------------------------------------------------------------------
  // Collected definitions and their ordering
  // ---------------------------------------------------------------------------

  /** A definition reported by the resolver; only `Concrete.Definition`s are collected. */
  datatype ResolvedDefinition = ResolvedDefinition(data: DefId, isConcreteDefinition: bool)

  /** The `Concrete.Definition`s among the reported definitions, in resolution order. */
  function CollectedDefinitions(resolved: seq<ResolvedDefinition>): (r: seq<DefId>)
    ensures |r| <= |resolved|
    ensures forall x :: x in r <==>
              exists i :: 0 <= i < |resolved| && resolved[i].isConcreteDefinition && resolved[i].data == x
  {
    if resolved == [] then []
    else
      var init := resolved[..|resolved| - 1];
      var last := resolved[|resolved| - 1];
      assert forall i :: 0 <= i < |init| ==> init[i] == resolved[i];
      CollectedDefinitions(init) + (if last.isConcreteDefinition then [last.data] else [])
  }

  /** Collecting distributes over concatenation: the resolution order is kept. */
  lemma {:induction false} CollectedDefinitionsAppend(a: seq<ResolvedDefinition>, b: seq<ResolvedDefinition>)
    ensures CollectedDefinitions(a + b) == CollectedDefinitions(a) + CollectedDefinitions(b)
    decreases |b|
  {
    if b == [] {
      assert a + b == a;
    } else {
      var init, last := b[..|b| - 1], b[|b| - 1];
      assert (a + b)[..|a + b| - 1] == a + init;
      CollectedDefinitionsAppend(a, init);
    }
  }

  /**
   * The definition the ordering starts with: the file's last-modified
   * definition, provided the concrete provider yields a `Concrete.Definition`
   * for it (`concrete` is the set of those).
   */
  function LastModifiedConcrete(fileLastModified: Option<DefId>, concrete: set<DefId>): (r: Option<DefId>)
    ensures r.Some? <==> fileLastModified.Some? && fileLastModified.value in concrete
    ensures r.Some? ==> r == fileLastModified
  {
    if fileLastModified.Some? && fileLastModified.value in concrete then fileLastModified else None
  }

  function OptionToSeq(o: Option<DefId>): seq<DefId>
  {
    if o.Some? then [o.value] else []
  }

  /** The collected definitions other than the last-modified one, in order. */
  function OtherDefinitions(definitions: seq<DefId>, lastModified: Option<DefId>): (r: seq<DefId>)
  {
    if definitions == [] then []
    else
      var init := definitions[..|definitions| - 1];
      var last := definitions[|definitions| - 1];
      assert definitions == init + [last];
      OtherDefinitions(init, lastModified) + (if Some(last) != lastModified then [last] else [])
  }

  /** The second collector receives exactly the collected definitions other than the last-modified one. */
  lemma {:induction false} OtherDefinitionsMembers(definitions: seq<DefId>, lastModified: Option<DefId>)
    ensures |OtherDefinitions(definitions, lastModified)| <= |definitions|
    ensures forall x :: x in OtherDefinitions(definitions, lastModified) <==> x in definitions && Some(x) != lastModified
    decreases |definitions|
  {
    if definitions != [] {
      var init := definitions[..|definitions| - 1];
      assert definitions == init + [definitions[|definitions| - 1]];
      OtherDefinitionsMembers(init, lastModified);
    }
  }

  lemma OtherDefinitionsStep(definitions: seq<DefId>, i: nat, lastModified: Option<DefId>)
    requires i < |definitions|
    ensures OtherDefinitions(definitions[..i + 1], lastModified)
            == OtherDefinitions(definitions[..i], lastModified)
               + (if Some(definitions[i]) != lastModified then [definitions[i]] else [])
  {
    assert definitions[..i + 1][..i] == definitions[..i];
  }

  /**
   * Every collected definition is handed to the ordering exactly as often as
   * it was collected, except the last-modified one, which is handed over
   * exactly once (first, into the first collector).
   */
  lemma OrderingMultiset(definitions: seq<DefId>, lastModified: Option<DefId>)
    ensures forall x :: multiset(OptionToSeq(lastModified) + OtherDefinitions(definitions, lastModified))[x]
                        == if Some(x) == lastModified then 1 else multiset(definitions)[x]
  {
    forall x
      ensures multiset(OptionToSeq(lastModified) + OtherDefinitions(definitions, lastModified))[x]
              == if Some(x) == lastModified then 1 else multiset(definitions)[x]
    {
      OrderingCount(definitions, lastModified, x);
    }
  }

  lemma {:induction false} OrderingCount(definitions: seq<DefId>, lastModified: Option<DefId>, x: DefId)
    ensures multiset(OptionToSeq(lastModified) + OtherDefinitions(definitions, lastModified))[x]
            == if Some(x) == lastModified then 1 else multiset(definitions)[x]
    decreases |definitions|
  {
    var first := OptionToSeq(lastModified);
    if definitions == [] {
      assert first + OtherDefinitions(definitions, lastModified) == first;
    } else {
      var init := definitions[..|definitions| - 1];
      var last := definitions[|definitions| - 1];
      assert definitions == init + [last];
      var rest := OtherDefinitions(init, lastModified);
      var step := if Some(last) != lastModified then [last] else [];
      OrderingCount(init, lastModified, x);
      assert first + OtherDefinitions(definitions, lastModified) == first + (rest + step);
      CountAppend(first, rest, step, x);
      CountAppend(init, [last], [], x);
      var own := if x == last then 1 else 0;
      assert multiset([last])[x] == own;
      assert multiset(step)[x] == if Some(x) == lastModified then 0 else own;
    }
  }

  lemma CountAppend(a: seq<DefId>, b: seq<DefId>, c: seq<DefId>, x: DefId)
    ensures multiset(a + (b + c))[x] == multiset(a + b)[x] + multiset(c)[x]
    ensures multiset(a + b)[x] == multiset(a)[x] + multiset(b)[x]
  {
    assert a + (b + c) == (a + b) + c;
  }

  /**
   * When the collected definitions are distinct and contain the last-modified
   * one, the two collectors together receive every collected definition
   * exactly once.
   */
  lemma OrderingEachOnce(definitions: seq<DefId>, lastModified: Option<DefId>)
    requires forall i, j :: 0 <= i < j < |definitions| ==> definitions[i] != definitions[j]
    requires lastModified.Some? ==> lastModified.value in definitions
    ensures forall x :: x in definitions ==>
              multiset(OptionToSeq(lastModified) + OtherDefinitions(definitions, lastModified))[x] == 1
    ensures forall x :: x !in definitions ==>
              multiset(OptionToSeq(lastModified) + OtherDefinitions(definitions, lastModified))[x] == 0
  {
    OrderingMultiset(definitions, lastModified);
    forall x | x in definitions
      ensures multiset(definitions)[x] == 1
    {
      DistinctOccursOnce(definitions, x);
    }
  }

  lemma {:induction false} DistinctOccursOnce(s: seq<DefId>, x: DefId)
    requires forall i, j :: 0 <= i < j < |s| ==> s[i] != s[j]
    requires x in s
    ensures multiset(s)[x] == 1
    decreases |s|
  {
    var init := s[..|s| - 1];
    var last := s[|s| - 1];
    assert s == init + [last];
    if last == x {
      assert x !in init;
    } else {
      DistinctOccursOnce(init, x);
    }
  }

  /** How a background run is started: at once (unit-test mode) or through the task queue. */
  datatype TaskMode = RunNow | Queued(clock: int)

  /** The record of a background typechecker launch and what it is given. */
  datatype Launch = Launch(
    stamp: int,
    lastModified: Option<DefId>,
    first: seq<DefId>,
    rest: seq<DefId>,
    mode: TaskMode)

  class ArendHighlightingPass {
    const file: ArendFile
    /** The definition-modification count when the pass was created. */
    const lastDefinitionModification: int
    /** The modification stamp the pass publishes to the file. */
    var lastModification: int

    /** The `Concrete.Definition`s collected by the current `collectInfo` call. */
    var definitions: seq<DefId>
    var collector1: seq<DefId>
    var collector2: seq<DefId>
    var lastModifiedDefinition: Option<DefId>
    var progress: nat
    var progressLimit: nat
    var highlights: seq<Highlight>
    var launches: seq<Launch>

    constructor (file: ArendFile, lastDefinitionModification: int)
      ensures this.file == file && this.lastDefinitionModification == lastDefinitionModification
      ensures lastModification == 0
      ensures definitions == [] && collector1 == [] && collector2 == []
      ensures lastModifiedDefinition == None
      ensures progress == 0 && progressLimit == 0 && highlights == [] && launches == []
    {
      this.file := file;
      this.lastDefinitionModification := lastDefinitionModification;
      lastModification := 0;
      definitions, collector1, collector2 := [], [], [];
      lastModifiedDefinition := None;
      progress, progressLimit := 0, 0;
      highlights, launches := [], [];
    }

    /** The resolver's callback for one (possibly long) name. */
    method ResolveReference(referent: Option<Referent>, list: seq<RefElement>, resolvedRefs: seq<RefResult>)
      requires LongNameInBounds(list, resolvedRefs)
      modifies this`highlights
      ensures highlights == old(highlights) + ReferenceHighlights(referent, list, resolvedRefs)
    {
      if list == [] {
        return;
      }
      var lastReference := list[|list| - 1];
      if lastReference.isRefOrDefIdentifier && referent.Some? {
        if referent.value.isMetaWithResolver {
          highlights := highlights + [MetaResolverHighlight(|list| - 1)];
        } else if referent.value.isInfixGlobal {
          highlights := highlights + [OperatorHighlight(|list| - 1)];
        }
      }

      var index := FindLongNameIndex(resolvedRefs);
      if index > 0 {
        if list[index].hasLongNameRange {
          highlights := highlights + [LongNameHighlight(index)];
        }
      }
    }

    /** The resolver's callback for one resolved definition. */
    method DefinitionResolved(definition: ResolvedDefinition)
      modifies this`definitions, this`progress
      ensures definitions == old(definitions) + CollectedDefinitions([definition])
      ensures progress == old(progress) + 1
    {
      if definition.isConcreteDefinition {
        definitions := definitions + [definition.data];
      }
      progress := progress + 1;
    }

    /** The resolver reports `resolved` in order, one `definitionResolved` call each. */
    method ReportResolved(resolved: seq<ResolvedDefinition>)
      modifies this`definitions, this`progress
      ensures definitions == old(definitions) + CollectedDefinitions(resolved)
      ensures progress == old(progress) + |resolved|
    {
      for i := 0 to |resolved|
        invariant definitions == old(definitions) + CollectedDefinitions(resolved[..i])
        invariant progress == old(progress) + i
      {
        assert resolved[..i + 1][..i] == resolved[..i];
        DefinitionResolved(resolved[i]);
      }
      assert resolved[..|resolved|] == resolved;
    }

    /**
     * The ordering part of `collectInfo`: the last-modified definition (if its
     * concrete form is a definition) is ordered into the first collector, then
     * the listener is switched and every other collected definition is ordered
     * into the second.
     */
    method OrderCollected(concrete: set<DefId>)
      modifies this`lastModifiedDefinition, this`collector1, this`collector2
      ensures var lastModified := LastModifiedConcrete(file.lastModifiedDefinition, concrete);
              && lastModifiedDefinition == (if lastModified.Some? then lastModified else old(lastModifiedDefinition))
              && collector1 == old(collector1) + OptionToSeq(lastModified)
              && collector2 == old(collector2) + OtherDefinitions(definitions, lastModified)
    {
      var lastModified := LastModifiedConcrete(file.lastModifiedDefinition, concrete);
      if lastModified.Some? {
        lastModifiedDefinition := lastModified;
        collector1 := collector1 + [lastModified.value];
      }
      ghost var first := collector1;
      ghost var chosen := lastModifiedDefinition;
      for i := 0 to |definitions|
        invariant collector1 == first && lastModifiedDefinition == chosen
        invariant collector2 == old(collector2) + OtherDefinitions(definitions[..i], lastModified)
      {
        OtherDefinitionsStep(definitions, i, lastModified);
        if Some(definitions[i]) != lastModified {
          collector2 := collector2 + [definitions[i]];
        }
      }
      assert definitions[..|definitions|] == definitions;
    }

    /** `collectInfo`: a fresh list of definitions, resolution, then ordering. */
    method CollectInfo(resolved: seq<ResolvedDefinition>, concrete: set<DefId>)
      modifies this`definitions, this`progress, this`lastModifiedDefinition, this`collector1, this`collector2
      ensures definitions == CollectedDefinitions(resolved)
      ensures progress == old(progress) + |resolved|
      ensures var lastModified := LastModifiedConcrete(file.lastModifiedDefinition, concrete);
              && lastModifiedDefinition == (if lastModified.Some? then lastModified else old(lastModifiedDefinition))
              && collector1 == old(collector1) + OptionToSeq(lastModified)
              && collector2 == old(collector2) + OtherDefinitions(definitions, lastModified)
    {
      definitions := [];
      ReportResolved(resolved);
      OrderCollected(concrete);
    }

    /** `collectInformationWithProgress`: only when the typechecking service is loaded. */
    method CollectInformationWithProgress(isLoaded: bool, fileGroup: Group, resolved: seq<ResolvedDefinition>, concrete: set<DefId>)
      modifies this`definitions, this`progress, this`progressLimit, this`lastModifiedDefinition,
               this`collector1, this`collector2
      ensures !isLoaded ==> definitions == old(definitions) && progress == old(progress)
                            && progressLimit == old(progressLimit) && collector1 == old(collector1)
                            && collector2 == old(collector2) && lastModifiedDefinition == old(lastModifiedDefinition)
      ensures isLoaded ==> progressLimit == TCNodeCount(GroupNodes(fileGroup))
      ensures isLoaded ==> definitions == CollectedDefinitions(resolved)
                           && progress == old(progress) + |resolved|
      ensures isLoaded ==>
                var lastModified := LastModifiedConcrete(file.lastModifiedDefinition, concrete);
                && lastModifiedDefinition == (if lastModified.Some? then lastModified else old(lastModifiedDefinition))
                && collector1 == old(collector1) + OptionToSeq(lastModified)
                && collector2 == old(collector2) + OtherDefinitions(definitions, lastModified)
    {
      if isLoaded {
        var n := NumberOfDefinitions(Some(fileGroup));
        progressLimit := n;
        CollectInfo(resolved, concrete);
      }
    }

    /**
     * `applyInformationWithProgress`: publish the modification stamp (it never
     * decreases) and launch a background run unless both collectors are empty.
     */
    method ApplyInformation(currentDefinitionModification: int, unitTestMode: bool)
      modifies file`lastModification, this`launches
      ensures file.lastModification == Max(old(file.lastModification), lastModification)
      ensures file.lastModification >= old(file.lastModification)
      ensures collector1 == [] && collector2 == [] ==> launches == old(launches)
      ensures collector1 != [] || collector2 != [] ==>
                launches == old(launches) + [Launch(
                  Max(lastDefinitionModification, currentDefinitionModification),
                  lastModifiedDefinition, collector1, collector2,
                  if unitTestMode then RunNow else Queued(lastDefinitionModification))]
    {
      file.lastModification := Max(file.lastModification, lastModification);
      if collector1 == [] && collector2 == [] {
        return;
      }
      var stamp := Max(lastDefinitionModification, currentDefinitionModification);
      var mode := if unitTestMode then RunNow else Queued(lastDefinitionModification);
      launches := launches + [Launch(stamp, lastModifiedDefinition, collector1, collector2, mode)];
    }
  }
}
