/** The link store of the state network. Links are taken in either into a flat buffer, which is
    sorted and merged into compressed rows when somebody reads, or into a nested map, which is
    written out as rows. Whatever the order of additions, reads and changes of representation, the
    store denotes the map that eager insertion would have built. */
module LinkStores {
  import opened LinkLists

  /** What the store asks of a weight. */
  datatype WeightRules<!W> = WeightRules(
    plus: (W, W) -> W,
    isFinite: W -> bool,
    isNegative: W -> bool,
    isBelowThreshold: W -> bool,
    isZero: W -> bool)
  {
    predicate Refuses(w: W) { !isFinite(w) || isNegative(w) }

    predicate Ignores(w: W) { isBelowThreshold(w) || isZero(w) }
  }

  /** Refused by an exception, filtered out, or taken in. */
  datatype Outcome = Refused | Filtered | Taken(isNew: bool)

  /** A directed network is left alone, and a reversed weight that is refused ends the expansion. */
  datatype Expansion = NotUndirected | Stopped | Expanded

  ghost predicate EndsIn<W>(links: seq<Link<W>>, nodes: set<nat>)
  {
    forall i :: 0 <= i < |links| ==> links[i].source in nodes && links[i].target in nodes
  }

  ghost predicate KeysIn<W>(links: map<Key, W>, nodes: set<nat>)
  {
    forall key :: key in links ==> key.source in nodes && key.target in nodes
  }

  /** The nested map holds the same links, and no source without links. */
  ghost predicate NestedIs<W>(nested: map<nat, map<nat, W>>, links: map<Key, W>)
  {
    && (forall s :: s in nested ==> nested[s] != map[])
    && (forall s, t :: s in nested && t in nested[s] ==> Key(s, t) in links && links[Key(s, t)] == nested[s][t])
    && (forall key: Key :: key in links ==> key.source in nested && key.target in nested[key.source])
  }

  /** The nested map with one more link, or with another weight for one it has. */
  function NestedWith<W>(nested: map<nat, map<nat, W>>, s: nat, t: nat, w: W): map<nat, map<nat, W>>
  {
    nested[s := (if s in nested then nested[s] else map[])[t := w]]
  }

  lemma {:induction false} NestedAdded<W>(nested: map<nat, map<nat, W>>, links: map<Key, W>, s: nat, t: nat, w: W)
    requires NestedIs(nested, links)
    ensures NestedIs(NestedWith(nested, s, t, w), links[Key(s, t) := w])
    ensures Key(s, t) in links <==> s in nested && t in nested[s]
    ensures Key(s, t) in links ==> nested[s][t] == links[Key(s, t)]
  {
    var more := NestedWith(nested, s, t, w);
    assert t in more[s];
    forall s' | s' in more ensures more[s'] != map[] {
      if s' == s { assert t in more[s]; }
    }
  }

  ghost predicate IdsOf(ids: seq<nat>, nodes: set<nat>)
  {
    Increasing(ids) && forall id :: id in ids <==> id in nodes
  }

  lemma {:induction false} EagerKeysIn<W>(plus: (W, W) -> W, links: seq<Link<W>>, nodes: set<nat>)
    requires EndsIn(links, nodes)
    ensures KeysIn(Eager(plus, links), nodes)
  {
    if links != [] { EagerKeysIn(plus, links[..|links| - 1], nodes); }
  }

  /** The keys of a set in increasing order, as an ordered container lists them. */
  method SortedIds(nodes: set<nat>) returns (ids: seq<nat>)
    ensures IdsOf(ids, nodes)
  {
    ids := [];
    var rest := nodes;
    while rest != {}
      invariant rest <= nodes && Increasing(ids)
      invariant forall id :: id in ids <==> id in nodes && id !in rest
      decreases rest
    {
      var id :| id in rest;
      rest := rest - {id};
      var at := |ids|;
      while at > 0 && id < ids[at - 1]
        invariant 0 <= at <= |ids|
        invariant forall k :: at <= k < |ids| ==> id < ids[k]
      {
        at := at - 1;
      }
      IdInserted(ids, id, at);
      ids := ids[..at] + [id] + ids[at..];
    }
  }

  lemma {:induction false} IdInserted(ids: seq<nat>, id: nat, at: nat)
    requires Increasing(ids) && at <= |ids| && id !in ids
    requires forall k :: at <= k < |ids| ==> id < ids[k]
    requires at > 0 ==> ids[at - 1] <= id
    ensures Increasing(ids[..at] + [id] + ids[at..])
    ensures forall other :: other in ids[..at] + [id] + ids[at..] <==> other in ids || other == id
  {
    var more := ids[..at] + [id] + ids[at..];
    forall k | 0 <= k < at ensures ids[k] < id {
      assert k < at - 1 ==> ids[k] < ids[at - 1];
      assert ids[k] in ids;
    }
    forall k, l | 0 <= k < l < |more| ensures more[k] < more[l] {
      assert k < at ==> more[k] == ids[k];
      assert l < at ==> more[l] == ids[l];
      assert k > at ==> more[k] == ids[k - 1];
      assert l > at ==> more[l] == ids[l - 1];
    }
    InsertedMembers(ids, id, at);
  }

  lemma {:induction false} InsertedMembers(ids: seq<nat>, id: nat, at: nat)
    requires at <= |ids|
    ensures forall other :: other in ids[..at] + [id] + ids[at..] <==> other in ids || other == id
  {
    assert ids == ids[..at] + ids[at..];
  }

  // ----- Writing rows -----

  /** Everything written so far is right, and row cur is the one being written. */
  ghost predicate Writing<W>(nodeIds: seq<nat>, offsets: seq<nat>, cur: nat, targets: seq<nat>, weights: seq<W>,
                             rows: seq<Link<W>>)
  {
    && |offsets| == |nodeIds| + 1 && EntriesHold(nodeIds, targets, weights, rows)
       && RowOpen(nodeIds, offsets, cur, rows)
  }

  lemma {:induction false} WritingStart<W>(nodeIds: seq<nat>, offsets: seq<nat>)
    requires Increasing(nodeIds) && |offsets| == |nodeIds| + 1 && offsets[0] == 0
    ensures Writing<W>(nodeIds, offsets, 0, [], [], [])
  {
  }

  /** A link behind all others, in the current row. */
  lemma {:induction false} WritingLink<W>(nodeIds: seq<nat>, offsets: seq<nat>, cur: nat, targets: seq<nat>,
                                          weights: seq<W>,
                                          rows: seq<Link<W>>, link: Link<W>, target: nat)
    requires Writing(nodeIds, offsets, cur, targets, weights, rows) && cur < |nodeIds| && link.source == nodeIds[cur]
    requires target < |nodeIds| && nodeIds[target] == link.target
    requires forall e :: 0 <= e < |rows| ==> rows[e].Ends().Less(link.Ends())
    ensures Writing(nodeIds, offsets, cur, targets + [target], weights + [link.weight], rows + [link])
  {
    RowAppend(nodeIds, offsets, cur, rows, link);
  }

  /** Close the rows before row upTo. */
  method AdvanceRows<W>(nodeIds: seq<nat>, offsets: seq<nat>, cur: nat, upTo: nat, targets: seq<nat>,
                        ghost weights: seq<W>, ghost rows: seq<Link<W>>)
    returns (offsets': seq<nat>)
    requires Writing(nodeIds, offsets, cur, targets, weights, rows) && cur <= upTo <= |nodeIds|
    ensures Writing(nodeIds, offsets', upTo, targets, weights, rows)
  {
    hide EntriesHold, RowOpen;
    offsets' := offsets;
    var curSourceIndex := cur;
    while curSourceIndex < upTo
      invariant cur <= curSourceIndex <= upTo
      invariant Writing(nodeIds, offsets', curSourceIndex, targets, weights, rows)
    {
      RowAdvance(nodeIds, offsets', curSourceIndex, rows);
      SameCount(nodeIds, targets, weights, rows);
      curSourceIndex := curSourceIndex + 1;
      offsets' := offsets'[curSourceIndex := |targets|];
    }
  }

  lemma {:induction false} SameCount<W>(nodeIds: seq<nat>, targets: seq<nat>, weights: seq<W>, rows: seq<Link<W>>)
    requires EntriesHold(nodeIds, targets, weights, rows)
    ensures |targets| == |rows| && KeysSorted(rows) && Increasing(nodeIds)
  {
  }

  lemma {:induction false} WritingEnd<W>(nodeIds: seq<nat>, offsets: seq<nat>, targets: seq<nat>, weights: seq<W>,
                                         rows: seq<Link<W>>)
    requires Writing(nodeIds, offsets, |nodeIds|, targets, weights, rows)
    ensures CsrHolds(nodeIds, offsets, targets, weights, rows)
  {
  }

  /** Position of an id that is present. */
  method IndexOfId(nodeIds: seq<nat>, id: nat) returns (at: nat)
    requires Increasing(nodeIds) && id in nodeIds
    ensures at < |nodeIds| && nodeIds[at] == id
  {
    var low, high := 0, |nodeIds|;
    while low < high
      invariant 0 <= low <= high <= |nodeIds|
      invariant forall k :: 0 <= k < low ==> nodeIds[k] < id
      invariant forall k :: high <= k < |nodeIds| ==> nodeIds[k] >= id
    {
      var mid := (low + high) / 2;
      if nodeIds[mid] < id { low := mid + 1; } else { high := mid; }
    }
    ghost var k :| 0 <= k < |nodeIds| && nodeIds[k] == id;
    at := low;
  }

  class LinkStore<W> {
    const rules: WeightRules<W>
    const noSelfLinks: bool
    const undirectedFlow: bool

    var nodes: set<nat>
    var nodeLinkMap: map<nat, map<nat, W>>
    var linkBuffer: seq<Link<W>>
    var useMapBuild: bool
    var linksFinalized: bool
    var rawLinkCount: nat

    var nodeIds: seq<nat>
    var linkOffsets: seq<nat>
    var linkTargets: seq<nat>
    var linkWeights: seq<W>

    var numLinks: nat
    var numAggregatedLinks: int

    /** The map that eager insertion would have built. */
    ghost var contents: map<Key, W>
    /** The links in the rows. */
    ghost var rows: seq<Link<W>>

    constructor (rules: WeightRules<W>, noSelfLinks: bool, undirectedFlow: bool, useMapBuild: bool)
      ensures Valid() && contents == map[] && nodes == {} && !linksFinalized
      ensures this.rules == rules && this.noSelfLinks == noSelfLinks && this.undirectedFlow == undirectedFlow
      ensures this.useMapBuild == useMapBuild
    {
      this.rules, this.noSelfLinks, this.undirectedFlow := rules, noSelfLinks, undirectedFlow;
      this.useMapBuild := useMapBuild;
      nodes, nodeLinkMap, linkBuffer, linksFinalized, rawLinkCount := {}, map[], [], false, 0;
      nodeIds, linkOffsets, linkTargets, linkWeights := [], [], [], [];
      numLinks, numAggregatedLinks := 0, 0;
      contents, rows := map[], [];
    }

    /** The rows hold exactly the contents. */
    ghost predicate CsrOk()
      reads this
    {
      && CsrHolds(nodeIds, linkOffsets, linkTargets, linkWeights, rows)
      && Eager(rules.plus, rows) == contents && EndsIn(rows, nodes)
      && forall id :: id in nodeIds ==> id in nodes
    }

    /** The representation that is being built holds exactly the contents. */
    ghost predicate Sound()
      reads this
    {
      && KeysIn(contents, nodes)
      && if useMapBuild then NestedIs(nodeLinkMap, contents) && numLinks == |contents|
         else if linksFinalized then linkBuffer == [] && numLinks == |contents|
         else Eager(rules.plus, linkBuffer) == contents && EndsIn(linkBuffer, nodes) && rawLinkCount == |linkBuffer|
    }

    ghost predicate Valid()
      reads this
    {
      Sound() && (linksFinalized ==> CsrOk())
    }

    /** Links counted since the flat buffer was last opened: those there are and those added up into them. */
    ghost function Counted(): int
      reads this
    {
      if useMapBuild || linksFinalized then |contents| + numAggregatedLinks else rawLinkCount
    }

    /** Where the store stands between building and reading. */
    ghost function StandingNow(): Standing
      reads this
    {
      Standing(useMapBuild, linksFinalized, nodes, if linksFinalized then nodes - (set id | id in nodeIds) else {})
    }

    // ----- Adding -----

    /** A node added after the rows were built gets a row only when they are built again. */
    method AddNode(id: nat)
      requires Valid()
      modifies `nodes
      ensures Valid() && nodes == old(nodes) + {id}
      ensures StandingNow() == old(StandingNow()).WithNode(id)
    {
      nodes := nodes + {id};
    }

    method AddLink(source: nat, target: nat, weight: W) returns (outcome: Outcome)
      requires Valid()
      modifies this
      ensures Valid() && useMapBuild == old(useMapBuild)
      ensures outcome.Refused? <==> rules.Refuses(weight)
      ensures outcome.Filtered? <==>
                !rules.Refuses(weight) && (rules.Ignores(weight) || (source == target && noSelfLinks))
      ensures !outcome.Taken? ==>
                contents == old(contents) && nodes == old(nodes) && linksFinalized == old(linksFinalized)
      ensures outcome.Taken? ==>
                && contents == Added(rules.plus, old(contents), Link(source, target, weight))
                && nodes == old(nodes) + {source, target} && !linksFinalized
      ensures outcome.Taken? ==> (outcome.isNew <==> !useMapBuild || Key(source, target) !in old(contents))
      ensures nodeIds == old(nodeIds)
      ensures Counted() == if !outcome.Taken? then old(Counted())
                           else 1 + if !useMapBuild && old(linksFinalized) then old(|contents|) else old(Counted())
    {
      hide CsrHolds, NestedIs, Added, Eager, KeysIn;
      if !rules.isFinite(weight) || rules.isNegative(weight) {
        return Refused;
      }
      if rules.isBelowThreshold(weight) || rules.isZero(weight) {
        return Filtered;
      }
      if source == target && noSelfLinks {
        return Filtered;
      }
      AddNode(source);
      AddNode(target);
      if useMapBuild {
        var isNew := AddLinkToMap(source, target, weight);
        return Taken(isNew);
      }
      AddLinkToBuffer(source, target, weight);
      return Taken(true);
    }

    /** Deferred storage: what is new is not known until the buffer is sorted. */
    method AddLinkToBuffer(source: nat, target: nat, weight: W)
      requires Valid() && !useMapBuild && source in nodes && target in nodes
      modifies `linkBuffer, `rawLinkCount, `linkOffsets, `linkTargets, `linkWeights, `linksFinalized, `contents
      ensures Valid() && !linksFinalized
      ensures contents == Added(rules.plus, old(contents), Link(source, target, weight))
      ensures rawLinkCount == 1 + if old(linksFinalized) then old(|contents|) else old(rawLinkCount)
      ensures useMapBuild == old(useMapBuild)
    {
      hide CsrHolds, NestedIs, Added, Eager, KeysIn, EndsIn;
      if linksFinalized {
        Definalize();
      }
      var link := Link(source, target, weight);
      EagerAppend(rules.plus, linkBuffer, link);
      AddedKeysIn(rules.plus, contents, nodes, link);
      EndsInMore(linkBuffer, nodes, link);
      rawLinkCount := rawLinkCount + 1;
      linkBuffer := linkBuffer + [link];
      contents := Added(rules.plus, contents, link);
    }

    static lemma {:induction false} AddedKeysIn(plus: (W, W) -> W, links: map<Key, W>, nodes: set<nat>, link: Link<W>)
      requires KeysIn(links, nodes) && link.source in nodes && link.target in nodes
      ensures KeysIn(Added(plus, links, link), nodes)
    {
    }

    method AddLinkToMap(source: nat, target: nat, weight: W) returns (isNew: bool)
      requires Sound() && useMapBuild && source in nodes && target in nodes
      modifies `linksFinalized, `numLinks, `numAggregatedLinks, `nodeLinkMap, `contents
      ensures Valid() && !linksFinalized
      ensures contents == Added(rules.plus, old(contents), Link(source, target, weight))
      ensures isNew <==> Key(source, target) !in old(contents)
      ensures numAggregatedLinks == old(numAggregatedLinks) + (if isNew then 0 else 1)
      ensures Counted() == old(|contents|) + old(numAggregatedLinks) + 1
    {
      hide NestedIs, KeysIn, Eager, CsrHolds;
      ghost var key, after := Key(source, target), Added(rules.plus, contents, Link(source, target, weight));
      AddedKeysIn(rules.plus, contents, nodes, Link(source, target, weight));
      AddedSize(contents, key, after[key]);
      NestedAdded(nodeLinkMap, contents, source, target, after[key]);
      linksFinalized := false;
      isNew := true;
      var outLinks := if source in nodeLinkMap then nodeLinkMap[source] else map[];
      if target in outLinks {
        outLinks := outLinks[target := rules.plus(outLinks[target], weight)];
        numAggregatedLinks := numAggregatedLinks + 1;
        isNew := false;
      } else {
        outLinks := outLinks[target := weight];
        numLinks := numLinks + 1;
      }
      nodeLinkMap := nodeLinkMap[source := outLinks];
      contents := after;
    }

    // ----- Reading -----

    /** Build the rows, unless they are there already. */
    method FinalizeLinks()
      requires Valid()
      modifies this
      ensures Valid() && linksFinalized
      ensures contents == old(contents) && nodes == old(nodes) && useMapBuild == old(useMapBuild)
      ensures old(linksFinalized) ==> nodeIds == old(nodeIds) && rows == old(rows)
      ensures !old(linksFinalized) ==> IdsOf(nodeIds, nodes)
      ensures numLinks == |contents|
      ensures Counted() == old(Counted())
    {
      hide CsrHolds, Eager, EndsIn, KeysIn, NestedIs, IdsOf;
      if linksFinalized {
        return;
      }
      if useMapBuild {
        BuildCsrFromMap();
      } else {
        BuildCsrFromBuffer();
      }
      linksFinalized := true;
    }

    /** Sort and merge the flat buffer. */
    method BuildCsrFromBuffer()
      requires Sound() && !useMapBuild && !linksFinalized
      modifies `nodeIds, `linkOffsets, `linkTargets, `linkWeights, `linkBuffer, `numLinks, `numAggregatedLinks, `rows
      ensures CsrOk() && IdsOf(nodeIds, nodes)
      ensures linkBuffer == [] && numLinks == |contents| && numAggregatedLinks == rawLinkCount - numLinks
    {
      hide CsrHolds, KeysIn, Sorted, Eager, IdsOf, EndsIn;
      var ids := SortedIds(nodes);
      var order := SortOrder(linkBuffer);
      ghost var merged;
      linkOffsets, linkTargets, linkWeights, merged := MergeBuffer(rules.plus, linkBuffer, order, ids, nodes);
      IdsMembers(ids, nodes);
      SortedSize(rules.plus, merged);
      nodeIds, rows := ids, merged;
      linkBuffer := [];
      numLinks := |linkTargets|;
      numAggregatedLinks := rawLinkCount - numLinks;
    }

    /** Merge the duplicates of the sorted buffer and write the rows in one pass. */
    static method MergeBuffer(plus: (W, W) -> W, buf: seq<Link<W>>, order: seq<nat>, ids: seq<nat>,
                              ghost nodes: set<nat>)
      returns (offsets: seq<nat>, targets: seq<nat>, weights: seq<W>, ghost merged: seq<Link<W>>)
      requires Sorted(buf, order, |buf|) && EndsIn(buf, nodes) && IdsOf(ids, nodes)
      ensures CsrHolds(ids, offsets, targets, weights, merged) && KeysSorted(merged) && |targets| == |merged|
      ensures Eager(plus, merged) == Eager(plus, buf) && EndsIn(merged, nodes)
    {
      hide Writing, CsrHolds, MergedUpTo, Sorted, Eager, IdsOf, EndsIn, Arranged;
      ghost var arranged := SortedParts(plus, buf, order, nodes, ids);
      offsets := seq(|ids| + 1, (s: nat) => 0);
      targets, weights, merged := [], [], [];
      IdsIncreasing(ids, nodes);
      WritingStart<W>(ids, offsets);
      MergeStart(plus, arranged);
      EndsOfNone(nodes);
      var k, curSourceIndex := 0, 0;
      while k < |buf|
        invariant 0 <= k <= |buf| && 0 <= curSourceIndex <= |ids|
        invariant MergedUpTo(plus, arranged, k, merged) && EndsIn(merged, nodes)
        invariant Writing(ids, offsets, curSourceIndex, targets, weights, merged)
        invariant k < |buf| ==> curSourceIndex < |ids|
        invariant forall j :: k <= j < |buf| && curSourceIndex < |ids| ==> ids[curSourceIndex] <= arranged[j].source
      {
        GroupEnds(arranged, k, nodes, ids);
        MergedBefore(plus, arranged, k, merged);
        var src, tgt := buf[order[k]].source, buf[order[k]].target;
        var w, m := MergeGroup(plus, buf, order, k, merged);
        ghost var link := arranged[k].(weight := w);
        var srcIdx := IndexOfId(ids, src);
        IncreasingOrder(ids, srcIdx, curSourceIndex);
        offsets := AdvanceRows(ids, offsets, curSourceIndex, srcIdx, targets, weights, merged);
        curSourceIndex := srcIdx;
        var tgtIdx := IndexOfId(ids, tgt);
        WritingLink(ids, offsets, curSourceIndex, targets, weights, merged, link, tgtIdx);
        EndsInMore(merged, nodes, link);
        targets, weights, merged := targets + [tgtIdx], weights + [w], merged + [link];
        SourcesFollow(arranged, k, m);
        k := m;
      }
      MergedAll(plus, arranged, merged);
      offsets := AdvanceRows(ids, offsets, curSourceIndex, |ids|, targets, weights, merged);
      WritingEnd(ids, offsets, targets, weights, merged);
      WritingSize(ids, offsets, |ids|, targets, weights, merged);
    }

    /** Add up one group of duplicates from left to right. */
    static method MergeGroup(plus: (W, W) -> W, buf: seq<Link<W>>, order: seq<nat>, k: nat, ghost rows: seq<Link<W>>)
      returns (w: W, m: nat)
      requires Sorted(buf, order, |buf|) && k < |order|
      requires MergedUpTo(plus, Arranged(buf, order), k, rows)
      ensures k < m <= |order|
      ensures MergedUpTo(plus, Arranged(buf, order), m, rows + [Arranged(buf, order)[k].(weight := w)])
    {
      hide MergedUpTo, MergedInGroup, Eager, WeaklySorted;
      ghost var arranged := Arranged(buf, order);
      ArrangedSorted(buf, order);
      var src, tgt := buf[order[k]].source, buf[order[k]].target;
      w := buf[order[k]].weight;
      GroupStart(plus, arranged, k, rows);
      m := k + 1;
      while m < |order| && buf[order[m]].source == src && buf[order[m]].target == tgt
        invariant k < m <= |order|
        invariant MergedInGroup(plus, arranged, k, m, rows, w)
      {
        GroupStep(plus, arranged, k, m, rows, w);
        w := plus(w, buf[order[m]].weight);
        m := m + 1;
      }
      GroupEnd(plus, arranged, k, m, rows, w);
    }

    /** What sorting leaves for the merge. */
    static lemma {:induction false} SortedParts(plus: (W, W) -> W, links: seq<Link<W>>, order: seq<nat>,
                                                nodes: set<nat>, ids: seq<nat>)
      returns (arranged: seq<Link<W>>)
      requires Sorted(links, order, |links|) && EndsIn(links, nodes) && IdsOf(ids, nodes)
      ensures |order| == |links| == |arranged| && WeaklySorted(arranged) && EndsIn(arranged, nodes)
      ensures forall k :: 0 <= k < |order| ==> order[k] < |links| && arranged[k] == links[order[k]]
      ensures arranged == Arranged(links, order)
      ensures Eager(plus, arranged) == Eager(plus, links)
      ensures arranged != [] ==> ids != []
      ensures forall j :: 0 <= j < |arranged| && ids != [] ==> ids[0] <= arranged[j].source
    {
      arranged := Arranged(links, order);
      SortedEager(plus, links, order);
      ArrangedSorted(links, order);
      ArrangedEnds(links, order, nodes, ids);
    }

    static lemma {:induction false} IdsIncreasing(ids: seq<nat>, nodes: set<nat>)
      requires IdsOf(ids, nodes)
      ensures Increasing(ids)
    {
    }

    static lemma {:induction false} IdsMembers(ids: seq<nat>, nodes: set<nat>)
      requires IdsOf(ids, nodes)
      ensures forall id :: id in ids ==> id in nodes
    {
    }

    static lemma {:induction false} EndsOfNone(nodes: set<nat>)
      ensures EndsIn<W>([], nodes)
    {
    }

    static lemma {:induction false} EndsInMore(links: seq<Link<W>>, nodes: set<nat>, link: Link<W>)
      requires EndsIn(links, nodes) && link.source in nodes && link.target in nodes
      ensures EndsIn(links + [link], nodes)
    {
    }

    static lemma {:induction false} GroupEnds(arranged: seq<Link<W>>, k: nat, nodes: set<nat>, ids: seq<nat>)
      requires EndsIn(arranged, nodes) && IdsOf(ids, nodes) && k < |arranged|
      ensures arranged[k].source in nodes && arranged[k].target in nodes
      ensures arranged[k].source in ids && arranged[k].target in ids
    {
    }

    static lemma {:induction false} MergedBefore(plus: (W, W) -> W, arranged: seq<Link<W>>, k: nat, rows: seq<Link<W>>)
      requires MergedUpTo(plus, arranged, k, rows) && k < |arranged|
      ensures forall e :: 0 <= e < |rows| ==> rows[e].Ends().Less(arranged[k].Ends())
    {
    }

    static lemma {:induction false} MergedAll(plus: (W, W) -> W, arranged: seq<Link<W>>, rows: seq<Link<W>>)
      requires MergedUpTo(plus, arranged, |arranged|, rows)
      ensures Eager(plus, rows) == Eager(plus, arranged)
    {
      assert arranged[..|arranged|] == arranged;
    }

    static lemma {:induction false} ArrangedEnds(links: seq<Link<W>>, order: seq<nat>, nodes: set<nat>, ids: seq<nat>)
      requires Sorted(links, order, |links|) && EndsIn(links, nodes) && IdsOf(ids, nodes)
      ensures EndsIn(Arranged(links, order), nodes)
      ensures links != [] ==> ids != []
      ensures forall j :: 0 <= j < |order| && ids != [] ==> ids[0] <= Arranged(links, order)[j].source
    {
      forall j | 0 <= j < |order| && ids != [] ensures ids[0] <= Arranged(links, order)[j].source {
        FirstId(ids, nodes, links[order[j]].source);
      }
      if links != [] { assert links[0].source in ids; }
    }

    static lemma {:induction false} FirstId(ids: seq<nat>, nodes: set<nat>, id: nat)
      requires IdsOf(ids, nodes) && id in nodes
      ensures ids != [] && ids[0] <= id
    {
      assert id in ids;
      var k :| 0 <= k < |ids| && ids[k] == id;
    }

    static lemma {:induction false} SourcesFollow(links: seq<Link<W>>, k: nat, m: nat)
      requires WeaklySorted(links) && k < m <= |links|
      ensures forall j :: m <= j < |links| ==> links[k].source <= links[j].source
    {
    }

    static lemma {:induction false} WritingSize(nodeIds: seq<nat>, offsets: seq<nat>, cur: nat, targets: seq<nat>,
                                                weights: seq<W>, rows: seq<Link<W>>)
      requires Writing(nodeIds, offsets, cur, targets, weights, rows)
      ensures |targets| == |rows| && KeysSorted(rows)
    {
    }

    /** Move the rows back into the flat buffer so that building can go on. */
    method Definalize()
      requires CsrOk() && KeysIn(contents, nodes) && !useMapBuild
      modifies `linkBuffer, `rawLinkCount, `linkOffsets, `linkTargets, `linkWeights, `linksFinalized
      ensures Valid() && !linksFinalized
      ensures linkOffsets == linkTargets == [] && linkWeights == [] && rawLinkCount == |contents|
    {
      SortedSize(rules.plus, rows);
      linkBuffer := ReadRows();
      rawLinkCount := |linkBuffer|;
      linkOffsets, linkTargets, linkWeights := [], [], [];
      linksFinalized := false;
    }

    /** The links row by row. */
    method ReadRows() returns (links: seq<Link<W>>)
      requires CsrOk()
      ensures links == rows
    {
      links := [];
      for s := 0 to |nodeIds|
        invariant linkOffsets[s] <= |rows| && links == rows[..linkOffsets[s]]
      {
        assert RowHolds(nodeIds, linkOffsets, s, rows);
        for e := linkOffsets[s] to linkOffsets[s + 1]
          invariant links == rows[..e]
        {
          assert rows[e] == Link(nodeIds[s], nodeIds[linkTargets[e]], linkWeights[e]);
          links := links + [Link(nodeIds[s], nodeIds[linkTargets[e]], linkWeights[e])];
        }
      }
    }

    /** A finalizing read: the links in strict order of their ends, standing for the contents. */
    method ForEachLink() returns (links: seq<Link<W>>)
      requires Valid()
      modifies this
      ensures Valid() && contents == old(contents) && nodes == old(nodes) && useMapBuild == old(useMapBuild)
      ensures linksFinalized && CsrOk() && rows == links
      ensures KeysSorted(links) && Eager(rules.plus, links) == contents
      ensures old(linksFinalized) ==> nodeIds == old(nodeIds) && rows == old(rows)
      ensures !old(linksFinalized) ==> IdsOf(nodeIds, nodes)
      ensures Counted() == old(Counted())
    {
      FinalizeLinks();
      links := ReadRows();
    }

    method NumLinks() returns (n: nat)
      requires Valid()
      modifies this
      ensures Valid() && contents == old(contents) && nodes == old(nodes) && useMapBuild == old(useMapBuild)
      ensures n == |contents|
      ensures useMapBuild ==> linksFinalized == old(linksFinalized) && nodeIds == old(nodeIds)
      ensures !useMapBuild ==> linksFinalized
      ensures !useMapBuild && old(linksFinalized) ==> nodeIds == old(nodeIds)
      ensures !useMapBuild && !old(linksFinalized) ==> IdsOf(nodeIds, nodes)
      ensures Counted() == old(Counted())
    {
      if !useMapBuild {
        FinalizeLinks();
      }
      n := numLinks;
    }

    // ----- The nested map -----

    /** The listed part of the contents: all links of the sources before i, and the links of source i
        to the targets before j. */
    static ghost predicate Lists(links: seq<Link<W>>, contents: map<Key, W>, sources: seq<nat>, i: nat,
                                 targets: seq<nat>, j: nat)
      requires i <= |sources| && j <= |targets|
    {
      && (forall e :: 0 <= e < |links| ==> links[e].Ends() in contents && links[e].weight == contents[links[e].Ends()])
      && (forall key: Key :: HasKey(links, key) <==>
            key in contents
            && (key.source in sources[..i] || (i < |sources| && key.source == sources[i]
               && key.target in targets[..j])))
    }

    static lemma {:induction false} ListsNothing(contents: map<Key, W>, sources: seq<nat>)
      ensures Lists([], contents, sources, 0, [], 0)
    {
    }

    static lemma {:induction false} ListsNext(links: seq<Link<W>>, contents: map<Key, W>, sources: seq<nat>, i: nat,
                                              targets: seq<nat>, j: nat, link: Link<W>)
      requires i < |sources| && j < |targets| && Lists(links, contents, sources, i, targets, j)
      requires Increasing(sources) && Increasing(targets)
      requires link.source == sources[i] && link.target == targets[j]
      requires link.Ends() in contents && contents[link.Ends()] == link.weight
      ensures Lists(links + [link], contents, sources, i, targets, j + 1)
      ensures forall e :: 0 <= e < |links| ==> links[e].Ends().Less(link.Ends())
    {
      var more := links + [link];
      assert targets[..j + 1] == targets[..j] + [targets[j]];
      forall key: Key ensures HasKey(more, key) <==> HasKey(links, key) || key == link.Ends() {
        if HasKey(links, key) {
          var e :| 0 <= e < |links| && links[e].Ends() == key;
          assert more[e].Ends() == key;
        }
        assert more[|links|] == link;
        if HasKey(more, key) {
          var e :| 0 <= e < |more| && more[e].Ends() == key;
          assert e < |links| ==> links[e].Ends() == key;
        }
      }
      forall e | 0 <= e < |links| ensures links[e].Ends().Less(link.Ends()) {
        var key := links[e].Ends();
        assert HasKey(links, key);
        if key.source in sources[..i] {
          var k :| 0 <= k < i && sources[k] == key.source;
        } else {
          var k :| 0 <= k < j && targets[k] == key.target;
        }
      }
    }

    /** With all targets of source i listed, the listing goes on with source i + 1. */
    static lemma {:induction false} ListsSource(links: seq<Link<W>>, contents: map<Key, W>, sources: seq<nat>, i: nat,
                                                targets: seq<nat>)
      requires i < |sources| && Lists(links, contents, sources, i, targets, |targets|)
      requires forall key: Key :: key in contents && key.source == sources[i] ==> key.target in targets
      ensures Lists(links, contents, sources, i + 1, [], 0)
    {
      assert sources[..i + 1] == sources[..i] + [sources[i]];
      assert targets[..|targets|] == targets;
    }

    static lemma {:induction false} ListsNoTarget(links: seq<Link<W>>, contents: map<Key, W>, sources: seq<nat>,
                                                  i: nat, targets: seq<nat>)
      requires i <= |sources| && Lists(links, contents, sources, i, [], 0)
      ensures Lists(links, contents, sources, i, targets, 0)
    {
      assert targets[..0] == [];
    }

    static lemma {:induction false} ListsAll(plus: (W, W) -> W, links: seq<Link<W>>, contents: map<Key, W>,
                                             sources: seq<nat>)
      requires KeysSorted(links) && Lists(links, contents, sources, |sources|, [], 0)
      requires forall key :: key in contents ==> key.source in sources
      ensures Eager(plus, links) == contents
    {
      SortedListing(plus, links);
      assert sources[..|sources|] == sources;
      forall key: Key
        ensures key in Eager(plus, links) <==> key in contents
        ensures key in contents ==> Eager(plus, links)[key] == contents[key]
      {
        if HasKey(links, key) {
          var e :| 0 <= e < |links| && links[e].Ends() == key;
          assert Eager(plus, links)[links[e].Ends()] == links[e].weight;
        }
      }
    }

    /** What the listing of the map needs to know about source i. */
    static lemma {:induction false} NestedSource(nested: map<nat, map<nat, W>>, contents: map<Key, W>, nodes: set<nat>,
                                                 s: nat)
      requires NestedIs(nested, contents) && KeysIn(contents, nodes) && s in nested
      ensures s in nodes
      ensures forall t :: t in nested[s] ==> t in nodes && Key(s, t) in contents && contents[Key(s, t)] == nested[s][t]
      ensures forall key: Key :: key in contents && key.source == s ==> key.target in nested[s]
    {
      var t :| t in nested[s];
      assert Key(s, t) in contents;
    }

    /** Write the nested map out as rows. */
    method BuildCsrFromMap()
      requires Sound() && useMapBuild
      modifies `nodeIds, `linkOffsets, `linkTargets, `linkWeights, `rows
      ensures CsrOk() && IdsOf(nodeIds, nodes)
    {
      hide CsrHolds, KeysIn, Eager, IdsOf, EndsIn, NestedIs;
      var ids := SortedIds(nodes);
      var links := ListMap();
      ListedEnds(rules.plus, links, contents, nodes);
      linkOffsets, linkTargets, linkWeights := WriteRows(links, ids, nodes);
      IdsMembers(ids, nodes);
      nodeIds, rows := ids, links;
    }

    static lemma {:induction false} ListedEnds(plus: (W, W) -> W, links: seq<Link<W>>, contents: map<Key, W>,
                                               nodes: set<nat>)
      requires KeysSorted(links) && Eager(plus, links) == contents && KeysIn(contents, nodes)
      ensures EndsIn(links, nodes)
    {
      SortedListing(plus, links);
      forall e | 0 <= e < |links| ensures links[e].source in nodes && links[e].target in nodes {
        assert links[e].Ends() in contents;
      }
    }

    /** Rows of a sorted list. */
    static method WriteRows(links: seq<Link<W>>, ids: seq<nat>, ghost nodes: set<nat>)
      returns (offsets: seq<nat>, targets: seq<nat>, weights: seq<W>)
      requires KeysSorted(links) && EndsIn(links, nodes) && IdsOf(ids, nodes)
      ensures CsrHolds(ids, offsets, targets, weights, links)
    {
      hide Writing, CsrHolds, IdsOf, EndsIn, KeysSorted;
      offsets := seq(|ids| + 1, (s: nat) => 0);
      targets, weights := [], [];
      IdsIncreasing(ids, nodes);
      WritingStart<W>(ids, offsets);
      assert links[..0] == [];
      if links != [] {
        GroupEnds(links, 0, nodes, ids);
        FirstId(ids, nodes, links[0].source);
      }
      var curSourceIndex := 0;
      for e := 0 to |links|
        invariant 0 <= curSourceIndex <= |ids|
        invariant Writing(ids, offsets, curSourceIndex, targets, weights, links[..e])
        invariant e < |links| ==> curSourceIndex < |ids| && ids[curSourceIndex] <= links[e].source
      {
        GroupEnds(links, e, nodes, ids);
        var srcIdx := IndexOfId(ids, links[e].source);
        IncreasingOrder(ids, srcIdx, curSourceIndex);
        offsets := AdvanceRows(ids, offsets, curSourceIndex, srcIdx, targets, weights, links[..e]);
        curSourceIndex := srcIdx;
        var tgtIdx := IndexOfId(ids, links[e].target);
        SortedAt(links, e);
        WritingLink(ids, offsets, curSourceIndex, targets, weights, links[..e], links[e], tgtIdx);
        targets, weights := targets + [tgtIdx], weights + [links[e].weight];
        assert links[..e + 1] == links[..e] + [links[e]];
      }
      assert links[..|links|] == links;
      offsets := AdvanceRows(ids, offsets, curSourceIndex, |ids|, targets, weights, links);
      WritingEnd(ids, offsets, targets, weights, links);
    }

    static lemma {:induction false} SortedAt(links: seq<Link<W>>, e: nat)
      requires KeysSorted(links) && e < |links|
      ensures forall i :: 0 <= i < e ==> links[..e][i].Ends().Less(links[e].Ends())
      ensures e + 1 < |links| ==> links[e].source <= links[e + 1].source
    {
      assert e + 1 < |links| ==> links[e].Ends().Less(links[e + 1].Ends());
    }

    static lemma {:induction false} SortedMore(links: seq<Link<W>>, link: Link<W>)
      requires KeysSorted(links) && forall e :: 0 <= e < |links| ==> links[e].Ends().Less(link.Ends())
      ensures KeysSorted(links + [link])
    {
    }

    static lemma {:induction false} SortedNone()
      ensures KeysSorted<W>([])
    {
    }

    /** The links of the nested map, source by source and target by target. */
    method ListMap() returns (links: seq<Link<W>>)
      requires Sound() && useMapBuild
      ensures KeysSorted(links) && Eager(rules.plus, links) == contents
    {
      hide KeysIn, Eager, IdsOf, NestedIs, Lists, KeysSorted, EndsIn;
      var sources := SortedIds(nodeLinkMap.Keys);
      IdsIncreasing(sources, nodeLinkMap.Keys);
      AllListed(sources, nodeLinkMap.Keys);
      links := [];
      SortedNone();
      ListsNothing(contents, sources);
      for i := 0 to |sources|
        invariant KeysSorted(links) && Lists(links, contents, sources, i, [], 0)
      {
        var src := sources[i];
        assert src in sources;
        NestedSource(nodeLinkMap, contents, nodes, src);
        var targets := SortedIds(nodeLinkMap[src].Keys);
        IdsIncreasing(targets, nodeLinkMap[src].Keys);
        AllListed(targets, nodeLinkMap[src].Keys);
        ListsNoTarget(links, contents, sources, i, targets);
        for j := 0 to |targets|
          invariant KeysSorted(links) && Lists(links, contents, sources, i, targets, j)
        {
          assert targets[j] in targets;
          var link := Link(src, targets[j], nodeLinkMap[src][targets[j]]);
          ListsNext(links, contents, sources, i, targets, j, link);
          SortedMore(links, link);
          links := links + [link];
        }
        ListsSource(links, contents, sources, i, targets);
      }
      SourcesAll(nodeLinkMap, contents, sources);
      ListsAll(rules.plus, links, contents, sources);
    }

    static lemma {:induction false} AllListed(ids: seq<nat>, nodes: set<nat>)
      requires IdsOf(ids, nodes)
      ensures forall id :: id in ids <==> id in nodes
    {
    }

    static lemma {:induction false} SourcesAll(nested: map<nat, map<nat, W>>, contents: map<Key, W>, sources: seq<nat>)
      requires NestedIs(nested, contents) && IdsOf(sources, nested.Keys)
      ensures forall key :: key in contents ==> key.source in sources
    {
    }

    /** Turn the rows into the nested map, for the operations that work on it. */
    method EnsureMapBuild()
      requires Valid()
      modifies this
      ensures Valid() && useMapBuild && contents == old(contents) && nodes == old(nodes)
      ensures !old(useMapBuild) ==> !linksFinalized
      ensures old(useMapBuild) ==> linksFinalized == old(linksFinalized) && nodeIds == old(nodeIds)
      ensures Counted() == old(Counted())
    {
      hide CsrHolds, Eager, EndsIn, KeysIn, NestedIs, IdsOf;
      if useMapBuild {
        return;
      }
      FinalizeLinks();
      nodeLinkMap := RowsToMap();
      useMapBuild := true;
      linksFinalized := false;
    }

    method RowsToMap() returns (nested: map<nat, map<nat, W>>)
      requires CsrOk()
      ensures NestedIs(nested, contents)
    {
      hide NestedIs, Eager, EndsIn;
      nested := map[];
      NestedNothing(rules.plus);
      assert rows[..0] == [];
      for s := 0 to |nodeIds|
        invariant linkOffsets[s] <= |rows| && NestedIs(nested, Eager(rules.plus, rows[..linkOffsets[s]]))
      {
        assert RowHolds(nodeIds, linkOffsets, s, rows);
        // Dangling: the map only holds sources with links
        for e := linkOffsets[s] to linkOffsets[s + 1]
          invariant NestedIs(nested, Eager(rules.plus, rows[..e]))
        {
          var source, target, weight := nodeIds[s], nodeIds[linkTargets[e]], linkWeights[e];
          assert rows[e] == Link(source, target, weight);
          NextIsNew(rules.plus, rows, e);
          NestedAdded(nested, Eager(rules.plus, rows[..e]), source, target, weight);
          nested := nested[source := (if source in nested then nested[source] else map[])[target := weight]];
        }
      }
      assert rows[..|rows|] == rows;
    }

    static lemma {:induction false} NestedNothing(plus: (W, W) -> W)
      ensures NestedIs<W>(map[], Eager<W>(plus, []))
    {
    }

    /** A sorted list adds one new entry at a time. */
    static lemma {:induction false} NextIsNew(plus: (W, W) -> W, links: seq<Link<W>>, e: nat)
      requires KeysSorted(links) && e < |links|
      ensures links[e].Ends() !in Eager(plus, links[..e])
      ensures Eager(plus, links[..e + 1]) == Eager(plus, links[..e])[links[e].Ends() := links[e].weight]
    {
      assert links[..e + 1] == links[..e] + [links[e]];
      EagerAppend(plus, links[..e], links[e]);
      SortedListing(plus, links[..e]);
      forall i | 0 <= i < e ensures links[..e][i].Ends() != links[e].Ends() {
        assert links[i].Ends().Less(links[e].Ends());
      }
      assert !HasKey(links[..e], links[e].Ends());
    }

    // ----- Removing -----

    /** Removal works on the nested map. If rows had been built from that map already, they are not
        rebuilt, so the store stays valid exactly if there were none or nothing was removed. */
    method RemoveLink(source: nat, target: nat) returns (removed: bool)
      requires Valid()
      modifies this
      ensures Sound() && useMapBuild && nodes == old(nodes)
      ensures removed <==> Key(source, target) in old(contents)
      ensures contents == old(contents) - {Key(source, target)}
      ensures Valid() <==> !(old(useMapBuild) && old(linksFinalized) && removed)
    {
      hide LinkStore.CsrOk, LinkStore.Sound, Eager;
      EnsureMapBuild();
      ghost var before := contents;
      if linksFinalized { RowsAre(before); }
      removed := RemoveFromMap(source, target);
      if linksFinalized && removed { RowsAre(before); }
    }

    /** Rows that hold the contents can only be right for these contents. */
    lemma {:induction false} RowsAre(links: map<Key, W>)
      ensures CsrOk() && contents == links ==> Eager(rules.plus, rows) == links
      ensures Eager(rules.plus, rows) == links && contents != links ==> !CsrOk()
    {
    }

    method RemoveFromMap(source: nat, target: nat) returns (removed: bool)
      requires Sound() && useMapBuild
      modifies `nodeLinkMap, `numLinks, `numAggregatedLinks, `contents
      ensures Sound()
      ensures !removed ==> unchanged(this)
      ensures removed <==> Key(source, target) in old(contents)
      ensures contents == LinksWithout(old(contents), Key(source, target))
      ensures numAggregatedLinks
           == old(numAggregatedLinks)
              - (if removed && source in nodeLinkMap && old(numAggregatedLinks) > 0 then 1 else 0)
    {
      hide KeysIn, NestedIs, Eager, EndsIn, NestedWithout, LinksWithout, LinkStore.CsrOk;
      RemovedParts(nodeLinkMap, contents, nodes, source, target);
      if source !in nodeLinkMap || target !in nodeLinkMap[source] {
        return false;
      }
      ghost var less := LinksWithout(contents, Key(source, target));
      ghost var without := NestedWithout(nodeLinkMap, source, target);
      WithoutIs(nodeLinkMap, source, target);
      var targetMap := nodeLinkMap[source] - {target};
      if targetMap == map[] {
        nodeLinkMap := nodeLinkMap - {source};
      } else {
        nodeLinkMap := nodeLinkMap[source := targetMap];
        if numAggregatedLinks > 0 {
          numAggregatedLinks := numAggregatedLinks - 1;
        }
      }
      assert nodeLinkMap == without;
      numLinks := numLinks - 1;
      contents := less;
      return true;
    }

    static lemma {:induction false} WithoutIs(nested: map<nat, map<nat, W>>, s: nat, t: nat)
      requires s in nested
      ensures NestedWithout(nested, s, t)
           == if nested[s] - {t} == map[] then nested - {s} else nested[s := nested[s] - {t}]
    {
    }

    static function LinksWithout(links: map<Key, W>, key: Key): map<Key, W>
    {
      links - {key}
    }

    static lemma {:induction false} RemovedParts(nested: map<nat, map<nat, W>>, links: map<Key, W>, nodes: set<nat>,
                                                 s: nat, t: nat)
      requires NestedIs(nested, links) && KeysIn(links, nodes)
      ensures Key(s, t) in links <==> s in nested && t in nested[s]
      ensures Key(s, t) !in links ==> LinksWithout(links, Key(s, t)) == links
      ensures KeysIn(LinksWithout(links, Key(s, t)), nodes)
      ensures Key(s, t) in links ==>
                && |LinksWithout(links, Key(s, t))| == |links| - 1
                && NestedIs(NestedWithout(nested, s, t), LinksWithout(links, Key(s, t)))
    {
      var key, less := Key(s, t), LinksWithout(links, Key(s, t));
      if key in links {
        assert less.Keys == links.Keys - {key};
        NestedRemoved(nested, links, s, t);
      }
    }

    /** The nested map without one link; a source without links goes with its last one. */
    static function NestedWithout(nested: map<nat, map<nat, W>>, s: nat, t: nat): map<nat, map<nat, W>>
      requires s in nested
    {
      if nested[s] - {t} == map[] then nested - {s} else nested[s := nested[s] - {t}]
    }

    static lemma {:induction false} NestedRemoved(nested: map<nat, map<nat, W>>, links: map<Key, W>, s: nat, t: nat)
      requires NestedIs(nested, links) && s in nested && t in nested[s]
      ensures NestedIs(NestedWithout(nested, s, t), links - {Key(s, t)})
    {
      var less, rest, nested' := links - {Key(s, t)}, nested[s] - {t}, NestedWithout(nested, s, t);
      forall s', t' | s' in nested' && t' in nested'[s']
        ensures Key(s', t') in less && less[Key(s', t')] == nested'[s'][t']
      {
        assert s' in nested && t' in nested[s'];
      }
      forall other: Key | other in less ensures other.source in nested' && other.target in nested'[other.source] {
        assert other.source in nested && other.target in nested[other.source];
        if other.source == s { assert other.target in rest; }
      }
    }

    // ----- Undirected links as pairs of directed ones -----

    /** For every link between two nodes of an undirected network, add one in the opposite direction. They
        are collected first, so that no link is reversed that was added on the way. A reversed weight that
        is refused ends the expansion, with those before it added. */
    method UndirectedToDirected() returns (outcome: Expansion, ghost links: seq<Link<W>>)
      requires Valid()
      modifies this
      ensures Valid() && (outcome.NotUndirected? <==> !undirectedFlow)
      ensures outcome.NotUndirected? ==> unchanged(this)
      ensures !outcome.NotUndirected? ==> KeysSorted(links) && Eager(rules.plus, links) == old(contents)
      ensures outcome.Expanded? ==> contents == AddedAll(rules, noSelfLinks, old(contents), Opposites(links))
      ensures undirectedFlow ==> (outcome.Stopped? <==>
                exists i :: 0 <= i < |links| && links[i].source != links[i].target && rules.Refuses(links[i].weight))
      ensures outcome.Stopped? ==>
                exists i: nat :: StoppedAt(rules, noSelfLinks, old(contents), contents, Opposites(links), i)
    {
      hide LinkStore.CsrOk, LinkStore.Sound, Eager, KeysSorted, Added, LinkStore.Valid, Opposites, AddedAll,
           LinkStore.Counted;
      if !undirectedFlow {
        return NotUndirected, [];
      }
      EnsureMapBuild();
      SoundParts();
      ghost var before := contents;
      var listed := ListMap();
      links := listed;
      var oppositeLinks := Opposites(listed);
      AddedNone(rules, noSelfLinks, before);
      assert oppositeLinks[..0] == [];
      for i := 0 to |oppositeLinks|
        invariant Valid() && contents == AddedAll(rules, noSelfLinks, before, oppositeLinks[..i])
        invariant forall j :: 0 <= j < i ==> !rules.Refuses(oppositeLinks[j].weight)
      {
        var link := oppositeLinks[i];
        AddedNext(rules, noSelfLinks, before, oppositeLinks, i);
        var added := AddLink(link.source, link.target, link.weight);
        if added.Refused? {
          OppositeOf(listed, i);
          assert StoppedAt(rules, noSelfLinks, before, contents, Opposites(links), i);
          return Stopped, listed;
        }
      }
      assert oppositeLinks[..|oppositeLinks|] == oppositeLinks;
      NobodyRefused(rules, listed);
      return Expanded, listed;
    }

    static lemma {:induction false} NobodyRefused(rules: WeightRules<W>, links: seq<Link<W>>)
      requires forall j :: 0 <= j < |Opposites(links)| ==> !rules.Refuses(Opposites(links)[j].weight)
      ensures forall i :: 0 <= i < |links| && links[i].source != links[i].target ==> !rules.Refuses(links[i].weight)
    {
      hide Opposites, WeightRules.Refuses;
      forall i | 0 <= i < |links| && links[i].source != links[i].target ensures !rules.Refuses(links[i].weight) {
        var j := HasOpposite(links, i);
      }
    }

    lemma {:induction false} SoundParts()
      requires Valid()
      ensures Sound()
    {
    }

    // ----- Runs -----

    /** Carry out one operation; only an accepted addition changes what the store denotes. */
    method Perform(op: Operation<W>)
      requires Valid()
      modifies this
      ensures Valid() && contents == After(rules, noSelfLinks, old(contents), op)
      ensures StandingNow() == old(StandingNow()).After(rules, noSelfLinks, op)
      ensures Counted() == CountedAfter(rules, noSelfLinks, old(StandingNow()), old(Counted()), old(|contents|), op)
    {
      hide LinkStore.Valid, Added, Eager, IdsOf;
      match op {
        case Node(id) => AddNode(id);
        case Add(link) => var outcome := AddLink(link.source, link.target, link.weight);
        case Read =>
          var links := ForEachLink();
          if !old(linksFinalized) { NobodyLate(nodeIds, nodes); }
        case CountLinks =>
          var n := NumLinks();
          if !useMapBuild && !old(linksFinalized) { NobodyLate(nodeIds, nodes); }
        case ToMap => EnsureMapBuild();
      }
    }

    static lemma {:induction false} NobodyLate(ids: seq<nat>, nodes: set<nat>)
      requires IdsOf(ids, nodes)
      ensures nodes - (set id | id in ids) == {}
    {
    }

    /** Whatever is interleaved with the additions, reading the store lists the map of all accepted
        links, each weight the sum of its occurrences in the order they arrived. The rows read are in
        order of their nodes, one after the other, and empty exactly for the dangling nodes; the nodes
        without a row are the late ones. */
    method Run(ops: seq<Operation<W>>) returns (links: seq<Link<W>>)
      requires Valid() && contents == map[]
      modifies this
      ensures Valid() && KeysSorted(links)
      ensures Eager(rules.plus, links) == Eager(rules.plus, Accepted(rules, noSelfLinks, ops))
      ensures forall i :: 0 <= i < |links| ==>
                var ws := Occurrences(Accepted(rules, noSelfLinks, ops), links[i].Ends());
                ws != [] && links[i].weight == Fold(rules.plus, ws)
      ensures forall key: Key :: Occurrences(Accepted(rules, noSelfLinks, ops), key) != [] ==> HasKey(links, key)
      ensures CsrHolds(nodeIds, linkOffsets, linkTargets, linkWeights, links)
      ensures forall s :: 0 <= s < |nodeIds| ==>
                && linkOffsets[s] <= linkOffsets[s + 1]
                && (linkOffsets[s] == linkOffsets[s + 1] <==>
                    Dangling(Accepted(rules, noSelfLinks, ops), nodeIds[s]))
      ensures forall id :: id in nodeIds <==>
                id in nodes && id !in StandingAfter(rules, noSelfLinks, old(StandingNow()), ops).late
      ensures nodes == StandingAfter(rules, noSelfLinks, old(StandingNow()), ops).nodes
      ensures |links| + numAggregatedLinks == Tally(rules, noSelfLinks, old(StandingNow()), old(Counted()), ops)
    {
      hide LinkStore.Valid, Eager, Occurrences, Fold, CsrHolds, IdsOf, Standing.After, EndsIn;
      EagerNothing(rules.plus);
      StandingStart(rules, noSelfLinks, StandingNow());
      assert ops[..0] == [];
      for k := 0 to |ops|
        invariant Valid() && contents == Eager(rules.plus, Accepted(rules, noSelfLinks, ops[..k]))
        invariant StandingNow() == StandingAfter(rules, noSelfLinks, old(StandingNow()), ops[..k])
        invariant Counted() == Tally(rules, noSelfLinks, old(StandingNow()), old(Counted()), ops[..k])
      {
        TallyNext(rules, noSelfLinks, old(StandingNow()), old(Counted()), ops, k);
        AcceptedNext(rules, noSelfLinks, ops, k);
        StandingNext(rules, noSelfLinks, old(StandingNow()), ops, k);
        Perform(ops[k]);
      }
      assert ops[..|ops|] == ops;
      ghost var end := StandingNow();
      links := ForEachLink();
      SortedSize(rules.plus, links);
      if !end.built { IdsMembers(nodeIds, nodes); NobodyLate(nodeIds, nodes); }
      ListingFolds(rules.plus, links, Accepted(rules, noSelfLinks, ops));
      RowsOfRun(rules.plus, nodeIds, linkOffsets, linkTargets, linkWeights, links, Accepted(rules, noSelfLinks, ops));
    }

    static lemma {:induction false} RowsOfRun(plus: (W, W) -> W, nodeIds: seq<nat>, offsets: seq<nat>,
                                              targets: seq<nat>, weights: seq<W>, listed: seq<Link<W>>,
                                              links: seq<Link<W>>)
      requires CsrHolds(nodeIds, offsets, targets, weights, listed) && Eager(plus, listed) == Eager(plus, links)
      ensures |offsets| == |nodeIds| + 1
      ensures forall s :: 0 <= s < |nodeIds| ==>
                offsets[s] <= offsets[s + 1] && (offsets[s] == offsets[s + 1] <==> Dangling(links, nodeIds[s]))
    {
      hide Eager, Occurrences, EntriesHold, RowsClosed;
      forall s | 0 <= s < |nodeIds|
        ensures offsets[s] <= offsets[s + 1] && (offsets[s] == offsets[s + 1] <==> Dangling(links, nodeIds[s]))
      {
        RowComplete(plus, nodeIds, offsets, targets, weights, listed, s);
        forall target: nat
          ensures Key(nodeIds[s], target) in Eager(plus, links)
             <==> Occurrences(links, Key(nodeIds[s], target)) != []
        {
          EagerIsFold(plus, links, Key(nodeIds[s], target));
        }
      }
    }

    static lemma {:induction false} EagerNothing(plus: (W, W) -> W)
      ensures Eager<W>(plus, []) == map[]
    {
    }

    static lemma {:induction false} ListingFolds(plus: (W, W) -> W, listed: seq<Link<W>>, links: seq<Link<W>>)
      requires KeysSorted(listed) && Eager(plus, listed) == Eager(plus, links)
      ensures forall i :: 0 <= i < |listed| ==>
                var ws := Occurrences(links, listed[i].Ends());
                ws != [] && listed[i].weight == Fold(plus, ws)
      ensures forall key: Key :: Occurrences(links, key) != [] ==> HasKey(listed, key)
    {
      hide Eager, Occurrences, Fold;
      SortedListing(plus, listed);
      forall i | 0 <= i < |listed|
        ensures Occurrences(links, listed[i].Ends()) != []
             && listed[i].weight == Fold(plus, Occurrences(links, listed[i].Ends()))
      {
        EagerIsFold(plus, links, listed[i].Ends());
      }
      forall key: Key | Occurrences(links, key) != [] ensures HasKey(listed, key) {
        EagerIsFold(plus, links, key);
      }
    }
  }

  datatype Operation<W> = Node(id: nat) | Add(link: Link<W>) | Read | CountLinks | ToMap

  /** No accepted link leaves the node. */
  ghost predicate Dangling<W>(links: seq<Link<W>>, id: nat)
  {
    forall target: nat :: Occurrences(links, Key(id, target)) == []
  }

  /** Late nodes were added after the rows were built and have none. */
  datatype Standing = Standing(mapBuild: bool, built: bool, nodes: set<nat>, late: set<nat>)
  {
    function WithNode(id: nat): Standing
    {
      this.(nodes := nodes + {id}, late := if built && id !in nodes then late + {id} else late)
    }

    /** An accepted link reopens the rows, and so does the change of representation; reading and counting
        build them if they are open. A store on the nested map counts without building. */
    function After<W>(rules: WeightRules<W>, noSelfLinks: bool, op: Operation<W>): Standing
    {
      match op
      case Node(id) => WithNode(id)
      case Add(link) =>
        if Accepts(rules, noSelfLinks, link) then Standing(mapBuild, false, nodes + {link.source, link.target}, {})
        else this
      case Read => if built then this else this.(built := true)
      case CountLinks => if built || mapBuild then this else this.(built := true)
      case ToMap => if mapBuild then this else Standing(true, false, nodes, {})
    }
  }

  function StandingAfter<W>(rules: WeightRules<W>, noSelfLinks: bool, start: Standing,
                            ops: seq<Operation<W>>): Standing
  {
    if ops == [] then start
    else StandingAfter(rules, noSelfLinks, start, ops[..|ops| - 1]).After(rules, noSelfLinks, ops[|ops| - 1])
  }

  lemma {:induction false} StandingStart<W>(rules: WeightRules<W>, noSelfLinks: bool, start: Standing)
    ensures StandingAfter(rules, noSelfLinks, start, []) == start
  {
  }

  lemma {:induction false} StandingNext<W>(rules: WeightRules<W>, noSelfLinks: bool, start: Standing,
                                           ops: seq<Operation<W>>, k: nat)
    requires k < |ops|
    ensures StandingAfter(rules, noSelfLinks, start, ops[..k + 1])
         == StandingAfter(rules, noSelfLinks, start, ops[..k]).After(rules, noSelfLinks, ops[k])
  {
    assert ops[..k + 1][..k] == ops[..k];
  }

  /** Links counted after an operation, given how many links there were before it. A link that reopens merged rows
      makes the store forget how often their links had occurred. */
  function CountedAfter<W>(rules: WeightRules<W>, noSelfLinks: bool, standing: Standing, counted: int, size: nat,
                           op: Operation<W>): int
  {
    if !(op.Add? && Accepts(rules, noSelfLinks, op.link)) then counted
    else if !standing.mapBuild && standing.built then size + 1
    else counted + 1
  }

  function Tally<W>(rules: WeightRules<W>, noSelfLinks: bool, start: Standing, counted: int,
                    ops: seq<Operation<W>>): int
  {
    if ops == [] then counted
    else
      var n := |ops| - 1;
      CountedAfter(rules, noSelfLinks, StandingAfter(rules, noSelfLinks, start, ops[..n]),
                   Tally(rules, noSelfLinks, start, counted, ops[..n]),
                   |Eager(rules.plus, Accepted(rules, noSelfLinks, ops[..n]))|, ops[n])
  }

  lemma {:induction false} TallyNext<W>(rules: WeightRules<W>, noSelfLinks: bool, start: Standing, counted: int,
                                        ops: seq<Operation<W>>, k: nat)
    requires k < |ops|
    ensures Tally(rules, noSelfLinks, start, counted, ops[..0]) == counted
    ensures Tally(rules, noSelfLinks, start, counted, ops[..k + 1])
         == CountedAfter(rules, noSelfLinks, StandingAfter(rules, noSelfLinks, start, ops[..k]),
                         Tally(rules, noSelfLinks, start, counted, ops[..k]),
                         |Eager(rules.plus, Accepted(rules, noSelfLinks, ops[..k]))|, ops[k])
  {
    hide CountedAfter, StandingAfter, Eager, Accepted;
    assert ops[..k + 1][..k] == ops[..k];
  }

  /** Operation k is a link that reopens merged rows. */
  predicate Forgets<W>(rules: WeightRules<W>, noSelfLinks: bool, start: Standing, ops: seq<Operation<W>>, k: nat)
    requires k < |ops|
  {
    var standing := StandingAfter(rules, noSelfLinks, start, ops[..k]);
    ops[k].Add? && Accepts(rules, noSelfLinks, ops[k].link) && !standing.mapBuild && standing.built
  }

  /** As long as no link reopens merged rows, every accepted link is counted. */
  lemma {:induction false} TallyIsAll<W>(rules: WeightRules<W>, noSelfLinks: bool, start: Standing, counted: int,
                                         ops: seq<Operation<W>>)
    requires forall k :: 0 <= k < |ops| ==> !Forgets(rules, noSelfLinks, start, ops, k)
    ensures Tally(rules, noSelfLinks, start, counted, ops) == counted + |Accepted(rules, noSelfLinks, ops)|
  {
    hide StandingAfter, Eager;
    if ops != [] {
      var n := |ops| - 1;
      forall k | 0 <= k < n ensures !Forgets(rules, noSelfLinks, start, ops[..n], k) {
        assert ops[..n][..k] == ops[..k];
        assert !Forgets(rules, noSelfLinks, start, ops, k);
      }
      TallyIsAll(rules, noSelfLinks, start, counted, ops[..n]);
      assert !Forgets(rules, noSelfLinks, start, ops, n);
    }
  }

  /** Operation k opens the rows that were built: an accepted link, or the first change to the nested map. */
  predicate Reopens<W>(rules: WeightRules<W>, noSelfLinks: bool, start: Standing, ops: seq<Operation<W>>, k: nat)
    requires k < |ops|
  {
    || (ops[k].Add? && Accepts(rules, noSelfLinks, ops[k].link))
    || (ops[k].ToMap? && !StandingAfter(rules, noSelfLinks, start, ops[..k]).mapBuild)
  }

  /** Operation k adds node id while the rows are built, and nothing reopens them afterwards. */
  ghost predicate AddedLate<W>(rules: WeightRules<W>, noSelfLinks: bool, start: Standing, ops: seq<Operation<W>>,
                               id: nat, k: nat)
    requires k < |ops|
  {
    && ops[k] == Operation<W>.Node(id) && StandingAfter(rules, noSelfLinks, start, ops[..k]).built
    && id !in StandingAfter(rules, noSelfLinks, start, ops[..k]).nodes
    && forall j :: k < j < |ops| ==> !Reopens(rules, noSelfLinks, start, ops, j)
  }

  /** The nodes without a row are exactly those added to built rows that nothing reopened. */
  lemma {:induction false} LateExactly<W>(rules: WeightRules<W>, noSelfLinks: bool, start: Standing,
                                          ops: seq<Operation<W>>, id: nat)
    requires start.late == {}
    ensures id in StandingAfter(rules, noSelfLinks, start, ops).late
       <==> exists k :: 0 <= k < |ops| && AddedLate(rules, noSelfLinks, start, ops, id, k)
  {
    if ops != [] {
      var n := |ops| - 1;
      var rest := ops[..n];
      LateExactly(rules, noSelfLinks, start, rest, id);
      forall k | 0 <= k < n
        ensures Reopens(rules, noSelfLinks, start, ops, k) == Reopens(rules, noSelfLinks, start, rest, k)
        ensures AddedLate(rules, noSelfLinks, start, ops, id, k)
           <==> AddedLate(rules, noSelfLinks, start, rest, id, k) && !Reopens(rules, noSelfLinks, start, ops, n)
      {
        LateBefore(rules, noSelfLinks, start, ops, id, k);
      }
      hide StandingAfter, AddedLate;
      StandingNext(rules, noSelfLinks, start, ops, n);
      assert ops[..n + 1] == ops;
      LateLast(rules, noSelfLinks, start, ops, id);
      if id in StandingAfter(rules, noSelfLinks, start, ops).late && !AddedLate(rules, noSelfLinks, start, ops, id, n) {
        var k :| 0 <= k < n && AddedLate(rules, noSelfLinks, start, rest, id, k);
        assert AddedLate(rules, noSelfLinks, start, ops, id, k);
      }
    }
  }

  /** What the last operation does to the late nodes. */
  lemma {:induction false} LateLast<W>(rules: WeightRules<W>, noSelfLinks: bool, start: Standing,
                                       ops: seq<Operation<W>>, id: nat)
    requires ops != []
    ensures var n := |ops| - 1;
            var before := StandingAfter(rules, noSelfLinks, start, ops[..n]);
            id in before.After(rules, noSelfLinks, ops[n]).late
            <==> (id in before.late && !Reopens(rules, noSelfLinks, start, ops, n))
                 || AddedLate(rules, noSelfLinks, start, ops, id, n)
  {
    hide StandingAfter;
  }

  lemma {:induction false} LateBefore<W>(rules: WeightRules<W>, noSelfLinks: bool, start: Standing,
                                         ops: seq<Operation<W>>, id: nat, k: nat)
    requires k + 1 < |ops|
    ensures var n := |ops| - 1;
            AddedLate(rules, noSelfLinks, start, ops, id, k)
            <==> AddedLate(rules, noSelfLinks, start, ops[..n], id, k) && !Reopens(rules, noSelfLinks, start, ops, n)
    ensures Reopens(rules, noSelfLinks, start, ops, k) == Reopens(rules, noSelfLinks, start, ops[..|ops| - 1], k)
  {
    hide StandingAfter;
    var n := |ops| - 1;
    forall j | 0 <= j < n
      ensures ops[..n][..j] == ops[..j] && ops[..n][j] == ops[j]
      ensures Reopens(rules, noSelfLinks, start, ops, j) == Reopens(rules, noSelfLinks, start, ops[..n], j)
    {
      assert ops[..n][..j] == ops[..j];
    }
  }

  predicate Accepts<W>(rules: WeightRules<W>, noSelfLinks: bool, link: Link<W>)
  {
    !rules.Refuses(link.weight) && !rules.Ignores(link.weight) && !(link.source == link.target && noSelfLinks)
  }

  /** The links of a run that get past the filters, in the order they arrive. */
  function Accepted<W>(rules: WeightRules<W>, noSelfLinks: bool, ops: seq<Operation<W>>): seq<Link<W>>
  {
    if ops == [] then []
    else
      var op := ops[|ops| - 1];
      Accepted(rules, noSelfLinks, ops[..|ops| - 1])
      + (if op.Add? && Accepts(rules, noSelfLinks, op.link) then [op.link] else [])
  }

  function After<W>(rules: WeightRules<W>, noSelfLinks: bool, contents: map<Key, W>, op: Operation<W>): map<Key, W>
  {
    if op.Add? && Accepts(rules, noSelfLinks, op.link) then Added(rules.plus, contents, op.link) else contents
  }

  lemma {:induction false} AcceptedNext<W>(rules: WeightRules<W>, noSelfLinks: bool, ops: seq<Operation<W>>, k: nat)
    requires k < |ops|
    ensures Eager(rules.plus, Accepted(rules, noSelfLinks, ops[..k + 1]))
         == After(rules, noSelfLinks, Eager(rules.plus, Accepted(rules, noSelfLinks, ops[..k])), ops[k])
  {
    hide Eager, Added;
    assert ops[..k + 1][..k] == ops[..k];
    var before := Accepted(rules, noSelfLinks, ops[..k]);
    if ops[k].Add? && Accepts(rules, noSelfLinks, ops[k].link) {
      EagerAppend(rules.plus, before, ops[k].link);
    } else {
      assert before + [] == before;
    }
  }

  // ----- What the expansion of undirected links means -----

  /** The links that are not self-links, turned around. */
  function Opposites<W>(links: seq<Link<W>>): seq<Link<W>>
  {
    if links == [] then []
    else
      var last := links[|links| - 1];
      Opposites(links[..|links| - 1])
      + (if last.source == last.target then [] else [Link(last.target, last.source, last.weight)])
  }

  function AddedAll<W>(rules: WeightRules<W>, noSelfLinks: bool, contents: map<Key, W>,
                       links: seq<Link<W>>): map<Key, W>
  {
    if links == [] then contents
    else
      After(rules, noSelfLinks, AddedAll(rules, noSelfLinks, contents, links[..|links| - 1]), Add(links[|links| - 1]))
  }

  /** The first refused of these links is number i, and those before it were added. */
  ghost predicate StoppedAt<W>(rules: WeightRules<W>, noSelfLinks: bool, before: map<Key, W>, after: map<Key, W>,
                               links: seq<Link<W>>, i: nat)
  {
    && i < |links| && rules.Refuses(links[i].weight)
    && (forall j :: 0 <= j < i ==> !rules.Refuses(links[j].weight))
    && after == AddedAll(rules, noSelfLinks, before, links[..i])
  }

  lemma {:induction false} AddedNone<W>(rules: WeightRules<W>, noSelfLinks: bool, contents: map<Key, W>)
    ensures AddedAll(rules, noSelfLinks, contents, []) == contents
  {
  }

  lemma {:induction false} AddedNext<W>(rules: WeightRules<W>, noSelfLinks: bool, contents: map<Key, W>,
                                        links: seq<Link<W>>, i: nat)
    requires i < |links|
    ensures AddedAll(rules, noSelfLinks, contents, links[..i + 1])
         == After(rules, noSelfLinks, AddedAll(rules, noSelfLinks, contents, links[..i]), Add(links[i]))
  {
    assert links[..i + 1][..i] == links[..i];
  }

  lemma {:induction false} OppositeOf<W>(links: seq<Link<W>>, i: nat)
    requires i < |Opposites(links)|
    ensures exists j :: 0 <= j < |links| && links[j].source != links[j].target
              && links[j].weight == Opposites(links)[i].weight
  {
    var n := |links| - 1;
    if i < |Opposites(links[..n])| {
      OppositeOf(links[..n], i);
      var j :| 0 <= j < n && links[..n][j].source != links[..n][j].target
               && links[..n][j].weight == Opposites(links[..n])[i].weight;
      assert links[j].weight == Opposites(links)[i].weight && links[j].source != links[j].target;
    } else {
      assert links[n].weight == Opposites(links)[i].weight && links[n].source != links[n].target;
    }
  }

  lemma {:induction false} HasOpposite<W>(links: seq<Link<W>>, i: nat) returns (j: nat)
    requires i < |links| && links[i].source != links[i].target
    ensures j < |Opposites(links)| && Opposites(links)[j].weight == links[i].weight
  {
    var n := |links| - 1;
    if i < n {
      j := HasOpposite(links[..n], i);
    } else {
      j := |Opposites(links[..n])|;
    }
  }

  /** Weight of a pair after the expansion: its own, then that of the opposite pair as it was before. */
  ghost predicate ExpandedAt<W>(plus: (W, W) -> W, before: map<Key, W>, after: map<Key, W>, key: Key, turned: bool)
  {
    var back := Key(key.target, key.source);
    if key.source == key.target || !turned then
      (key in after <==> key in before) && (key in before ==> after[key] == before[key])
    else
      key in after && back in before
      && after[key] == if key in before then plus(before[key], before[back]) else before[back]
  }

  /** Every pair gets the weight of the opposite pair added exactly once. */
  lemma {:induction false} ExpansionMeans<W>(rules: WeightRules<W>, noSelfLinks: bool, contents: map<Key, W>,
                                             links: seq<Link<W>>, key: Key)
    requires KeysSorted(links)
    requires forall i :: 0 <= i < |links| ==>
               links[i].Ends() in contents && contents[links[i].Ends()] == links[i].weight
               && !rules.Refuses(links[i].weight) && !rules.Ignores(links[i].weight)
    ensures ExpandedAt(rules.plus, contents, AddedAll(rules, noSelfLinks, contents, Opposites(links)), key,
                       HasKey(links, Key(key.target, key.source)))
  {
    if links != [] {
      var n := |links| - 1;
      var last, back := links[n], Key(key.target, key.source);
      ExpansionMeans(rules, noSelfLinks, contents, links[..n], key);
      assert HasKey(links, back) <==> HasKey(links[..n], back) || last.Ends() == back by { HasKeyMore(links, back); }
      if last.Ends() == back {
        forall j | 0 <= j < n ensures links[..n][j].Ends() != back {
          assert links[j].Ends().Less(last.Ends());
        }
        assert !HasKey(links[..n], back);
      }
      var opposites := Opposites(links);
      if last.source == last.target {
        assert opposites == Opposites(links[..n]);
      } else {
        assert opposites[..|opposites| - 1] == Opposites(links[..n]);
      }
    }
  }

  lemma {:induction false} HasKeyMore<W>(links: seq<Link<W>>, key: Key)
    requires links != []
    ensures HasKey(links, key) <==> HasKey(links[..|links| - 1], key) || links[|links| - 1].Ends() == key
  {
    var n := |links| - 1;
    if HasKey(links[..n], key) {
      var i :| 0 <= i < n && links[..n][i].Ends() == key;
      assert links[i].Ends() == key;
    }
    if HasKey(links, key) {
      var i :| 0 <= i < |links| && links[i].Ends() == key;
      assert i < n ==> links[..n][i].Ends() == key;
    }
  }

  /** If adding weights is commutative, the expanded store is symmetric. */
  lemma {:induction false} ExpansionSymmetric<W>(rules: WeightRules<W>, noSelfLinks: bool, contents: map<Key, W>,
                                                 links: seq<Link<W>>, a: nat, b: nat)
    requires KeysSorted(links) && Eager(rules.plus, links) == contents
    requires forall i :: 0 <= i < |links| ==> !rules.Refuses(links[i].weight) && !rules.Ignores(links[i].weight)
    ensures var after := AddedAll(rules, noSelfLinks, contents, Opposites(links));
            && (Key(a, b) in after <==> Key(b, a) in after)
            && (Key(a, b) in after && (forall v, w :: rules.plus(v, w) == rules.plus(w, v)) ==>
                  after[Key(a, b)] == after[Key(b, a)])
  {
    hide AddedAll, Opposites;
    SortedListing(rules.plus, links);
    ExpansionMeans(rules, noSelfLinks, contents, links, Key(a, b));
    ExpansionMeans(rules, noSelfLinks, contents, links, Key(b, a));
  }
}
