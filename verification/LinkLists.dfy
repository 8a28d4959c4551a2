/** Lists of weighted links, the map of aggregated links they stand for, and the compressed rows
    they are stored in.

    The addition of weights is a parameter about which nothing is assumed, neither associativity
    nor commutativity. Two ways of aggregating links therefore only agree here if they add the
    same weights in the same order, as floating-point sums need it to be bit for bit the same. */
module LinkLists {

  datatype Link<W> = Link(source: nat, target: nat, weight: W)
  {
    function Ends(): Key { Key(source, target) }
  }

  datatype Key = Key(source: nat, target: nat)
  {
    predicate Less(other: Key)
    {
      source < other.source || (source == other.source && target < other.target)
    }
  }

  /** Weights left to right. */
  function Fold<W>(plus: (W, W) -> W, ws: seq<W>): W
    requires ws != []
  {
    if |ws| == 1 then ws[0] else plus(Fold(plus, ws[..|ws| - 1]), ws[|ws| - 1])
  }

  /** The weights given for one pair of ends, in the order they arrived. */
  function Occurrences<W>(links: seq<Link<W>>, key: Key): seq<W>
  {
    if links == [] then []
    else
      var last := links[|links| - 1];
      Occurrences(links[..|links| - 1], key) + (if last.Ends() == key then [last.weight] else [])
  }

  /** One more link in a map that aggregates eagerly. */
  function Added<W>(plus: (W, W) -> W, links: map<Key, W>, link: Link<W>): map<Key, W>
  {
    links[link.Ends() := if link.Ends() in links then plus(links[link.Ends()], link.weight) else link.weight]
  }

  /** The map of all links, aggregated in the order they arrived. */
  function Eager<W>(plus: (W, W) -> W, links: seq<Link<W>>): map<Key, W>
  {
    if links == [] then map[]
    else Added(plus, Eager(plus, links[..|links| - 1]), links[|links| - 1])
  }

  lemma {:induction false} EagerIsFold<W>(plus: (W, W) -> W, links: seq<Link<W>>, key: Key)
    ensures key in Eager(plus, links) <==> Occurrences(links, key) != []
    ensures key in Eager(plus, links) ==> Eager(plus, links)[key] == Fold(plus, Occurrences(links, key))
  {
    if links != [] {
      var rest, last := links[..|links| - 1], links[|links| - 1];
      EagerIsFold(plus, rest, key);
      var ws := Occurrences(rest, key);
      assert ws + [] == ws;
      if last.Ends() == key {
        assert (ws + [last.weight])[..|ws|] == ws;
      }
    }
  }

  // ----- Links sorted by source and target, each pair once -----

  ghost predicate KeysSorted<W>(links: seq<Link<W>>)
  {
    forall i, j :: 0 <= i < j < |links| ==> links[i].Ends().Less(links[j].Ends())
  }

  ghost predicate HasKey<W>(links: seq<Link<W>>, key: Key)
  {
    exists i :: 0 <= i < |links| && links[i].Ends() == key
  }

  lemma {:induction false} OccurrencesNone<W>(links: seq<Link<W>>, key: Key)
    requires !HasKey(links, key)
    ensures Occurrences(links, key) == []
  {
    if links != [] {
      var n := |links| - 1;
      assert links[n].Ends() != key;
      forall i | 0 <= i < n ensures links[..n][i].Ends() != key {
        assert links[i].Ends() != key;
      }
      OccurrencesNone(links[..n], key);
    }
  }

  lemma {:induction false} OccurrencesOnce<W>(links: seq<Link<W>>, i: nat)
    requires KeysSorted(links) && i < |links|
    ensures Occurrences(links, links[i].Ends()) == [links[i].weight]
  {
    var n := |links| - 1;
    if i == n {
      forall j | 0 <= j < n ensures links[..n][j].Ends() != links[n].Ends() {
        assert links[j].Ends().Less(links[n].Ends());
      }
      OccurrencesNone(links[..n], links[n].Ends());
    } else {
      assert links[i].Ends().Less(links[n].Ends());
      OccurrencesOnce(links[..n], i);
    }
  }

  /** A sorted list is the listing of its map: every entry once, with its weight. */
  lemma {:induction false} SortedListing<W>(plus: (W, W) -> W, links: seq<Link<W>>)
    requires KeysSorted(links)
    ensures forall key: Key :: key in Eager(plus, links) <==> HasKey(links, key)
    ensures forall i :: 0 <= i < |links| ==>
              links[i].Ends() in Eager(plus, links) && Eager(plus, links)[links[i].Ends()] == links[i].weight
    ensures |Eager(plus, links)| == |links|
  {
    forall key: Key ensures key in Eager(plus, links) <==> HasKey(links, key) {
      EagerIsFold(plus, links, key);
      if HasKey(links, key) {
        var i :| 0 <= i < |links| && links[i].Ends() == key;
        OccurrencesOnce(links, i);
      } else {
        OccurrencesNone(links, key);
      }
    }
    forall i | 0 <= i < |links|
      ensures links[i].Ends() in Eager(plus, links) && Eager(plus, links)[links[i].Ends()] == links[i].weight
    {
      EagerIsFold(plus, links, links[i].Ends());
      OccurrencesOnce(links, i);
    }
    SortedSize(plus, links);
  }

  lemma {:induction false} SortedSize<W>(plus: (W, W) -> W, links: seq<Link<W>>)
    requires KeysSorted(links)
    ensures |Eager(plus, links)| == |links|
  {
    if links != [] {
      var n := |links| - 1;
      SortedSize(plus, links[..n]);
      EagerIsFold(plus, links[..n], links[n].Ends());
      forall j | 0 <= j < n ensures links[..n][j].Ends() != links[n].Ends() {
        assert links[j].Ends().Less(links[n].Ends());
      }
      OccurrencesNone(links[..n], links[n].Ends());
      AddedSize(Eager(plus, links[..n]), links[n].Ends(), links[n].weight);
    }
  }

  lemma {:induction false} AddedSize<W>(links: map<Key, W>, key: Key, w: W)
    ensures |links[key := w]| == |links| + (if key in links then 0 else 1)
  {
    assert links[key := w].Keys == links.Keys + {key};
  }

  // ----- Sorting an index permutation -----

  ghost predicate Increasing(xs: seq<nat>)
  {
    forall i, j :: 0 <= i < j < |xs| ==> xs[i] < xs[j]
  }

  lemma {:induction false} IncreasingOrder(xs: seq<nat>, i: nat, j: nat)
    requires Increasing(xs) && i < |xs| && j < |xs|
    ensures xs[i] < xs[j] <==> i < j
  {
  }

  /** The comparator of the sort: by source and target, ties by arrival. */
  predicate Before<W>(links: seq<Link<W>>, a: nat, b: nat)
    requires a < |links| && b < |links|
  {
    if links[a].Ends() != links[b].Ends() then links[a].Ends().Less(links[b].Ends()) else a < b
  }

  /** The first n positions in the order of the comparator. */
  ghost predicate Sorted<W>(links: seq<Link<W>>, order: seq<nat>, n: nat)
    requires n <= |links|
  {
    && |order| == n
    && (forall k :: 0 <= k < |order| ==> order[k] < n)
    && (forall i :: 0 <= i < n ==> i in order)
    && (forall k, l :: 0 <= k < l < |order| ==> Before(links, order[k], order[l]))
  }

  method SortOrder<W>(links: seq<Link<W>>) returns (order: seq<nat>)
    ensures Sorted(links, order, |links|)
  {
    order := [];
    for i := 0 to |links|
      invariant Sorted(links, order, i)
    {
      var at := |order|;
      while at > 0 && Before(links, i, order[at - 1])
        invariant 0 <= at <= |order|
        invariant forall k :: at <= k < |order| ==> Before(links, i, order[k])
      {
        at := at - 1;
      }
      InsertedSorted(links, order, i, at);
      order := order[..at] + [i] + order[at..];
    }
  }

  lemma {:induction false} InsertedSorted<W>(links: seq<Link<W>>, order: seq<nat>, i: nat, at: nat)
    requires i < |links| && Sorted(links, order, i) && at <= |order|
    requires forall k :: at <= k < |order| ==> Before(links, i, order[k])
    requires at > 0 ==> !Before(links, i, order[at - 1])
    ensures Sorted(links, order[..at] + [i] + order[at..], i + 1)
  {
    var more := order[..at] + [i] + order[at..];
    assert more[at] == i;
    forall j | 0 <= j < i + 1 ensures j in more {
      if j < i {
        assert j in order;
        var k :| 0 <= k < |order| && order[k] == j;
        assert more[if k < at then k else k + 1] == j;
      }
    }
    forall k, l | 0 <= k < l < |more| ensures Before(links, more[k], more[l]) {
      if k < at {
        assert more[k] == order[k];
        assert k < at - 1 ==> Before(links, order[k], order[at - 1]);
      } else if k > at {
        assert more[k] == order[k - 1];
      }
      if l < at { assert more[l] == order[l]; } else if l > at { assert more[l] == order[l - 1]; }
    }
  }

  /** The links in the given order. */
  function Arranged<W>(links: seq<Link<W>>, order: seq<nat>): (r: seq<Link<W>>)
    requires forall k :: 0 <= k < |order| ==> order[k] < |links|
    ensures |r| == |order| && forall k :: 0 <= k < |order| ==> r[k] == links[order[k]]
  {
    seq(|order|, k requires 0 <= k < |order| => links[order[k]])
  }

  /** The positions of one pair of ends, in the given order. */
  ghost function Positions<W>(links: seq<Link<W>>, order: seq<nat>, key: Key): seq<nat>
    requires forall k :: 0 <= k < |order| ==> order[k] < |links|
  {
    if order == [] then []
    else
      var last := order[|order| - 1];
      Positions(links, order[..|order| - 1], key) + (if links[last].Ends() == key then [last] else [])
  }

  ghost function WeightsAt<W>(links: seq<Link<W>>, positions: seq<nat>): (r: seq<W>)
    requires forall k :: 0 <= k < |positions| ==> positions[k] < |links|
    ensures |r| == |positions| && forall k :: 0 <= k < |r| ==> r[k] == links[positions[k]].weight
  {
    seq(|positions|, k requires 0 <= k < |positions| => links[positions[k]].weight)
  }

  lemma {:induction false} PositionsOf<W>(links: seq<Link<W>>, order: seq<nat>, key: Key)
    requires forall k :: 0 <= k < |order| ==> order[k] < |links|
    ensures forall i :: i in Positions(links, order, key) <==> i in order && i < |links| && links[i].Ends() == key
    ensures forall k :: 0 <= k < |Positions(links, order, key)| ==> Positions(links, order, key)[k] < |links|
  {
    if order != [] {
      var n := |order| - 1;
      PositionsOf(links, order[..n], key);
      assert order == order[..n] + [order[n]];
    }
  }

  lemma {:induction false} WeightsOf<W>(links: seq<Link<W>>, order: seq<nat>, key: Key)
    requires forall k :: 0 <= k < |order| ==> order[k] < |links|
    requires forall k :: 0 <= k < |Positions(links, order, key)| ==> Positions(links, order, key)[k] < |links|
    ensures Occurrences(Arranged(links, order), key) == WeightsAt(links, Positions(links, order, key))
  {
    if order != [] {
      var n := |order| - 1;
      PositionsOf(links, order[..n], key);
      WeightsOf(links, order[..n], key);
      assert Arranged(links, order)[..n] == Arranged(links, order[..n]);
      WeightsAppend(links, Positions(links, order[..n], key), order[n]);
      var ws := WeightsAt(links, Positions(links, order[..n], key));
      assert ws + [] == ws && Positions(links, order[..n], key) + [] == Positions(links, order[..n], key);
    }
  }

  lemma {:induction false} WeightsAppend<W>(links: seq<Link<W>>, positions: seq<nat>, p: nat)
    requires (forall k :: 0 <= k < |positions| ==> positions[k] < |links|) && p < |links|
    ensures WeightsAt(links, positions + [p]) == WeightsAt(links, positions) + [links[p].weight]
  {
  }

  /** Ties are in order of arrival, so the positions of one pair are increasing. */
  lemma {:induction false} PositionsIncreasing<W>(links: seq<Link<W>>, order: seq<nat>, key: Key)
    requires forall k :: 0 <= k < |order| ==> order[k] < |links|
    requires forall k, l :: 0 <= k < l < |order| ==> Before(links, order[k], order[l])
    ensures Increasing(Positions(links, order, key))
  {
    if order != [] {
      var n := |order| - 1;
      PositionsIncreasing(links, order[..n], key);
      PositionsOf(links, order[..n], key);
      var rest := Positions(links, order[..n], key);
      if links[order[n]].Ends() == key {
        forall k | 0 <= k < |rest| ensures rest[k] < order[n] {
          assert rest[k] in order[..n];
          var j :| 0 <= j < n && order[j] == rest[k];
          assert Before(links, order[j], order[n]);
        }
      }
    }
  }

  lemma {:induction false} IncreasingUnique(xs: seq<nat>, ys: seq<nat>)
    requires Increasing(xs) && Increasing(ys)
    requires forall i :: i in xs <==> i in ys
    ensures xs == ys
  {
    assert xs != [] ==> xs[0] in ys;
    assert ys != [] ==> ys[0] in xs;
    if xs != [] && ys != [] {
      var n, m := |xs| - 1, |ys| - 1;
      assert xs[n] in ys && ys[m] in xs;
      assert xs[n] == ys[m];
      assert xs == xs[..n] + [xs[n]] && ys == ys[..m] + [ys[m]];
      forall i ensures i in xs[..n] <==> i in ys[..m] {
        if i in xs[..n] { assert i in xs && i != xs[n]; assert i in ys; }
        if i in ys[..m] { assert i in ys && i != ys[m]; assert i in xs; }
      }
      IncreasingUnique(xs[..n], ys[..m]);
    }
  }

  function UpTo(n: nat): (r: seq<nat>)
    ensures |r| == n && forall i :: 0 <= i < n ==> r[i] == i
  {
    seq(n, (i: nat) => i)
  }

  /** Sorting keeps the weights of every pair in the order they arrived. */
  lemma {:induction false} SortingIsStable<W>(links: seq<Link<W>>, order: seq<nat>, key: Key)
    requires Sorted(links, order, |links|)
    ensures Occurrences(Arranged(links, order), key) == Occurrences(links, key)
  {
    var all := UpTo(|links|);
    PositionsOf(links, order, key);
    PositionsOf(links, all, key);
    WeightsOf(links, order, key);
    WeightsOf(links, all, key);
    PositionsIncreasing(links, order, key);
    PositionsAllIncreasing(links, |links|, key);
    assert all[..|links|] == all;
    forall i ensures i in Positions(links, order, key) <==> i in Positions(links, all, key) {
      if 0 <= i < |links| { assert all[i] == i; }
    }
    IncreasingUnique(Positions(links, order, key), Positions(links, all, key));
    assert Arranged(links, all) == links;
  }

  lemma {:induction false} PositionsAllIncreasing<W>(links: seq<Link<W>>, n: nat, key: Key)
    requires n <= |links|
    ensures Increasing(Positions(links, UpTo(|links|)[..n], key))
  {
    if n > 0 {
      var all := UpTo(|links|);
      PositionsAllIncreasing(links, n - 1, key);
      PositionsOf(links, all[..n - 1], key);
      assert all[..n][..n - 1] == all[..n - 1];
      var rest := Positions(links, all[..n - 1], key);
      forall k | 0 <= k < |rest| ensures rest[k] < n - 1 {
        assert rest[k] in all[..n - 1];
      }
    }
  }

  /** So a stable sort does not change the map, whatever addition is. */
  lemma {:induction false} SortedEager<W>(plus: (W, W) -> W, links: seq<Link<W>>, order: seq<nat>)
    requires Sorted(links, order, |links|)
    ensures Eager(plus, Arranged(links, order)) == Eager(plus, links)
  {
    forall key: Key
      ensures key in Eager(plus, Arranged(links, order)) <==> key in Eager(plus, links)
      ensures key in Eager(plus, links) ==> Eager(plus, Arranged(links, order))[key] == Eager(plus, links)[key]
    {
      SortingIsStable(links, order, key);
      EagerIsFold(plus, links, key);
      EagerIsFold(plus, Arranged(links, order), key);
    }
  }

  // ----- Merging duplicates -----

  /** The links before position k have been merged into a sorted list that stands for the same map. */
  ghost predicate MergedUpTo<W>(plus: (W, W) -> W, arranged: seq<Link<W>>, k: nat, merged: seq<Link<W>>)
  {
    && k <= |arranged| && KeysSorted(merged) && Eager(plus, merged) == Eager(plus, arranged[..k])
    && (forall e, j :: 0 <= e < |merged| && k <= j < |arranged| ==> merged[e].Ends().Less(arranged[j].Ends()))
  }

  /** Inside a group of duplicates, with the sum so far. */
  ghost predicate MergedInGroup<W>(plus: (W, W) -> W, arranged: seq<Link<W>>, k: nat, m: nat, merged: seq<Link<W>>,
                                   sum: W)
  {
    && k < m <= |arranged|
    && Eager(plus, merged + [arranged[k].(weight := sum)]) == Eager(plus, arranged[..m])
  }

  ghost predicate WeaklySorted<W>(links: seq<Link<W>>)
  {
    forall i, j :: 0 <= i < j < |links| ==> links[i].Ends() == links[j].Ends() || links[i].Ends().Less(links[j].Ends())
  }

  lemma {:induction false} ArrangedSorted<W>(links: seq<Link<W>>, order: seq<nat>)
    requires Sorted(links, order, |links|)
    ensures WeaklySorted(Arranged(links, order))
  {
    forall i, j | 0 <= i < j < |order|
      ensures links[order[i]].Ends() == links[order[j]].Ends() || links[order[i]].Ends().Less(links[order[j]].Ends())
    {
      assert Before(links, order[i], order[j]);
    }
  }

  lemma {:induction false} MergeStart<W>(plus: (W, W) -> W, arranged: seq<Link<W>>)
    ensures MergedUpTo(plus, arranged, 0, [])
  {
    assert arranged[..0] == [];
  }

  lemma {:induction false} EagerAppend<W>(plus: (W, W) -> W, links: seq<Link<W>>, link: Link<W>)
    ensures Eager(plus, links + [link]) == Added(plus, Eager(plus, links), link)
  {
    assert (links + [link])[..|links|] == links;
  }

  lemma {:induction false} GroupStart<W>(plus: (W, W) -> W, arranged: seq<Link<W>>, k: nat, merged: seq<Link<W>>)
    requires MergedUpTo(plus, arranged, k, merged) && k < |arranged|
    ensures MergedInGroup(plus, arranged, k, k + 1, merged, arranged[k].weight)
  {
    assert arranged[..k + 1] == arranged[..k] + [arranged[k]];
    EagerAppend(plus, arranged[..k], arranged[k]);
    EagerAppend(plus, merged, arranged[k]);
    assert arranged[k].(weight := arranged[k].weight) == arranged[k];
  }

  lemma {:induction false} GroupStep<W>(plus: (W, W) -> W, arranged: seq<Link<W>>, k: nat, m: nat,
                                        merged: seq<Link<W>>, sum: W)
    requires MergedUpTo(plus, arranged, k, merged) && MergedInGroup(plus, arranged, k, m, merged, sum)
    requires m < |arranged| && arranged[m].Ends() == arranged[k].Ends()
    ensures MergedInGroup(plus, arranged, k, m + 1, merged, plus(sum, arranged[m].weight))
  {
    var one, more := arranged[k].(weight := sum), arranged[k].(weight := plus(sum, arranged[m].weight));
    assert arranged[..m + 1] == arranged[..m] + [arranged[m]];
    EagerAppend(plus, arranged[..m], arranged[m]);
    EagerAppend(plus, merged, one);
    EagerAppend(plus, merged, more);
    SortedListing(plus, merged);
    assert !HasKey(merged, arranged[k].Ends());
  }

  lemma {:induction false} GroupEnd<W>(plus: (W, W) -> W, arranged: seq<Link<W>>, k: nat, m: nat, merged: seq<Link<W>>,
                                       sum: W)
    requires WeaklySorted(arranged)
    requires MergedUpTo(plus, arranged, k, merged) && MergedInGroup(plus, arranged, k, m, merged, sum)
    requires m == |arranged| || arranged[m].Ends() != arranged[k].Ends()
    ensures MergedUpTo(plus, arranged, m, merged + [arranged[k].(weight := sum)])
  {
    forall j | m <= j < |arranged| ensures arranged[k].Ends().Less(arranged[j].Ends()) {
      assert arranged[k].Ends().Less(arranged[m].Ends());
      assert j > m ==> arranged[m].Ends() == arranged[j].Ends() || arranged[m].Ends().Less(arranged[j].Ends());
    }
  }

  // ----- Compressed rows -----

  /** The arrays hold the sorted list: nodeIds are the row names, offsets the row borders, and the
      targets are given by their position among nodeIds. */
  ghost predicate CsrHolds<W>(nodeIds: seq<nat>, offsets: seq<nat>, targets: seq<nat>, weights: seq<W>,
                              links: seq<Link<W>>)
  {
    && EntriesHold(nodeIds, targets, weights, links)
    && |offsets| == |nodeIds| + 1 && RowsClosed(nodeIds, offsets, |nodeIds|, links) && offsets[|nodeIds|] == |links|
  }

  ghost predicate EntriesHold<W>(nodeIds: seq<nat>, targets: seq<nat>, weights: seq<W>, links: seq<Link<W>>)
  {
    && Increasing(nodeIds) && KeysSorted(links) && |targets| == |weights| == |links|
    && forall e :: 0 <= e < |links| ==>
         targets[e] < |nodeIds| && nodeIds[targets[e]] == links[e].target && weights[e] == links[e].weight
  }

  /** Row s holds links of its own node only. */
  ghost predicate RowHolds<W>(nodeIds: seq<nat>, offsets: seq<nat>, s: nat, links: seq<Link<W>>)
    requires s < |nodeIds| < |offsets|
  {
    && offsets[s] <= offsets[s + 1] <= |links|
    && forall e :: offsets[s] <= e < offsets[s + 1] ==> links[e].source == nodeIds[s]
  }

  /** The rows before row r are complete, each one starting where the previous one ends. */
  ghost predicate RowsClosed<W>(nodeIds: seq<nat>, offsets: seq<nat>, r: nat, links: seq<Link<W>>)
  {
    && r <= |nodeIds| < |offsets| && offsets[0] == 0 && offsets[r] <= |links|
    && forall s :: 0 <= s < r ==> RowHolds(nodeIds, offsets, s, links)
  }

  /** The current row is open: all links since its start are its own. */
  ghost predicate RowOpen<W>(nodeIds: seq<nat>, offsets: seq<nat>, r: nat, links: seq<Link<W>>)
  {
    && RowsClosed(nodeIds, offsets, r, links)
    && (r == |nodeIds| ==> offsets[r] == |links|)
    && forall e :: offsets[r] <= e < |links| && r < |nodeIds| ==> links[e].source == nodeIds[r]
  }

  lemma {:induction false} RowAdvance<W>(nodeIds: seq<nat>, offsets: seq<nat>, r: nat, links: seq<Link<W>>)
    requires RowOpen(nodeIds, offsets, r, links) && r < |nodeIds|
    ensures RowOpen(nodeIds, offsets[r + 1 := |links|], r + 1, links)
  {
    var offsets' := offsets[r + 1 := |links|];
    forall s | 0 <= s < r + 1 ensures RowHolds(nodeIds, offsets', s, links) {
      assert s < r ==> RowHolds(nodeIds, offsets, s, links);
    }
  }

  lemma {:induction false} RowAppend<W>(nodeIds: seq<nat>, offsets: seq<nat>, r: nat, links: seq<Link<W>>,
                                        link: Link<W>)
    requires RowOpen(nodeIds, offsets, r, links) && r < |nodeIds| && link.source == nodeIds[r]
    ensures RowOpen(nodeIds, offsets, r, links + [link])
  {
    forall s | 0 <= s < r ensures RowHolds(nodeIds, offsets, s, links + [link]) {
      assert RowHolds(nodeIds, offsets, s, links);
    }
  }

  /** Offsets are monotone, from zero to the number of links. */
  lemma {:induction false} OffsetsMonotone<W>(nodeIds: seq<nat>, offsets: seq<nat>, targets: seq<nat>, weights: seq<W>,
                                              links: seq<Link<W>>, s: nat, t: nat)
    requires CsrHolds(nodeIds, offsets, targets, weights, links) && s <= t <= |nodeIds|
    ensures 0 == offsets[0] <= offsets[s] <= offsets[t] <= offsets[|nodeIds|] == |targets|
    decreases t - s
  {
    if s < t {
      assert RowHolds(nodeIds, offsets, s, links);
      OffsetsMonotone(nodeIds, offsets, targets, weights, links, s + 1, t);
    } else if t < |nodeIds| {
      assert RowHolds(nodeIds, offsets, t, links);
    }
  }

  /** Every link lies in the row of its source. */
  lemma {:induction false} RowOfLink<W>(nodeIds: seq<nat>, offsets: seq<nat>, targets: seq<nat>, weights: seq<W>,
                                        links: seq<Link<W>>, e: nat, r: nat)
    returns (s: nat)
    requires CsrHolds(nodeIds, offsets, targets, weights, links) && e < |links|
    requires r <= |nodeIds| && e < offsets[r]
    ensures s < r && offsets[s] <= e < offsets[s + 1] && links[e].source == nodeIds[s]
  {
    s := r - 1;
    assert RowHolds(nodeIds, offsets, s, links);
    if e < offsets[s] {
      s := RowOfLink(nodeIds, offsets, targets, weights, links, e, s);
    }
  }

  /** The entries of a row are links of its node, strictly ordered by target. */
  lemma {:induction false} RowEntries<W>(plus: (W, W) -> W, nodeIds: seq<nat>, offsets: seq<nat>, targets: seq<nat>,
                                         weights: seq<W>,
                                         links: seq<Link<W>>, s: nat)
    requires CsrHolds(nodeIds, offsets, targets, weights, links) && s < |nodeIds|
    ensures offsets[s] <= offsets[s + 1] <= |links| == |targets| == |weights|
    ensures forall e, f :: offsets[s] <= e < f < offsets[s + 1] ==> targets[e] < targets[f]
    ensures forall e :: offsets[s] <= e < offsets[s + 1] ==>
              targets[e] < |nodeIds|
              && Key(nodeIds[s], nodeIds[targets[e]]) in Eager(plus, links)
              && Eager(plus, links)[Key(nodeIds[s], nodeIds[targets[e]])] == weights[e]
  {
    SortedListing(plus, links);
    assert RowHolds(nodeIds, offsets, s, links);
    forall e, f | offsets[s] <= e < f < offsets[s + 1] ensures targets[e] < targets[f] {
      assert links[e].Ends().Less(links[f].Ends());
      IncreasingOrder(nodeIds, targets[e], targets[f]);
    }
    forall e | offsets[s] <= e < offsets[s + 1]
      ensures Key(nodeIds[s], nodeIds[targets[e]]) in Eager(plus, links)
           && Eager(plus, links)[Key(nodeIds[s], nodeIds[targets[e]])] == weights[e]
    {
      assert links[e].Ends() == Key(nodeIds[s], nodeIds[targets[e]]);
    }
  }

  /** And every link of the node is there; a dangling node has an empty row. */
  lemma {:induction false} RowComplete<W>(plus: (W, W) -> W, nodeIds: seq<nat>, offsets: seq<nat>, targets: seq<nat>,
                                          weights: seq<W>,
                                          links: seq<Link<W>>, s: nat)
    requires CsrHolds(nodeIds, offsets, targets, weights, links) && s < |nodeIds|
    ensures |targets| == |links| && offsets[s] <= offsets[s + 1] <= |links|
    ensures forall target: nat :: Key(nodeIds[s], target) in Eager(plus, links) ==>
              exists e :: offsets[s] <= e < offsets[s + 1] && targets[e] < |nodeIds| && nodeIds[targets[e]] == target
    ensures offsets[s] == offsets[s + 1] <==> forall target: nat :: Key(nodeIds[s], target) !in Eager(plus, links)
  {
    RowEntries(plus, nodeIds, offsets, targets, weights, links, s);
    forall target: nat | Key(nodeIds[s], target) in Eager(plus, links)
      ensures exists e :: offsets[s] <= e < offsets[s + 1] && targets[e] < |nodeIds| && nodeIds[targets[e]] == target
    {
      var e := ListedAt(plus, links, Key(nodeIds[s], target));
      var r := RowOfLink(nodeIds, offsets, targets, weights, links, e, |nodeIds|);
      IncreasingOrder(nodeIds, r, s);
      IncreasingOrder(nodeIds, s, r);
    }
    if offsets[s] < offsets[s + 1] {
      var e := offsets[s];
      assert Key(nodeIds[s], nodeIds[targets[e]]) in Eager(plus, links);
    }
  }

  lemma {:induction false} ListedAt<W>(plus: (W, W) -> W, links: seq<Link<W>>, key: Key) returns (e: nat)
    requires KeysSorted(links) && key in Eager(plus, links)
    ensures e < |links| && links[e].Ends() == key
  {
    SortedListing(plus, links);
    assert HasKey(links, key);
    e :| 0 <= e < |links| && links[e].Ends() == key;
  }
}
