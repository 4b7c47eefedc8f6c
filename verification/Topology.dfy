/**
 The topology grid of the client: nodes are counted per type, every type gets a band of
 rows, and nodes are placed five to a row inside the band of their type.
 */
module Topology {
  const MAX_PER_ROW: nat := 5
  const I32_MAX: nat := 0x7FFF_FFFF

  /** The types the console lays out, in band order. */
  const TYPE_ORDER: seq<string> := [
    "endpoint", "system-faas", "custom-wasm", "llm", "kv-cache", "message-broker", "storage", "external-resource"
  ]

  ghost predicate Distinct(order: seq<string>) {
    forall i, j :: 0 <= i < j < |order| ==> order[i] != order[j]
  }

  function Rows(count: nat): nat {
    (count + MAX_PER_ROW - 1) / MAX_PER_ROW
  }

  /** The rows taken by the first `k` types when the nodes' types are `kinds`. */
  ghost function RowsBefore(order: seq<string>, kinds: multiset<string>, k: nat): nat
    requires k <= |order|
  {
    if k == 0 then 0 else RowsBefore(order, kinds, k - 1) + Rows(kinds[order[k - 1]])
  }

  /** Where a type is listed: of several places the last one counts. */
  ghost function IndexIn(order: seq<string>, kind: string): (k: nat)
    ensures k <= |order|
    ensures k < |order| ==> order[k] == kind && kind !in order[k + 1..]
    ensures k == |order| <==> kind !in order
  {
    if order == [] then 0
    else
      var n := |order| - 1;
      if order[n] == kind then n
      else
        var k := IndexIn(order[..n], kind);
        if k == n then |order| else k
  }

  ghost predicate IsLast(order: seq<string>, k: nat) {
    k < |order| && forall j :: k < j < |order| ==> order[j] != order[k]
  }

  lemma IndexIsLast(order: seq<string>, k: nat)
    requires IsLast(order, k)
    ensures IndexIn(order, order[k]) == k
  {
    var j := IndexIn(order, order[k]);
    assert order[k] in order;
  }

  /** A listed type starts where the bands before it end; an unlisted one starts at row 0. */
  ghost function BaseRow(order: seq<string>, kinds: multiset<string>, kind: string): nat {
    var k := IndexIn(order, kind);
    if k < |order| then RowsBefore(order, kinds, k) else 0
  }

  /** How many nodes of its own type precede node `i`. */
  ghost function Rank(nodes: seq<string>, i: nat): nat
    requires i < |nodes|
  {
    multiset(nodes[..i])[nodes[i]]
  }

  ghost function RowOf(order: seq<string>, nodes: seq<string>, i: nat): nat
    requires i < |nodes|
  {
    BaseRow(order, multiset(nodes), nodes[i]) + Rank(nodes, i) / MAX_PER_ROW
  }

  ghost function PositionOf(order: seq<string>, nodes: seq<string>, i: nat): (int, int)
    requires i < |nodes|
  {
    (40 + (Rank(nodes, i) % MAX_PER_ROW) * 300, 40 + RowOf(order, nodes, i) * 140)
  }

  ghost predicate NoOverlap(order: seq<string>, nodes: seq<string>) {
    forall i, j :: 0 <= i < j < |nodes| ==> PositionOf(order, nodes, i) != PositionOf(order, nodes, j)
  }

  // ---- Ranks and bands ---------------------------------------------------------------------

  lemma RankGrows(nodes: seq<string>, i: nat, j: nat)
    requires i < j < |nodes| && nodes[i] == nodes[j]
    ensures Rank(nodes, i) < Rank(nodes, j)
  {
    assert nodes[..j] == nodes[..i] + nodes[i..j];
    assert nodes[i] in nodes[i..j];
  }

  lemma RankBound(nodes: seq<string>, i: nat)
    requires i < |nodes|
    ensures Rank(nodes, i) < multiset(nodes)[nodes[i]]
    ensures Rank(nodes, i) / MAX_PER_ROW < Rows(multiset(nodes)[nodes[i]])
  {
    assert nodes == nodes[..i] + nodes[i..];
    assert nodes[i] in nodes[i..];
  }

  lemma {:induction false} RowsBeforeGrows(order: seq<string>, kinds: multiset<string>, j: nat, k: nat)
    requires j < k <= |order|
    ensures RowsBefore(order, kinds, j) + Rows(kinds[order[j]]) <= RowsBefore(order, kinds, k)
  {
    if j < k - 1 {
      RowsBeforeGrows(order, kinds, j, k - 1);
    }
  }

  lemma FoundIsLast(order: seq<string>, kind: string)
    requires kind in order
    ensures IsLast(order, IndexIn(order, kind))
  {
    var k := IndexIn(order, kind);
    forall j | k < j < |order|
      ensures order[j] != kind
    {
      assert order[j] == order[k + 1..][j - k - 1];
    }
  }

  /** A node of a listed type lies in the band of that type. */
  lemma NodeInBand(order: seq<string>, nodes: seq<string>, i: nat, k: nat)
    requires IsLast(order, k) && i < |nodes| && order[k] == nodes[i]
    ensures RowsBefore(order, multiset(nodes), k) <= RowOf(order, nodes, i)
    ensures RowOf(order, nodes, i) < RowsBefore(order, multiset(nodes), k + 1)
  {
    IndexIsLast(order, k);
    RankBound(nodes, i);
  }

  lemma {:induction false} NodeOfRank(nodes: seq<string>, kind: string, rank: nat) returns (i: nat)
    requires rank < multiset(nodes)[kind]
    ensures i < |nodes| && nodes[i] == kind && Rank(nodes, i) == rank
  {
    var n := |nodes| - 1;
    assert nodes == nodes[..n] + [nodes[n]];
    if rank < multiset(nodes[..n])[kind] {
      i := NodeOfRank(nodes[..n], kind, rank);
      assert nodes[..n][..i] == nodes[..i];
    } else {
      i := n;
    }
  }

  /** No row of a band is wasted: each begins with a node of the band's type in the first column,
      and only the last may have fewer than five. */
  lemma BandIsFilled(order: seq<string>, nodes: seq<string>, k: nat, row: nat, column: nat) returns (i: nat)
    requires IsLast(order, k) && column < 5
    requires RowsBefore(order, multiset(nodes), k) <= row < RowsBefore(order, multiset(nodes), k + 1)
    requires column == 0 || row + 1 < RowsBefore(order, multiset(nodes), k + 1)
    ensures i < |nodes| && nodes[i] == order[k]
    ensures PositionOf(order, nodes, i) == (40 + column * 300, 40 + row * 140)
  {
    var above := row - RowsBefore(order, multiset(nodes), k);
    i := NodeOfRank(nodes, order[k], 5 * above + column);
    IndexIsLast(order, k);
  }

  /** Bands follow the type order: every row of an earlier type is above every row of a later one. */
  lemma BandsAreOrdered(order: seq<string>, nodes: seq<string>, i: nat, j: nat, a: nat, b: nat)
    requires i < |nodes| && j < |nodes| && a < b && IsLast(order, a) && IsLast(order, b)
    requires order[a] == nodes[i] && order[b] == nodes[j]
    ensures RowOf(order, nodes, i) < RowOf(order, nodes, j)
  {
    NodeInBand(order, nodes, i, a);
    NodeInBand(order, nodes, j, b);
    RowsBeforeGrows(order, multiset(nodes), a, b);
  }

  lemma SameTypeApart(order: seq<string>, nodes: seq<string>, i: nat, j: nat)
    requires i < j < |nodes| && nodes[i] == nodes[j]
    ensures PositionOf(order, nodes, i) != PositionOf(order, nodes, j)
  {
    RankGrows(nodes, i, j);
  }

  lemma ListedTypesApart(order: seq<string>, nodes: seq<string>, i: nat, j: nat)
    requires i < j < |nodes| && nodes[i] in order && nodes[j] in order
    ensures PositionOf(order, nodes, i) != PositionOf(order, nodes, j)
  {
    var a, b := IndexIn(order, nodes[i]), IndexIn(order, nodes[j]);
    FoundIsLast(order, nodes[i]);
    FoundIsLast(order, nodes[j]);
    if a < b {
      BandsAreOrdered(order, nodes, i, j, a, b);
    } else if b < a {
      BandsAreOrdered(order, nodes, j, i, b, a);
    } else {
      SameTypeApart(order, nodes, i, j);
    }
  }

  // ---- When nodes overlap --------------------------------------------------------------------

  lemma {:induction false} FirstOf(nodes: seq<string>, kind: string) returns (i: nat)
    requires kind in nodes
    ensures i < |nodes| && nodes[i] == kind && Rank(nodes, i) == 0
  {
    i := 0;
    while nodes[i] != kind
      invariant i < |nodes| && kind !in nodes[..i]
      decreases |nodes| - i
    {
      i := i + 1;
    }
  }

  /** The first listed type that has a node is given row 0. */
  lemma {:induction false} FirstBand(order: seq<string>, nodes: seq<string>, k: nat) returns (first: nat)
    requires Distinct(order) && k < |order| && order[k] in nodes
    ensures first < |order| && order[first] in nodes && RowsBefore(order, multiset(nodes), first) == 0
  {
    first := 0;
    while order[first] !in nodes
      invariant first <= k && RowsBefore(order, multiset(nodes), first) == 0
      decreases k - first
    {
      first := first + 1;
    }
  }

  lemma OriginOf(order: seq<string>, nodes: seq<string>, kind: string) returns (i: nat)
    requires kind in nodes && BaseRow(order, multiset(nodes), kind) == 0
    ensures i < |nodes| && nodes[i] == kind && PositionOf(order, nodes, i) == (40, 40)
  {
    i := FirstOf(nodes, kind);
  }

  /** An unlisted type beside any other type puts two nodes on the origin of the grid. */
  lemma UnlistedTypeOverlaps(order: seq<string>, nodes: seq<string>, u: nat, v: nat)
    requires Distinct(order) && u < |nodes| && v < |nodes|
    requires nodes[u] !in order && nodes[v] != nodes[u]
    ensures !NoOverlap(order, nodes)
  {
    var i := OriginOf(order, nodes, nodes[u]);
    var other := nodes[v];
    if nodes[v] in order {
      var first := FirstBand(order, nodes, IndexIn(order, nodes[v]));
      other := order[first];
      IndexIsLast(order, first);
    }
    var j := OriginOf(order, nodes, other);
    assert i < j || j < i;
  }

  /** No two nodes share a place exactly when every type has a band or there is only one type. */
  lemma NoOverlapExactly(order: seq<string>, nodes: seq<string>)
    requires Distinct(order)
    ensures NoOverlap(order, nodes)
      <==> || (forall i :: 0 <= i < |nodes| ==> nodes[i] in order)
           || (forall i, j :: 0 <= i < j < |nodes| ==> nodes[i] == nodes[j])
  {
    if forall i :: 0 <= i < |nodes| ==> nodes[i] in order {
      forall i, j | 0 <= i < j < |nodes| ensures PositionOf(order, nodes, i) != PositionOf(order, nodes, j) {
        ListedTypesApart(order, nodes, i, j);
      }
    } else if forall i, j :: 0 <= i < j < |nodes| ==> nodes[i] == nodes[j] {
      forall i, j | 0 <= i < j < |nodes| ensures PositionOf(order, nodes, i) != PositionOf(order, nodes, j) {
        SameTypeApart(order, nodes, i, j);
      }
    } else {
      var u :| 0 <= u < |nodes| && nodes[u] !in order;
      var i, j :| 0 <= i < j < |nodes| && nodes[i] != nodes[j];
      UnlistedTypeOverlaps(order, nodes, u, if nodes[i] == nodes[u] then j else i);
    }
  }

  lemma TypeOrderIsDistinct()
    ensures Distinct(TYPE_ORDER)
  {
    assert |TYPE_ORDER| == 8;
  }

  /** The console's graph never puts two nodes on one place: its types are all listed. */
  lemma ConsoleGraphNeverOverlaps(nodes: seq<string>)
    requires forall i :: 0 <= i < |nodes| ==> nodes[i] in TYPE_ORDER
    ensures NoOverlap(TYPE_ORDER, nodes)
  {
    TypeOrderIsDistinct();
    NoOverlapExactly(TYPE_ORDER, nodes);
  }

  // ---- The coordinates fit -------------------------------------------------------------------

  /** The nodes of the first `k` types. */
  ghost function Taken(order: seq<string>, kinds: multiset<string>, k: nat): multiset<string>
    requires k <= |order|
  {
    if k == 0 then multiset{} else Taken(order, kinds, k - 1)[order[k - 1] := kinds[order[k - 1]]]
  }

  lemma {:induction false} RowsAtMostNodes(order: seq<string>, kinds: multiset<string>, k: nat)
    requires Distinct(order) && k <= |order|
    ensures RowsBefore(order, kinds, k) <= |Taken(order, kinds, k)|
    ensures Taken(order, kinds, k) <= kinds
    ensures forall j :: k <= j < |order| ==> order[j] !in Taken(order, kinds, k)
  {
    if k > 0 {
      RowsAtMostNodes(order, kinds, k - 1);
    }
  }

  lemma SubmultisetSize(a: multiset<string>, b: multiset<string>)
    requires a <= b
    ensures |a| <= |b|
  {
    assert b == a + (b - a);
  }

  /** With no more nodes than the 32-bit grid has rows, no coordinate wraps around. */
  lemma CoordinatesFit(order: seq<string>, nodes: seq<string>, i: nat)
    requires Distinct(order) && i < |nodes| && 40 + 140 * |nodes| <= I32_MAX
    ensures RowOf(order, nodes, i) < |nodes|
    ensures 40 <= PositionOf(order, nodes, i).0 <= 1240 && 40 <= PositionOf(order, nodes, i).1 <= I32_MAX
  {
    var k := IndexIn(order, nodes[i]);
    if k < |order| {
      NodeInBand(order, nodes, i, k);
      RowsAtMostNodes(order, multiset(nodes), k + 1);
      SubmultisetSize(Taken(order, multiset(nodes), k + 1), multiset(nodes));
    } else {
      assert Rank(nodes, i) <= |multiset(nodes[..i])| == i;
    }
  }

  // ---- The two passes ------------------------------------------------------------------------

  function Lookup(counts: map<string, nat>, kind: string): nat {
    if kind in counts then counts[kind] else 0
  }

  ghost predicate Tallies(counts: map<string, nat>, kinds: multiset<string>) {
    forall kind :: Lookup(counts, kind) == kinds[kind]
  }

  /** Pass 1: how many nodes each type has. */
  method CountTypes(nodes: seq<string>) returns (counts: map<string, nat>)
    ensures Tallies(counts, multiset(nodes))
  {
    counts := map[];
    for i := 0 to |nodes|
      invariant Tallies(counts, multiset(nodes[..i]))
    {
      assert nodes[..i + 1] == nodes[..i] + [nodes[i]];
      counts := counts[nodes[i] := Lookup(counts, nodes[i]) + 1];
    }
    assert nodes[..|nodes|] == nodes;
  }

  ghost predicate Bands(order: seq<string>, kinds: multiset<string>, baseRows: map<string, nat>) {
    && (forall kind :: kind in baseRows <==> kind in order && kinds[kind] > 0)
    && (forall kind <- baseRows :: baseRows[kind] == BaseRow(order, kinds, kind))
  }

  lemma IndexAppend(listed: seq<string>, last: string, kind: string)
    ensures IndexIn(listed + [last], kind) ==
      if kind == last then |listed| else if kind in listed then IndexIn(listed, kind) else |listed| + 1
  {
    assert (listed + [last])[..|listed|] == listed;
  }

  /** The bands of the types in `listed`, the first entries of the type list. */
  ghost predicate BandsUpTo(order: seq<string>, kinds: multiset<string>, baseRows: map<string, nat>,
                            listed: seq<string>) {
    && |listed| <= |order|
    && forall kind {:trigger kind in baseRows} ::
         && (kind in baseRows <==> kind in listed && kinds[kind] > 0)
         && (kind in baseRows ==> baseRows[kind] == RowsBefore(order, kinds, IndexIn(listed, kind)))
  }

  lemma BandsNext(order: seq<string>, kinds: multiset<string>, baseRows: map<string, nat>, listed: seq<string>,
                  last: string, baseRows': map<string, nat>, listed': seq<string>)
    requires |listed| < |order| && BandsUpTo(order, kinds, baseRows, listed) && listed' == listed + [last]
    requires baseRows' == if kinds[last] > 0 then baseRows[last := RowsBefore(order, kinds, |listed|)] else baseRows
    ensures BandsUpTo(order, kinds, baseRows', listed')
  {
    forall kind
      ensures kind in baseRows' <==> kind in listed' && kinds[kind] > 0
      ensures kind in baseRows' ==> baseRows'[kind] == RowsBefore(order, kinds, IndexIn(listed', kind))
    {
      IndexAppend(listed, last, kind);
      assert kind in listed' <==> kind in listed || kind == last;
      if kind != last {
        assert kind in baseRows' <==> kind in baseRows;
      }
    }
  }

  /** One turn of the layout loop: the band of type `k`, if it has nodes. */
  method AddBand(order: seq<string>, counts: map<string, nat>, baseRows: map<string, nat>, currentRow: nat, k: nat,
                 ghost kinds: multiset<string>, ghost next: nat)
    returns (baseRows': map<string, nat>, currentRow': nat)
    requires Tallies(counts, kinds) && k < |order| && next == k + 1
    requires currentRow == RowsBefore(order, kinds, k) && BandsUpTo(order, kinds, baseRows, order[..k])
    ensures currentRow' == RowsBefore(order, kinds, next) && BandsUpTo(order, kinds, baseRows', order[..next])
  {
    baseRows', currentRow' := baseRows, currentRow;
    var count := Lookup(counts, order[k]);
    if count > 0 {
      baseRows' := baseRows[order[k] := currentRow];
      currentRow' := currentRow + (count + MAX_PER_ROW - 1) / MAX_PER_ROW;
    }
    BandsNext(order, kinds, baseRows, order[..k], order[k], baseRows', order[..next]);
  }

  /** The first row of every type that has a node. */
  method BuildLayout(order: seq<string>, counts: map<string, nat>, ghost kinds: multiset<string>)
    returns (baseRows: map<string, nat>)
    requires Tallies(counts, kinds)
    ensures Bands(order, kinds, baseRows)
  {
    baseRows := map[];
    var currentRow, k := 0, 0;
    while k < |order|
      invariant k <= |order| && currentRow == RowsBefore(order, kinds, k)
      invariant BandsUpTo(order, kinds, baseRows, order[..k])
    {
      ghost var next := k + 1;
      baseRows, currentRow := AddBand(order, counts, baseRows, currentRow, k, kinds, next);
      k := k + 1;
    }
    assert order[..k] == order;
  }

  /** Places the next node of type `kind` and counts it. */
  method Position(baseRows: map<string, nat>, counters: map<string, nat>, kind: string)
    returns (x: int, y: int, counted: map<string, nat>)
    ensures x == 40 + (Lookup(counters, kind) % MAX_PER_ROW) * 300
    ensures y == 40 + (Lookup(baseRows, kind) + Lookup(counters, kind) / MAX_PER_ROW) * 140
    ensures forall k :: Lookup(counted, k) == Lookup(counters, k) + if k == kind then 1 else 0
  {
    var index := Lookup(counters, kind);
    counted := counters[kind := index + 1];
    var baseRow := Lookup(baseRows, kind);
    var col := index % MAX_PER_ROW;
    var subRow := index / MAX_PER_ROW;
    x := 40 + col * 300;
    y := 40 + (baseRow + subRow) * 140;
  }

  ghost predicate Placed(order: seq<string>, nodes: seq<string>, i: nat, position: (int, int))
    requires i < |nodes|
  {
    && position == PositionOf(order, nodes, i)
    && (Distinct(order) && 40 + 140 * |nodes| <= I32_MAX ==> 40 <= position.0 <= 1240 && 40 <= position.1 <= I32_MAX)
  }

  lemma NextPlaced(order: seq<string>, nodes: seq<string>, i: nat, baseRows: map<string, nat>,
                   counters: map<string, nat>, base: nat, index: nat)
    requires i < |nodes|
    requires Bands(order, multiset(nodes), baseRows) && base == Lookup(baseRows, nodes[i])
    requires Tallies(counters, multiset(nodes[..i])) && index == Lookup(counters, nodes[i])
    ensures Placed(order, nodes, i, (40 + (index % MAX_PER_ROW) * 300, 40 + (base + index / MAX_PER_ROW) * 140))
  {
    assert nodes[i] in multiset(nodes);
    if Distinct(order) && 40 + 140 * |nodes| <= I32_MAX {
      CoordinatesFit(order, nodes, i);
    }
  }

  lemma TallyNext(placed: seq<string>, kind: string, counters: map<string, nat>, counted: map<string, nat>)
    requires Tallies(counters, multiset(placed))
    requires forall k :: Lookup(counted, k) == Lookup(counters, k) + if k == kind then 1 else 0
    ensures Tallies(counted, multiset(placed + [kind]))
  {
  }

  /** One turn of pass 2: the place of node `i`. */
  method PlaceNext(order: seq<string>, nodes: seq<string>, i: nat, baseRows: map<string, nat>,
                   counters: map<string, nat>, ghost next: nat)
    returns (position: (int, int), counted: map<string, nat>)
    requires i < |nodes| && next == i + 1 && Bands(order, multiset(nodes), baseRows)
    requires Tallies(counters, multiset(nodes[..i]))
    ensures Placed(order, nodes, i, position) && Tallies(counted, multiset(nodes[..next]))
  {
    var x, y;
    x, y, counted := Position(baseRows, counters, nodes[i]);
    NextPlaced(order, nodes, i, baseRows, counters, Lookup(baseRows, nodes[i]), Lookup(counters, nodes[i]));
    assert nodes[..next] == nodes[..i] + [nodes[i]];
    TallyNext(nodes[..i], nodes[i], counters, counted);
    position := (x, y);
  }

  /** Pass 2: every node gets the place of its rank in the band of its type. */
  method LayOut(order: seq<string>, nodes: seq<string>) returns (positions: seq<(int, int)>)
    ensures |positions| == |nodes|
    ensures forall i :: 0 <= i < |nodes| ==> Placed(order, nodes, i, positions[i])
  {
    var counts := CountTypes(nodes);
    var baseRows := BuildLayout(order, counts, multiset(nodes));
    var counters: map<string, nat> := map[];
    positions := [];
    var i := 0;
    while i < |nodes|
      invariant |positions| == i <= |nodes| && Tallies(counters, multiset(nodes[..i]))
      invariant forall j :: 0 <= j < i ==> Placed(order, nodes, j, positions[j])
    {
      ghost var next := i + 1;
      var position;
      position, counters := PlaceNext(order, nodes, i, baseRows, counters, next);
      positions := positions + [position];
      i := i + 1;
    }
  }
}
