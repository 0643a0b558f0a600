/**
 * Stage two of getTree: `getJsonTree(data, levels)`. It walks the first level
 * in order, keeps the records whose field equals the entry's value, skips
 * empty groups, and emits one node per non-empty group, whose children are
 * the tree of that group over the remaining levels. With no levels left the
 * result is `null`.
 *
 * JsonTree and GroupNodes are the specification; BuildJsonTree is the loop
 * the source runs, proved equal to it. The lemmas state what the nodes of
 * one call satisfy.
 */
module Grouping {
  import opened JsValues
  import opened Levels

  /** A result that may be JS `null`. */
  datatype Option<T> = None | Some(value: T)

  /**
   * One node of the tree: `{ name, attr, value, points }`, plus `children`
   * when the recursive call returned an array (`None` is the absent field).
   */
  datatype Node = Node(name: Value, attr: string, value: nat, points: seq<Record>, children: Option<seq<Node>>)

  /** The `{ name, attr }` pair a node was built from. */
  function Key(n: Node): LevelValue {
    LevelValue(n.name, n.attr)
  }

  function Keys(nodes: seq<Node>): (keys: seq<LevelValue>)
    ensures |keys| == |nodes|
    ensures forall i :: 0 <= i < |nodes| ==> keys[i] == Key(nodes[i])
  {
    seq(|nodes|, i requires 0 <= i < |nodes| => Key(nodes[i]))
  }

  /** `data.filter(d => d[attr] === name)` */
  function Filter(data: seq<Record>, attr: string, name: Value): (matching: seq<Record>)
    ensures forall p :: p in matching <==> p in data && Field(p, attr) == name
    ensures |matching| <= |data|
  {
    if |data| == 0 then []
    else
      var init, last := data[..|data| - 1], data[|data| - 1];
      assert data == init + [last];
      var m := Filter(init, attr, name);
      if Field(last, attr) == name then m + [last] else m
  }

  /** The filter keeps the records in the order they have in `data`. */
  lemma {:induction false} FilterKeepsOrder(data: seq<Record>, attr: string, name: Value)
    ensures SubsequenceOf(Filter(data, attr, name), data)
  {
    if |data| > 0 {
      var init, last := data[..|data| - 1], data[|data| - 1];
      assert data[..|data| - 1] == init;
      FilterKeepsOrder(init, attr, name);
      var m := Filter(init, attr, name);
      if Field(last, attr) == name {
        assert (m + [last])[..|m|] == m;
      }
    }
  }

  // ---------------------------------------------------------------------------
  // The specification of getJsonTree

  /** `getJsonTree(data, levels)` */
  function JsonTree(data: seq<Record>, levels: seq<Level>): Option<seq<Node>>
    decreases |levels|, 1
  {
    if |levels| == 0 then None
    else Some(GroupNodes(data, levels[0], levels[1..]))
  }

  /** The nodes that the loop over `level` has pushed once it has visited every entry of `level`. */
  function GroupNodes(data: seq<Record>, level: Level, rest: seq<Level>): seq<Node>
    decreases |rest| + 1, 0, |level|
  {
    if |level| == 0 then []
    else
      var nodes := GroupNodes(data, level[..|level| - 1], rest);
      var levelValue := level[|level| - 1];
      var filtered := Filter(data, levelValue.attr, levelValue.name);
      if |filtered| == 0 then nodes
      else nodes + [Node(levelValue.name, levelValue.attr, |filtered|, filtered, JsonTree(filtered, rest))]
  }

  /** getJsonTree as the source runs it: a loop pushing nodes, with a recursive call per node. */
  method BuildJsonTree(data: seq<Record>, levels: seq<Level>) returns (tree: Option<seq<Node>>)
    ensures tree == JsonTree(data, levels)
    decreases |levels|
  {
    if |levels| == 0 {
      return None;
    }
    var currentLevel := levels[0];
    var groupedNodes: seq<Node> := [];
    for i := 0 to |currentLevel|
      invariant groupedNodes == GroupNodes(data, currentLevel[..i], levels[1..])
    {
      var levelValue := currentLevel[i];
      assert currentLevel[..i + 1][..i] == currentLevel[..i];
      var filtered := Filter(data, levelValue.attr, levelValue.name);
      if |filtered| == 0 {
        continue;
      }
      var node := Node(levelValue.name, levelValue.attr, |filtered|, filtered, None);
      var children := BuildJsonTree(filtered, levels[1..]);
      if children.Some? {
        node := node.(children := children);
      }
      groupedNodes := groupedNodes + [node];
    }
    assert currentLevel[..|currentLevel|] == currentLevel;
    return Some(groupedNodes);
  }

  // ---------------------------------------------------------------------------
  // The nodes of one call

  /**
   * Every node counts a non-empty group: `value` is the number of its points,
   * each point has `name` as its `attr` field, the points are all the records
   * of `data` with that field value, in their input order, and the children
   * are the tree of those points over the remaining levels.
   */
  lemma {:induction false} NodeConsistency(data: seq<Record>, level: Level, rest: seq<Level>)
    ensures forall n :: n in GroupNodes(data, level, rest) ==>
      && n.value == |n.points| > 0
      && n.points == Filter(data, n.attr, n.name)
      && (forall p :: p in n.points <==> p in data && Field(p, n.attr) == n.name)
      && SubsequenceOf(n.points, data)
      && n.children == JsonTree(n.points, rest)
      && Key(n) in level
  {
    if |level| > 0 {
      var init, last := level[..|level| - 1], level[|level| - 1];
      NodeConsistency(data, init, rest);
      FilterKeepsOrder(data, last.attr, last.name);
      KeysFromLevel(data, level, rest);
    }
  }

  /** Siblings follow the level's order: their keys are the level with some entries left out. */
  lemma {:induction false} SiblingOrder(data: seq<Record>, level: Level, rest: seq<Level>)
    ensures SubsequenceOf(Keys(GroupNodes(data, level, rest)), level)
  {
    if |level| > 0 {
      var init, last := level[..|level| - 1], level[|level| - 1];
      SiblingOrder(data, init, rest);
      var prev := GroupNodes(data, init, rest);
      var keys := Keys(GroupNodes(data, level, rest));
      if |Filter(data, last.attr, last.name)| > 0 {
        assert keys[..|keys| - 1] == Keys(prev);
      }
    }
  }

  /** An entry of the level gets a node exactly when some record matches it: empty groups are skipped. */
  lemma {:induction false} EmptyGroupsOmitted(data: seq<Record>, level: Level, rest: seq<Level>)
    ensures var keys := Keys(GroupNodes(data, level, rest));
      forall e :: e in level ==> (e in keys <==> |Filter(data, e.attr, e.name)| > 0)
  {
    var nodes := GroupNodes(data, level, rest);
    NodeConsistency(data, level, rest);
    forall e | e in level && e in Keys(nodes)
      ensures |Filter(data, e.attr, e.name)| > 0
    {
      var i :| 0 <= i < |nodes| && Keys(nodes)[i] == e;
      assert nodes[i] in nodes;
      assert nodes[i].points[0] in Filter(data, e.attr, e.name);
    }
    forall e | e in level && |Filter(data, e.attr, e.name)| > 0
      ensures e in Keys(nodes)
    {
      PresentEntryHasNode(data, level, rest, e);
    }
  }

  lemma {:induction false} PresentEntryHasNode(data: seq<Record>, level: Level, rest: seq<Level>, e: LevelValue)
    requires e in level && |Filter(data, e.attr, e.name)| > 0
    ensures e in Keys(GroupNodes(data, level, rest))
  {
    var init, last := level[..|level| - 1], level[|level| - 1];
    var prev := GroupNodes(data, init, rest);
    var nodes := GroupNodes(data, level, rest);
    if e == last {
      assert Keys(nodes)[|nodes| - 1] == e;
    } else {
      assert level == init + [last];
      PresentEntryHasNode(data, init, rest, e);
      var i :| 0 <= i < |prev| && Keys(prev)[i] == e;
      assert nodes[i] == prev[i];
      assert Keys(nodes)[i] == e;
    }
  }

  /** Every node comes from an entry of the level. */
  lemma {:induction false} KeysFromLevel(data: seq<Record>, level: Level, rest: seq<Level>)
    ensures forall n :: n in GroupNodes(data, level, rest) ==> Key(n) in level
  {
    if |level| > 0 {
      var init := level[..|level| - 1];
      KeysFromLevel(data, init, rest);
      assert forall e :: e in init ==> e in level;
    }
  }

  /** The keys of siblings built from a grouping level form a grouping level themselves. */
  lemma {:induction false} SiblingKeysGroup(data: seq<Record>, level: Level, rest: seq<Level>)
    requires GroupingLevel(level)
    ensures GroupingLevel(Keys(GroupNodes(data, level, rest)))
  {
    if |level| > 0 {
      var init, last := level[..|level| - 1], level[|level| - 1];
      assert GroupingLevel(init);
      SiblingKeysGroup(data, init, rest);
      KeysFromLevel(data, init, rest);
      var prev := GroupNodes(data, init, rest);
      var keys := Keys(GroupNodes(data, level, rest));
      if |keys| > |prev| {
        assert keys[..|prev|] == Keys(prev);
        forall i | 0 <= i < |prev|
          ensures keys[i].attr == last.attr && keys[i].name != last.name
        {
          assert prev[i] in prev;
          var k :| 0 <= k < |init| && init[k] == Key(prev[i]);
          assert level[k] == init[k] && level[|init|] == last;
        }
      }
    }
  }

  /** Siblings built from a grouping level have distinct names, one attribute, and no point in common. */
  lemma SiblingsDisjoint(data: seq<Record>, level: Level, rest: seq<Level>)
    requires GroupingLevel(level)
    ensures var nodes := GroupNodes(data, level, rest);
      forall i, j :: 0 <= i < j < |nodes| ==>
        && nodes[i].attr == nodes[j].attr
        && nodes[i].name != nodes[j].name
        && forall p :: p in nodes[i].points ==> p !in nodes[j].points
  {
    var nodes := GroupNodes(data, level, rest);
    SiblingKeysGroup(data, level, rest);
    NodeConsistency(data, level, rest);
    forall i, j | 0 <= i < j < |nodes|
      ensures forall p :: p in nodes[i].points ==> p !in nodes[j].points
    {
      assert Keys(nodes)[i] == Key(nodes[i]) && Keys(nodes)[j] == Key(nodes[j]);
      assert nodes[i] in nodes && nodes[j] in nodes;
    }
  }

  // ---------------------------------------------------------------------------
  // Partition

  /** The points of all nodes, concatenated in sibling order. */
  function Points(nodes: seq<Node>): seq<Record> {
    if |nodes| == 0 then []
    else Points(nodes[..|nodes| - 1]) + nodes[|nodes| - 1].points
  }

  /** The sum of the nodes' `value`s. */
  function SumValues(nodes: seq<Node>): nat {
    if |nodes| == 0 then 0
    else SumValues(nodes[..|nodes| - 1]) + nodes[|nodes| - 1].value
  }

  /** The record matches some entry of the level. */
  ghost predicate Matches(p: Record, level: Level) {
    exists i :: 0 <= i < |level| && Field(p, level[i].attr) == level[i].name
  }

  /** The records of `data` that match some entry of the level, in order. */
  ghost function FilterMatching(data: seq<Record>, level: Level): seq<Record> {
    if |data| == 0 then []
    else
      var rest := FilterMatching(data[..|data| - 1], level);
      if Matches(data[|data| - 1], level) then rest + [data[|data| - 1]] else rest
  }

  lemma {:induction false} FilterMatchingSplit(data: seq<Record>, init: Level, last: LevelValue)
    requires GroupingLevel(init + [last])
    ensures multiset(FilterMatching(data, init + [last]))
         == multiset(FilterMatching(data, init)) + multiset(Filter(data, last.attr, last.name))
  {
    if |data| > 0 {
      var level := init + [last];
      var p := data[|data| - 1];
      FilterMatchingSplit(data[..|data| - 1], init, last);
      if Matches(p, level) {
        var i :| 0 <= i < |level| && Field(p, level[i].attr) == level[i].name;
        if i < |init| {
          assert level[i] == init[i] && level[|init|] == last;
          assert Field(p, last.attr) != last.name;
        }
      }
      if Matches(p, init) {
        var i :| 0 <= i < |init| && Field(p, init[i].attr) == init[i].name;
        assert level[i] == init[i] && level[|init|] == last;
        assert Field(p, last.attr) != last.name;
      }
      if Field(p, last.attr) == last.name {
        assert level[|init|] == last;
      }
    }
  }

  lemma {:induction false} FilterMatchingCovered(data: seq<Record>, level: Level)
    requires Covers(level, data)
    ensures FilterMatching(data, level) == data
  {
    if |data| > 0 {
      var init, last := data[..|data| - 1], data[|data| - 1];
      assert data == init + [last];
      assert forall p :: p in init ==> p in data;
      FilterMatchingCovered(init, level);
      assert last in data;
      assert Matches(last, level);
    }
  }

  /**
   * The nodes of one call over a grouping level partition the records that
   * the level matches: together their points are exactly those records (as
   * a multiset: none lost, none repeated), and their values add up to how
   * many there are. When the level covers `data`, that is all of `data`.
   */
  lemma {:induction false} GroupNodesPartition(data: seq<Record>, level: Level, rest: seq<Level>)
    requires GroupingLevel(level)
    ensures var nodes := GroupNodes(data, level, rest);
      && multiset(Points(nodes)) == multiset(FilterMatching(data, level))
      && SumValues(nodes) == |FilterMatching(data, level)|
      && (Covers(level, data) ==> multiset(Points(nodes)) == multiset(data) && SumValues(nodes) == |data|)
  {
    var nodes := GroupNodes(data, level, rest);
    if |level| > 0 {
      var init, last := level[..|level| - 1], level[|level| - 1];
      assert level == init + [last];
      GroupNodesPartition(data, init, rest);
      FilterMatchingSplit(data, init, last);
      var prev := GroupNodes(data, init, rest);
      if |Filter(data, last.attr, last.name)| > 0 {
        assert nodes[..|nodes| - 1] == prev;
      }
    } else {
      assert FilterMatching(data, level) == [] by {
        if |data| > 0 {
          FilterMatchingNone(data, level);
        }
      }
    }
    assert SumValues(nodes) == |Points(nodes)| by {
      NodeConsistency(data, level, rest);
      SumValuesCountsPoints(nodes);
    }
    assert |FilterMatching(data, level)| == |multiset(FilterMatching(data, level))|;
    if Covers(level, data) {
      FilterMatchingCovered(data, level);
    }
  }

  /**
   * `nodes` partition `data`: their points are exactly the records of `data`
   * (none lost, none repeated), their values add up to `|data|`, siblings
   * share no record, and every node counts a non-empty group of records that
   * agree on its `attr`, kept in input order.
   */
  ghost predicate PartitionOf(nodes: seq<Node>, data: seq<Record>) {
    && multiset(Points(nodes)) == multiset(data)
    && SumValues(nodes) == |data|
    && (forall i, j :: 0 <= i < j < |nodes| ==> forall p :: p in nodes[i].points ==> p !in nodes[j].points)
    && (forall n :: n in nodes ==>
          && n.value == |n.points| > 0
          && (forall p :: p in n.points ==> Field(p, n.attr) == n.name)
          && SubsequenceOf(n.points, data))
  }

  /** The nodes of one call over a level that groups by one attribute and covers `data` partition `data`. */
  lemma CoveringLevelPartitions(data: seq<Record>, level: Level, rest: seq<Level>)
    requires GroupingLevel(level) && Covers(level, data)
    ensures PartitionOf(GroupNodes(data, level, rest), data)
  {
    GroupNodesPartition(data, level, rest);
    SiblingsDisjoint(data, level, rest);
    NodeConsistency(data, level, rest);
  }

  lemma {:induction false} FilterMatchingNone(data: seq<Record>, level: Level)
    requires |level| == 0
    ensures FilterMatching(data, level) == []
  {
    if |data| > 0 {
      FilterMatchingNone(data[..|data| - 1], level);
    }
  }

  lemma {:induction false} SumValuesCountsPoints(nodes: seq<Node>)
    requires forall n :: n in nodes ==> n.value == |n.points|
    ensures SumValues(nodes) == |Points(nodes)|
  {
    if |nodes| > 0 {
      SumValuesCountsPoints(nodes[..|nodes| - 1]);
    }
  }

  // ---------------------------------------------------------------------------
  // Depth and the empty input

  /** Every path from these nodes down to a leaf has `depth` nodes; leaves have no `children`. */
  ghost predicate HasDepth(nodes: seq<Node>, depth: nat)
    decreases depth
  {
    forall n :: n in nodes ==>
      if depth <= 1 then n.children == None
      else n.children.Some? && HasDepth(n.children.value, depth - 1)
  }

  /**
   * With no levels the result is `null`; otherwise it is an array whose
   * nodes all have depth equal to the number of levels: nodes of the last
   * level have no `children`, every other node has a `children` array, even
   * an empty one.
   */
  lemma {:induction false} JsonTreeDepth(data: seq<Record>, levels: seq<Level>)
    ensures JsonTree(data, levels).None? <==> |levels| == 0
    ensures |levels| > 0 ==> HasDepth(JsonTree(data, levels).value, |levels|)
    decreases |levels|
  {
    if |levels| > 0 {
      var nodes := JsonTree(data, levels).value;
      NodeConsistency(data, levels[0], levels[1..]);
      forall n | n in nodes
        ensures if |levels| <= 1 then n.children == None
                else n.children.Some? && HasDepth(n.children.value, |levels| - 1)
      {
        JsonTreeDepth(n.points, levels[1..]);
      }
    }
  }

  /** Empty `data` with at least one level gives `[]`, not `null`. */
  lemma {:induction false} EmptyData(levels: seq<Level>)
    requires |levels| > 0
    ensures JsonTree([], levels) == Some([])
  {
    NoRecordsNoNodes(levels[0], levels[1..]);
  }

  lemma {:induction false} NoRecordsNoNodes(level: Level, rest: seq<Level>)
    ensures GroupNodes([], level, rest) == []
  {
    if |level| > 0 {
      NoRecordsNoNodes(level[..|level| - 1], rest);
    }
  }
}
