/**
 * `getTree(data, attrs)`: build the levels from the attribute path, then the
 * tree over them. The lemmas here state what holds of the whole tree: it
 * partitions the records at every depth, its depth is the number of levels,
 * and it is never `null`.
 */
module TreeBuilder {
  import opened JsValues
  import opened Levels
  import opened Grouping

  /** The value getTree returns. */
  function Tree(data: seq<Record>, attrs: seq<string>): Option<seq<Node>> {
    JsonTree(data, BuildLevels(data, attrs))
  }

  /** getTree as the source runs it; the result is never `null`. */
  method GetTree(data: seq<Record>, attrs: seq<string>) returns (tree: Option<seq<Node>>)
    ensures tree == Tree(data, attrs)
    ensures tree.Some?
  {
    var levels := BuildLevels(data, attrs);
    tree := BuildJsonTree(data, levels);
    LevelCount(data, attrs);
    JsonTreeDepth(data, levels);
  }

  /**
   * `nodes` group `data` over `depth` levels: they partition `data`, and every
   * node above the last level has children that partition its own points in
   * the same way, while nodes of the last level have no children.
   */
  ghost predicate GroupedTree(nodes: seq<Node>, data: seq<Record>, depth: nat)
    decreases depth
  {
    && PartitionOf(nodes, data)
    && (forall n :: n in nodes ==>
          if depth <= 1 then n.children == None
          else n.children.Some? && GroupedTree(n.children.value, n.points, depth - 1))
  }

  lemma CoversSubset(level: Level, data: seq<Record>, part: seq<Record>)
    requires Covers(level, data)
    requires forall p :: p in part ==> p in data
    ensures Covers(level, part)
  {
  }

  /** Over levels that each group by one attribute and cover `data`, the tree groups `data` at every depth. */
  lemma {:induction false} GroupedAtEveryDepth(data: seq<Record>, levels: seq<Level>)
    requires |levels| > 0
    requires forall k :: 0 <= k < |levels| ==> GroupingLevel(levels[k]) && Covers(levels[k], data)
    ensures JsonTree(data, levels).Some? && GroupedTree(JsonTree(data, levels).value, data, |levels|)
    decreases |levels|, 1
  {
    var nodes := JsonTree(data, levels).value;
    CoveringLevelPartitions(data, levels[0], levels[1..]);
    forall n | n in nodes
      ensures if |levels| <= 1 then n.children == None
              else n.children.Some? && GroupedTree(n.children.value, n.points, |levels| - 1)
    {
      ChildrenGrouped(data, levels, n);
    }
  }

  lemma {:induction false} ChildrenGrouped(data: seq<Record>, levels: seq<Level>, n: Node)
    requires |levels| > 0
    requires forall k :: 0 <= k < |levels| ==> GroupingLevel(levels[k]) && Covers(levels[k], data)
    requires n in GroupNodes(data, levels[0], levels[1..])
    ensures if |levels| <= 1 then n.children == None
            else n.children.Some? && GroupedTree(n.children.value, n.points, |levels| - 1)
    decreases |levels|, 0
  {
    NodeConsistency(data, levels[0], levels[1..]);
    if |levels| > 1 {
      var rest := levels[1..];
      forall k | 0 <= k < |rest|
        ensures GroupingLevel(rest[k]) && Covers(rest[k], n.points)
      {
        assert rest[k] == levels[k + 1];
        CoversSubset(rest[k], data, n.points);
      }
      GroupedAtEveryDepth(n.points, rest);
    }
  }

  /**
   * The tree getTree returns groups all of `data`: its top-level values sum
   * to `|data|`, each node's children sum to the node's value, siblings never
   * share a record, and every root-to-leaf path has one node per level.
   */
  lemma TreePartitionsData(data: seq<Record>, attrs: seq<string>)
    ensures var tree, levels := Tree(data, attrs), BuildLevels(data, attrs);
      && tree.Some?
      && GroupedTree(tree.value, data, |levels|)
      && HasDepth(tree.value, |levels|)
  {
    var levels := BuildLevels(data, attrs);
    LevelCount(data, attrs);
    BuildLevelsGroupAndCover(data, attrs);
    GroupedAtEveryDepth(data, levels);
    JsonTreeDepth(data, levels);
  }

  /** Empty `data` gives an empty array, whatever the path. */
  lemma EmptyInput(attrs: seq<string>)
    ensures Tree([], attrs) == Some([])
  {
    LevelCount([], attrs);
    EmptyData(BuildLevels([], attrs));
  }

  // ---------------------------------------------------------------------------
  // A worked example

  const MALE_STROKE: Record := map["sex" := "M", "stroke" := "1"]
  const FEMALE_HEALTHY: Record := map["sex" := "F", "stroke" := "0"]
  const FEMALE_STROKE: Record := map["sex" := "F", "stroke" := "1"]
  const EXAMPLE: seq<Record> := [MALE_STROKE, FEMALE_HEALTHY, FEMALE_STROKE]

  lemma ExampleColumn()
    ensures Distinct(Column(EXAMPLE, "sex")) == [Str("M"), Str("F")]
  {
    var column := Column(EXAMPLE, "sex");
    assert column == [Str("M"), Str("F"), Str("F")];
    assert column[..2][..1] == [Str("M")];
    assert column[..2] == [Str("M"), Str("F")];
    assert Distinct(column[..1]) == [Str("M")];
    assert Distinct(column[..2]) == [Str("M"), Str("F")];
  }

  lemma ExampleSort()
    ensures SortValues([Str("M"), Str("F")]) == [Str("F"), Str("M")]
  {
  }

  lemma ExampleLevel()
    ensures GetLevels(EXAMPLE, "sex", "sex") == [LevelValue(Str("F"), "sex"), LevelValue(Str("M"), "sex")]
  {
    ExampleColumn();
    ExampleSort();
    var level := Pair([Str("F"), Str("M")], "sex");
    assert Names(level) == [Str("F"), Str("M")];
  }

  lemma ExampleRealAttrs()
    ensures RealAttrs(["sex"]) == ["sex"]
  {
    assert ["sex"][..0] == [];
  }

  lemma ExampleLevels()
    ensures BuildLevels(EXAMPLE, ["sex"]) == [[LevelValue(Str("F"), "sex"), LevelValue(Str("M"), "sex")]]
  {
    ExampleRealAttrs();
    ExampleLevel();
    var levels := BuildLevels(EXAMPLE, ["sex"]);
    assert levels[0] == GetLevels(EXAMPLE, "sex", Fallback(["sex"], 0));
  }

  lemma ExampleFilters()
    ensures Filter(EXAMPLE, "sex", Str("F")) == [FEMALE_HEALTHY, FEMALE_STROKE]
    ensures Filter(EXAMPLE, "sex", Str("M")) == [MALE_STROKE]
  {
    assert EXAMPLE[..2][..1] == [MALE_STROKE] && EXAMPLE[..2] == [MALE_STROKE, FEMALE_HEALTHY];
    assert Field(MALE_STROKE, "sex") == Str("M");
    assert Field(FEMALE_HEALTHY, "sex") == Str("F");
    assert Field(FEMALE_STROKE, "sex") == Str("F");
    assert Filter(EXAMPLE[..1], "sex", Str("F")) == [];
    assert Filter(EXAMPLE[..2], "sex", Str("F")) == [FEMALE_HEALTHY];
    assert Filter(EXAMPLE[..1], "sex", Str("M")) == [MALE_STROKE];
    assert Filter(EXAMPLE[..2], "sex", Str("M")) == [MALE_STROKE];
  }

  /**
   * Three records grouped by `sex`: `F` sorts before `M`, each node counts its
   * records in input order, and with a single level the nodes have no
   * `children`.
   */
  lemma GroupBySexExample()
    ensures Tree(EXAMPLE, ["sex"]) == Some([
      Node(Str("F"), "sex", 2, [FEMALE_HEALTHY, FEMALE_STROKE], None),
      Node(Str("M"), "sex", 1, [MALE_STROKE], None)])
  {
    var level := [LevelValue(Str("F"), "sex"), LevelValue(Str("M"), "sex")];
    ExampleLevels();
    ExampleFilters();
    var levels: seq<Level> := [level];
    assert levels[1..] == [];
    assert level[..1] == [LevelValue(Str("F"), "sex")] && level[..1][..0] == [];
    assert JsonTree([FEMALE_HEALTHY, FEMALE_STROKE], []) == None;
    assert JsonTree([MALE_STROKE], []) == None;
    assert GroupNodes(EXAMPLE, level[..1], []) == [Node(Str("F"), "sex", 2, [FEMALE_HEALTHY, FEMALE_STROKE], None)];
    assert GroupNodes(EXAMPLE, level, []) == [
      Node(Str("F"), "sex", 2, [FEMALE_HEALTHY, FEMALE_STROKE], None),
      Node(Str("M"), "sex", 1, [MALE_STROKE], None)];
  }
}
