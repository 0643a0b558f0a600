/**
 * Stage one of getTree: turning the attribute path into one "level" per depth.
 * A level is the ordered list of (value, attribute) pairs that the tree groups
 * by at that depth. Placeholder entries of the path are resolved to a real
 * attribute by position, and a path without any real attribute is replaced by
 * a single level over the `stroke` field.
 */
module Levels {
  import opened JsValues

  /** The path entry that stands for "some real attribute". */
  const PLACEHOLDER: string := "_placeholder"

  /** The field grouped by when the path has no real attribute. */
  const DISEASE_ATTR: string := "stroke"

  /** One `{ name, attr }` entry of a level. */
  datatype LevelValue = LevelValue(name: Value, attr: string)

  type Level = seq<LevelValue>

  /** The names of a level, in order. */
  function Names(level: Level): (names: seq<Value>)
    ensures |names| == |level|
    ensures forall i :: 0 <= i < |level| ==> names[i] == level[i].name
  {
    seq(|level|, i requires 0 <= i < |level| => level[i].name)
  }

  /** Pairs each value with the attribute it was read from. */
  function Pair(names: seq<Value>, attr: string): (level: Level)
    ensures Names(level) == names
    ensures forall i :: 0 <= i < |level| ==> level[i].attr == attr
  {
    seq(|names|, i requires 0 <= i < |names| => LevelValue(names[i], attr))
  }

  /** `attrs.filter(a => a !== "_placeholder")`, keeping the order of `attrs`. */
  function RealAttrs(attrs: seq<string>): (reals: seq<string>)
    ensures forall a :: a in reals <==> a in attrs && a != PLACEHOLDER
    ensures SubsequenceOf(reals, attrs)
    ensures |reals| == |attrs| - multiset(attrs)[PLACEHOLDER]
  {
    if |attrs| == 0 then []
    else
      var init, last := attrs[..|attrs| - 1], attrs[|attrs| - 1];
      assert attrs == init + [last];
      var reals := RealAttrs(init);
      if last == PLACEHOLDER then reals
      else
        assert (reals + [last])[..|reals|] == reals;
        reals + [last]
  }

  /**
   * The fallback attribute handed to path position `idx`: `realAttrs[0]` at
   * position 0, otherwise `realAttrs[idx - 1] || realAttrs[0]`. The `||`
   * falls through both when the index is past the end (`undefined`) and when
   * the entry is the empty string (falsy).
   */
  function Fallback(realAttrs: seq<string>, idx: nat): (fallback: string)
    requires |realAttrs| > 0
    ensures fallback in realAttrs
  {
    if idx == 0 then realAttrs[0]
    else if idx - 1 < |realAttrs| && realAttrs[idx - 1] != "" then realAttrs[idx - 1]
    else realAttrs[0]
  }

  /** The first line of `getLevels`: a placeholder is replaced by the fallback. */
  function Resolve(attr: string, fallback: string): string {
    if attr == PLACEHOLDER then fallback else attr
  }

  /** `getLevels(attr, fallback)`: the distinct values of the resolved attribute, sorted. */
  function GetLevels(data: seq<Record>, attr: string, fallback: string): Level {
    var resolved := Resolve(attr, fallback);
    Pair(SortValues(Distinct(Column(data, resolved))), resolved)
  }

  /** The root level used when the path has no real attribute: distinct `stroke` values, unsorted. */
  function DiseaseLevel(data: seq<Record>): Level {
    Pair(Distinct(Column(data, DISEASE_ATTR)), DISEASE_ATTR)
  }

  /** The attribute that path position `idx` groups by, when the path has a real attribute. */
  function ResolvedAttr(attrs: seq<string>, idx: nat): string
    requires idx < |attrs| && |RealAttrs(attrs)| > 0
  {
    Resolve(attrs[idx], Fallback(RealAttrs(attrs), idx))
  }

  /** The `levels` that getTree hands to getJsonTree. */
  function BuildLevels(data: seq<Record>, attrs: seq<string>): seq<Level> {
    var realAttrs := RealAttrs(attrs);
    if |realAttrs| == 0 then [DiseaseLevel(data)]
    else seq(|attrs|, idx requires 0 <= idx < |attrs| => GetLevels(data, attrs[idx], Fallback(realAttrs, idx)))
  }

  // ---------------------------------------------------------------------------
  // What the levels satisfy

  /** Every entry of the level reads the same attribute, and no name appears twice. */
  ghost predicate GroupingLevel(level: Level) {
    forall i, j :: 0 <= i < j < |level| ==> level[i].attr == level[j].attr && level[i].name != level[j].name
  }

  /** Every record of `data` matches some entry of the level. */
  ghost predicate Covers(level: Level, data: seq<Record>) {
    forall p :: p in data ==> exists i :: 0 <= i < |level| && Field(p, level[i].attr) == level[i].name
  }

  /**
   * One level per path entry when the path names a real attribute; otherwise a
   * single level, grouped by `stroke`. Either way there is at least one level.
   */
  lemma LevelCount(data: seq<Record>, attrs: seq<string>)
    ensures var levels := BuildLevels(data, attrs);
      && |levels| >= 1
      && ((exists a :: a in attrs && a != PLACEHOLDER) ==> |levels| == |attrs|)
      && ((forall a :: a in attrs ==> a == PLACEHOLDER) ==>
            && levels == [DiseaseLevel(data)]
            && forall e :: e in levels[0] ==> e.attr == DISEASE_ATTR)
  {
  }

  /**
   * Placeholder resolution: a real entry is used as it is; a placeholder takes
   * `realAttrs[0]` at position 0, `realAttrs[idx - 1]` when that entry exists
   * and is non-empty, and `realAttrs[0]` when it is past the end or is the
   * empty string (which `||` treats as false). The result is always one
   * of the path's real attributes, so never the placeholder itself.
   */
  lemma PlaceholderResolution(attrs: seq<string>, idx: nat)
    requires idx < |attrs| && |RealAttrs(attrs)| > 0
    ensures var resolved, realAttrs := ResolvedAttr(attrs, idx), RealAttrs(attrs);
      && resolved != PLACEHOLDER
      && resolved in attrs
      && (attrs[idx] != PLACEHOLDER ==> resolved == attrs[idx])
      && (attrs[idx] == PLACEHOLDER && idx == 0 ==> resolved == realAttrs[0])
      && (attrs[idx] == PLACEHOLDER && 0 < idx <= |realAttrs| && realAttrs[idx - 1] != "" ==>
            resolved == realAttrs[idx - 1])
      && (attrs[idx] == PLACEHOLDER && 0 < idx <= |realAttrs| && realAttrs[idx - 1] == "" ==>
            resolved == realAttrs[0])
      && (attrs[idx] == PLACEHOLDER && idx > |realAttrs| ==> resolved == realAttrs[0])
  {
  }

  /**
   * The fallback indexes the real attributes by path position, not by "the
   * nearest real attribute before this one": in `a, _, b, _` the last
   * placeholder resolves to `a`, not `b`.
   */
  lemma PlaceholderIsPositional()
    ensures ResolvedAttr(["a", PLACEHOLDER, "b", PLACEHOLDER], 3) == "a"
    ensures ResolvedAttr(["a", PLACEHOLDER, "b", PLACEHOLDER], 1) == "a"
    ensures ResolvedAttr([PLACEHOLDER, "gender"], 0) == "gender"
    ensures ResolvedAttr(["gender", PLACEHOLDER], 1) == "gender"
  {
    var attrs := ["a", PLACEHOLDER, "b", PLACEHOLDER];
    assert attrs[..3] == ["a", PLACEHOLDER, "b"];
    assert attrs[..3][..2] == ["a", PLACEHOLDER];
    assert attrs[..3][..2][..1] == ["a"];
    assert RealAttrs(["a"]) == ["a"];
    assert RealAttrs(["a", PLACEHOLDER]) == ["a"];
    assert RealAttrs(["a", PLACEHOLDER, "b"]) == ["a", "b"];
    assert RealAttrs(attrs) == ["a", "b"];
    var g1 := [PLACEHOLDER, "gender"];
    assert g1[..1] == [PLACEHOLDER];
    assert RealAttrs([PLACEHOLDER]) == [];
    assert RealAttrs(g1) == ["gender"];
    var g2 := ["gender", PLACEHOLDER];
    assert g2[..1] == ["gender"];
    assert RealAttrs(["gender"]) == ["gender"];
    assert RealAttrs(g2) == ["gender"];
  }

  /**
   * A level built from a path position: every entry is paired with the
   * resolved attribute, the names are exactly the distinct values that
   * attribute takes in `data` (each once), in strictly ascending default-sort
   * order.
   */
  lemma SortedLevelContents(data: seq<Record>, attrs: seq<string>, idx: nat)
    requires idx < |attrs| && |RealAttrs(attrs)| > 0
    ensures var level, attr := BuildLevels(data, attrs)[idx], ResolvedAttr(attrs, idx);
      && (forall i :: 0 <= i < |level| ==> level[i].attr == attr)
      && (forall i, j :: 0 <= i < j < |level| ==> ValueLess(level[i].name, level[j].name))
      && (forall v :: v in Names(level) <==> v in Column(data, attr))
  {
    var attr := ResolvedAttr(attrs, idx);
    SortDistinctValues(Distinct(Column(data, attr)));
  }

  /**
   * The `stroke` level: every entry is paired with `stroke`, the names are the
   * distinct `stroke` values of `data`, each once, in the order in which they
   * first occur in `data` (this level is not sorted).
   */
  lemma DiseaseLevelContents(data: seq<Record>)
    ensures var level, column := DiseaseLevel(data), Column(data, DISEASE_ATTR);
      && (forall i :: 0 <= i < |level| ==> level[i].attr == DISEASE_ATTR)
      && NoDuplicates(Names(level))
      && (forall v :: v in Names(level) <==> v in column)
      && FirstOccurrenceOrder(Names(level), column)
  {
    DistinctFirstOccurrenceOrder(Column(data, DISEASE_ATTR));
  }

  /** Every level getTree builds groups by one attribute, without repeats, and covers all of `data`. */
  lemma BuildLevelsGroupAndCover(data: seq<Record>, attrs: seq<string>)
    ensures var levels := BuildLevels(data, attrs);
      forall k :: 0 <= k < |levels| ==> GroupingLevel(levels[k]) && Covers(levels[k], data)
  {
    var levels := BuildLevels(data, attrs);
    forall k | 0 <= k < |levels|
      ensures GroupingLevel(levels[k]) && Covers(levels[k], data)
    {
      var names: seq<Value>, attr: string;
      if |RealAttrs(attrs)| == 0 {
        attr := DISEASE_ATTR;
        names := Distinct(Column(data, attr));
      } else {
        attr := ResolvedAttr(attrs, k);
        names := SortValues(Distinct(Column(data, attr)));
        SortDistinctValues(Distinct(Column(data, attr)));
        forall i, j | 0 <= i < j < |names| ensures names[i] != names[j] {
          ValueLessStrictTotalOrder(names[i], names[j], names[i]);
        }
      }
      assert levels[k] == Pair(names, attr);
      forall p | p in data
        ensures exists i :: 0 <= i < |levels[k]| && Field(p, levels[k][i].attr) == levels[k][i].name
      {
        var n :| 0 <= n < |data| && data[n] == p;
        assert Column(data, attr)[n] == Field(p, attr);
        assert Field(p, attr) in names;
        var i :| 0 <= i < |names| && names[i] == Field(p, attr);
        assert Field(p, levels[k][i].attr) == levels[k][i].name;
      }
    }
  }
}
