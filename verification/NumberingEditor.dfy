/**
 * The "Numbering" window: renames the selection to a basename plus an ordinal, and
 * sorts the selection by name with a selection sort whose swaps are mirrored in the
 * hierarchy.
 */
module NumberingEditor {
  import opened Host
  import opened Ordering
  import opened Naming

  /** The basename: capture group 1 of the match on the first object's name, or None
      when the pattern does not match or has no capture group. */
  function Basename(regex: Regex, pattern: string, firstName: string): (b: Option<string>)
    ensures b.Some? <==> regex.matchIn(pattern, firstName).Some? && |regex.matchIn(pattern, firstName).value.captures| >= 1
    ensures b.Some? ==> b.value == regex.matchIn(pattern, firstName).value.captures[0]
  {
    match regex.matchIn(pattern, firstName)
    case None => None
    case Some(m) => if |m.Groups()| < 2 then None else Some(m.Groups()[1])
  }

  /** The candidates of sort step `i`: every position from `i` on, tagged with that
      position. */
  function Candidates(sources: seq<Entry>, i: nat): (c: seq<Entry>)
    requires i <= |sources|
    ensures |c| == |sources| - i && IncreasingTags(c) && Datas(c) == Datas(sources)[i..]
    ensures forall k | 0 <= k < |c| :: c[k].index == i + k
  {
    seq(|sources| - i, k requires 0 <= k < |sources| - i => Entry(i + k, sources[i + k].data))
  }

  /** `dests[0]` of sort step `i`: the head of the candidates ordered by name, which is
      the first position from `i` on whose name is minimal. */
  function PickDestination(sources: seq<Entry>, i: nat, ord: Order): (dst: Entry)
    requires i < |sources| && ord.Valid()
    ensures i <= dst.index < |sources| && dst.data == sources[dst.index].data
    ensures forall p | i <= p < |sources| :: ord.Le(dst.data, sources[p].data)
    ensures forall p | i <= p < dst.index :: !ord.Le(sources[p].data, dst.data)
  {
    var candidates := Candidates(sources, i);
    OrderByNameHead(candidates, ord);
    var m := FirstMinimum(candidates, ord);
    forall p | i <= p < |sources| ensures candidates[p - i].data == sources[p].data {
      assert Datas(candidates)[p - i] == Datas(sources)[i..][p - i] == Datas(sources)[p];
    }
    assert candidates[m].index == i + m && candidates[m].data == sources[i + m].data;
    OrderByName(candidates, ord)[0]
  }

  /** What holds of `sources` before sort step `i`: it is a rearrangement of the
      selection, its first `i` objects are sorted by name and sort no later than any
      later one, and no later position carries a tag beyond its own position. */
  ghost predicate SortInvariant(sources: seq<Entry>, i: nat, objs: seq<ObjId>, ord: Order) {
    && i <= |sources| == |objs|
    && multiset(Datas(sources)) == multiset(objs)
    && (forall a, b | 0 <= a < b < i :: ord.Le(sources[a].data, sources[b].data))
    && (forall a, b | 0 <= a < i <= b < |sources| :: ord.Le(sources[a].data, sources[b].data))
    && (forall p | i <= p < |sources| :: sources[p].index <= p)
  }

  /** The update of sort step `i`: unchanged when the tags of `sources[i]` and `dst`
      agree, otherwise `sources[dst.Index] = src; sources[i] = dst`. With a genuine
      `dst` it exchanges the objects at `i` and `dst.index`, so the list keeps its
      objects. */
  function StepUpdate(sources: seq<Entry>, i: nat, dst: Entry): (r: seq<Entry>)
    requires i < |sources| && dst.index < |sources|
    ensures |r| == |sources|
    ensures dst.data == sources[dst.index].data ==>
      && Datas(r) == (if sources[i].index == dst.index then Datas(sources) else Exchange(Datas(sources), i, dst.index))
      && multiset(Datas(r)) == multiset(Datas(sources))
  {
    if sources[i].index == dst.index then sources
    else
      ExchangePermutes(Datas(sources), i, dst.index);
      sources[dst.index := sources[i]][i := dst]
  }

  /** One step of the selection sort keeps its invariant for the next position; a step
      is skipped only when the first minimum is already at position `i`. */
  lemma {:induction false} SortStep(sources: seq<Entry>, i: nat, objs: seq<ObjId>, ord: Order)
    requires ord.Valid() && SortInvariant(sources, i, objs, ord) && i < |sources|
    ensures var dst := PickDestination(sources, i, ord);
      && (sources[i].index == dst.index ==> dst.index == i)
      && SortInvariant(StepUpdate(sources, i, dst), i + 1, objs, ord)
      && Datas(StepUpdate(sources, i, dst)) ==
           if sources[i].index == dst.index then Datas(sources) else Exchange(Datas(sources), i, dst.index)
  {
    var dst := PickDestination(sources, i, ord);
    var j := dst.index;
    var after := StepUpdate(sources, i, dst);
    if sources[i].index != j {
      assert Datas(after) == Exchange(Datas(sources), i, j);
      ExchangePermutes(Datas(sources), i, j);
      forall a, b | 0 <= a < i + 1 <= b < |after| ensures ord.Le(after[a].data, after[b].data) {
        if b == j {
          assert after[b].data == sources[i].data;
        }
      }
    }
  }

  /** Sort step `i` as the hierarchy sees it: the step keeps the sort invariant, and
      unless it is skipped it exchanges, in the child list, the two objects whose
      bookkeeping pairs it exchanges. */
  lemma SortAdvance(h0: seq<ObjId>, objs: seq<ObjId>, sources: seq<Entry>, i: nat, ord: Order)
    requires ord.Valid() && Distinct(h0) && SiblingSelection(objs, h0)
    requires SortInvariant(sources, i, objs, ord) && i < |sources|
    requires Distinct(Reslot(h0, objs, Datas(sources)))
    ensures var src, dst := sources[i], PickDestination(sources, i, ord);
      var cur := Reslot(h0, objs, Datas(sources));
      && SortInvariant(StepUpdate(sources, i, dst), i + 1, objs, ord)
      && (src.index == dst.index ==> StepUpdate(sources, i, dst) == sources)
      && (src.index != dst.index ==>
            && StepUpdate(sources, i, dst) == sources[dst.index := src][i := dst]
            && src.data in cur && dst.data in cur
            && ExchangeObjects(cur, src.data, dst.data) == Reslot(h0, objs, Datas(sources[dst.index := src][i := dst])))
  {
    var dst := PickDestination(sources, i, ord);
    SortStep(sources, i, objs, ord);
    if sources[i].index != dst.index {
      ReslotExchange(h0, objs, Datas(sources), i, dst.index);
    }
  }

  class NumberingEditorWindow {
    var basenameRegexFormat: string
    var replaceFormat: string
    var orderingOffset: Int32

    constructor ()
      ensures basenameRegexFormat == "^(\\S+)" && replaceFormat == "{0} {1:D2}" && orderingOffset == 0
    {
      basenameRegexFormat := "^(\\S+)";
      replaceFormat := "{0} {1:D2}";
      orderingOffset := 0;
    }

    /** Renames object `i` of the selection to its label. Renames nothing when the
        selection is null or empty or the basename cannot be extracted, and throws,
        having renamed nothing, when the pattern or the format is rejected. */
    method Numbering(scene: Scene, objects: array?<ObjId>, regex: Regex, format: Formatter) returns (thrown: bool)
      requires objects != null ==> forall k | 0 <= k < objects.Length :: objects[k] in scene.names
      modifies scene
      ensures scene.siblings == old(scene.siblings) && scene.selection == old(scene.selection)
      ensures thrown ==> scene.names == old(scene.names)
      ensures objects == null || objects.Length < 1 ==> !thrown && scene.names == old(scene.names)
      ensures objects != null && objects.Length >= 1 ==>
        Outcome(thrown, scene.names) ==
          RenameRun(old(scene.names), objects[..], regex.accepts(basenameRegexFormat),
                    Basename(regex, basenameRegexFormat, old(scene.names)[objects[0]]),
                    format, replaceFormat, orderingOffset)
    {
      thrown := false;
      if objects == null { return; }
      if objects.Length < 1 { return; }

      if !regex.accepts(basenameRegexFormat) {
        thrown := true;
        return;
      }
      var match_ := regex.matchIn(basenameRegexFormat, scene.names[objects[0]]);
      if match_.None? {
        return;
      }
      if |match_.value.Groups()| < 2 {
        return;
      }
      var basename := match_.value.Groups()[1];

      ghost var names0 := scene.names;
      for i := 0 to objects.Length
        invariant scene.names == Renamed(names0, objects[..i], format, replaceFormat, basename, orderingOffset)
        invariant i > 0 ==> format.accepts(replaceFormat)
        invariant scene.siblings == old(scene.siblings) && scene.selection == old(scene.selection)
      {
        var index := Wrap32(i + orderingOffset as int);
        if !format.accepts(replaceFormat) {
          thrown := true;
          return;
        }
        RenamedExtend(names0, objects[..], i, format, replaceFormat, basename, orderingOffset);
        scene.names := scene.names[objects[i] := format.render(replaceFormat, basename, index)];
      }
      assert objects[..objects.Length] == objects[..];
    }

    /** Sorts the selection by name: the new selection is a name-sorted permutation of
        the old one, and the hierarchy position that held the `k`-th selected object
        now holds the `k`-th object of the new selection. */
    method Sort(scene: Scene, objects: array?<ObjId>, le: (string, string) -> bool)
      requires scene.Valid() && TotalPreorder(le)
      requires objects != null ==> SiblingSelection(objects[..], scene.siblings)
      modifies scene
      ensures scene.Valid()
      ensures objects == null || objects.Length < 1 ==> unchanged(scene)
      ensures objects != null && objects.Length >= 1 ==>
        && scene.names == old(scene.names)
        && |scene.selection| == objects.Length
        && multiset(scene.selection) == multiset(objects[..])
        && Sorted(scene.selection, Order(scene.names, le))
        && |scene.siblings| == |old(scene.siblings)|
        && (forall k | 0 <= k < objects.Length ::
              scene.siblings[IndexOf(old(scene.siblings), objects[k])] == scene.selection[k])
        && (forall p | 0 <= p < |scene.siblings| && old(scene.siblings)[p] !in objects[..] ::
              scene.siblings[p] == old(scene.siblings)[p])
    {
      if objects == null { return; }
      if objects.Length < 1 { return; }

      var ord := Order(scene.names, le);
      var sources := Tag(objects[..]);
      var length := |sources|;

      ghost var h0 := scene.siblings;
      ghost var objs := objects[..];
      ReslotIdentity(h0, objs);

      for i := 0 to length
        invariant scene.Valid() && scene.names == ord.names && scene.selection == old(scene.selection)
        invariant SortInvariant(sources, i, objs, ord)
        invariant scene.siblings == Reslot(h0, objs, Datas(sources))
      {
        var dst := PickDestination(sources, i, ord);
        var src := sources[i];
        SortAdvance(h0, objs, sources, i, ord);

        if src.index == dst.index {
          continue;
        }

        sources := sources[dst.index := src];
        sources := sources[i := dst];
        Swap(scene, src.data, dst.data);
      }

      scene.selection := Datas(sources);
      ReslotPlaces(h0, objs, scene.selection);
    }

    /** Exchanges the sibling positions of two children of the same parent. Both are
        children of one parent, so neither is the other's parent (the branches that
        re-parent children do not apply) and giving each the other's parent leaves the
        child list as it is; the child at the higher position is set first. */
    method Swap(scene: Scene, src: ObjId, dst: ObjId)
      requires scene.Valid() && src in scene.siblings && dst in scene.siblings
      modifies scene
      ensures scene.Valid()
      ensures scene.siblings == ExchangeObjects(old(scene.siblings), src, dst)
      ensures scene.names == old(scene.names) && scene.selection == old(scene.selection)
    {
      ghost var h := scene.siblings;
      var srcIndex := IndexOf(scene.siblings, src);
      var dstIndex := IndexOf(scene.siblings, dst);

      if srcIndex < dstIndex {
        HigherFirstExchanges(h, src, dst);
        scene.SetSiblingIndex(dst, srcIndex);
        scene.SetSiblingIndex(src, dstIndex);
      } else {
        HigherFirstExchanges(h, dst, src);
        scene.SetSiblingIndex(src, dstIndex);
        scene.SetSiblingIndex(dst, srcIndex);
      }
    }
  }
}
