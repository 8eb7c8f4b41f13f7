/**
 * The "Name Order" window: renames the selection to its whole basename match plus an
 * ordinal, and sorts the selection by name, swapping hierarchy positions as it goes.
 * The sort writes its bookkeeping list at the objects' original positions, so it
 * sorts the selection but not, in general, the hierarchy; the corrected sort next to
 * it looks up where each object currently is.
 */
module NameOrderEditor {
  import opened Host
  import opened Ordering
  import opened Naming

  /** The basename: group 0 (the whole match) of the match on the first object's name,
      or None when the pattern does not match. */
  function RenameBasename(regex: Regex, pattern: string, firstName: string): (b: Option<string>)
    ensures b.Some? <==> regex.matchIn(pattern, firstName).Some?
    ensures b.Some? ==> b.value == regex.matchIn(pattern, firstName).value.whole
  {
    match regex.matchIn(pattern, firstName)
    case None => None
    case Some(m) => if |m.Groups()| < 1 then None else Some(m.Groups()[0])
  }

  /** Every pair is a genuine tag of `objs`: its object is the one its tag names. */
  ghost predicate Genuine(s: seq<Entry>, objs: seq<ObjId>) {
    forall p | 0 <= p < |s| :: s[p].index < |objs| && s[p].data == objs[s[p].index]
  }

  /** Writing a genuine tag into a list of genuine tags keeps them genuine. */
  lemma GenuineUpdate(s: seq<Entry>, p: nat, e: Entry, objs: seq<ObjId>)
    requires Genuine(s, objs) && p < |s| && e.index < |objs| && e.data == objs[e.index]
    ensures Genuine(s[p := e], objs)
  {
  }

  /** A rearrangement of the tagged selection consists of genuine tags. */
  lemma GenuineTags(s: seq<Entry>, objs: seq<ObjId>)
    requires multiset(s) == multiset(Tag(objs))
    ensures |s| == |objs| && Genuine(s, objs)
  {
    assert |s| == |multiset(s)| == |Tag(objs)|;
    forall p | 0 <= p < |s| ensures s[p].index < |objs| && s[p].data == objs[s[p].index] {
      assert s[p] in multiset(Tag(objs));
      var k :| 0 <= k < |Tag(objs)| && Tag(objs)[k] == s[p];
    }
  }

  /** Two genuine tags with the same tag are the same pair; when the selection has no
      repeated object, two genuine tags of the same object are the same tag as well. */
  lemma SameTagSamePair(e: Entry, f: Entry, objs: seq<ObjId>)
    requires Genuine([e, f], objs)
    ensures e.index == f.index <==> e == f
    ensures Distinct(objs) ==> (e.data == f.data <==> e.index == f.index)
  {
    assert [e, f][0] == e && [e, f][1] == f;
  }

  /** What the sort selects: the selection ordered by name, a permutation of it, with
      ties in selection order, every pair a genuine tag. */
  lemma SelectionOrder(objs: seq<ObjId>, ord: Order)
    requires ord.Valid()
    ensures var dests := OrderByName(Tag(objs), ord);
      && Sorted(Datas(dests), ord)
      && multiset(Datas(dests)) == multiset(objs)
      && StableBy(dests, ord)
      && |dests| == |objs| && Genuine(dests, objs)
  {
    var dests := OrderByName(Tag(objs), ord);
    OrderByNameSorted(Tag(objs), ord);
    OrderByNamePermutesObjects(Tag(objs), ord);
    OrderByNameStable(Tag(objs), ord);
    OrderByNamePermutes(Tag(objs), ord);
    GenuineTags(dests, objs);
  }

  lemma DestsGenuine(objs: seq<ObjId>, ord: Order)
    ensures |OrderByName(Tag(objs), ord)| == |objs| && Genuine(OrderByName(Tag(objs), ord), objs)
  {
    OrderByNamePermutes(Tag(objs), ord);
    GenuineTags(OrderByName(Tag(objs), ord), objs);
  }

  /** The bookkeeping list of the sort together with the hierarchy's child list. */
  datatype SortState = SortState(sources: seq<Entry>, siblings: seq<ObjId>)

  /** The bookkeeping list holds genuine tags of the selection, and the child list is a
      rearrangement of the original child list `h0`. */
  ghost predicate Consistent(st: SortState, objs: seq<ObjId>, h0: seq<ObjId>) {
    && |st.sources| == |objs|
    && Genuine(st.sources, objs)
    && multiset(st.siblings) == multiset(h0)
  }

  /** The sort starts from a consistent state: the selection tagged with its positions,
      and a hierarchy holding every selected object. */
  lemma StartConsistent(h0: seq<ObjId>, objs: seq<ObjId>)
    requires SiblingSelection(objs, h0)
    ensures Consistent(SortState(Tag(objs), h0), objs, h0)
  {
    assert Datas(Tag(objs)) == objs;
  }

  /** Step `i` of the sort as written: unless the tags of `sources[i]` and `dst` agree,
      `sources[dst.Index] = src; sources[src.Index] = dst` and the two objects trade
      hierarchy positions. A step whose indices or objects are out of reach leaves the
      state alone; from a consistent state no step is (`WrittenStepKeeps`). */
  ghost function WrittenStep(st: SortState, dst: Entry, i: nat): SortState {
    if i < |st.sources| && dst.index < |st.sources| && st.sources[i].index < |st.sources|
       && st.sources[i].data in st.siblings && dst.data in st.siblings
       && st.sources[i].index != dst.index
    then
      var src := st.sources[i];
      SortState(st.sources[dst.index := src][src.index := dst], ExchangeObjects(st.siblings, src.data, dst.data))
    else st
  }

  /** From a consistent state, a step with a genuine pair is the exchange the source
      performs, keeps the state consistent, keeps the children and leaves unselected
      children in place. */
  lemma WrittenStepKeeps(st: SortState, dst: Entry, i: nat, objs: seq<ObjId>, h0: seq<ObjId>)
    requires SiblingSelection(objs, h0) && Consistent(st, objs, h0)
    requires i < |objs| && dst.index < |objs| && dst.data == objs[dst.index]
    ensures st.sources[i].index < |objs| && st.sources[i].data in st.siblings && dst.data in st.siblings
    ensures var src, r := st.sources[i], WrittenStep(st, dst, i);
      && r == (if src.index == dst.index then st
               else SortState(st.sources[dst.index := src][src.index := dst], ExchangeObjects(st.siblings, src.data, dst.data)))
      && Consistent(r, objs, h0)
      && |r.siblings| == |st.siblings|
      && forall p | 0 <= p < |st.siblings| && st.siblings[p] !in objs :: r.siblings[p] == st.siblings[p]
  {
    var src := st.sources[i];
    assert src.data in multiset(h0) && dst.data in multiset(h0);
    if src.index != dst.index {
      var h := st.siblings;
      ExchangePermutes(h, IndexOf(h, src.data), IndexOf(h, dst.data));
      GenuineUpdate(st.sources, dst.index, src, objs);
      GenuineUpdate(st.sources[dst.index := src], src.index, dst, objs);
    }
  }

  /** Steps `i`, ..., `|dests| - 1` of the sort as written. */
  ghost function WrittenRun(st: SortState, dests: seq<Entry>, i: nat): SortState
    decreases |dests| - i
  {
    if i >= |dests| then st
    else WrittenRun(WrittenStep(st, dests[i], i), dests, i + 1)
  }

  /** From a consistent state, the rest of the run keeps the children of the hierarchy
      and the places of unselected children. */
  lemma {:induction false} WrittenRunKeeps(st: SortState, dests: seq<Entry>, i: nat, objs: seq<ObjId>, h0: seq<ObjId>)
    requires SiblingSelection(objs, h0) && Consistent(st, objs, h0) && |dests| == |objs| && Genuine(dests, objs)
    ensures var r := WrittenRun(st, dests, i);
      && Consistent(r, objs, h0)
      && |r.siblings| == |st.siblings|
      && forall p | 0 <= p < |st.siblings| && st.siblings[p] !in objs :: r.siblings[p] == st.siblings[p]
    decreases |dests| - i
  {
    if i < |dests| {
      WrittenStepKeeps(st, dests[i], i, objs, h0);
      WrittenRunKeeps(WrittenStep(st, dests[i], i), dests, i + 1, objs, h0);
    }
  }

  /** Taking step `i` keeps the state consistent and leaves the rest of the run to do;
      both objects the step may exchange are children of the shared parent. */
  lemma WrittenAdvance(st: SortState, dests: seq<Entry>, i: nat, objs: seq<ObjId>, h0: seq<ObjId>)
    requires SiblingSelection(objs, h0) && Consistent(st, objs, h0) && i < |dests| == |objs| && Genuine(dests, objs)
    ensures st.sources[i].index < |objs| && dests[i].index < |objs|
    ensures st.sources[i].data in st.siblings && dests[i].data in st.siblings
    ensures var src, dst := st.sources[i], dests[i];
      && Consistent(WrittenStep(st, dst, i), objs, h0)
      && WrittenRun(WrittenStep(st, dst, i), dests, i + 1) == WrittenRun(st, dests, i)
      && WrittenStep(st, dst, i) ==
           if src.index == dst.index then st
           else SortState(st.sources[dst.index := src][src.index := dst], ExchangeObjects(st.siblings, src.data, dst.data))
  {
    WrittenStepKeeps(st, dests[i], i, objs, h0);
  }

  /** What the sort as written leaves behind: the selection ordered by name, and a
      hierarchy that keeps its children and the places of unselected children. */
  lemma WrittenOutcome(h0: seq<ObjId>, objs: seq<ObjId>, ord: Order)
    requires SiblingSelection(objs, h0) && ord.Valid()
    ensures var dests := OrderByName(Tag(objs), ord);
      && Sorted(Datas(dests), ord)
      && multiset(Datas(dests)) == multiset(objs)
      && var r := WrittenRun(SortState(Tag(objs), h0), dests, 0);
      && multiset(r.siblings) == multiset(h0)
      && |r.siblings| == |h0|
      && (forall p | 0 <= p < |h0| && h0[p] !in objs :: r.siblings[p] == h0[p])
  {
    SelectionOrder(objs, ord);
    StartConsistent(h0, objs);
    WrittenRunKeeps(SortState(Tag(objs), h0), OrderByName(Tag(objs), ord), 0, objs, h0);
  }

  /** Three siblings named B, C and A, selected in that order, ordered by name. */
  const ExampleNames: map<ObjId, string> := map[0 := "B", 1 := "C", 2 := "A"]
  const ExampleObjects: seq<ObjId> := [0, 1, 2]

  /** The example selection sorts to A, B, C: its pairs come out as tags 2, 0, 1. */
  lemma ExampleDests()
    ensures OrderByName(Tag(ExampleObjects), Order(ExampleNames, OrdinalLe)) == [Entry(2, 2), Entry(0, 0), Entry(1, 1)]
  {
    var ord := Order(ExampleNames, OrdinalLe);
    var e0, e1, e2 := Entry(0, 0), Entry(1, 1), Entry(2, 2);
    assert Tag(ExampleObjects) == [e0, e1, e2];
    assert !ord.Le(1, 2) && !ord.Le(0, 2) && ord.Le(0, 1);
    assert OrderByName([e2], ord) == [e2];
    assert OrderByName([e1, e2], ord) == [e2, e1] by {
      assert [e1, e2][1..] == [e2] && [e2][1..] == [];
      assert Insert(e1, [e2], ord) == [e2, e1];
    }
    assert OrderByName([e0, e1, e2], ord) == [e2, e0, e1] by {
      assert [e0, e1, e2][1..] == [e1, e2] && [e2, e1][1..] == [e1];
      assert Insert(e0, [e1], ord) == [e0, e1];
      assert Insert(e0, [e2, e1], ord) == [e2, e0, e1];
    }
  }

  lemma ExampleDestsObjects()
    ensures Datas([Entry(2, 2), Entry(0, 0), Entry(1, 1)]) == [2, 0, 1]
  {
    var d := Datas([Entry(2, 2), Entry(0, 0), Entry(1, 1)]);
    assert d[0] == 2 && d[1] == 0 && d[2] == 1;
  }

  /** Step 0 of the example exchanges A with B: the list becomes (2, 2), (1, 1), (0, 0)
      and the hierarchy A, C, B. */
  lemma ExampleStep0()
    ensures WrittenStep(SortState([Entry(0, 0), Entry(1, 1), Entry(2, 2)], [0, 1, 2]), Entry(2, 2), 0)
         == SortState([Entry(2, 2), Entry(1, 1), Entry(0, 0)], [2, 1, 0])
  {
    ExchangeObjectsAt([0, 1, 2], 0, 2);
  }

  /** Step 1 writes (1, 1) over the (2, 2) at position 0 and exchanges C with B: the
      hierarchy becomes A, B, C. */
  lemma ExampleStep1()
    ensures WrittenStep(SortState([Entry(2, 2), Entry(1, 1), Entry(0, 0)], [2, 1, 0]), Entry(0, 0), 1)
         == SortState([Entry(1, 1), Entry(0, 0), Entry(0, 0)], [2, 0, 1])
  {
    ExchangeObjectsAt([2, 1, 0], 1, 2);
  }

  /** Step 2 reads the stale (0, 0) at position 2 and exchanges B with C again: the
      hierarchy goes back to A, C, B. */
  lemma ExampleStep2()
    ensures WrittenStep(SortState([Entry(1, 1), Entry(0, 0), Entry(0, 0)], [2, 0, 1]), Entry(1, 1), 2)
         == SortState([Entry(1, 1), Entry(0, 0), Entry(0, 0)], [2, 1, 0])
  {
    ExchangeObjectsAt([2, 0, 1], 1, 2);
  }

  /** The sort as written, run on the example with the hierarchy in selection order,
      leaves the hierarchy as A, C, B. */
  lemma ExampleRun()
    ensures WrittenRun(SortState(Tag(ExampleObjects), ExampleObjects), [Entry(2, 2), Entry(0, 0), Entry(1, 1)], 0).siblings
         == [2, 1, 0]
  {
    var dests := [Entry(2, 2), Entry(0, 0), Entry(1, 1)];
    var st1 := SortState([Entry(2, 2), Entry(1, 1), Entry(0, 0)], [2, 1, 0]);
    var st2 := SortState([Entry(1, 1), Entry(0, 0), Entry(0, 0)], [2, 0, 1]);
    var st3 := SortState([Entry(1, 1), Entry(0, 0), Entry(0, 0)], [2, 1, 0]);
    assert Tag(ExampleObjects) == [Entry(0, 0), Entry(1, 1), Entry(2, 2)];
    ExampleStep0();
    ExampleStep1();
    ExampleStep2();
    assert WrittenRun(st3, dests, 3) == st3;
    assert WrittenRun(st2, dests, 2) == st3;
    assert WrittenRun(st1, dests, 1) == st3;
  }

  /** By name, A, B, C is in order and A, C, B is not. */
  lemma ExampleOrder()
    ensures Sorted([2, 0, 1], Order(ExampleNames, OrdinalLe))
    ensures !Sorted([2, 1, 0], Order(ExampleNames, OrdinalLe))
  {
    var ord := Order(ExampleNames, OrdinalLe);
    assert ord.Le(2, 0) && ord.Le(2, 1) && ord.Le(0, 1);
    assert !ord.Le([2, 1, 0][1], [2, 1, 0][2]);
  }

  /** On the example, the selection ends sorted (A, B, C) but the sort as written,
      run with the hierarchy in selection order, leaves the hierarchy as A, C, B,
      which is not sorted by name. */
  lemma WrittenSortCounterexample()
    ensures var ord := Order(ExampleNames, OrdinalLe);
      var dests := OrderByName(Tag(ExampleObjects), ord);
      && Datas(dests) == [2, 0, 1] && Sorted(Datas(dests), ord)
      && WrittenRun(SortState(Tag(ExampleObjects), ExampleObjects), dests, 0).siblings == [2, 1, 0]
      && !Sorted([2, 1, 0], ord)
  {
    var ord := Order(ExampleNames, OrdinalLe);
    ExampleDests();
    ExampleDestsObjects();
    ExampleRun();
    ExampleOrder();
  }

  /** What holds of the corrected sort's bookkeeping list before step `i`: its first
      `i` pairs are those of the sorted list, and the rest is a rearrangement of the
      rest of the sorted list. */
  ghost predicate Tracking(sources: seq<Entry>, dests: seq<Entry>, i: nat) {
    && i <= |sources| == |dests|
    && sources[..i] == dests[..i]
    && multiset(sources[i..]) == multiset(dests[i..])
  }

  /** Step `i` of the corrected sort finds `dests[i]` at a position `at` at or after
      `i`, and that position is `i` exactly when the tags of `sources[i]` and
      `dests[i]` agree. */
  lemma TrackingFind(sources: seq<Entry>, dests: seq<Entry>, i: nat, objs: seq<ObjId>)
    requires Tracking(sources, dests, i) && i < |dests|
    requires multiset(dests) == multiset(Tag(objs))
    ensures dests[i] in sources[i..]
    ensures var at := i + IndexOf(sources[i..], dests[i]);
      && at < |sources| && sources[at] == dests[i]
      && (sources[i].index == dests[i].index <==> at == i)
  {
    SplitMultiset(sources, i);
    SplitMultiset(dests, i);
    DropHead(dests, i);
    assert dests[i] in multiset(sources[i..]);
    GenuineTags(sources, objs);
    GenuineTags(dests, objs);
    SameTagSamePair(sources[i], dests[i], objs);
  }

  /** Writing `s[i]` at `at` and then `s[at]` at `i` exchanges the two positions, in the
      pairs and in their objects. */
  lemma UpdateExchanges(s: seq<Entry>, i: nat, at: nat)
    requires i <= at < |s|
    ensures s[at := s[i]][i := s[at]] == Exchange(s, i, at)
    ensures Datas(s[at := s[i]][i := s[at]]) == Exchange(Datas(s), i, at)
  {
    assert s[at := s[i]][i := s[at]] == Exchange(s, at, i);
    ExchangeSymmetric(s, at, i);
    DatasExchange(s, i, at);
  }

  /** Exchanging positions `i` and `at`, where `dests[i]` was found, extends the part
      of the bookkeeping list that agrees with the sorted list by one. */
  lemma TrackingSwap(sources: seq<Entry>, dests: seq<Entry>, i: nat, at: nat)
    requires Tracking(sources, dests, i) && i <= at < |sources| && sources[at] == dests[i]
    ensures Tracking(sources[at := sources[i]][i := dests[i]], dests, i + 1)
    ensures Datas(sources[at := sources[i]][i := dests[i]]) == Exchange(Datas(sources), i, at)
  {
    var next := sources[at := sources[i]][i := dests[i]];
    UpdateExchanges(sources, i, at);
    assert next[..i + 1] == dests[..i + 1] by {
      ExchangeSuffix(sources, i, at);
      assert next[..i + 1] == next[..i] + [next[i]];
      assert dests[..i + 1] == dests[..i] + [dests[i]];
    }
    assert multiset(next[i + 1..]) == multiset(dests[i + 1..]) by {
      ExchangeSuffix(sources, i, at);
      DropHead(next, i);
      DropHead(dests, i);
      MultisetCancel(dests[i], multiset(next[i + 1..]), multiset(dests[i + 1..]));
    }
  }

  /** The corrected step keeps the hierarchy in step with the bookkeeping list: the
      two objects it exchanges are children of the shared parent, and exchanging them
      there gives the hierarchy the new list stands for. */
  lemma TrackingAdvance(h0: seq<ObjId>, objs: seq<ObjId>, sources: seq<Entry>, dests: seq<Entry>, i: nat, at: nat)
    requires Distinct(h0) && SiblingSelection(objs, h0) && |sources| == |objs|
    requires Tracking(sources, dests, i) && i <= at < |sources| && sources[at] == dests[i]
    requires Distinct(Reslot(h0, objs, Datas(sources)))
    ensures var next := sources[at := sources[i]][i := dests[i]];
      && (at == i ==> next == sources)
      && Tracking(next, dests, i + 1)
      && sources[i].data in Reslot(h0, objs, Datas(sources))
      && dests[i].data in Reslot(h0, objs, Datas(sources))
      && ExchangeObjects(Reslot(h0, objs, Datas(sources)), sources[i].data, dests[i].data)
           == Reslot(h0, objs, Datas(next))
  {
    TrackingSwap(sources, dests, i, at);
    ReslotExchange(h0, objs, Datas(sources), i, at);
  }

  /** What the corrected sort leaves behind: the selection ordered by name, and each
      selected object's hierarchy position holding the object of the same rank in it. */
  lemma SortedPlacement(h0: seq<ObjId>, objs: seq<ObjId>, ord: Order)
    requires SiblingSelection(objs, h0) && ord.Valid()
    ensures var sel := Datas(OrderByName(Tag(objs), ord));
      && |sel| == |objs|
      && multiset(sel) == multiset(objs)
      && Sorted(sel, ord)
      && |Reslot(h0, objs, sel)| == |h0|
      && (forall k | 0 <= k < |objs| :: Reslot(h0, objs, sel)[IndexOf(h0, objs[k])] == sel[k])
      && (forall p | 0 <= p < |h0| && h0[p] !in objs :: Reslot(h0, objs, sel)[p] == h0[p])
  {
    SelectionOrder(objs, ord);
    ReslotPlaces(h0, objs, Datas(OrderByName(Tag(objs), ord)));
  }

  /** Slot placement sorts the hierarchy only when the selection is in hierarchy order:
      select B then A from the child list A, B, which is already sorted; the sorted
      selection is A, B, and putting it in the selected slots gives B, A. */
  lemma PlacementOutOfHierarchyOrder()
    ensures var ord := Order(map[0 := "B", 1 := "A"], OrdinalLe);
      && Datas(OrderByName(Tag([0, 1]), ord)) == [1, 0]
      && ord.Le(1, 0) && !ord.Le(0, 1)
      && Reslot([1, 0], [0, 1], [1, 0]) == [0, 1]
  {
    var ord := Order(map[0 := "B", 1 := "A"], OrdinalLe);
    var e0, e1 := Entry(0, 0), Entry(1, 1);
    assert Tag([0, 1]) == [e0, e1];
    assert !ord.Le(0, 1) && ord.Le(1, 0);
    assert OrderByName([e1], ord) == [e1];
    assert OrderByName([e0, e1], ord) == [e1, e0] by {
      assert [e0, e1][1..] == [e1] && [e1][1..] == [];
      assert Insert(e0, [e1], ord) == [e1, e0];
    }
    var d := Datas([e1, e0]);
    assert d[0] == 1 && d[1] == 0;
    var r := Reslot([1, 0], [0, 1], [1, 0]);
    assert r[0] == 0 && r[1] == 1;
  }

  class NameOrderEditorWindow {
    var basenameRegexFormat: string
    var replaceFormat: string
    var orderingOffset: Int32

    constructor ()
      ensures basenameRegexFormat == "^(\\S+)" && replaceFormat == "{0} {1:D2}" && orderingOffset == 0
    {
      basenameRegexFormat := "^(\\S+)";
      replaceFormat := "{0} {1:D2}";
      orderingOffset := 0;
    }

    /** Renames object `i` of the selection to its label built from the whole match.
        Renames nothing when the selection is null or empty or the pattern does not
        match, and throws, having renamed nothing, when the pattern or the format is
        rejected. */
    method Rename(scene: Scene, objects: array?<ObjId>, regex: Regex, format: Formatter) returns (thrown: bool)
      requires objects != null ==> forall k | 0 <= k < objects.Length :: objects[k] in scene.names
      modifies scene
      ensures scene.siblings == old(scene.siblings) && scene.selection == old(scene.selection)
      ensures thrown ==> scene.names == old(scene.names)
      ensures objects == null || objects.Length < 1 ==> !thrown && scene.names == old(scene.names)
      ensures objects != null && objects.Length >= 1 ==>
        Outcome(thrown, scene.names) ==
          RenameRun(old(scene.names), objects[..], regex.accepts(basenameRegexFormat),
                    RenameBasename(regex, basenameRegexFormat, old(scene.names)[objects[0]]),
                    format, replaceFormat, orderingOffset)
    {
      thrown := false;
      if objects == null { return; }
      if objects.Length < 1 { return; }

      if !regex.accepts(basenameRegexFormat) {
        thrown := true;
        return;
      }
      var match_ := regex.matchIn(basenameRegexFormat, scene.names[objects[0]]);
      if match_.None? {
        return;
      }
      if |match_.value.Groups()| < 1 {
        return;
      }
      var basename := match_.value.Groups()[0];

      ghost var names0 := scene.names;
      for i := 0 to objects.Length
        invariant scene.names == Renamed(names0, objects[..i], format, replaceFormat, basename, orderingOffset)
        invariant i > 0 ==> format.accepts(replaceFormat)
        invariant scene.siblings == old(scene.siblings) && scene.selection == old(scene.selection)
      {
        var index := Wrap32(i + orderingOffset as int);
        if !format.accepts(replaceFormat) {
          thrown := true;
          return;
        }
        RenamedExtend(names0, objects[..], i, format, replaceFormat, basename, orderingOffset);
        scene.names := scene.names[objects[i] := format.render(replaceFormat, basename, index)];
      }
      assert objects[..objects.Length] == objects[..];
    }

    /** The sort as written: the selection becomes the selection ordered by name; the
        hierarchy goes through the swaps of `WrittenRun`, which keep its children and
        leave unselected children in place but need not leave it sorted. */
    method Sort(scene: Scene, objects: array?<ObjId>, le: (string, string) -> bool)
      requires scene.Valid() && TotalPreorder(le)
      requires objects != null ==> SiblingSelection(objects[..], scene.siblings)
      modifies scene
      ensures scene.Valid()
      ensures objects == null || objects.Length < 1 ==> unchanged(scene)
      ensures objects != null && objects.Length >= 1 ==>
        var ord := Order(old(scene.names), le);
        var dests := OrderByName(Tag(objects[..]), ord);
        && scene.names == old(scene.names)
        && scene.selection == Datas(dests)
        && Sorted(scene.selection, ord)
        && multiset(scene.selection) == multiset(objects[..])
        && scene.siblings == WrittenRun(SortState(Tag(objects[..]), old(scene.siblings)), dests, 0).siblings
        && |scene.siblings| == |old(scene.siblings)|
        && multiset(scene.siblings) == multiset(old(scene.siblings))
        && (forall p | 0 <= p < |scene.siblings| && old(scene.siblings)[p] !in objects[..] ::
              scene.siblings[p] == old(scene.siblings)[p])
    {
      if objects == null { return; }
      if objects.Length < 1 { return; }

      var ord := Order(scene.names, le);
      var sources := Tag(objects[..]);
      var dests := OrderByName(sources, ord);

      ghost var objs := objects[..];
      ghost var h0 := scene.siblings;
      DestsGenuine(objs, ord);
      StartConsistent(h0, objs);
      SwapAsWritten(scene, sources, dests, objs);

      scene.selection := Datas(dests);
      WrittenOutcome(h0, objs, ord);
    }

    /** The swap loop of the sort as written, over the bookkeeping list `sources` and
        the ordered pairs `dests`: the hierarchy ends as `WrittenRun` leaves it. */
    method SwapAsWritten(scene: Scene, sources: seq<Entry>, dests: seq<Entry>, ghost objs: seq<ObjId>)
      requires scene.Valid() && SiblingSelection(objs, scene.siblings)
      requires Consistent(SortState(sources, scene.siblings), objs, scene.siblings)
      requires |dests| == |objs| && Genuine(dests, objs)
      modifies scene
      ensures scene.Valid()
      ensures scene.names == old(scene.names) && scene.selection == old(scene.selection)
      ensures scene.siblings == WrittenRun(SortState(sources, old(scene.siblings)), dests, 0).siblings
    {
      ghost var h0 := scene.siblings;
      ghost var final := WrittenRun(SortState(sources, h0), dests, 0);
      var list := sources;

      for i := 0 to |dests|
        invariant scene.Valid() && scene.names == old(scene.names) && scene.selection == old(scene.selection)
        invariant Consistent(SortState(list, scene.siblings), objs, h0)
        invariant WrittenRun(SortState(list, scene.siblings), dests, i) == final
      {
        var src := list[i];
        var dst := dests[i];
        ghost var st := SortState(list, scene.siblings);
        WrittenAdvance(st, dests, i, objs, h0);

        if src.index == dst.index {
          continue;
        }

        list := list[dst.index := src];
        list := list[src.index := dst];
        Swap(scene, src.data, dst.data);
      }
    }

    /** The sort with each object looked up where it currently is: the new selection is
        the selection ordered by name, and the hierarchy position that held the `k`-th
        selected object now holds the `k`-th object of the new selection. */
    method SortByCurrentPosition(scene: Scene, objects: array?<ObjId>, le: (string, string) -> bool)
      requires scene.Valid() && TotalPreorder(le)
      requires objects != null ==> SiblingSelection(objects[..], scene.siblings)
      modifies scene
      ensures scene.Valid()
      ensures objects == null || objects.Length < 1 ==> unchanged(scene)
      ensures objects != null && objects.Length >= 1 ==>
        && scene.names == old(scene.names)
        && scene.selection == Datas(OrderByName(Tag(objects[..]), Order(scene.names, le)))
        && |scene.selection| == objects.Length
        && multiset(scene.selection) == multiset(objects[..])
        && Sorted(scene.selection, Order(scene.names, le))
        && |scene.siblings| == |old(scene.siblings)|
        && (forall k | 0 <= k < objects.Length ::
              scene.siblings[IndexOf(old(scene.siblings), objects[k])] == scene.selection[k])
        && (forall p | 0 <= p < |scene.siblings| && old(scene.siblings)[p] !in objects[..] ::
              scene.siblings[p] == old(scene.siblings)[p])
    {
      if objects == null { return; }
      if objects.Length < 1 { return; }

      var ord := Order(scene.names, le);
      var sources := Tag(objects[..]);
      var dests := OrderByName(sources, ord);

      ghost var h0 := scene.siblings;
      ghost var objs := objects[..];
      ReslotIdentity(h0, objs);
      OrderByNamePermutes(sources, ord);

      for i := 0 to |dests|
        invariant scene.Valid() && scene.names == ord.names && scene.selection == old(scene.selection)
        invariant Tracking(sources, dests, i)
        invariant scene.siblings == Reslot(h0, objs, Datas(sources))
      {
        var src := sources[i];
        var dst := dests[i];
        TrackingFind(sources, dests, i, objs);
        var at := i + IndexOf(sources[i..], dst);
        TrackingAdvance(h0, objs, sources, dests, i, at);

        if src.index == dst.index {
          continue;
        }

        sources := sources[at := src];
        sources := sources[i := dst];
        Swap(scene, src.data, dst.data);
      }

      assert sources == dests[..|dests|] == dests;
      scene.selection := Datas(dests);
      SortedPlacement(h0, objs, ord);
    }

    /** Exchanges the sibling positions of two children of the same parent: `dst` is
        moved to where `src` is, then `src` to where `dst` was. Giving each the other's
        parent leaves the child list as it is, since the parent is shared. */
    method Swap(scene: Scene, src: ObjId, dst: ObjId)
      requires scene.Valid() && src in scene.siblings && dst in scene.siblings
      modifies scene
      ensures scene.Valid()
      ensures scene.siblings == ExchangeObjects(old(scene.siblings), src, dst)
      ensures scene.names == old(scene.names) && scene.selection == old(scene.selection)
    {
      ghost var h := scene.siblings;
      var srcIndex := IndexOf(scene.siblings, src);
      var dstIndex := IndexOf(scene.siblings, dst);

      if srcIndex <= dstIndex {
        HigherFirstExchanges(h, src, dst);
      } else {
        LowerFirstExchanges(h, dst, src);
      }
      scene.SetSiblingIndex(dst, srcIndex);
      scene.SetSiblingIndex(src, dstIndex);
    }
  }
}
