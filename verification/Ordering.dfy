/**
 * Ordering selected objects by name: the `(Index, Data)` pairs both windows build,
 * the stable `OrderBy(it => it.Data.name)` they sort those pairs with, and the
 * facts about it that the two sort commands rely on.
 */
module Ordering {
  import opened Host

  /** An anonymous `{Index, Data}` pair: a tag and the object it tags. */
  datatype Entry = Entry(index: nat, data: ObjId)

  /** Names of the scene together with the comparer that orders them. */
  datatype Order = Order(names: map<ObjId, string>, le: (string, string) -> bool) {
    ghost predicate Valid() {
      TotalPreorder(le)
    }

    /** The name of `a` sorts no later than the name of `b`. */
    predicate Le(a: ObjId, b: ObjId) {
      le(NameOf(names, a), NameOf(names, b))
    }
  }

  /** The objects of a list of pairs, in list order. */
  function Datas(s: seq<Entry>): (r: seq<ObjId>)
    ensures |r| == |s| && forall k | 0 <= k < |s| :: r[k] == s[k].data
  {
    seq(|s|, k requires 0 <= k < |s| => s[k].data)
  }

  /** Each object tagged with its position in `objs`. */
  function Tag(objs: seq<ObjId>): (r: seq<Entry>)
    ensures |r| == |objs| && Datas(r) == objs
    ensures forall k | 0 <= k < |r| :: r[k].index == k
  {
    seq(|objs|, k requires 0 <= k < |objs| => Entry(k, objs[k]))
  }

  /** Non-decreasing by name. */
  ghost predicate Sorted(s: seq<ObjId>, ord: Order) {
    forall a, b | 0 <= a < b < |s| :: ord.Le(s[a], s[b])
  }

  /** Among entries whose names tie, the tags increase along the list. */
  ghost predicate StableBy(s: seq<Entry>, ord: Order) {
    forall a, b | 0 <= a < b < |s| && ord.Le(s[b].data, s[a].data) :: s[a].index < s[b].index
  }

  ghost predicate IncreasingTags(s: seq<Entry>) {
    forall a, b | 0 <= a < b < |s| :: s[a].index < s[b].index
  }

  /** `x` goes before the first entry it does not sort after. */
  function Insert(x: Entry, s: seq<Entry>, ord: Order): seq<Entry> {
    if |s| == 0 then [x]
    else if ord.Le(x.data, s[0].data) then [x] + s
    else [s[0]] + Insert(x, s[1..], ord)
  }

  /** `s.OrderBy(it => it.Data.name)`: LINQ's stable sort, as an insertion sort. */
  function OrderByName(s: seq<Entry>, ord: Order): seq<Entry> {
    if |s| == 0 then [] else Insert(s[0], OrderByName(s[1..], ord), ord)
  }

  lemma {:induction false} InsertPermutes(x: Entry, s: seq<Entry>, ord: Order)
    ensures multiset(Insert(x, s, ord)) == multiset(s) + multiset{x}
    ensures |Insert(x, s, ord)| == |s| + 1
  {
    if |s| > 0 && !ord.Le(x.data, s[0].data) {
      InsertPermutes(x, s[1..], ord);
      assert s == [s[0]] + s[1..];
    }
  }

  /** The sorted list holds exactly the entries it was given. */
  lemma {:induction false} OrderByNamePermutes(s: seq<Entry>, ord: Order)
    ensures multiset(OrderByName(s, ord)) == multiset(s)
    ensures |OrderByName(s, ord)| == |s|
  {
    if |s| > 0 {
      var t := OrderByName(s[1..], ord);
      OrderByNamePermutes(s[1..], ord);
      InsertPermutes(s[0], t, ord);
      assert OrderByName(s, ord) == Insert(s[0], t, ord);
      assert s == [s[0]] + s[1..];
      assert multiset(s) == multiset{s[0]} + multiset(s[1..]);
    }
  }

  lemma DatasCons(e: Entry, t: seq<Entry>)
    ensures Datas([e] + t) == [e.data] + Datas(t)
  {
  }

  /** Exchanging two entries exchanges their objects. */
  lemma DatasExchange(s: seq<Entry>, i: nat, j: nat)
    requires i < |s| && j < |s|
    ensures Datas(Exchange(s, i, j)) == Exchange(Datas(s), i, j)
  {
  }

  lemma {:induction false} InsertPermutesObjects(x: Entry, s: seq<Entry>, ord: Order)
    ensures multiset(Datas(Insert(x, s, ord))) == multiset(Datas(s)) + multiset{x.data}
  {
    if |s| == 0 {
      DatasCons(x, s);
    } else if ord.Le(x.data, s[0].data) {
      DatasCons(x, s);
    } else {
      var t := Insert(x, s[1..], ord);
      InsertPermutesObjects(x, s[1..], ord);
      DatasCons(s[0], t);
      DatasCons(s[0], s[1..]);
      assert s == [s[0]] + s[1..];
    }
  }

  /** The sorted list holds exactly the objects it was given. */
  lemma {:induction false} OrderByNamePermutesObjects(s: seq<Entry>, ord: Order)
    ensures multiset(Datas(OrderByName(s, ord))) == multiset(Datas(s))
  {
    if |s| > 0 {
      var t := OrderByName(s[1..], ord);
      OrderByNamePermutesObjects(s[1..], ord);
      InsertPermutesObjects(s[0], t, ord);
      DatasCons(s[0], s[1..]);
      assert s == [s[0]] + s[1..];
    }
  }

  /** Every entry of `Insert(x, s)` is `x` or an entry of `s`. */
  lemma InsertMembers(x: Entry, s: seq<Entry>, ord: Order, k: nat)
    requires k < |Insert(x, s, ord)|
    ensures Insert(x, s, ord)[k] == x || exists j :: 0 <= j < |s| && s[j] == Insert(x, s, ord)[k]
  {
    InsertPermutes(x, s, ord);
    assert Insert(x, s, ord)[k] in multiset(s) + multiset{x};
  }

  lemma SortedCons(y: Entry, t: seq<Entry>, ord: Order)
    requires Sorted(Datas(t), ord)
    requires forall k | 0 <= k < |t| :: ord.Le(y.data, t[k].data)
    ensures Sorted(Datas([y] + t), ord)
  {
    var r := Datas([y] + t);
    forall a, b | 0 <= a < b < |r| ensures ord.Le(r[a], r[b]) {
      if a > 0 {
        assert r[a] == Datas(t)[a - 1] && r[b] == Datas(t)[b - 1];
      }
    }
  }

  lemma SortedTail(s: seq<Entry>, ord: Order)
    requires |s| > 0 && Sorted(Datas(s), ord)
    ensures Sorted(Datas(s[1..]), ord)
    ensures forall k | 0 < k < |s| :: ord.Le(s[0].data, s[k].data)
  {
    var r := Datas(s[1..]);
    forall a, b | 0 <= a < b < |r| ensures ord.Le(r[a], r[b]) {
      assert Datas(s)[a + 1] == r[a] && Datas(s)[b + 1] == r[b];
    }
    forall k | 0 < k < |s| ensures ord.Le(s[0].data, s[k].data) {
      assert Datas(s)[0] == s[0].data && Datas(s)[k] == s[k].data;
    }
  }

  lemma {:induction false} InsertSorted(x: Entry, s: seq<Entry>, ord: Order)
    requires ord.Valid() && Sorted(Datas(s), ord)
    ensures Sorted(Datas(Insert(x, s, ord)), ord)
  {
    if |s| == 0 {
    } else if ord.Le(x.data, s[0].data) {
      SortedTail(s, ord);
      SortedCons(x, s, ord);
    } else {
      var t := Insert(x, s[1..], ord);
      SortedTail(s, ord);
      InsertSorted(x, s[1..], ord);
      InsertPermutes(x, s[1..], ord);
      forall k | 0 <= k < |t| ensures ord.Le(s[0].data, t[k].data) {
        InsertMembers(x, s[1..], ord, k);
      }
      SortedCons(s[0], t, ord);
    }
  }

  /** The sorted list is non-decreasing by name. */
  lemma {:induction false} OrderByNameSorted(s: seq<Entry>, ord: Order)
    requires ord.Valid()
    ensures Sorted(Datas(OrderByName(s, ord)), ord)
  {
    if |s| > 0 {
      OrderByNameSorted(s[1..], ord);
      InsertSorted(s[0], OrderByName(s[1..], ord), ord);
    }
  }

  lemma StableCons(y: Entry, t: seq<Entry>, ord: Order)
    requires StableBy(t, ord)
    requires forall k | 0 <= k < |t| && ord.Le(t[k].data, y.data) :: y.index < t[k].index
    ensures StableBy([y] + t, ord)
  {
    var r := [y] + t;
    forall a, b | 0 <= a < b < |r| && ord.Le(r[b].data, r[a].data) ensures r[a].index < r[b].index {
      if a > 0 {
        assert r[a] == t[a - 1] && r[b] == t[b - 1];
      }
    }
  }

  lemma {:induction false} InsertStable(x: Entry, s: seq<Entry>, ord: Order)
    requires ord.Valid() && Sorted(Datas(s), ord) && StableBy(s, ord)
    requires forall k | 0 <= k < |s| :: x.index < s[k].index
    ensures StableBy(Insert(x, s, ord), ord)
  {
    if |s| == 0 {
    } else if ord.Le(x.data, s[0].data) {
      StableCons(x, s, ord);
    } else {
      var t := Insert(x, s[1..], ord);
      SortedTail(s, ord);
      assert StableBy(s[1..], ord) by {
        forall a, b | 0 <= a < b < |s[1..]| && ord.Le(s[1..][b].data, s[1..][a].data)
          ensures s[1..][a].index < s[1..][b].index
        {
          assert s[1..][a] == s[a + 1] && s[1..][b] == s[b + 1];
        }
      }
      InsertStable(x, s[1..], ord);
      InsertPermutes(x, s[1..], ord);
      forall k | 0 <= k < |t| && ord.Le(t[k].data, s[0].data) ensures s[0].index < t[k].index {
        InsertMembers(x, s[1..], ord, k);
        if t[k] != x {
          var j :| 0 <= j < |s[1..]| && s[1..][j] == t[k];
          assert s[j + 1] == t[k];
        }
      }
      StableCons(s[0], t, ord);
    }
  }

  /** Entries whose names tie keep the order of their tags: the sort is stable. */
  lemma {:induction false} OrderByNameStable(s: seq<Entry>, ord: Order)
    requires ord.Valid() && IncreasingTags(s)
    ensures StableBy(OrderByName(s, ord), ord)
  {
    if |s| > 0 {
      var t := OrderByName(s[1..], ord);
      OrderByNameStable(s[1..], ord);
      OrderByNameSorted(s[1..], ord);
      OrderByNamePermutes(s[1..], ord);
      forall k | 0 <= k < |t| ensures s[0].index < t[k].index {
        assert t[k] in multiset(s[1..]);
        var j :| 0 <= j < |s[1..]| && s[1..][j] == t[k];
        assert s[j + 1] == t[k];
      }
      InsertStable(s[0], t, ord);
    }
  }

  /** `m` is the first position whose name is minimal in `s`. */
  ghost predicate IsFirstMinimum(s: seq<Entry>, ord: Order, m: nat) {
    && m < |s|
    && (forall p | 0 <= p < |s| :: ord.Le(s[m].data, s[p].data))
    && (forall p | 0 <= p < m :: !ord.Le(s[p].data, s[m].data))
  }

  /** The first position of a minimal name. */
  function FirstMinimum(s: seq<Entry>, ord: Order): (m: nat)
    requires |s| > 0 && ord.Valid()
    ensures IsFirstMinimum(s, ord, m)
  {
    if |s| == 1 then 0
    else
      var m := FirstMinimum(s[1..], ord);
      if ord.Le(s[0].data, s[1 + m].data) then 0 else 1 + m
  }

  /** The head of the sorted list is the first entry whose name is minimal. */
  lemma {:induction false} OrderByNameHead(s: seq<Entry>, ord: Order)
    requires |s| > 0 && ord.Valid()
    ensures |OrderByName(s, ord)| == |s|
    ensures OrderByName(s, ord)[0] == s[FirstMinimum(s, ord)]
  {
    OrderByNamePermutes(s, ord);
    if |s| > 1 {
      OrderByNamePermutes(s[1..], ord);
      OrderByNameHead(s[1..], ord);
    }
  }

  /** When the selected objects lie in the child list in selection order, putting the
      `k`-th object of a name-sorted `sel` in the position of the `k`-th selected object
      leaves the selected positions sorted by name, read in hierarchy order. */
  lemma PlacementSortsInHierarchyOrder(h0: seq<ObjId>, h: seq<ObjId>, objs: seq<ObjId>, sel: seq<ObjId>, ord: Order)
    requires Distinct(h0) && SiblingSelection(objs, h0) && |sel| == |objs| && |h| == |h0| && Sorted(sel, ord)
    requires forall a, b | 0 <= a < b < |objs| :: IndexOf(h0, objs[a]) < IndexOf(h0, objs[b])
    requires forall k | 0 <= k < |objs| :: h[IndexOf(h0, objs[k])] == sel[k]
    ensures forall p, q | 0 <= p < q < |h| && h0[p] in objs && h0[q] in objs :: ord.Le(h[p], h[q])
  {
    forall p, q | 0 <= p < q < |h| && h0[p] in objs && h0[q] in objs
      ensures ord.Le(h[p], h[q])
    {
      var a, b := IndexOf(objs, h0[p]), IndexOf(objs, h0[q]);
      IndexOfDistinct(h0, p);
      IndexOfDistinct(h0, q);
      assert IndexOf(h0, objs[a]) == p && IndexOf(h0, objs[b]) == q;
      assert a < b;
    }
  }

  /** Lexicographic comparison by character code: one concrete name order. It agrees
      with `string.CompareOrdinal` on names whose characters all lie in the Basic
      Multilingual Plane; `CompareOrdinal` compares UTF-16 code units, which orders
      surrogate pairs differently from code points. */
  predicate OrdinalLe(a: string, b: string) {
    if |a| == 0 then true
    else if |b| == 0 then false
    else if a[0] != b[0] then a[0] < b[0]
    else OrdinalLe(a[1..], b[1..])
  }

  lemma {:induction false} OrdinalLeTotal(a: string, b: string)
    ensures OrdinalLe(a, b) || OrdinalLe(b, a)
  {
    if |a| > 0 && |b| > 0 && a[0] == b[0] {
      OrdinalLeTotal(a[1..], b[1..]);
    }
  }

  lemma {:induction false} OrdinalLeTransitive(a: string, b: string, c: string)
    requires OrdinalLe(a, b) && OrdinalLe(b, c)
    ensures OrdinalLe(a, c)
  {
    if |a| > 0 && |b| > 0 && |c| > 0 && a[0] == b[0] == c[0] {
      OrdinalLeTransitive(a[1..], b[1..], c[1..]);
    }
  }

  /** The `TotalPreorder` requirement of the sorts can be met: comparison by
      character code is a total preorder. */
  lemma OrdinalIsTotalPreorder()
    ensures TotalPreorder(OrdinalLe)
  {
    forall a, b ensures OrdinalLe(a, b) || OrdinalLe(b, a) {
      OrdinalLeTotal(a, b);
    }
    forall a, b, c | OrdinalLe(a, b) && OrdinalLe(b, c) ensures OrdinalLe(a, c) {
      OrdinalLeTransitive(a, b, c);
    }
  }
}
