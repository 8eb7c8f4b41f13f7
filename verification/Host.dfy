/**
 * The editor host the two windows work against: game objects with a name, the
 * child list of the parent the selected objects share, the editor's selection,
 * and the library services (regular expressions, string formatting) that the
 * windows call but do not implement.
 */
module Host {

  /** A game object, identified by its instance id. */
  type ObjId = nat

  datatype Option<T> = None | Some(value: T)

  /** A successful regular-expression match: group 0 is the whole match, the
      capture groups follow it. */
  datatype Match = Match(whole: string, captures: seq<string>) {
    /** The match's group collection, as indexed by `Groups[k]`. */
    function Groups(): seq<string> {
      [whole] + captures
    }
  }

  /** A C# `int`: a 32-bit two's-complement integer. */
  newtype Int32 = x: int | -0x8000_0000 <= x < 0x8000_0000

  /** Unchecked 32-bit arithmetic: the `int` that agrees with `x` modulo 2^32, which is
      `x` itself whenever `x` is in range. */
  function Wrap32(x: int): (r: Int32)
    ensures -0x8000_0000 <= x < 0x8000_0000 ==> r as int == x
    ensures (x - r as int) % 0x1_0000_0000 == 0
  {
    var m := x % 0x1_0000_0000;
    if m < 0x8000_0000 then m as Int32 else (m - 0x1_0000_0000) as Int32
  }

  /** `new Regex(pattern)` and `Match(input)`. The constructor throws an
      ArgumentException unless `accepts(pattern)`; `matchIn(pattern, input)` is the
      match, or None when it does not succeed. */
  datatype Regex = Regex(accepts: string -> bool, matchIn: (string, string) -> Option<Match>)

  /** `string.Format(format, arg0, arg1)` with a string and an `int` argument. It throws
      a FormatException unless `accepts(format)` (a malformed format, or a placeholder
      beyond the two arguments); otherwise the result is `render(format, arg0, arg1)`. */
  datatype Formatter = Formatter(accepts: string -> bool, render: (string, string, Int32) -> string)

  /** The string comparer used to order names: total and transitive (ties allowed). */
  ghost predicate TotalPreorder(le: (string, string) -> bool) {
    && (forall a, b :: le(a, b) || le(b, a))
    && (forall a, b, c :: le(a, b) && le(b, c) ==> le(a, c))
  }

  /** The name of object `o`; objects the scene does not know have the empty name. */
  function NameOf(names: map<ObjId, string>, o: ObjId): string {
    if o in names then names[o] else ""
  }

  predicate Distinct<T(==)>(s: seq<T>) {
    forall i, j | 0 <= i < j < |s| :: s[i] != s[j]
  }

  /** The first position of `o` in `s`. */
  function IndexOf<T(==)>(s: seq<T>, o: T): (k: nat)
    requires o in s
    ensures k < |s| && s[k] == o && o !in s[..k]
  {
    if s[0] == o then 0 else 1 + IndexOf(s[1..], o)
  }

  lemma IndexOfDistinct<T>(s: seq<T>, k: nat)
    requires Distinct(s) && k < |s|
    ensures IndexOf(s, s[k]) == k
  {
  }

  /** `Transform.SetSiblingIndex`: the child at position `from` is taken out of the
      child list and put back so that it ends at position `to`. */
  function Move(s: seq<ObjId>, from: nat, to: nat): seq<ObjId>
    requires from < |s| && to < |s|
  {
    var rest := s[..from] + s[from + 1..];
    rest[..to] + [s[from]] + rest[to..]
  }

  /** Position by position: what `Move` leaves where. */
  lemma MoveAt(s: seq<ObjId>, from: nat, to: nat)
    requires from < |s| && to < |s|
    ensures |Move(s, from, to)| == |s|
    ensures Move(s, from, to)[to] == s[from]
    ensures forall p | 0 <= p < |s| && p < from && p < to :: Move(s, from, to)[p] == s[p]
    ensures forall p | 0 <= p < |s| && p > from && p > to :: Move(s, from, to)[p] == s[p]
    ensures forall p | from <= p < to :: Move(s, from, to)[p] == s[p + 1]
    ensures forall p | to < p <= from :: Move(s, from, to)[p] == s[p - 1]
  {
    var rest := s[..from] + s[from + 1..];
    assert forall p | 0 <= p < from :: rest[p] == s[p];
    assert forall p | from <= p < |rest| :: rest[p] == s[p + 1];
  }

  /** Positions `i` and `j` trade their children. */
  function Exchange<T>(s: seq<T>, i: nat, j: nat): (r: seq<T>)
    requires i < |s| && j < |s|
    ensures |r| == |s| && r[i] == s[j] && r[j] == s[i]
    ensures forall p | 0 <= p < |s| && p != i && p != j :: r[p] == s[p]
  {
    s[i := s[j]][j := s[i]]
  }

  lemma ExchangePermutes<T>(s: seq<T>, i: nat, j: nat)
    requires i < |s| && j < |s|
    ensures multiset(Exchange(s, i, j)) == multiset(s)
  {
  }

  lemma ExchangeSymmetric<T>(s: seq<T>, i: nat, j: nat)
    requires i < |s| && j < |s|
    ensures Exchange(s, i, j) == Exchange(s, j, i)
  {
    var r, t := Exchange(s, i, j), Exchange(s, j, i);
    assert forall p | 0 <= p < |s| :: r[p] == t[p];
  }

  lemma SplitMultiset<T>(s: seq<T>, i: nat)
    requires i <= |s|
    ensures multiset(s) == multiset(s[..i]) + multiset(s[i..])
  {
    assert s == s[..i] + s[i..];
  }

  lemma DropHead<T>(s: seq<T>, i: nat)
    requires i < |s|
    ensures multiset(s[i..]) == multiset{s[i]} + multiset(s[i + 1..])
  {
    assert s[i..] == [s[i]] + s[i + 1..];
  }

  lemma MultisetCancel<T>(a: T, x: multiset<T>, y: multiset<T>)
    requires multiset{a} + x == multiset{a} + y
    ensures x == y
  {
    forall e ensures x[e] == y[e] {
      assert (multiset{a} + x)[e] == (multiset{a} + y)[e];
    }
  }

  /** Exchanging position `i` with a later one leaves the part before `i` alone and
      rearranges the part from `i` on. */
  lemma ExchangeSuffix<T>(s: seq<T>, i: nat, j: nat)
    requires i <= j < |s|
    ensures Exchange(s, i, j)[..i] == s[..i]
    ensures multiset(Exchange(s, i, j)[i..]) == multiset(s[i..])
  {
    var r := Exchange(s, i, j);
    assert r[i..] == Exchange(s[i..], 0, j - i);
  }

  /** Objects `a` and `b` trade their sibling positions. */
  function ExchangeObjects(s: seq<ObjId>, a: ObjId, b: ObjId): seq<ObjId>
    requires a in s && b in s
  {
    Exchange(s, IndexOf(s, a), IndexOf(s, b))
  }

  /** Among distinct children, exchanging two objects exchanges their positions. */
  lemma ExchangeObjectsAt(s: seq<ObjId>, i: nat, j: nat)
    requires Distinct(s) && i < |s| && j < |s|
    ensures ExchangeObjects(s, s[i], s[j]) == Exchange(s, i, j)
  {
    IndexOfDistinct(s, i);
    IndexOfDistinct(s, j);
  }

  /** Moving the child at the higher position `b` down to `a` first, then the child
      that was at `a` (now at `a + 1`) up to `b`, exchanges the two exactly. */
  lemma {:induction false} MoveDownThenUpExchanges(s: seq<ObjId>, a: nat, b: nat)
    requires a < b < |s|
    ensures Move(Move(s, b, a), a + 1, b) == Exchange(s, a, b)
  {
    var t := Move(s, b, a);
    MoveAt(s, b, a);
    MoveAt(t, a + 1, b);
    var r := Move(t, a + 1, b);
    forall p | 0 <= p < |s| ensures r[p] == Exchange(s, a, b)[p] {
      if a < p < b {
        assert r[p] == t[p + 1] == s[p];
      }
    }
  }

  /** Moving the child at the lower position `a` up to `b` first, then the child that
      was at `b` (now at `b - 1`) down to `a`, exchanges the two exactly as well. */
  lemma {:induction false} MoveUpThenDownExchanges(s: seq<ObjId>, a: nat, b: nat)
    requires a < b < |s|
    ensures Move(Move(s, a, b), b - 1, a) == Exchange(s, a, b)
  {
    var t := Move(s, a, b);
    MoveAt(s, a, b);
    MoveAt(t, b - 1, a);
    var r := Move(t, b - 1, a);
    forall p | 0 <= p < |s| ensures r[p] == Exchange(s, a, b)[p] {
      if a < p < b {
        assert r[p] == t[p - 1] == s[p];
      }
    }
  }

  /** Where the child that was at `a` sits after the child at `b` was moved down to `a`. */
  lemma MovedDownNeighbour(s: seq<ObjId>, a: nat, b: nat)
    requires Distinct(s) && a < b < |s|
    ensures s[a] in Move(s, b, a) && IndexOf(Move(s, b, a), s[a]) == a + 1
  {
    var t := Move(s, b, a);
    MoveAt(s, b, a);
    MoveDistinct(s, b, a);
    IndexOfDistinct(t, a + 1);
  }

  /** Where the child that was at `b` sits after the child at `a` was moved up to `b`. */
  lemma MovedUpNeighbour(s: seq<ObjId>, a: nat, b: nat)
    requires Distinct(s) && a < b < |s|
    ensures s[b] in Move(s, a, b) && IndexOf(Move(s, a, b), s[b]) == b - 1
  {
    var t := Move(s, a, b);
    MoveAt(s, a, b);
    MoveDistinct(s, a, b);
    IndexOfDistinct(t, b - 1);
  }

  /** Setting the child at the higher position to the lower child's position, then
      the lower child to the higher child's old position, exchanges the two. */
  lemma HigherFirstExchanges(h: seq<ObjId>, lo: ObjId, hi: ObjId)
    requires Distinct(h) && lo in h && hi in h && IndexOf(h, lo) <= IndexOf(h, hi)
    ensures var t := Move(h, IndexOf(h, hi), IndexOf(h, lo));
      && lo in t
      && Move(t, IndexOf(t, lo), IndexOf(h, hi)) == ExchangeObjects(h, lo, hi)
      && ExchangeObjects(h, lo, hi) == ExchangeObjects(h, hi, lo)
  {
    var a, b := IndexOf(h, lo), IndexOf(h, hi);
    ExchangeSymmetric(h, a, b);
    if a < b {
      MovedDownNeighbour(h, a, b);
      MoveDownThenUpExchanges(h, a, b);
    } else {
      MoveInPlace(h, a);
    }
  }

  /** Setting the child at the lower position to the higher child's position, then
      the higher child to the lower child's old position, exchanges the two. */
  lemma LowerFirstExchanges(h: seq<ObjId>, lo: ObjId, hi: ObjId)
    requires Distinct(h) && lo in h && hi in h && IndexOf(h, lo) < IndexOf(h, hi)
    ensures var t := Move(h, IndexOf(h, lo), IndexOf(h, hi));
      && hi in t
      && Move(t, IndexOf(t, hi), IndexOf(h, lo)) == ExchangeObjects(h, hi, lo)
  {
    var a, b := IndexOf(h, lo), IndexOf(h, hi);
    ExchangeSymmetric(h, a, b);
    MovedUpNeighbour(h, a, b);
    MoveUpThenDownExchanges(h, a, b);
  }

  /** Moving a child keeps the same children. */
  lemma MovePermutes(s: seq<ObjId>, from: nat, to: nat)
    requires from < |s| && to < |s|
    ensures multiset(Move(s, from, to)) == multiset(s)
  {
    var rest := s[..from] + s[from + 1..];
    assert rest[..to] + rest[to..] == rest;
    calc {
      multiset(Move(s, from, to));
      multiset(rest[..to]) + multiset{s[from]} + multiset(rest[to..]);
      multiset(rest) + multiset{s[from]};
      { assert s == s[..from] + [s[from]] + s[from + 1..]; }
      multiset(s);
    }
  }

  /** Moving a child keeps every child once. */
  lemma MoveDistinct(s: seq<ObjId>, from: nat, to: nat)
    requires from < |s| && to < |s| && Distinct(s)
    ensures Distinct(Move(s, from, to))
  {
    var moved := Move(s, from, to);
    MoveAt(s, from, to);
    forall x, y | 0 <= x < y < |moved| ensures moved[x] != moved[y] {
      var x' := if x == to then from else if from <= x < to then x + 1 else if to < x <= from then x - 1 else x;
      var y' := if y == to then from else if from <= y < to then y + 1 else if to < y <= from then y - 1 else y;
      assert moved[x] == s[x'] && moved[y] == s[y'];
    }
  }

  lemma MoveInPlace(s: seq<ObjId>, k: nat)
    requires k < |s|
    ensures Move(s, k, k) == s
  {
    MoveAt(s, k, k);
  }

  /** The selected objects are distinct children of the shared parent. */
  ghost predicate SiblingSelection(objs: seq<ObjId>, siblings: seq<ObjId>) {
    Distinct(objs) && forall k | 0 <= k < |objs| :: objs[k] in siblings
  }

  /** The child list `h0` after the child that was the `k`-th selected object has been
      replaced, in its position, by `sel[k]`; unselected children stay where they are. */
  function Reslot(h0: seq<ObjId>, objs: seq<ObjId>, sel: seq<ObjId>): (r: seq<ObjId>)
    requires |sel| == |objs|
    ensures |r| == |h0|
  {
    seq(|h0|, p requires 0 <= p < |h0| => if h0[p] in objs then sel[IndexOf(objs, h0[p])] else h0[p])
  }

  /** Replacing every selected object by itself changes nothing. */
  lemma ReslotIdentity(h0: seq<ObjId>, objs: seq<ObjId>)
    ensures Reslot(h0, objs, objs) == h0
  {
  }

  /** The position of the `k`-th selected object holds `sel[k]`. */
  lemma ReslotAt(h0: seq<ObjId>, objs: seq<ObjId>, sel: seq<ObjId>, k: nat)
    requires SiblingSelection(objs, h0) && |sel| == |objs| && k < |objs|
    ensures Reslot(h0, objs, sel)[IndexOf(h0, objs[k])] == sel[k]
  {
    IndexOfDistinct(objs, k);
  }

  /** The position of each selected object holds its replacement; every other
      position keeps its child. */
  lemma ReslotPlaces(h0: seq<ObjId>, objs: seq<ObjId>, sel: seq<ObjId>)
    requires SiblingSelection(objs, h0) && |sel| == |objs|
    ensures forall k | 0 <= k < |objs| :: Reslot(h0, objs, sel)[IndexOf(h0, objs[k])] == sel[k]
    ensures forall p | 0 <= p < |h0| && h0[p] !in objs :: Reslot(h0, objs, sel)[p] == h0[p]
  {
    forall k | 0 <= k < |objs| ensures Reslot(h0, objs, sel)[IndexOf(h0, objs[k])] == sel[k] {
      ReslotAt(h0, objs, sel, k);
    }
  }

  /** Exchanging two objects of the selection, and the two children in the positions
      they stand for, keeps the child list and the selection in step. */
  lemma {:induction false} ReslotExchange(h0: seq<ObjId>, objs: seq<ObjId>, sel: seq<ObjId>, i: nat, j: nat)
    requires Distinct(h0) && SiblingSelection(objs, h0) && |sel| == |objs| && i < |sel| && j < |sel|
    requires Distinct(Reslot(h0, objs, sel))
    ensures sel[i] in Reslot(h0, objs, sel) && sel[j] in Reslot(h0, objs, sel)
    ensures ExchangeObjects(Reslot(h0, objs, sel), sel[i], sel[j]) == Reslot(h0, objs, Exchange(sel, i, j))
  {
    var cur := Reslot(h0, objs, sel);
    var pi, pj := IndexOf(h0, objs[i]), IndexOf(h0, objs[j]);
    ReslotAt(h0, objs, sel, i);
    ReslotAt(h0, objs, sel, j);
    IndexOfDistinct(cur, pi);
    IndexOfDistinct(cur, pj);
    var lhs, rhs := Exchange(cur, pi, pj), Reslot(h0, objs, Exchange(sel, i, j));
    forall p | 0 <= p < |h0| ensures lhs[p] == rhs[p] {
      if h0[p] in objs {
        var k := IndexOf(objs, h0[p]);
        IndexOfDistinct(objs, i);
        IndexOfDistinct(objs, j);
        if p == pi {
          assert k == i;
        } else if p == pj {
          assert k == j;
        } else {
          IndexOfDistinct(h0, p);
        }
      }
    }
  }

  /** The editor state the windows read and change. */
  class Scene {
    /** The name of every live game object. */
    var names: map<ObjId, string>
    /** The children of the parent the selected objects share, in sibling order. */
    var siblings: seq<ObjId>
    /** The editor's selection, as `Selection.instanceIDs`. */
    var selection: seq<ObjId>

    ghost predicate Valid()
      reads this
    {
      Distinct(siblings)
    }

    constructor (names: map<ObjId, string>, siblings: seq<ObjId>, selection: seq<ObjId>)
      requires Distinct(siblings)
      ensures Valid()
      ensures this.names == names && this.siblings == siblings && this.selection == selection
    {
      this.names := names;
      this.siblings := siblings;
      this.selection := selection;
    }

    /** `o.transform.SetSiblingIndex(k)` */
    method SetSiblingIndex(o: ObjId, k: nat)
      requires Valid() && o in siblings && k < |siblings|
      modifies this
      ensures Valid()
      ensures siblings == Move(old(siblings), IndexOf(old(siblings), o), k)
      ensures multiset(siblings) == multiset(old(siblings))
      ensures names == old(names) && selection == old(selection)
    {
      var from := IndexOf(siblings, o);
      MovePermutes(siblings, from, k);
      MoveDistinct(siblings, from, k);
      siblings := Move(siblings, from, k);
    }
  }
}
