/**
 * The renaming loop both windows share: object `i` of the selection is renamed to
 * `string.Format(replaceFormat, basename, i + orderingOffset)`, in selection order,
 * where `i + orderingOffset` is unchecked 32-bit `int` addition.
 */
module Naming {
  import opened Host

  /** The name the loop gives to the object at selection position `i`; the index wraps
      around as a C# `int` does, and is the plain sum when that fits. */
  function Label(format: Formatter, replaceFormat: string, basename: string, offset: Int32, i: nat): (r: string)
    ensures -0x8000_0000 <= i + offset as int < 0x8000_0000 ==>
      r == format.render(replaceFormat, basename, (i + offset as int) as Int32)
  {
    format.render(replaceFormat, basename, Wrap32(i + offset as int))
  }

  /** With the largest offset, the second object's index wraps around to the smallest
      `int`. */
  lemma LabelWraps(format: Formatter, replaceFormat: string, basename: string)
    ensures Label(format, replaceFormat, basename, 0x7FFF_FFFF, 0) == format.render(replaceFormat, basename, 0x7FFF_FFFF)
    ensures Label(format, replaceFormat, basename, 0x7FFF_FFFF, 1) == format.render(replaceFormat, basename, -0x8000_0000)
  {
    assert Wrap32(0x8000_0000) == -0x8000_0000;
  }

  /** The names after the loop has renamed `objs[0]`, ..., `objs[|objs| - 1]` in turn:
      exactly the objects named before and the renamed objects have names. */
  function Renamed(names: map<ObjId, string>, objs: seq<ObjId>, format: Formatter,
                   replaceFormat: string, basename: string, offset: Int32): (r: map<ObjId, string>)
    ensures forall o :: o in r <==> o in names || o in objs
    decreases |objs|
  {
    if |objs| == 0 then names
    else
      var last := |objs| - 1;
      Renamed(names, objs[..last], format, replaceFormat, basename, offset)
        [objs[last] := Label(format, replaceFormat, basename, offset, last)]
  }

  /** One more turn of the loop renames the next object to its label. */
  lemma RenamedExtend(names: map<ObjId, string>, objs: seq<ObjId>, i: nat, format: Formatter,
                      replaceFormat: string, basename: string, offset: Int32)
    requires i < |objs|
    ensures Renamed(names, objs[..i + 1], format, replaceFormat, basename, offset)
         == Renamed(names, objs[..i], format, replaceFormat, basename, offset)
              [objs[i] := format.render(replaceFormat, basename, Wrap32(i + offset as int))]
  {
    assert objs[..i + 1][..i] == objs[..i];
  }

  /** When the selection has no repeated object, every selected object gets the label
      of its own position and no other object is touched. */
  lemma {:induction false} RenamedEvery(names: map<ObjId, string>, objs: seq<ObjId>, format: Formatter,
                                        replaceFormat: string, basename: string, offset: Int32)
    requires Distinct(objs)
    ensures var r := Renamed(names, objs, format, replaceFormat, basename, offset);
      && (forall i | 0 <= i < |objs| :: r[objs[i]] == Label(format, replaceFormat, basename, offset, i))
      && (forall o | o in names && o !in objs :: r[o] == names[o])
    decreases |objs|
  {
    if |objs| > 0 {
      var last := |objs| - 1;
      var prefix := objs[..last];
      assert Distinct(prefix);
      RenamedEvery(names, prefix, format, replaceFormat, basename, offset);
      assert objs == prefix + [objs[last]];
      assert objs[last] !in prefix;
    }
  }

  /** What a rename of a non-empty selection leaves behind: whether it threw, and the
      names afterwards. */
  datatype Outcome = Outcome(thrown: bool, names: map<ObjId, string>)

  /** The rename of a non-empty selection, given whether the pattern is accepted and the
      basename found on the first object: the pattern is rejected (throws), there is no
      basename (nothing renamed), or the loop runs; its first `string.Format` throws
      when the format is rejected. A rename that throws has renamed nothing. */
  function RenameRun(names: map<ObjId, string>, objs: seq<ObjId>, patternOk: bool, basename: Option<string>,
                     format: Formatter, replaceFormat: string, offset: Int32): (r: Outcome)
    ensures r.thrown ==> r.names == names
    ensures r.thrown <==> !patternOk || (basename.Some? && !format.accepts(replaceFormat))
  {
    if !patternOk then Outcome(true, names)
    else match basename
      case None => Outcome(false, names)
      case Some(b) =>
        if format.accepts(replaceFormat) then Outcome(false, Renamed(names, objs, format, replaceFormat, b, offset))
        else Outcome(true, names)
  }

  /** When the selection has no repeated object: a rename whose pattern and format are
      accepted and whose basename is found gives every selected object the label of its
      position and leaves every other name alone; and a rename that changed anything
      was such a rename, and kept the set of named objects. */
  lemma RenameRunEvery(names: map<ObjId, string>, objs: seq<ObjId>, patternOk: bool, basename: Option<string>,
                       format: Formatter, replaceFormat: string, offset: Int32)
    requires forall i | 0 <= i < |objs| :: objs[i] in names
    requires Distinct(objs)
    ensures var r := RenameRun(names, objs, patternOk, basename, format, replaceFormat, offset);
      r.names != names ==>
        && !r.thrown && patternOk && basename.Some? && format.accepts(replaceFormat)
        && r.names.Keys == names.Keys
        && (forall i | 0 <= i < |objs| :: r.names[objs[i]] == Label(format, replaceFormat, basename.value, offset, i))
        && (forall o | o in names && o !in objs :: r.names[o] == names[o])
    ensures var r := RenameRun(names, objs, patternOk, basename, format, replaceFormat, offset);
      patternOk && basename.Some? && format.accepts(replaceFormat) ==>
        && !r.thrown
        && (forall i | 0 <= i < |objs| :: r.names[objs[i]] == Label(format, replaceFormat, basename.value, offset, i))
        && (forall o | o in names && o !in objs :: r.names[o] == names[o])
  {
    if patternOk && basename.Some? && format.accepts(replaceFormat) {
      RenamedEvery(names, objs, format, replaceFormat, basename.value, offset);
    }
  }
}
