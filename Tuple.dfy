/**
 * The engine's in-memory row: a fixed-length array of optional field values
 * bound to a schema, with an optional record id telling where the row is
 * stored, and an iterator over the array.
 */
module Tuples {

  import opened Wrappers
  import TupleText

  /** A field value; only its text form is used here, and that is supplied by the caller. */
  type Field

  /** Where a stored tuple lives on disk. */
  type RecordId

  /** One column of a schema. */
  type TDItem

  /** A schema: the tuple contributes nothing but its number of items. */
  datatype TupleDesc = TupleDesc(tdItems: seq<TDItem>)
  {
    function NumFields(): nat
    {
      |tdItems|
    }
  }

  /** Every slot of `s` has been written with a value. */
  predicate AllSet(s: seq<Option<Field>>)
  {
    forall i :: 0 <= i < |s| ==> s[i].Some?
  }

  /** The values of a fully written sequence of slots. */
  function Values(s: seq<Option<Field>>): (vs: seq<Field>)
    requires AllSet(s)
    ensures |vs| == |s|
    ensures forall i :: 0 <= i < |s| ==> s[i] == Some(vs[i])
  {
    seq(|s|, i requires 0 <= i < |s| => s[i].value)
  }

  class Tuple {
    var recordId: Option<RecordId>
    var tupleDesc: TupleDesc
    /** The slots, `None` where no value has been written; its length is fixed at construction. */
    const fieldArr: array<Option<Field>>

    /** A tuple with one unset slot per item of `td` and no record id. */
    constructor (td: TupleDesc)
      ensures tupleDesc == td && recordId == None
      ensures fresh(fieldArr) && fieldArr.Length == td.NumFields()
      ensures forall i :: 0 <= i < fieldArr.Length ==> GetField(i) == None
    {
      tupleDesc := td;
      recordId := None;
      var len := td.NumFields();
      fieldArr := new Option<Field>[len](_ => None);
    }

    function GetTupleDesc(): TupleDesc
      reads this
    {
      tupleDesc
    }

    /** The record id last set, `None` if there is none. */
    function GetRecordId(): Option<RecordId>
      reads this
    {
      recordId
    }

    /** The value in slot `i`, `None` if it has not been set. */
    function GetField(i: int): Option<Field>
      requires 0 <= i < fieldArr.Length
      reads fieldArr
    {
      fieldArr[i]
    }

    method SetRecordId(rid: Option<RecordId>)
      modifies this`recordId
      ensures GetRecordId() == rid
      ensures GetTupleDesc() == old(GetTupleDesc())
      ensures unchanged(fieldArr)
    {
      recordId := rid;
    }

    /** Writes slot `i` and nothing else. */
    method SetField(i: int, f: Option<Field>)
      requires 0 <= i < fieldArr.Length
      modifies fieldArr
      ensures GetField(i) == f
      ensures forall j :: 0 <= j < fieldArr.Length && j != i ==> GetField(j) == old(GetField(j))
      ensures fieldArr[..] == old(fieldArr[..])[i := f]
      ensures unchanged(this)
    {
      fieldArr[i] := f;
    }

    /** Replaces the schema only: the slots are neither resized nor touched. */
    method ResetTupleDesc(td: TupleDesc)
      modifies this`tupleDesc
      ensures GetTupleDesc() == td
      ensures GetRecordId() == old(GetRecordId())
      ensures unchanged(fieldArr)
    {
      tupleDesc := td;
    }

    /** The text form of the tuple; each slot's text comes from `str`. */
    method ToString(str: Field -> string) returns (ans: string)
      requires AllSet(fieldArr[..])
      ensures ans == TupleText.Render(Values(fieldArr[..]), str)
    {
      ghost var vs := Values(fieldArr[..]);
      ans := "";
      var len := fieldArr.Length;
      for i := 0 to len
        invariant ans == TupleText.Emit(vs, i, str)
      {
        assert fieldArr[i] == Some(vs[i]);
        if i == len - 1 {
          ans := ans + str(fieldArr[i].value) + [TupleText.Newline];
        } else {
          ans := ans + str(fieldArr[i].value) + [TupleText.Tab];
        }
      }
      TupleText.EmitRender(vs, str);
    }

    /** A fresh iterator at slot 0, or `None` when the tuple has no slots. */
    method Fields() returns (it: Option<FieldIterator>)
      ensures it.None? <==> fieldArr.Length == 0
      ensures it.Some? ==> fresh(it.value) && it.value.owner == this && it.value.index == 0
    {
      if fieldArr.Length > 0 {
        var iter := new FieldIterator(this);
        return Some(iter);
      } else {
        return None;
      }
    }
  }

  /** Walks the live array of its tuple: a write made during traversal is seen by later calls. */
  class FieldIterator {
    const owner: Tuple
    var index: nat

    /** The iterator never moves past the end of the array. */
    ghost predicate Valid()
      reads this
    {
      index <= owner.fieldArr.Length
    }

    constructor (t: Tuple)
      ensures owner == t && index == 0 && Valid()
    {
      owner := t;
      index := 0;
    }

    method HasNext() returns (b: bool)
      ensures b <==> index < owner.fieldArr.Length
    {
      b := index < owner.fieldArr.Length;
    }

    /** Returns the slot at the current position, as it is now, and steps past it. */
    method Next() returns (f: Option<Field>)
      requires index < owner.fieldArr.Length
      modifies this`index
      ensures index == old(index) + 1 && Valid()
      ensures f == owner.GetField(old(index))
    {
      index := index + 1;
      f := owner.fieldArr[index - 1];
    }
  }

  /**
   * A caller's full traversal: draining a fresh iterator yields every slot in
   * ascending order, and a tuple without slots has no iterator.
   */
  method Traverse(t: Tuple) returns (r: Option<seq<Option<Field>>>)
    ensures r.None? <==> t.fieldArr.Length == 0
    ensures r.Some? ==> r.value == t.fieldArr[..]
  {
    var it := t.Fields();
    if it.None? {
      return None;
    }
    var iter := it.value;
    var out := [];
    var more := iter.HasNext();
    while more
      invariant iter.owner == t && iter.Valid()
      invariant more <==> iter.index < t.fieldArr.Length
      invariant out == t.fieldArr[..iter.index]
      decreases t.fieldArr.Length - iter.index
    {
      var f := iter.Next();
      out := out + [f];
      more := iter.HasNext();
    }
    return Some(out);
  }

  /**
   * A write to any slot the iterator has not yet passed is what `Next`
   * returns once the iterator reaches that slot.
   */
  method SeesLaterWrite(t: Tuple, iter: FieldIterator, j: int, f: Option<Field>) returns (seen: Option<Field>)
    requires iter.owner == t && iter.index <= j < t.fieldArr.Length
    modifies t.fieldArr, iter
    ensures seen == f
    ensures t.fieldArr[..] == old(t.fieldArr[..])[j := f]
  {
    t.SetField(j, f);
    while iter.index < j
      invariant iter.owner == t && iter.index <= j
      invariant t.fieldArr[..] == old(t.fieldArr[..])[j := f]
      decreases j - iter.index
    {
      var skipped := iter.Next();
    }
    seen := iter.Next();
  }

  /** Two traversals with no write in between yield the same slots. */
  method Restart(t: Tuple) returns (first: Option<seq<Option<Field>>>, second: Option<seq<Option<Field>>>)
    ensures first == second
    ensures first.Some? ==> first.value == t.fieldArr[..]
  {
    first := Traverse(t);
    second := Traverse(t);
  }
}
