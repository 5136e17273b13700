/**
 * The edit-operation record shared by the diff engine and the merge engine:
 * the operation kinds with their numeric values, the sequences an operation
 * refers to, and the record itself with its one mutable flag.
 */
module Operations {

  datatype Option<X> = None | Some(value: X)

  /** The kind of an edit operation. */
  datatype OperationKind = Equal | Delete | Insert | Unknown
  {
    /** The numeric value of the kind; the merge engine compares kinds by it. */
    function Value(): (v: int)
      ensures -1 <= v <= 2
      ensures v == -1 <==> this == Unknown
      ensures v == 2 <==> this == Insert
    {
      match this
      case Equal => 0
      case Delete => 1
      case Insert => 2
      case Unknown => -1
    }
  }

  /**
   * A read-only, randomly indexable sequence of comparable elements.
   * Operations refer to a source by reference, so a source is an object
   * whose contents never change.
   */
  class Source<T> {
    const items: seq<T>

    constructor (items: seq<T>)
      ensures this.items == items
    {
      this.items := items;
    }

    function Length(): (len: nat)
      ensures len == |items|
    {
      |items|
    }
  }

  /** The immutable part of an operation: its kind, its position and the source the position is in. */
  datatype Edit<T> = Edit(kind: OperationKind, index: int, source: Source<T>)

  /**
   * One entry of an edit script. Kind, index and source are fixed at
   * construction; only the conflict flag changes afterwards.
   */
  class Operation<T> {
    const kind: OperationKind
    const index: int
    const source: Source<T>
    var isConflict: bool

    constructor (kind: OperationKind, index: int, source: Source<T>, isConflict: bool := false)
      ensures this.kind == kind && this.index == index && this.source == source
      ensures this.isConflict == isConflict
    {
      this.kind := kind;
      this.index := index;
      this.source := source;
      this.isConflict := isConflict;
    }

    /** The fixed part of the operation. */
    function AsEdit(): Edit<T> {
      Edit(kind, index, source)
    }

    /** Equality against any object: only an operation can be equal to an operation. */
    ghost predicate Equals(obj: object?)
      reads this, obj
    {
      obj is Operation<T> &&
      var op := obj as Operation<T>;
      op.kind == kind && op.index == index && op.isConflict == isConflict && op.source == source
    }

    /** The typed overload of `Equals`. */
    predicate EqualsOperation(other: Operation<T>)
      reads this, other
    {
      index == other.index && isConflict == other.isConflict && kind == other.kind && source == other.source
    }
  }

  /** The overload taking an operation agrees with the one taking any object. */
  lemma EqualsOverloadsAgree<T>(op: Operation<T>, other: Operation<T>)
    ensures op.Equals(other) <==> op.EqualsOperation(other)
  {
  }

  /** Equality is false against null, reflexive, symmetric and transitive. */
  lemma EqualsIsAnEquivalence<T>(op: Operation<T>, other: Operation<T>, third: Operation<T>)
    ensures !op.Equals(null)
    ensures op.Equals(op)
    ensures op.Equals(other) <==> other.Equals(op)
    ensures op.Equals(other) && other.Equals(third) ==> op.Equals(third)
  {
  }

  /** The fixed parts of a list of operations. */
  function Edits<T>(ops: seq<Operation<T>>): (es: seq<Edit<T>>)
    ensures |es| == |ops|
    ensures forall i :: 0 <= i < |ops| ==> es[i] == ops[i].AsEdit()
  {
    if ops == [] then [] else [ops[0].AsEdit()] + Edits(ops[1..])
  }

  /** The fixed parts of two lists of operations, one after the other. */
  lemma EditsAppend<T>(xs: seq<Operation<T>>, ys: seq<Operation<T>>)
    ensures Edits(xs + ys) == Edits(xs) + Edits(ys)
  {
    assert |Edits(xs + ys)| == |Edits(xs) + Edits(ys)|;
    forall i | 0 <= i < |xs + ys|
      ensures Edits(xs + ys)[i] == (Edits(xs) + Edits(ys))[i]
    {
      if i < |xs| {
        assert (xs + ys)[i] == xs[i];
      } else {
        assert (xs + ys)[i] == ys[i - |xs|];
      }
    }
  }

  /** Appending one operation appends its fixed part. */
  lemma EditsSnoc<T>(ops: seq<Operation<T>>, op: Operation<T>)
    ensures Edits(ops + [op]) == Edits(ops) + [op.AsEdit()]
  {
    EditsAppend(ops, [op]);
  }

  /** Whether no operation of the list is marked as a conflict. */
  ghost predicate Unflagged<T>(ops: seq<Operation<T>>)
    reads ops
  {
    forall i :: 0 <= i < |ops| ==> !ops[i].isConflict
  }

  /** The kinds of a list of operations. */
  function Kinds<T>(ops: seq<Operation<T>>): (ks: seq<OperationKind>)
    ensures |ks| == |ops|
    ensures forall i :: 0 <= i < |ops| ==> ks[i] == ops[i].kind
  {
    if ops == [] then [] else [ops[0].kind] + Kinds(ops[1..])
  }

  /** Whether an operation is skipped when the script is rendered. */
  predicate Skipped<T>(e: Edit<T>) {
    e.kind == Delete || e.kind == Unknown
  }

  /** Every operation that is rendered refers to a position inside its source. */
  predicate Renderable<T>(es: seq<Edit<T>>) {
    forall i :: 0 <= i < |es| && !Skipped(es[i]) ==> 0 <= es[i].index < |es[i].source.items|
  }

  /**
   * The meaning of an edit script: every operation except Delete and Unknown
   * contributes the element its source holds at its index, in script order.
   */
  function Render<T>(es: seq<Edit<T>>): seq<T>
    requires Renderable(es)
  {
    if es == [] then []
    else (if Skipped(es[0]) then [] else [es[0].source.items[es[0].index]]) + Render(es[1..])
  }

  /** The positions of the original a script visits: the indices of its Delete and Equal operations, in order. */
  function OriginalIndices<T>(es: seq<Edit<T>>): seq<int> {
    if es == [] then []
    else (if es[0].kind == Delete || es[0].kind == Equal then [es[0].index] else []) + OriginalIndices(es[1..])
  }

  /** The number of Insert and Delete operations of a script. */
  function EditCount<T>(es: seq<Edit<T>>): nat {
    if es == [] then 0
    else (if es[0].kind == Delete || es[0].kind == Insert then 1 else 0) + EditCount(es[1..])
  }

  /** The integers lo, lo + 1, ..., hi - 1. */
  function Range(lo: int, hi: int): (r: seq<int>)
    requires lo <= hi
    ensures |r| == hi - lo
    ensures forall i :: 0 <= i < |r| ==> r[i] == lo + i
    decreases hi - lo
  {
    if lo == hi then [] else [lo] + Range(lo + 1, hi)
  }

  lemma {:induction false} RenderAppend<T>(xs: seq<Edit<T>>, ys: seq<Edit<T>>)
    requires Renderable(xs) && Renderable(ys)
    ensures Renderable(xs + ys)
    ensures Render(xs + ys) == Render(xs) + Render(ys)
  {
    if xs == [] {
      assert xs + ys == ys;
    } else {
      assert (xs + ys)[1..] == xs[1..] + ys;
      RenderAppend(xs[1..], ys);
    }
  }

  lemma {:induction false} OriginalIndicesAppend<T>(xs: seq<Edit<T>>, ys: seq<Edit<T>>)
    ensures OriginalIndices(xs + ys) == OriginalIndices(xs) + OriginalIndices(ys)
  {
    if xs == [] {
      assert xs + ys == ys;
    } else {
      assert (xs + ys)[1..] == xs[1..] + ys;
      OriginalIndicesAppend(xs[1..], ys);
    }
  }

  lemma {:induction false} EditCountAppend<T>(xs: seq<Edit<T>>, ys: seq<Edit<T>>)
    ensures EditCount(xs + ys) == EditCount(xs) + EditCount(ys)
  {
    if xs == [] {
      assert xs + ys == ys;
    } else {
      assert (xs + ys)[1..] == xs[1..] + ys;
      EditCountAppend(xs[1..], ys);
    }
  }

  lemma RangeAppend(lo: int, mid: int, hi: int)
    requires lo <= mid <= hi
    ensures Range(lo, mid) + Range(mid, hi) == Range(lo, hi)
  {
  }
}
