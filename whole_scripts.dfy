/**
 * The two edit scripts that need no search: inserting every element of a
 * source, and deleting every element of one. The diff engine answers with
 * the first when one of its sources is missing; the two together turn any
 * original into any target.
 */
module WholeScripts {
  import opened Operations
  import opened Traces

  /** Insert operations at positions from, from + 1, ..., from + count - 1 of s. */
  function Inserts<T>(s: Source<T>, from: int, count: nat): (es: seq<Edit<T>>)
    ensures |es| == count
  {
    seq(count, i => Edit(Insert, from + i, s))
  }

  /** Delete operations at positions from, from + 1, ..., from + count - 1 of s. */
  function Deletes<T>(s: Source<T>, from: int, count: nat): (es: seq<Edit<T>>)
    ensures |es| == count
  {
    seq(count, i => Edit(Delete, from + i, s))
  }

  /** One Insert per element of s, in order. */
  function InsertAll<T>(s: Source<T>): seq<Edit<T>> {
    Inserts(s, 0, |s.items|)
  }

  /** One Delete per element of s, in order. */
  function DeleteAll<T>(s: Source<T>): seq<Edit<T>> {
    Deletes(s, 0, |s.items|)
  }

  /** A run of inserts renders the slice it covers, visits no original position and counts one edit each. */
  lemma {:induction false} InsertsMeaning<T>(s: Source<T>, from: int, count: nat)
    requires 0 <= from && from + count <= |s.items|
    ensures Renderable(Inserts(s, from, count))
    ensures Render(Inserts(s, from, count)) == s.items[from..from + count]
    ensures OriginalIndices(Inserts(s, from, count)) == []
    ensures EditCount(Inserts(s, from, count)) == count
    decreases count
  {
    if count > 0 {
      var es := Inserts(s, from, count);
      assert es[0] == Edit(Insert, from, s);
      assert es[1..] == Inserts(s, from + 1, count - 1);
      InsertsMeaning(s, from + 1, count - 1);
      assert s.items[from..from + count] == [s.items[from]] + s.items[from + 1..from + count];
    }
  }

  /** A run of deletes renders nothing, visits the positions it covers and counts one edit each. */
  lemma {:induction false} DeletesMeaning<T>(s: Source<T>, from: int, count: nat)
    ensures Renderable(Deletes(s, from, count))
    ensures Render(Deletes(s, from, count)) == []
    ensures OriginalIndices(Deletes(s, from, count)) == Range(from, from + count)
    ensures EditCount(Deletes(s, from, count)) == count
    decreases count
  {
    if count > 0 {
      assert Deletes(s, from, count)[1..] == Deletes(s, from + 1, count - 1);
      DeletesMeaning(s, from + 1, count - 1);
    }
  }

  /** Inserting every element of the target renders the whole target, visits no position of the original and makes one edit per element. */
  lemma InsertAllMeaning<T>(original: Source<T>, target: Source<T>)
    ensures Transforms(original, target, InsertAll(target), 0, |target.items|, |target.items|)
  {
    InsertsMeaning(target, 0, |target.items|);
    assert target.items[0..|target.items|] == target.items[..|target.items|];
  }

  /**
   * Deleting every element of the original and then inserting every
   * element of the target turns the original into the target with
   * |original| + |target| edits, whatever the two hold.
   */
  lemma ReplaceAllMeaning<T>(original: Source<T>, target: Source<T>)
    ensures Transforms(original, target, DeleteAll(original) + InsertAll(target),
                       |original.items|, |target.items|, |original.items| + |target.items|)
  {
    var dels, ins := DeleteAll(original), InsertAll(target);
    DeletesMeaning(original, 0, |original.items|);
    InsertsMeaning(target, 0, |target.items|);
    RenderAppend(dels, ins);
    OriginalIndicesAppend(dels, ins);
    EditCountAppend(dels, ins);
    assert target.items[0..|target.items|] == target.items[..|target.items|];
  }
}
