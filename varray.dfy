/**
 * The frontier array of the shortest-edit-script search: one integer per
 * diagonal k in [-max, max], stored in a dense array at position k + max.
 */
module VArrays {

  /** The cell for diagonal j of cells s covering diagonals [-max, max]. */
  function Cell(s: seq<int>, max: int, j: int): int
    requires -max <= j <= max && |s| == 2 * max + 1
  {
    s[j + max]
  }

  class VArray {
    /** The largest diagonal the array covers, in either direction. */
    const max: int
    const cells: array<int>

    /** The cell count matches the covered diagonals. */
    ghost predicate Valid() {
      0 <= max && cells.Length == 2 * max + 1
    }

    /** The array for a search over sources of lengths n and m, all cells zero. */
    constructor (n: int, m: int)
      requires 0 <= n && 0 <= m
      ensures max == n + m && Valid() && fresh(cells)
      ensures forall k :: -max <= k <= max ==> Get(k) == 0
    {
      max := n + m;
      cells := new int[2 * (n + m) + 1](_ => 0);
    }

    /** A zeroed array covering diagonals [-size, size]. */
    constructor Sized(size: nat)
      ensures max == size && Valid() && fresh(cells)
      ensures forall k :: -max <= k <= max ==> Get(k) == 0
    {
      max := size;
      cells := new int[2 * size + 1](_ => 0);
    }

    /** Whether diagonal k has a cell. */
    predicate InRange(k: int)
      requires Valid()
      ensures InRange(k) <==> 0 <= k + max < cells.Length
    {
      -max <= k <= max
    }

    /** The value stored for diagonal k. */
    function Get(k: int): int
      requires Valid() && InRange(k)
      reads cells
    {
      cells[k + max]
    }

    /** Stores x for diagonal k and leaves every other diagonal alone. */
    method Set(k: int, x: int)
      requires Valid() && InRange(k)
      modifies cells
      ensures Get(k) == x
      ensures forall j :: InRange(j) && j != k ==> Get(j) == old(Get(j))
      ensures cells[..] == old(cells[..])[k + max := x]
    {
      cells[k + max] := x;
    }

    /**
     * A fresh array covering diagonals [-d', d'] with d' = max(d, 1). When d'
     * fits inside this array the copy agrees with it on every covered diagonal;
     * otherwise it is all zeros. The receiver is not changed.
     */
    method Copy(d: int) returns (c: VArray)
      requires Valid() && 0 <= d
      ensures fresh(c) && fresh(c.cells) && c.Valid()
      ensures c.max == if d == 0 then 1 else d
      ensures c.max <= max ==> c.cells[..] == cells[max - c.max..max + c.max + 1]
      ensures c.max <= max ==> forall k :: -c.max <= k <= c.max ==> c.Get(k) == Get(k)
      ensures max < c.max ==> forall k :: -c.max <= k <= c.max ==> c.Get(k) == 0
    {
      var size := d;
      if size == 0 {
        size := size + 1;
      }
      c := new VArray.Sized(size);
      if size <= max {
        forall i | 0 <= i < c.cells.Length {
          c.cells[i] := cells[max - c.max + i];
        }
      }
    }

    /** The y coordinate of the point stored for diagonal k: the point lies on diagonal k. */
    function Y(k: int): (y: int)
      requires Valid() && InRange(k)
      reads cells
      ensures Get(k) - y == k
    {
      Get(k) - k
    }
  }
}
