/**
 The grid is kept as the raw input text: rows separated by '\n', the
 separators never removed.  A cell (x, y) therefore lives at flat index
 x + (width + 1) * y, the extra 1 skipping each row's terminator.
 */
module Grid {

  /** The largest value of the 64-bit size_t coordinates. */
  const SIZE_MAX: nat := 0xFFFF_FFFF_FFFF_FFFF

  /** Coordinates of a cell, the key the engine's sets are ordered by. */
  type Coord = (nat, nat)

  /** Flat index of cell (x, y) in a field whose rows are `width` wide. */
  function Index(width: nat, x: nat, y: nat): nat
  {
    if y == 0 then x else Index(width, x, y - 1) + width + 1
  }

  /** Each row before row y takes width + 1 characters. */
  lemma {:induction false} IndexFormula(width: nat, x: nat, y: nat)
    ensures Index(width, x, y) == x + (width + 1) * y
  {
    if y > 0 {
      IndexFormula(width, x, y - 1);
    }
  }

  /** Column x of row y lies x characters after the row's start. */
  lemma {:induction false} IndexShift(width: nat, x: nat, y: nat)
    ensures Index(width, x, y) == x + Index(width, 0, y)
  {
    if y > 0 {
      IndexShift(width, x, y - 1);
    }
  }

  /** The symbol of cell (x, y); no bounds checking beyond the string itself. */
  function GetAt(field: string, width: nat, x: nat, y: nat): (c: char)
    requires Index(width, x, y) < |field|
  {
    field[Index(width, x, y)]
  }

  /** getAt reads character x + (width + 1) * y of the text, which lies inside it. */
  lemma GetAtFlat(field: string, width: nat, x: nat, y: nat)
    requires Index(width, x, y) < |field|
    ensures x + (width + 1) * y < |field| && GetAt(field, width, x, y) == field[x + (width + 1) * y]
  {
    IndexFormula(width, x, y);
  }

  /** Overwrites the symbol of cell (x, y), leaving every other character alone. */
  function SetAt(field: string, width: nat, x: nat, y: nat, c: char): (r: string)
    requires Index(width, x, y) < |field|
    ensures |r| == |field|
    ensures GetAt(r, width, x, y) == c
    ensures forall i :: 0 <= i < |r| && i != Index(width, x, y) ==> r[i] == field[i]
  {
    field[Index(width, x, y) := c]
  }

  /** The text of a width x height grid holds exactly (width + 1) * height - 1 characters. */
  predicate Rectangular(field: string, width: nat, height: nat)
  {
    height > 0 && |field| + 1 == Index(width, 0, height)
  }

  lemma MulLeq(a: nat, b: nat, c: nat)
    requires b <= c
    ensures a * b <= a * c
  {
  }

  /** Every cell of a rectangular grid, including its last one, lies inside the text. */
  lemma IndexInRange(field: string, width: nat, height: nat, x: nat, y: nat)
    requires Rectangular(field, width, height)
    requires x < width && y < height
    ensures Index(width, x, y) < |field|
  {
    IndexFormula(width, x, y);
    IndexFormula(width, 0, height);
    MulLeq(width + 1, y, height - 1);
    assert (width + 1) * (height - 1) == (width + 1) * height - (width + 1);
  }

  /** Cells with x < width never collide: the flat index determines the cell. */
  lemma {:induction false} IndexInjective(width: nat, x: nat, y: nat, x': nat, y': nat)
    requires x < width + 1 && x' < width + 1
    requires Index(width, x, y) == Index(width, x', y')
    ensures x == x' && y == y'
  {
    IndexFormula(width, x, y);
    IndexFormula(width, x', y');
    if y < y' {
      MulLeq(width + 1, y + 1, y');
      assert false;
    } else if y' < y {
      MulLeq(width + 1, y' + 1, y);
      assert false;
    }
  }

  /** Writing a cell and reading another one sees the old symbol; reading the same one sees the new. */
  lemma GetAfterSet(field: string, width: nat, x: nat, y: nat, c: char, x': nat, y': nat)
    requires x < width + 1 && x' < width + 1
    requires Index(width, x, y) < |field| && Index(width, x', y') < |field|
    ensures GetAt(SetAt(field, width, x, y, c), width, x', y') ==
            (if (x, y) == (x', y') then c else GetAt(field, width, x', y'))
  {
    if (x, y) != (x', y') && Index(width, x, y) == Index(width, x', y') {
      IndexInjective(width, x, y, x', y');
    }
  }
}
