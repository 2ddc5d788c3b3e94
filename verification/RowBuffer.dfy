/**
 Result rows packed into memory (darwinup/Database.cpp, darwinup/Table.cpp, darwinup/Column.cpp).
 */
module RowBuffer {
  datatype Kind = Integer | Text | Blob

  /** What a statement yields in a column; integers are stored in the row, texts and blobs by
      pointer, and a missing value as a null pointer. */
  datatype Value = Number(n: int) | String(s: string) | Bytes(b: seq<int>) | Null

  /** A byte of memory: untouched, or the k-th byte of a stored value. */
  datatype Byte = Free | Part(value: Value, k: nat)

  /** The width of a pointer, in bytes. */
  newtype Pointer = p: int | p == 4 || p == 8 witness 4

  /** Values are bound by type, so a column holds values of its kind or none. */
  predicate Fits(v: Value, kind: Kind) {
    match v
    case Number(_) => kind.Integer?
    case String(_) => kind.Text?
    case Bytes(_) => kind.Blob?
    case Null => true
  }

  /** Column::size */
  function Size(kind: Kind, pointer: Pointer): nat {
    if kind.Integer? then 8 else pointer as nat
  }

  /** The bytes Database::store_column uses. */
  function Used(v: Value, pointer: Pointer): nat {
    if v.Number? then 8 else pointer as nat
  }

  function Sizes(kinds: seq<Kind>, pointer: Pointer): nat {
    if kinds == [] then 0 else Sizes(kinds[..|kinds| - 1], pointer) + Size(kinds[|kinds| - 1], pointer)
  }

  function UsedBy(values: seq<Value>, pointer: Pointer): nat {
    if values == [] then 0 else UsedBy(values[..|values| - 1], pointer) + Used(values[|values| - 1], pointer)
  }

  predicate RowFits(values: seq<Value>, kinds: seq<Kind>) {
    |values| == |kinds| && forall i :: 0 <= i < |values| ==> Fits(values[i], kinds[i])
  }

  /** The value stored at a place in memory, in full. */
  ghost predicate Stored(memory: seq<Byte>, at: nat, v: Value, pointer: Pointer) {
    && at + Used(v, pointer) <= |memory|
    && forall k :: 0 <= k < Used(v, pointer) ==> memory[at + k] == Part(v, k)
  }

  /** Where value i of a packed row begins. */
  function Start(values: seq<Value>, i: nat, pointer: Pointer): nat
    requires i <= |values|
  {
    UsedBy(values[..i], pointer)
  }

  /** The first n values of a row packed from a place on: each right behind the one before it. */
  ghost predicate Packed(memory: seq<Byte>, at: nat, values: seq<Value>, n: nat, pointer: Pointer)
    requires n <= |values|
  {
    forall i :: 0 <= i < n ==> Stored(memory, at + Start(values, i, pointer), values[i], pointer)
  }

  lemma {:induction false} UsedGrows(values: seq<Value>, i: nat, pointer: Pointer)
    requires i < |values|
    ensures UsedBy(values[..i + 1], pointer) == UsedBy(values[..i], pointer) + Used(values[i], pointer)
    ensures UsedBy(values[..i + 1], pointer) <= UsedBy(values, pointer)
    decreases |values|
  {
    assert values[..i + 1][..i] == values[..i];
    if i + 1 < |values| {
      var fewer := values[..|values| - 1];
      UsedGrows(fewer, i, pointer);
      assert fewer[..i + 1] == values[..i + 1];
    } else {
      assert values[..i + 1] == values;
    }
  }

  lemma {:induction false} RowIsInside(values: seq<Value>, kinds: seq<Kind>, pointer: Pointer)
    requires RowFits(values, kinds)
    ensures UsedBy(values, pointer) <= Sizes(kinds, pointer)
  {
    if values == [] {
    } else {
      RowIsInside(values[..|values| - 1], kinds[..|kinds| - 1], pointer);
      assert Fits(values[|values| - 1], kinds[|kinds| - 1]);
    }
  }

  method StoreColumn(v: Value, output: array<Byte>, at: nat, pointer: Pointer) returns (used: nat)
    requires at + Used(v, pointer) <= output.Length
    modifies output
    ensures used == Used(v, pointer)
    ensures Stored(output[..], at, v, pointer)
    ensures forall k :: 0 <= k < output.Length && !(at <= k < at + used) ==> output[k] == old(output[k])
  {
    used := Used(v, pointer);
    for k := 0 to used
      invariant forall j :: 0 <= j < k ==> output[at + j] == Part(v, j)
      invariant forall j :: 0 <= j < output.Length && !(at <= j < at + k) ==> output[j] == old(output[j])
    {
      output[at + k] := Part(v, k);
    }
  }

  lemma StartBelow(values: seq<Value>, j: nat, i: nat, pointer: Pointer)
    requires j < i <= |values|
    ensures Start(values, j, pointer) + Used(values[j], pointer) <= Start(values, i, pointer)
  {
    UsedGrows(values[..i], j, pointer);
    assert values[..i][..j + 1] == values[..j + 1] && values[..i][..j] == values[..j];
  }

  lemma PackedMore(before: seq<Byte>, after: seq<Byte>, at: nat, values: seq<Value>, n: nat, pointer: Pointer)
    requires n < |values| && Packed(before, at, values, n, pointer) && |before| == |after|
    requires Stored(after, at + Start(values, n, pointer), values[n], pointer)
    requires forall k :: 0 <= k < at + Start(values, n, pointer) && k < |before| ==> after[k] == before[k]
    ensures Packed(after, at, values, n + 1, pointer)
  {
    forall j | 0 <= j < n
      ensures Stored(after, at + Start(values, j, pointer), values[j], pointer)
    {
      StartBelow(values, j, n, pointer);
      assert Stored(before, at + Start(values, j, pointer), values[j], pointer);
    }
  }

  /** Packs one row, and touches no byte past it. */
  method StepOnce(values: seq<Value>, output: array<Byte>, at: nat, pointer: Pointer) returns (used: nat)
    requires at + UsedBy(values, pointer) <= output.Length
    modifies output
    ensures used == UsedBy(values, pointer)
    ensures Packed(output[..], at, values, |values|, pointer)
    ensures forall i, k :: 0 <= i < |values| && 0 <= k < Used(values[i], pointer) ==>
      output[..][at + Start(values, i, pointer) + k] == Part(values[i], k)
    ensures forall k :: 0 <= k < output.Length && !(at <= k < at + used) ==> output[k] == old(output[k])
  {
    used := 0;
    for i := 0 to |values|
      invariant used == Start(values, i, pointer)
      invariant Packed(output[..], at, values, i, pointer)
      invariant forall k :: 0 <= k < output.Length && !(at <= k < at + used) ==> output[k] == old(output[k])
    {
      UsedGrows(values, i, pointer);
      ghost var before := output[..];
      var more := StoreColumn(values[i], output, at + used, pointer);
      PackedMore(before, output[..], at, values, i, pointer);
      used := used + more;
    }
    assert values[..|values|] == values;
  }

  // ------------------------------------------------------------- offsets

  function Offset(kinds: seq<Kind>, i: nat, pointer: Pointer): nat
    requires i <= |kinds|
  {
    Sizes(kinds[..i], pointer)
  }

  lemma OffsetNext(kinds: seq<Kind>, i: nat, pointer: Pointer)
    requires i < |kinds|
    ensures Offset(kinds, i + 1, pointer) == Offset(kinds, i, pointer) + Size(kinds[i], pointer)
  {
    assert kinds[..i + 1][..i] == kinds[..i];
  }

  /** A missing integer ahead of another column: it takes a pointer's width, not an integer's. */
  predicate MissingInteger(values: seq<Value>, kinds: seq<Kind>, i: nat) {
    i + 1 < |values| && i < |kinds| && kinds[i].Integer? && values[i].Null?
  }

  lemma {:induction false} StartsAtOffset(values: seq<Value>, kinds: seq<Kind>, i: nat, pointer: Pointer)
    requires RowFits(values, kinds) && i < |values|
    requires pointer == 8 || forall j: nat :: j < i ==> !MissingInteger(values, kinds, j)
    ensures Start(values, i, pointer) == Offset(kinds, i, pointer)
    decreases i
  {
    if i == 0 {
    } else {
      StartsAtOffset(values, kinds, i - 1, pointer);
      UsedGrows(values, i - 1, pointer);
      OffsetNext(kinds, i - 1, pointer);
      assert Fits(values[i - 1], kinds[i - 1]) && !(pointer == 4 && MissingInteger(values, kinds, i - 1));
    }
  }

  /** Every value is where its column says exactly when pointers are as wide as integers, or no
      integer is missing before the last column. */
  lemma ValuesAreAtOffsets(values: seq<Value>, kinds: seq<Kind>, pointer: Pointer)
    requires RowFits(values, kinds)
    ensures (forall i :: 0 <= i < |values| ==> Start(values, i, pointer) == Offset(kinds, i, pointer))
            <==> (pointer == 8 || forall i: nat :: !MissingInteger(values, kinds, i))
  {
    if pointer == 8 || forall i: nat :: !MissingInteger(values, kinds, i) {
      forall i | 0 <= i < |values|
        ensures Start(values, i, pointer) == Offset(kinds, i, pointer)
      {
        StartsAtOffset(values, kinds, i, pointer);
      }
    } else {
      var i: nat :| MissingInteger(values, kinds, i);
      UsedGrows(values, i, pointer);
      OffsetNext(kinds, i, pointer);
      assert Start(values, i + 1, pointer) - Start(values, i, pointer) !=
        Offset(kinds, i + 1, pointer) - Offset(kinds, i, pointer);
    }
  }

  datatype Column = Column(kind: Kind, offset: nat)

  function Kinds(columns: seq<Column>): (kinds: seq<Kind>)
    ensures |kinds| == |columns|
    ensures forall i :: 0 <= i < |columns| ==> kinds[i] == columns[i].kind
  {
    seq(|columns|, i requires 0 <= i < |columns| => columns[i].kind)
  }

  const REALLOC_FACTOR := 4

  class Table {
    const pointer: Pointer
    var columns: seq<Column>
    var columnsSize: nat
    var results: array<array?<Byte>>
    var resultCount: nat

    /** Offsets add up, and the pool holds different rows. */
    ghost predicate Valid()
      reads this, results
    {
      && columnsSize == Sizes(Kinds(columns), pointer)
      && (forall i :: 0 <= i < |columns| ==> columns[i].offset == Offset(Kinds(columns), i, pointer))
      && 1 <= results.Length && resultCount <= results.Length
      && (forall i :: 0 <= i < resultCount ==> results[i] != null)
      && (forall i, j :: 0 <= i < j < resultCount ==> results[i] != results[j])
    }

    ghost function Pool(): set<array?<Byte>>
      requires Valid()
      reads this, results
    {
      set i | 0 <= i < resultCount :: results[i]
    }

    constructor (pointer: Pointer)
      ensures Valid() && this.pointer == pointer && columns == [] && Pool() == {}
    {
      this.pointer := pointer;
      columns := [];
      columnsSize := 0;
      results := new array?<Byte>[1](_ => null);
      resultCount := 0;
    }

    method AddColumn(kind: Kind)
      requires Valid()
      modifies this`columns, this`columnsSize
      ensures Valid() && Kinds(columns) == old(Kinds(columns)) + [kind]
    {
      ghost var before := Kinds(columns);
      columns := columns + [Column(kind, columnsSize)];
      columnsSize := columnsSize + Size(kind, pointer);
      assert Kinds(columns) == before + [kind];
      assert forall i :: 0 <= i <= |before| ==> (before + [kind])[..i] == before[..i];
      assert before[..|before|] == before;
    }

    /** Makes room for one more row. */
    method Grow()
      requires Valid()
      modifies this`results
      ensures Valid() && resultCount < results.Length && Pool() == old(Pool())
      ensures results == old(results) || fresh(results)
    {
      if resultCount >= results.Length {
        var longer := new array?<Byte>[results.Length * REALLOC_FACTOR](_ => null);
        for i := 0 to resultCount
          modifies longer
          invariant forall j :: 0 <= j < i ==> longer[j] == results[j]
        {
          longer[i] := results[i];
        }
        results := longer;
      }
    }

    /** A fresh row, free in every byte, that the table keeps. */
    method AllocResult() returns (row: array<Byte>)
      requires Valid()
      modifies this`results, this`resultCount, results
      ensures Valid() && fresh(row)
      ensures row.Length == columnsSize && forall k :: 0 <= k < row.Length ==> row[k] == Free
      ensures Pool() == old(Pool()) + {row}
    {
      Grow();
      row := new Byte[columnsSize](_ => Free);
      Append(row);
    }

    method Append(row: array<Byte>)
      requires Valid() && resultCount < results.Length && row !in Pool()
      modifies this`resultCount, results
      ensures Valid() && Pool() == old(Pool()) + {row}
    {
      assert forall i :: 0 <= i < resultCount ==> results[i] in Pool();
      results[resultCount] := row;
      resultCount := resultCount + 1;
      assert forall i :: 0 <= i < resultCount - 1 ==> results[i] == old(results[i]);
      forall r | r in old(Pool()) + {row}
        ensures r in Pool()
      {
        if r != row {
          var j :| 0 <= j < old(resultCount) && old(results[j]) == r;
          assert results[j] == r;
        } else {
          assert results[resultCount - 1] == r;
        }
      }
    }

    method RemoveAt(i: nat)
      requires Valid() && i < resultCount
      modifies this`resultCount, results
      ensures Valid() && resultCount == old(resultCount) - 1
      ensures Pool() == old(Pool()) - {old(results[i])}
      ensures forall j :: 0 <= j < i ==> results[j] == old(results[j])
    {
      var last := resultCount - 1;
      ghost var before := results[..resultCount];
      results[i] := null;
      if i != last {
        results[i] := results[last];
        results[last] := null;
      }
      resultCount := last;
      assert forall j :: 0 <= j < last ==> results[j] == before[if j == i then last else j];
      forall r | r in old(Pool()) && r != before[i]
        ensures r in Pool()
      {
        var j :| 0 <= j < |before| && before[j] == r;
        assert results[if j == last then i else j] == r;
      }
    }

    /** Gives one row back; the last row takes its place. */
    method FreeResult(row: array<Byte>)
      requires Valid()
      modifies this`resultCount, results
      ensures Valid()
      ensures Pool() == old(Pool()) - {row}
    {
      var i := 0;
      ghost var freed := false;
      while i < resultCount
        invariant Valid() && 0 <= i
        invariant forall j :: 0 <= j < i && j < resultCount ==> results[j] != row
        invariant Pool() == old(Pool()) - if freed then {row} else {}
        decreases resultCount - i
      {
        if row == results[i] {
          RemoveAt(i);
          freed := true;
          assert row !in Pool();
          assert forall j :: 0 <= j < resultCount ==> results[j] in Pool();
        }
        i := i + 1;
      }
    }

    /** A row from the database: it fits, and where pointers are as wide as integers every value
        is at its column's offset. */
    method GetRow(values: seq<Value>) returns (row: array<Byte>)
      requires Valid() && RowFits(values, Kinds(columns))
      modifies this`results, this`resultCount, results
      ensures Valid() && fresh(row) && Pool() == old(Pool()) + {row}
      ensures Packed(row[..], 0, values, |values|, pointer)
      ensures pointer == 8 ==> forall i :: 0 <= i < |columns| ==> Stored(row[..], columns[i].offset, values[i], pointer)
      ensures pointer == 8 ==> forall i, k :: 0 <= i < |columns| && 0 <= k < 8 ==>
        columns[i].offset + k < row.Length && row[columns[i].offset + k] == Part(values[i], k)
    {
      RowIsInside(values, Kinds(columns), pointer);
      row := AllocResult();
      var used := StepOnce(values, row, 0, pointer);
      if pointer == 8 {
        ValuesAreAtOffsets(values, Kinds(columns), pointer);
        forall i | 0 <= i < |columns|
          ensures Stored(row[..], columns[i].offset, values[i], pointer)
        {
          assert Start(values, i, pointer) == Offset(Kinds(columns), i, pointer);
          assert Stored(row[..], 0 + Start(values, i, pointer), values[i], pointer);
        }
      }
    }
  }

  // ------------------------------------------------------------- a growing buffer

  const INITIAL_ROWS := 8

  const UINT32 := 0x1_0000_0000

  /** The sizes a buffer takes, growing by the factor from its first size. */
  predicate IsSize(size: nat, rowsize: nat) {
    if rowsize == 8 then
      size in {0x40, 0x100, 0x400, 0x1000, 0x4000, 0x1_0000, 0x4_0000, 0x10_0000, 0x40_0000, 0x100_0000,
               0x400_0000, 0x1000_0000, 0x4000_0000}
    else
      size in {0x20, 0x80, 0x200, 0x800, 0x2000, 0x8000, 0x2_0000, 0x8_0000, 0x20_0000, 0x80_0000,
               0x200_0000, 0x800_0000, 0x2000_0000, 0x8000_0000}
  }

  /** The last of them: the next one is no 32-bit number. */
  function LastSize(rowsize: nat): nat {
    if rowsize == 8 then 0x4000_0000 else 0x8000_0000
  }

  lemma NextSize(size: nat, rowsize: nat)
    requires IsSize(size, rowsize) && (rowsize == 4 || rowsize == 8)
    ensures rowsize * INITIAL_ROWS <= size <= LastSize(rowsize)
    ensures size < LastSize(rowsize) ==>
      size * REALLOC_FACTOR % UINT32 == size * REALLOC_FACTOR && IsSize(size * REALLOC_FACTOR, rowsize)
    ensures size == LastSize(rowsize) ==> size * REALLOC_FACTOR % UINT32 == 0
  {
  }

  method Realloc(output: array<Byte>, size: nat) returns (moved: array<Byte>)
    requires size >= output.Length
    ensures fresh(moved) && moved.Length == size
    ensures moved[..output.Length] == output[..]
  {
    moved := new Byte[size](_ => Free);
    for i := 0 to output.Length
      invariant forall j :: 0 <= j < i ==> moved[j] == output[j]
    {
      moved[i] := output[i];
    }
  }

  lemma PackedStays(before: seq<Byte>, after: seq<Byte>, values: seq<Value>, n: nat, pointer: Pointer)
    requires n <= |values| && Packed(before, 0, values, n, pointer) && before <= after
    ensures Packed(after, 0, values, n, pointer)
  {
    forall i | 0 <= i < n
      ensures Stored(after, 0 + Start(values, i, pointer), values[i], pointer)
    {
      assert Stored(before, 0 + Start(values, i, pointer), values[i], pointer);
    }
  }

  /** The next size, unless it wraps round; what the buffer holds stays. */
  method Grow(output: array<Byte>, rowsize: nat, ghost values: seq<Value>, ghost n: nat, ghost pointer: Pointer)
    returns (larger: array<Byte>, wrapped: bool)
    requires IsSize(output.Length, rowsize) && (rowsize == 4 || rowsize == 8)
    requires n <= |values| && Packed(output[..], 0, values, n, pointer)
    ensures wrapped <==> output.Length == LastSize(rowsize)
    ensures !wrapped ==> fresh(larger) && larger.Length == output.Length * REALLOC_FACTOR
    ensures !wrapped ==> IsSize(larger.Length, rowsize) && Packed(larger[..], 0, values, n, pointer)
  {
    NextSize(output.Length, rowsize);
    var size := output.Length * REALLOC_FACTOR % UINT32;
    if size < output.Length {
      return output, true;
    }
    wrapped := false;
    larger := Realloc(output, size);
    PackedStays(output[..], larger[..], values, n, pointer);
  }

  /** All values of one column, one behind the other, and no byte past the buffer is written, as
      long as the buffer's size fits in 32 bits.  It wraps round to zero exactly when the values
      leave no room for one more in a buffer of the last size. */
  method GetColumn(values: seq<Value>, kind: Kind, pointer: Pointer)
    returns (output: array<Byte>, count: nat, wrapped: bool)
    requires forall i :: 0 <= i < |values| ==> Fits(values[i], kind)
    ensures wrapped <==> UsedBy(values, pointer) >= LastSize(Size(kind, pointer)) - Size(kind, pointer)
    ensures !wrapped ==> fresh(output) && count == |values| && Packed(output[..], 0, values, |values|, pointer)
    ensures !wrapped ==> forall i, k :: 0 <= i < |values| && 0 <= k < Used(values[i], pointer) ==>
      output[..][0 + Start(values, i, pointer) + k] == Part(values[i], k)
  {
    var rowsize := Size(kind, pointer);
    var size: nat := INITIAL_ROWS * rowsize;
    output := new Byte[size](_ => Free);
    var total: nat := 0;
    count := 0;
    while count < |values|
      invariant count <= |values| && fresh(output)
      invariant IsSize(size, rowsize) && output.Length == size && total + rowsize < size
      invariant total == Start(values, count, pointer)
      invariant Packed(output[..], 0, values, count, pointer)
    {
      ghost var before := output[..];
      UsedGrows(values, count, pointer);
      assert Fits(values[count], kind);
      var used := StoreColumn(values[count], output, total, pointer);
      PackedMore(before, output[..], 0, values, count, pointer);
      count := count + 1;
      total := total + used;
      if total >= size - rowsize {
        NextSize(size, rowsize);
        output, wrapped := Grow(output, rowsize, values, count, pointer);
        if wrapped {
          return;
        }
        size := output.Length;
      }
    }
    assert values[..|values|] == values;
    NextSize(size, rowsize);
    wrapped := false;
  }
}
