/**
 * The paging arithmetic of getItemsList: Java's 32-bit int and 64-bit long, the truncating
 * int division, Long.intValue(), the page a (count, pageSize, startRow) triple selects, and
 * the check Page.of makes before a page is read.
 */
module Paging {
  import opened Failures

  const INT_MIN: int := -0x8000_0000
  const INT_MAX: int := 0x7fff_ffff
  const LONG_MIN: int := -0x8000_0000_0000_0000
  const LONG_MAX: int := 0x7fff_ffff_ffff_ffff

  /** A Java int (and a non-null Integer). */
  type Int32 = x: int | -0x8000_0000 <= x <= 0x7fff_ffff

  /** A Java long (and a non-null Long). */
  type Int64 = x: int | -0x8000_0000_0000_0000 <= x <= 0x7fff_ffff_ffff_ffff

  function Abs(x: int): nat {
    if x < 0 then -x else x
  }

  /** Division rounding toward zero, on unbounded integers. */
  function TruncDiv(a: int, b: int): (q: int)
    requires b != 0
    ensures Abs(q) == Abs(a) / Abs(b)
    ensures q < 0 ==> (a < 0) != (b < 0)
    ensures q > 0 ==> (a < 0) == (b < 0)
  {
    var m := Abs(a) / Abs(b);
    assert m >= 0 by { DivOfNat(Abs(a), Abs(b)); }
    if (a < 0) == (b < 0) then m else -m
  }

  /** Euclidean division of a natural number by a positive one is a natural number. */
  lemma DivOfNat(n: nat, d: nat)
    requires d > 0
    ensures n / d >= 0
  {
  }

  /** The remainder that goes with TruncDiv: it is smaller than the divisor and has the sign of a. */
  lemma TruncDivRemainder(a: int, b: int)
    requires b != 0
    ensures var r := a - TruncDiv(a, b) * b;
            Abs(r) < Abs(b) && (r == 0 || (r < 0) == (a < 0))
  {
    var m := Abs(a) / Abs(b);
    var r0 := Abs(a) % Abs(b);
    assert Abs(a) == m * Abs(b) + r0;
    var q := TruncDiv(a, b);
    if a >= 0 && b > 0 {
      assert q * b == m * Abs(b);
    } else if a < 0 && b < 0 {
      assert q * b == -(m * Abs(b));
    } else if a >= 0 {
      assert q * b == m * Abs(b);
    } else {
      assert q * b == -(m * Abs(b));
    }
  }

  /** Java's int `/`: truncating, and Integer.MIN_VALUE / -1 overflows back to Integer.MIN_VALUE. */
  function JavaDiv(a: Int32, b: Int32): (q: Int32)
    requires b != 0
    ensures !(a == INT_MIN && b == -1) ==> q == TruncDiv(a, b)
    ensures a == INT_MIN && b == -1 ==> q == INT_MIN
  {
    if a == INT_MIN && b == -1 then INT_MIN
    else
      assert Abs(TruncDiv(a, b)) <= Abs(a) by { DivAtMost(Abs(a), Abs(b)); }
      TruncDiv(a, b)
  }

  lemma DivAtMost(n: nat, d: nat)
    requires d > 0
    ensures n / d <= n
  {
    assert n == (n / d) * d + n % d;
    MulAtLeast(n / d, d);
  }

  lemma DivOfSmaller(n: nat, d: nat)
    requires n < d
    ensures n / d == 0
  {
    assert n == (n / d) * d + n % d;
  }

  lemma {:induction false} MulAtLeast(q: nat, d: nat)
    requires d >= 1
    ensures q * d >= q
  {
    if d > 1 {
      MulAtLeast(q, d - 1);
      assert q * d == q * (d - 1) + q;
    }
  }

  /** Long.intValue(): the low 32 bits, read as a signed int. */
  function IntValue(l: Int64): (r: Int32)
    ensures (r - l) % 0x1_0000_0000 == 0
    ensures INT_MIN <= l <= INT_MAX ==> r == l
  {
    var low := (l - INT_MIN) % 0x1_0000_0000;
    assert (low + INT_MIN - l) % 0x1_0000_0000 == 0;
    low + INT_MIN
  }

  /** What getItemsList does once it has the row count: read no page, or read one (index, size). */
  datatype Window = Skip | Fetch(index: int, size: int)

  /**
   * getItemsList: with no rows no page is read; with rows and a non-zero page size the page
   * holding startRow is read; with a zero page size one page of every row is read.
   */
  method ItemsWindow(listSize: Int64, pageSize: Int32, startRow: Int32) returns (w: Window)
    ensures listSize == 0 <==> w.Skip?
    ensures listSize != 0 && pageSize != 0 ==> w == Fetch(JavaDiv(startRow, pageSize), pageSize)
    ensures listSize != 0 && pageSize == 0 ==> w == Fetch(0, IntValue(listSize))
  {
    if listSize == 0 {
      return Skip;
    }
    var currentPage: Int32 := 0;
    var pSize: Int32 := pageSize;
    if pSize != 0 {
      currentPage := JavaDiv(startRow, pSize);
    } else {
      pSize := IntValue(listSize);
    }
    w := Fetch(currentPage, pSize);
  }

  /** The page index and size Page.of accepts: a non-negative index and a positive size. */
  predicate ValidPage(index: int, size: int) {
    index >= 0 && size > 0
  }

  /** The failure Page.of raises for an index or size it refuses; an IllegalArgumentException. */
  const PAGE_REFUSED := Unclassified("page index must be >= 0 and page size must be > 0")

  /** The rows of one page of a result list: at most `size` of them, from row index * size on. */
  function PageSlice<T>(rows: seq<T>, index: nat, size: nat): (r: seq<T>)
    requires size > 0
    ensures |r| <= size
    ensures index * size >= |rows| ==> r == []
    ensures index * size < |rows| ==> r == rows[index * size..if (index + 1) * size <= |rows| then (index + 1) * size else |rows|]
  {
    if index * size >= |rows| then []
    else if (index + 1) * size <= |rows| then rows[index * size..(index + 1) * size]
    else rows[index * size..]
  }

  /** A non-negative startRow and a positive page size select the page that holds row startRow. */
  lemma PageHoldsStartRow(startRow: Int32, pageSize: Int32)
    requires startRow >= 0 && pageSize > 0
    ensures var index := JavaDiv(startRow, pageSize);
            index >= 0 && index * pageSize <= startRow < (index + 1) * pageSize
  {
    var index := JavaDiv(startRow, pageSize);
    assert index == startRow / pageSize;
    assert startRow == index * pageSize + startRow % pageSize;
  }

  /** The first row of the selected page is startRow rounded down to a multiple of the page size. */
  lemma PageStartsAtMultiple(startRow: Int32, pageSize: Int32)
    requires startRow >= 0 && pageSize > 0
    ensures JavaDiv(startRow, pageSize) * pageSize == startRow - startRow % pageSize
  {
    assert startRow == (startRow / pageSize) * pageSize + startRow % pageSize;
  }

  /** A negative startRow within one page of zero still selects page 0, because `/` truncates. */
  lemma NearNegativeStartRowIsPageZero(startRow: Int32, pageSize: Int32)
    requires pageSize > 0 && -pageSize < startRow < 0
    ensures JavaDiv(startRow, pageSize) == 0
  {
    DivOfSmaller(Abs(startRow), Abs(pageSize));
  }

  /** Further below zero the page index is negative, which Page.of refuses. */
  lemma FarNegativeStartRowIsRefused(startRow: Int32, pageSize: Int32)
    requires pageSize > 0 && startRow <= -pageSize
    ensures !ValidPage(JavaDiv(startRow, pageSize), pageSize)
  {
    assert Abs(startRow) >= pageSize;
    assert Abs(startRow) / pageSize >= 1 by {
      assert Abs(startRow) == (Abs(startRow) / pageSize) * pageSize + Abs(startRow) % pageSize;
    }
  }

  /** Java and Dafny disagree on -15 / 10: Java gives -1, Euclidean division gives -2. */
  lemma TruncationDiffersFromEuclid()
    ensures JavaDiv(-15, 10) == -1 && -15 / 10 == -2
  {
  }

  /** 25 rows, pages of 10 and startRow 20: the page read is page 2 of size 10. */
  lemma ThirdPageExample()
    ensures JavaDiv(20, 10) == 2
  {
  }

  /** A zero page size with a count that fits in an int reads every row in one page. */
  lemma ZeroPageSizeReadsAll<T>(rows: seq<T>)
    requires 0 < |rows| <= INT_MAX
    ensures ValidPage(0, IntValue(|rows|)) && PageSlice(rows, 0, IntValue(|rows|)) == rows
  {
  }

  /** A count of 2^31 rows or more is truncated by intValue(); 2^32 rows give page size 0, which Page.of refuses. */
  lemma HugeCountIsTruncated()
    ensures IntValue(0x8000_0000) == INT_MIN
    ensures IntValue(0x1_0000_0000) == 0 && !ValidPage(0, IntValue(0x1_0000_0000))
  {
  }

  /** Pages fill in order: when a later page holds any row, every earlier page is full. */
  lemma PagesInOrder<T>(rows: seq<T>, i: nat, j: nat, size: nat)
    requires size > 0 && i < j && j * size < |rows|
    ensures |PageSlice(rows, i, size)| == size
  {
    assert (i + 1) * size <= j * size;
  }
}
