/**
 * The page reader of the legacy store: `SELECT * FROM <table> LIMIT size OFFSET page * size`
 * and `SELECT count(*) FROM <table>`. The source table is a fixed sequence of rows, so the
 * row order that the queries leave unspecified is taken to be stable.
 */
module Pages {
  import opened Wrappers

  /** One raw row of a legacy table; jobs read its columns by position. */
  type Row = seq<string>

  function Min(a: int, b: int): int {
    if a <= b then a else b
  }

  /** Every row has at least `width` columns, so a job's positional reads are in range. */
  predicate Wide(rows: seq<Row>, width: nat) {
    forall i :: 0 <= i < |rows| ==> |rows[i]| >= width
  }

  /**
   * `offset = page * size`, spelled as repeated addition so that proofs about pages stay
   * linear; OffsetIsProduct states that it is the product.
   */
  function Offset(page: nat, size: nat): nat {
    if page == 0 then 0 else Offset(page - 1, size) + size
  }

  lemma {:induction false} OffsetIsProduct(page: nat, size: nat)
    ensures Offset(page, size) == page * size
  {
    if page > 0 {
      OffsetIsProduct(page - 1, size);
      assert (page - 1) * size + size == page * size;
    }
  }

  /** `LIMIT size OFFSET page * size` over the source table */
  function ReadPage(source: seq<Row>, page: nat, size: nat): (r: seq<Row>)
    ensures |r| <= size
    ensures Offset(page, size) >= |source| ==> r == []
    ensures Offset(page, size) < |source| ==> |r| == Min(size, |source| - Offset(page, size))
    ensures forall i :: 0 <= i < |r| ==>
              Offset(page, size) + i < |source| && r[i] == source[Offset(page, size) + i]
  {
    var lo := Min(Offset(page, size), |source|);
    source[lo .. Min(lo + size, |source|)]
  }

  /** A page holds rows of the source only, so it is as wide as the source. */
  lemma PageWide(source: seq<Row>, page: nat, size: nat, width: nat)
    requires Wide(source, width)
    ensures Wide(ReadPage(source, page, size), width)
  {
  }

  /** Rows wide enough for a job stay so when two row sequences are joined. */
  lemma WideAppend(a: seq<Row>, b: seq<Row>, width: nat)
    requires Wide(a, width) && Wide(b, width)
    ensures Wide(a + b, width)
  {
  }

  /** The rows of pages 0 .. count - 1, read one page after the other. */
  function ReadPages(source: seq<Row>, size: nat, count: nat): seq<Row>
  {
    if count == 0 then []
    else ReadPages(source, size, count - 1) + ReadPage(source, count - 1, size)
  }

  lemma {:induction false} PagesWide(source: seq<Row>, size: nat, count: nat, width: nat)
    requires Wide(source, width)
    ensures Wide(ReadPages(source, size, count), width)
  {
    if count > 0 {
      PagesWide(source, size, count - 1, width);
      PageWide(source, count - 1, size, width);
    }
  }

  /** Number of pages of `size` rows needed for `n` rows: the ceiling of n / size. */
  function PageCount(n: nat, size: nat): (count: nat)
    requires size >= 1
    ensures n <= count * size < n + size
  {
    var q := (n + size - 1) / size;
    assert q * size + (n + size - 1) % size == n + size - 1;
    q
  }

  /** Pages 0 .. count - 1 together are exactly the source rows before offset count * size. */
  lemma {:induction false} ReadPagesIsPrefix(source: seq<Row>, size: nat, count: nat)
    ensures ReadPages(source, size, count) == source[..Min(Offset(count, size), |source|)]
  {
    if count > 0 {
      ReadPagesIsPrefix(source, size, count - 1);
      var lo := Min(Offset(count - 1, size), |source|);
      var hi := Min(Offset(count, size), |source|);
      assert Offset(count, size) == Offset(count - 1, size) + size;
      assert hi == Min(lo + size, |source|);
      assert ReadPage(source, count - 1, size) == source[lo..hi];
      assert ReadPages(source, size, count) == source[..lo] + source[lo..hi];
      assert source[..lo] + source[lo..hi] == source[..hi];
    }
  }

  /**
   * Pagination completeness: for any page size of at least one row, reading pages
   * 0 .. ceil(n / size) - 1 yields exactly the source rows, each once and in order.
   */
  lemma PaginationComplete(source: seq<Row>, size: nat)
    requires size >= 1
    ensures ReadPages(source, size, PageCount(|source|, size)) == source
  {
    var count := PageCount(|source|, size);
    ReadPagesIsPrefix(source, size, count);
    OffsetIsProduct(count, size);
  }

  /** The result list of `SELECT count(*) FROM <table>`: a single row holding the count. */
  function CountQuery(source: seq<Row>): Option<seq<nat>> {
    Some([|source|])
  }

  /** getSize: the first element of the count result, or 0 when the result is null or empty. */
  function Size(results: Option<seq<nat>>): (n: nat)
    ensures results.None? || results.value == [] ==> n == 0
    ensures results.Some? && results.value != [] ==> n == results.value[0]
  {
    if results.Some? && |results.value| > 0 then results.value[0] else 0
  }

  /** On the count query's answer, getSize is the number of source rows. */
  lemma SizeIsRowCount(source: seq<Row>)
    ensures Size(CountQuery(source)) == |source|
  {
  }
}
