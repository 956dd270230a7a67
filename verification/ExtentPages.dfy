/** The allocation-page checker (cmd/namrbd-debug/main.go). */
module ExtentPages {
  import opened Words

  datatype Extent = Extent(start: U64, count: U32, kind: string, physical: U64)

  datatype Page = Page(volumeID: U64, number: U64, pageBytes: U32, chunkBytes: U32, extents: seq<Extent>)

  datatype Volume = Volume(id: U64, sizeBytes: U64, chunkBytes: U32, pageBytes: U32)

  /** The source's 64-bit expression: the sum may wrap. */
  function MaxPageCount(v: Volume): U64 {
    if v.pageBytes > 0 && v.sizeBytes > 0 then Wrap(v.sizeBytes + v.pageBytes - 1) / v.pageBytes else 0
  }

  // ------------------------------------------------------------- what the checker is for

  function End(e: Extent): int {
    e.start + e.count
  }

  /** The extents tile [lo, hi) in order: none is empty, each begins where the one before it ends. */
  predicate Tile(extents: seq<Extent>, lo: int, hi: int) {
    && extents != [] && extents[0].start == lo && End(extents[|extents| - 1]) == hi
    && (forall i :: 0 <= i < |extents| ==> extents[i].count > 0)
    && (forall i :: 0 < i < |extents| ==> extents[i].start == End(extents[i - 1]))
  }

  /** Data has a place on the device, zeroes have none, and there is no third kind. */
  predicate KindValid(e: Extent) {
    (e.kind == "data" && e.physical != 0) || (e.kind == "zero" && e.physical == 0)
  }

  function ChunksPerPage(v: Volume): U32
    requires v.chunkBytes > 0
  {
    v.pageBytes / v.chunkBytes
  }

  /** Where a page's chunks begin, in 64-bit arithmetic. */
  function PageStart(p: Page): U64
    requires p.chunkBytes > 0
  {
    Wrap(p.number * (p.pageBytes / p.chunkBytes))
  }

  predicate GeometryValid(v: Volume) {
    v.chunkBytes > 0 && v.pageBytes > 0 && v.pageBytes % v.chunkBytes == 0
  }

  predicate HeaderValid(v: Volume, p: Page, maxPageCount: U64) {
    && p.volumeID == v.id && (maxPageCount > 0 ==> p.number < maxPageCount)
    && p.pageBytes == v.pageBytes && p.chunkBytes == v.chunkBytes
  }

  predicate PageValid(v: Volume, p: Page, maxPageCount: U64) {
    && HeaderValid(v, p, maxPageCount)
    && (p.pageBytes > 0 && p.chunkBytes > 0 ==>
          && p.pageBytes % p.chunkBytes == 0
          && Tile(p.extents, PageStart(p), PageStart(p) + p.pageBytes / p.chunkBytes)
          && forall e :: e in p.extents ==> KindValid(e))
  }

  predicate VolumeValid(v: Volume, pages: seq<Page>) {
    GeometryValid(v) && forall p :: p in pages ==> PageValid(v, p, MaxPageCount(v))
  }

  // ------------------------------------------------------------- the checker

  /** The extent continues a page that is covered up to `expected`. */
  predicate Fits(e: Extent, start: int, expected: int, chunksPerPage: int) {
    e.count > 0 && e.start == start + expected && expected + e.count <= chunksPerPage && KindValid(e)
  }

  /** One round of the loop over the extents: the codes it reports and the start expected next. */
  method CheckExtent(e: Extent, start: U64, expected: U64, chunksPerPage: U32) returns (codes: seq<string>, next: U64)
    ensures expected <= chunksPerPage ==> (codes == [] <==> Fits(e, start, expected, chunksPerPage))
    ensures expected <= chunksPerPage && codes == [] ==> next == expected + e.count
  {
    codes := [];
    if e.count == 0 {
      return ["extent_chunk_count_zero"], expected;
    }
    if e.start < start {
      return ["extent_page_chunk_underflow"], expected;
    }
    var localStart := e.start - start;
    if localStart != expected {
      codes := codes + ["extent_not_contiguous"];
    }
    next := Wrap(localStart + e.count);
    if next > chunksPerPage {
      codes := codes + ["extent_page_overflow"];
    }
    if e.kind == "data" {
      if e.physical == 0 {
        codes := codes + ["extent_data_physical_zero"];
      }
    } else if e.kind == "zero" {
      if e.physical != 0 {
        codes := codes + ["extent_zero_physical_nonzero"];
      }
    } else {
      codes := codes + ["extent_kind_invalid"];
    }
  }

  /** The page's whole extent list is right. */
  predicate ExtentsValid(extents: seq<Extent>, start: int, chunksPerPage: int) {
    Tile(extents, start, start + chunksPerPage) && forall e :: e in extents ==> KindValid(e)
  }

  /** The first extents of a list cover the page up to `expected`. */
  predicate Prefix(extents: seq<Extent>, start: int, expected: int) {
    && (forall e :: e in extents ==> KindValid(e))
    && if extents == [] then expected == 0 else Tile(extents, start, start + expected)
  }

  /** Unless the list is right so far and goes on right, it is not a tiling. */
  lemma PrefixGoesOn(extents: seq<Extent>, i: nat, start: int, expected: int, chunksPerPage: int)
    requires i < |extents| && Prefix(extents[..i], start, expected)
    ensures Fits(extents[i], start, expected, chunksPerPage) ==> Prefix(extents[..i + 1], start, expected + extents[i].count)
    ensures ExtentsValid(extents, start, chunksPerPage) ==> Fits(extents[i], start, expected, chunksPerPage)
  {
    hide KindValid;
    var before, after := extents[..i], extents[..i + 1];
    assert after == before + [extents[i]];
    if i > 0 {
      assert before[i - 1] == extents[i - 1];
    }
    if ExtentsValid(extents, start, chunksPerPage) {
      EndsBelow(extents, start, start + chunksPerPage, i);
      assert extents[i] in extents;
    }
  }

  lemma {:induction false} EndsBelow(extents: seq<Extent>, lo: int, hi: int, i: nat)
    requires Tile(extents, lo, hi) && i < |extents|
    ensures lo <= extents[i].start < End(extents[i]) <= hi
    ensures i == |extents| - 1 || End(extents[i]) <= extents[i + 1].start
    decreases |extents| - i
  {
    if i + 1 < |extents| {
      EndsBelow(extents, lo, hi, i + 1);
    }
    StartsAbove(extents, lo, hi, i);
  }

  lemma {:induction false} StartsAbove(extents: seq<Extent>, lo: int, hi: int, i: nat)
    requires Tile(extents, lo, hi) && i < |extents|
    ensures lo <= extents[i].start
    decreases i
  {
    if i > 0 {
      StartsAbove(extents, lo, hi, i - 1);
    }
  }

  /** The source's loop over the extents of a page, with its accumulated issues. */
  method CheckExtents(extents: seq<Extent>, start: U64, chunksPerPage: U32) returns (issues: seq<string>)
    requires extents != []
    ensures issues == [] <==> ExtentsValid(extents, start, chunksPerPage)
  {
    hide Tile, KindValid, Fits, Prefix;
    issues := [];
    var expected: U64 := 0;
    assert Prefix(extents[..0], start, 0) by { EmptyPrefix(start); }
    for i := 0 to |extents|
      invariant issues == [] ==> expected <= chunksPerPage && Prefix(extents[..i], start, expected)
      invariant issues != [] ==> !ExtentsValid(extents, start, chunksPerPage)
    {
      var codes, next := CheckExtent(extents[i], start, expected, chunksPerPage);
      if issues == [] {
        PrefixGoesOn(extents, i, start, expected, chunksPerPage);
        FitsBound(extents[i], start, expected, chunksPerPage);
      }
      issues, expected := issues + codes, next;
    }
    assert extents[..|extents|] == extents;
    if issues == [] {
      WholePrefix(extents, start, expected, chunksPerPage);
    }
    if expected != chunksPerPage {
      issues := issues + ["extent_page_incomplete_coverage"];
    }
  }

  lemma EmptyPrefix(start: int)
    ensures Prefix([], start, 0)
  {
  }

  lemma FitsBound(e: Extent, start: int, expected: int, chunksPerPage: int)
    ensures Fits(e, start, expected, chunksPerPage) ==> expected + e.count <= chunksPerPage
  {
  }

  lemma WholePrefix(extents: seq<Extent>, start: int, expected: int, chunksPerPage: int)
    requires extents != [] && Prefix(extents, start, expected)
    ensures ExtentsValid(extents, start, chunksPerPage) <==> expected == chunksPerPage
  {
    hide KindValid;
  }

  /** validateExtentPage: silent exactly on a valid page. */
  method ValidateExtentPage(v: Volume, p: Page, maxPageCount: U64) returns (issues: seq<string>)
    ensures issues == [] <==> PageValid(v, p, maxPageCount)
  {
    hide Tile, KindValid;
    issues := [];
    if p.volumeID != v.id {
      issues := issues + ["extent_page_volume_mismatch"];
    }
    if maxPageCount > 0 && p.number >= maxPageCount {
      issues := issues + ["extent_page_out_of_range"];
    }
    if p.pageBytes != v.pageBytes {
      issues := issues + ["extent_page_size_mismatch"];
    }
    if p.chunkBytes != v.chunkBytes {
      issues := issues + ["extent_chunk_size_mismatch"];
    }
    if p.pageBytes == 0 || p.chunkBytes == 0 {
      return;
    }
    if p.pageBytes % p.chunkBytes != 0 {
      issues := issues + ["extent_page_unaligned"];
      return;
    }
    QuotientFits(p.pageBytes, p.chunkBytes);
    var chunksPerPage: U32 := p.pageBytes / p.chunkBytes;
    var start := Wrap(p.number * chunksPerPage);
    if p.extents == [] {
      issues := issues + ["extent_page_empty"];
      NothingTiles(start, start + chunksPerPage);
      return;
    }
    var more := CheckExtents(p.extents, start, chunksPerPage);
    issues := issues + more;
  }

  lemma NothingTiles(lo: int, hi: int)
    ensures !Tile([], lo, hi)
  {
  }

  lemma QuotientRange(a: nat, b: nat, q: int, r: int)
    requires b > 0 && a == q * b + r && 0 <= r < b
    ensures 0 <= q <= a && (a > 0 && r == 0 ==> q > 0)
  {
    if q < 0 {
      MulMono(q, -1, b);
    } else {
      MulMono(1, b, q);
    }
  }

  lemma QuotientFits(a: nat, b: nat)
    requires b > 0
    ensures 0 <= a / b <= a && (a > 0 && a % b == 0 ==> a / b > 0)
  {
    QuotientRange(a, b, a / b, a % b);
  }

  /** validateExtents: the report is OK exactly when geometry and every page are valid. */
  method ValidateExtents(v: Volume, pages: seq<Page>) returns (issues: seq<string>)
    ensures issues == [] <==> VolumeValid(v, pages)
  {
    hide PageValid, MaxPageCount;
    issues := [];
    if v.chunkBytes == 0 {
      issues := issues + ["chunk_size_zero"];
    }
    if v.pageBytes == 0 {
      issues := issues + ["extent_page_size_zero"];
    }
    if v.chunkBytes > 0 && v.pageBytes > 0 && v.pageBytes % v.chunkBytes != 0 {
      issues := issues + ["extent_page_alignment"];
    }
    var maxPageCount := MaxPageCount(v);
    for i := 0 to |pages|
      invariant issues == [] <==> GeometryValid(v) && forall j :: 0 <= j < i ==> PageValid(v, pages[j], maxPageCount)
    {
      var more := ValidateExtentPage(v, pages[i], maxPageCount);
      issues := issues + more;
    }
  }

  // ------------------------------------------------------------- no two extents overlap

  predicate Contains(e: Extent, chunk: int) {
    e.start <= chunk < End(e)
  }

  /** Later extents of a tiling begin after earlier ones end. */
  lemma {:induction false} InOrder(extents: seq<Extent>, lo: int, hi: int, i: nat, j: nat)
    requires Tile(extents, lo, hi) && i < j < |extents|
    ensures End(extents[i]) <= extents[j].start
    decreases j
  {
    if i < j - 1 {
      InOrder(extents, lo, hi, i, j - 1);
    }
  }

  /** Some extent among the first contains a chunk below where they end. */
  lemma {:induction false} Find(extents: seq<Extent>, lo: int, hi: int, n: nat, chunk: int) returns (i: nat)
    requires Tile(extents, lo, hi) && n < |extents| && lo <= chunk < End(extents[n])
    ensures i <= n && Contains(extents[i], chunk)
    decreases n
  {
    if extents[n].start <= chunk {
      i := n;
    } else {
      i := Find(extents, lo, hi, n - 1, chunk);
    }
  }

  /** A tiling covers exactly its range, every chunk once. */
  lemma TilesOnce(extents: seq<Extent>, lo: int, hi: int, chunk: int)
    requires Tile(extents, lo, hi)
    ensures lo <= chunk < hi <==> exists i :: 0 <= i < |extents| && Contains(extents[i], chunk)
    ensures forall i, j :: 0 <= i < |extents| && 0 <= j < |extents| && Contains(extents[i], chunk) && Contains(extents[j], chunk) ==> i == j
  {
    if lo <= chunk < hi {
      var i := Find(extents, lo, hi, |extents| - 1, chunk);
    }
    forall i | 0 <= i < |extents| && Contains(extents[i], chunk)
      ensures lo <= chunk < hi
    {
      EndsBelow(extents, lo, hi, i);
    }
    forall i, j | 0 <= i < j < |extents|
      ensures !(Contains(extents[i], chunk) && Contains(extents[j], chunk))
    {
      InOrder(extents, lo, hi, i, j);
    }
  }

  /** Without wrap-around a page begins at its number times the page's chunks. */
  lemma StartExact(v: Volume, p: Page)
    requires GeometryValid(v) && HeaderValid(v, p, MaxPageCount(v)) && (MaxPageCount(v) > 0 || ChunksPerPage(v) == 1)
    ensures PageStart(p) == p.number * ChunksPerPage(v)
  {
    var pb, c := v.pageBytes, ChunksPerPage(v);
    QuotientFits(pb, v.chunkBytes);
    if c != 1 {
      var x := Wrap(v.sizeBytes + pb - 1);
      QuotientBound(x, pb, p.number);
      MulMono(c, pb, p.number);
      if v.sizeBytes + pb - 1 >= TWO64 {
        DivModUnique(v.sizeBytes + pb - 1, TWO64, 1, v.sizeBytes + pb - 1 - TWO64);
      }
    }
  }

  lemma QuotientBound(x: nat, m: nat, n: nat)
    requires m > 0 && n < x / m
    ensures n * m + m <= x
  {
    MulMono(n + 1, x / m, m);
  }

  /** An extent of a valid page and the chunks it may contain. */
  lemma InPage(v: Volume, p: Page, a: nat, chunk: int)
    requires GeometryValid(v) && PageValid(v, p, MaxPageCount(v)) && a < |p.extents| && Contains(p.extents[a], chunk)
    ensures PageStart(p) <= chunk < PageStart(p) + ChunksPerPage(v)
  {
    hide MaxPageCount, Wrap;
    TilesOnce(p.extents, PageStart(p), PageStart(p) + ChunksPerPage(v), chunk);
  }

  /**
   With distinct page numbers an accepted volume maps every chunk at most once,
   provided the page count is known or pages hold one chunk.
   */
  lemma NoOverlap(v: Volume, pages: seq<Page>, i: nat, j: nat, a: nat, b: nat, chunk: int)
    requires VolumeValid(v, pages) && (MaxPageCount(v) > 0 || ChunksPerPage(v) == 1)
    requires i < |pages| && j < |pages| && (i != j ==> pages[i].number != pages[j].number)
    requires a < |pages[i].extents| && Contains(pages[i].extents[a], chunk)
    requires b < |pages[j].extents| && Contains(pages[j].extents[b], chunk)
    ensures i == j && a == b
  {
    hide Tile, KindValid, MaxPageCount, PageStart, ChunksPerPage;
    var p, q, c := pages[i], pages[j], ChunksPerPage(v);
    assert p in pages && q in pages;
    InPage(v, p, a, chunk);
    InPage(v, q, b, chunk);
    if i == j {
      TilesOnce(p.extents, PageStart(p), PageStart(p) + p.pageBytes / p.chunkBytes, chunk);
    } else {
      StartExact(v, p);
      StartExact(v, q);
      Apart(p.number, q.number, c, chunk);
    }
  }

  lemma Apart(m: int, n: int, c: int, chunk: int)
    requires m * c <= chunk < m * c + c && n * c <= chunk < n * c + c
    ensures m == n
  {
    if m < n {
      MulMono(m + 1, n, c);
    } else if n < m {
      MulMono(n + 1, m, c);
    }
  }

  function WholePage(v: Volume, number: U64): Page
    requires v.chunkBytes > 0
  {
    Page(v.id, number, v.pageBytes, v.chunkBytes, [Extent(Wrap(number * ChunksPerPage(v)), ChunksPerPage(v), "zero", 0)])
  }

  /** Otherwise the claim is false: two accepted pages with different numbers share a chunk, because the page start wraps. */
  lemma OverlapOtherwise(v: Volume) returns (pages: seq<Page>, chunk: int)
    requires GeometryValid(v) && MaxPageCount(v) == 0 && ChunksPerPage(v) > 1
    ensures VolumeValid(v, pages) && |pages| == 2 && pages[0].number != pages[1].number
    ensures pages[0].extents != [] && Contains(pages[0].extents[0], chunk)
    ensures pages[1].extents != [] && Contains(pages[1].extents[0], chunk)
  {
    hide MaxPageCount;
    var c: U32 := ChunksPerPage(v);
    var q := WrappingPage(c);
    pages := [WholePage(v, 0), WholePage(v, q)];
    chunk := Wrap(q * c);
    assert Wrap(0 * c) == 0;
  }

  /** The first page number whose start leaves the 64-bit range. */
  lemma WrappingPage(c: U32) returns (q: U64)
    requires c > 1
    ensures q > 0 && Wrap(q * c) < c
  {
    var x := TWO64 + c - 1;
    var n := x / c;
    assert x == n * c + x % c;
    assert n >= TWO64 ==> n * c >= 2 * TWO64;
    assert n <= 0 ==> n * c <= 0;
    DivModUnique(n * c, TWO64, 1, n * c - TWO64);
    q := n;
  }
}
