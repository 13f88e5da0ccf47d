/** Where the heap's blocks lie: headers with their payloads, as intervals of addresses over
    whole pages. Links, flags and counters play no part here. */
module HeapLayout {
  import opened PhysicalMemorySpec

  const HEADER: nat := 56

  /** One past the last byte of the block whose header is at `a`. */
  function End(sizes: map<nat, nat>, a: nat): nat
    requires a in sizes
  {
    a + HEADER + sizes[a]
  }

  predicate Covers(sizes: map<nat, nat>, a: nat, x: nat) {
    a in sizes && a <= x < End(sizes, a)
  }

  /** No two blocks share a byte. */
  ghost predicate NoOverlap(sizes: map<nat, nat>) {
    forall a, b :: a in sizes && b in sizes && a < b ==> End(sizes, a) <= b
  }

  ghost predicate Inside(sizes: map<nat, nat>, blocks: set<nat>, pages: set<nat>) {
    forall a, x: nat :: a in blocks && Covers(sizes, a, x) ==> AlignDown(x) in pages
  }

  /** Every block of `blocks` lies within one page, and that page is in `pages`. */
  ghost predicate InOnePage(sizes: map<nat, nat>, blocks: set<nat>, pages: set<nat>)
    requires blocks <= sizes.Keys
  {
    forall a :: a in blocks ==> AlignDown(a) in pages && End(sizes, a) <= AlignDown(a) + PAGE_SIZE
  }

  /** Every byte of every page of `pages` belongs to some block. */
  ghost predicate Fills(sizes: map<nat, nat>, blocks: set<nat>, pages: set<nat>) {
    forall x: nat :: AlignDown(x) in pages ==> exists a :: a in blocks && Covers(sizes, a, x)
  }

  /** Raw blocks tile the raw pages exactly; slab objects lie in the slab pages; no two
      blocks of either kind overlap. */
  ghost predicate Layout(sizes: map<nat, nat>, raw: set<nat>, slab: set<nat>, rawPages: set<nat>, slabPages: set<nat>) {
    && sizes.Keys == raw + slab && raw !! slab
    && rawPages !! slabPages
    && 0 !in raw && 0 !in slab
    && NoOverlap(sizes)
    && Inside(sizes, raw, rawPages)
    && InOnePage(sizes, slab, slabPages)
    && Fills(sizes, raw, rawPages)
  }

  function PageRun(base: nat, n: nat): set<nat> {
    set k | 0 <= k < n :: base + k * PAGE_SIZE
  }

  /** A byte lies in a run of pages exactly when its page does. */
  lemma InPageRun(base: nat, n: nat, x: nat)
    requires IsAlignedPage(base)
    ensures AlignDown(x) in PageRun(base, n) <==> base <= x < base + n * PAGE_SIZE
  {
    if base <= x < base + n * PAGE_SIZE {
      var k := (AlignDown(x) - base) / PAGE_SIZE;
      assert AlignDown(x) == base + k * PAGE_SIZE;
      assert 0 <= k < n;
    }
    if AlignDown(x) in PageRun(base, n) {
      var k :| 0 <= k < n && AlignDown(x) == base + k * PAGE_SIZE;
      assert k * PAGE_SIZE + PAGE_SIZE <= n * PAGE_SIZE;
    }
  }

  /** A block whose pages are new overlaps nothing that lies in the old pages. */
  lemma ApartByPages(sizes: map<nat, nat>, a: nat, pages: set<nat>, lo: nat, hi: nat)
    requires a in sizes && lo < hi
    requires forall x: nat :: Covers(sizes, a, x) ==> AlignDown(x) in pages
    requires forall x: nat :: lo <= x < hi ==> AlignDown(x) !in pages
    ensures End(sizes, a) <= lo || hi <= a
  {
    var x := if a <= lo then lo else a;
    assert Covers(sizes, a, x) ==> AlignDown(x) in pages;
  }

  /** The bytes of any block lie in the heap's pages. */
  lemma CoveredPages(sizes: map<nat, nat>, raw: set<nat>, slab: set<nat>, rawPages: set<nat>, slabPages: set<nat>, a: nat)
    requires Layout(sizes, raw, slab, rawPages, slabPages) && a in sizes
    ensures forall x: nat :: Covers(sizes, a, x) ==> AlignDown(x) in (if a in raw then rawPages else slabPages)
  {
    if a in slab {
      forall x: nat | Covers(sizes, a, x) ensures AlignDown(x) == AlignDown(a) {
        InPageRun(AlignDown(a), 1, x);
        assert PageRun(AlignDown(a), 1) == {AlignDown(a)};
      }
    }
  }

  /** A span of fresh pages becomes one raw block that fills it. */
  lemma LayoutAddSpan(sizes: map<nat, nat>, raw: set<nat>, slab: set<nat>, rawPages: set<nat>, slabPages: set<nat>,
                      base: nat, n: nat)
    requires Layout(sizes, raw, slab, rawPages, slabPages)
    requires IsAlignedPage(base) && base > 0 && n > 0
    requires PageRun(base, n) !! rawPages + slabPages
    ensures base !in sizes
    ensures Layout(sizes[base := n * PAGE_SIZE - HEADER], raw + {base}, slab, rawPages + PageRun(base, n), slabPages)
  {
    var t := sizes[base := n * PAGE_SIZE - HEADER];
    var run := PageRun(base, n);
    forall x: nat ensures AlignDown(x) in run <==> base <= x < base + n * PAGE_SIZE {
      InPageRun(base, n, x);
    }
    forall a | a in sizes ensures End(sizes, a) <= base || base + n * PAGE_SIZE <= a {
      CoveredPages(sizes, raw, slab, rawPages, slabPages, a);
      ApartByPages(sizes, a, rawPages + slabPages, base, base + n * PAGE_SIZE);
    }
    assert base in sizes ==> End(sizes, base) <= base || base + n * PAGE_SIZE <= base;
    assert forall a, x: nat :: a in sizes ==> (Covers(t, a, x) <==> Covers(sizes, a, x));
    assert forall x: nat :: Covers(t, base, x) <==> base <= x < base + n * PAGE_SIZE;
    FillsAddSpan(sizes, t, raw, rawPages, base, run);
  }

  lemma FillsAddSpan(sizes: map<nat, nat>, t: map<nat, nat>, raw: set<nat>, rawPages: set<nat>, base: nat, run: set<nat>)
    requires Fills(sizes, raw, rawPages)
    requires forall a, x: nat :: a in raw && Covers(sizes, a, x) ==> Covers(t, a, x)
    requires forall x: nat :: AlignDown(x) in run ==> Covers(t, base, x)
    ensures Fills(t, raw + {base}, rawPages + run)
  {
    forall x: nat | AlignDown(x) in rawPages + run ensures exists a :: a in raw + {base} && Covers(t, a, x) {
      if AlignDown(x) in rawPages {
        var a :| a in raw && Covers(sizes, a, x);
        assert a in raw + {base} && Covers(t, a, x);
      } else {
        assert base in raw + {base} && Covers(t, base, x);
      }
    }
  }

  /** Splitting one block into two: the same bytes, cut at `b`. */
  lemma LayoutSplit(sizes: map<nat, nat>, raw: set<nat>, slab: set<nat>, rawPages: set<nat>, slabPages: set<nat>,
                    a: nat, size: nat)
    requires Layout(sizes, raw, slab, rawPages, slabPages)
    requires a in raw && size + HEADER <= sizes[a]
    ensures var b := a + HEADER + size;
            && b !in sizes
            && Layout(sizes[a := size][b := sizes[a] - size - HEADER], raw + {b}, slab, rawPages, slabPages)
  {
    hide Fills;
    var b := a + HEADER + size;
    var t := sizes[a := size][b := sizes[a] - size - HEADER];
    assert b in sizes ==> End(sizes, a) <= b;
    assert forall c, x: nat :: c in sizes && c != a ==> (Covers(t, c, x) <==> Covers(sizes, c, x));
    assert forall x: nat :: Covers(sizes, a, x) <==> Covers(t, a, x) || Covers(t, b, x);
    SplitNoOverlap(sizes, a, size);
    FillsSplit(sizes, t, raw, rawPages, a, b);
    assert InOnePage(t, slab, slabPages) by {
      forall c | c in slab ensures End(t, c) == End(sizes, c) {}
    }
  }

  lemma SplitNoOverlap(sizes: map<nat, nat>, a: nat, size: nat)
    requires NoOverlap(sizes) && a in sizes && size + HEADER <= sizes[a]
    ensures NoOverlap(sizes[a := size][a + HEADER + size := sizes[a] - size - HEADER])
  {
    var b := a + HEADER + size;
    var t := sizes[a := size][b := sizes[a] - size - HEADER];
    forall c, d | c in t && d in t && c < d ensures End(t, c) <= d {
      if c == a && d != b { assert End(sizes, a) <= d; }
      if c == b { assert End(sizes, a) <= d; }
    }
  }

  lemma FillsSplit(sizes: map<nat, nat>, t: map<nat, nat>, raw: set<nat>, rawPages: set<nat>, a: nat, b: nat)
    requires Fills(sizes, raw, rawPages)
    requires forall c, x: nat :: c in raw && c != a && Covers(sizes, c, x) ==> Covers(t, c, x)
    requires forall x: nat :: Covers(sizes, a, x) ==> Covers(t, a, x) || Covers(t, b, x)
    ensures Fills(t, raw + {b}, rawPages)
  {
    forall x: nat | AlignDown(x) in rawPages ensures exists c :: c in raw + {b} && Covers(t, c, x) {
      var c :| c in raw && Covers(sizes, c, x);
      assert c in raw + {b} && b in raw + {b};
      if c != a || Covers(t, a, x) {
        assert Covers(t, c, x);
      } else {
        assert Covers(t, b, x);
      }
    }
  }

  /** Joining a block with the one that starts where it ends. */
  lemma LayoutJoin(sizes: map<nat, nat>, raw: set<nat>, slab: set<nat>, rawPages: set<nat>, slabPages: set<nat>,
                   a: nat, b: nat)
    requires Layout(sizes, raw, slab, rawPages, slabPages)
    requires a in raw && b in raw && b == End(sizes, a)
    ensures Layout((sizes - {b})[a := sizes[a] + HEADER + sizes[b]], raw - {b}, slab, rawPages, slabPages)
  {
    hide AlignDown;
    var t := (sizes - {b})[a := sizes[a] + HEADER + sizes[b]];
    JoinCovers(sizes, a, b);
    JoinApart(sizes, a, b);
    forall x: nat | AlignDown(x) in rawPages ensures exists c :: c in raw - {b} && Covers(t, c, x) {
      var c :| c in raw && Covers(sizes, c, x);
      if c == b {
        assert a in raw - {b} && Covers(t, a, x);
      } else {
        assert c in raw - {b} && Covers(t, c, x);
      }
    }
  }

  lemma JoinCovers(sizes: map<nat, nat>, a: nat, b: nat)
    requires a in sizes && b in sizes && b == End(sizes, a)
    ensures var t := (sizes - {b})[a := sizes[a] + HEADER + sizes[b]];
            && (forall c, x: nat :: c in sizes && c != a && c != b ==> (Covers(t, c, x) <==> Covers(sizes, c, x)))
            && (forall x: nat :: Covers(t, a, x) <==> Covers(sizes, a, x) || Covers(sizes, b, x))
  {
  }

  lemma JoinApart(sizes: map<nat, nat>, a: nat, b: nat)
    requires NoOverlap(sizes) && a in sizes && b in sizes && b == End(sizes, a)
    ensures NoOverlap((sizes - {b})[a := sizes[a] + HEADER + sizes[b]])
  {
    var t := (sizes - {b})[a := sizes[a] + HEADER + sizes[b]];
    forall c, d | c in t && d in t && c < d ensures End(t, c) <= d {
      if c == a {
        assert End(sizes, a) <= d && b < d;
        assert End(sizes, b) <= d;
      }
    }
  }

  lemma LayoutAddSlabPage(sizes: map<nat, nat>, raw: set<nat>, slab: set<nat>, rawPages: set<nat>, slabPages: set<nat>,
                          page: nat)
    requires Layout(sizes, raw, slab, rawPages, slabPages)
    requires page !in rawPages && page !in slabPages
    ensures Layout(sizes, raw, slab, rawPages, slabPages + {page})
    ensures forall a :: a in slab ==> AlignDown(a) != page
  {
  }

  /** The objects of a slab page, laid out from its start with nothing between them. */
  ghost predicate PageFilledTo(sizes: map<nat, nat>, slab: set<nat>, page: nat, offset: nat)
    requires slab <= sizes.Keys
  {
    forall a :: a in slab && AlignDown(a) == page ==> End(sizes, a) <= page + offset
  }

  /** One more object behind those already in a slab page. */
  lemma LayoutAddObject(sizes: map<nat, nat>, raw: set<nat>, slab: set<nat>, rawPages: set<nat>, slabPages: set<nat>,
                        page: nat, offset: nat, size: nat)
    requires Layout(sizes, raw, slab, rawPages, slabPages)
    requires IsAlignedPage(page) && page > 0 && page in slabPages
    requires offset + HEADER + size <= PAGE_SIZE
    requires PageFilledTo(sizes, slab, page, offset)
    ensures var h := page + offset;
            && h !in sizes
            && Layout(sizes[h := size], raw, slab + {h}, rawPages, slabPages)
            && PageFilledTo(sizes[h := size], slab + {h}, page, offset + HEADER + size)
  {
    hide Fills;
    var h := page + offset;
    var t := sizes[h := size];
    InPageRun(page, 1, h);
    assert PageRun(page, 1) == {page};
    forall a | a in sizes ensures End(sizes, a) <= h || h + HEADER + size <= a {
      ObjectApart(sizes, raw, slab, rawPages, slabPages, page, offset, size, a);
    }
    assert h !in sizes;
    assert forall a, x: nat :: a in sizes ==> (Covers(t, a, x) <==> Covers(sizes, a, x));
    FillsKept(sizes, t, raw, rawPages);
  }

  lemma FillsKept(sizes: map<nat, nat>, t: map<nat, nat>, raw: set<nat>, rawPages: set<nat>)
    requires Fills(sizes, raw, rawPages)
    requires forall a, x: nat :: a in raw && Covers(sizes, a, x) ==> Covers(t, a, x)
    ensures Fills(t, raw, rawPages)
  {
  }

  lemma ObjectApart(sizes: map<nat, nat>, raw: set<nat>, slab: set<nat>, rawPages: set<nat>, slabPages: set<nat>,
                    page: nat, offset: nat, size: nat, a: nat)
    requires Layout(sizes, raw, slab, rawPages, slabPages)
    requires IsAlignedPage(page) && page in slabPages
    requires offset + HEADER + size <= PAGE_SIZE
    requires PageFilledTo(sizes, slab, page, offset)
    requires a in sizes
    ensures End(sizes, a) <= page + offset || page + offset + HEADER + size <= a
  {
    hide Fills;
    var h := page + offset;
    if a in raw {
      CoveredPages(sizes, raw, slab, rawPages, slabPages, a);
      forall x: nat | h <= x < h + HEADER + size ensures AlignDown(x) !in rawPages {
        InPageRun(page, 1, x);
        assert PageRun(page, 1) == {page};
      }
      ApartByPages(sizes, a, rawPages, h, h + HEADER + size);
    } else if AlignDown(a) > page {
      AlignedApart(page, AlignDown(a));
    } else if AlignDown(a) < page {
      AlignedApart(AlignDown(a), page);
    }
  }

  lemma AlignedApart(p: nat, q: nat)
    requires IsAlignedPage(p) && IsAlignedPage(q) && p < q
    ensures p + PAGE_SIZE <= q
  {
  }
}
