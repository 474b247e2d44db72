/**
  The "export PDF" routine: fitting the rendered canvas to the width of an A4
  page (ISO 216, 210 mm by 297 mm), and either placing it on one page or
  cutting its rows into page-high slices, one page per slice. The jsPDF
  document is modelled by the sequence of calls made on it; the canvas by its
  pixel width and height. Millimetre quantities are exact reals.
*/
module PdfExport {
  import opened Text

  const PageWidthMm: real := 210.0
  const PageHeightMm: real := 297.0

  /** The pixel density assumed for the canvas, in pixels per inch. */
  const Dpi: real := 96.0
  const MmPerInch: real := 25.4

  /** Canvas rows `start` up to, not including, `start + height`. */
  datatype Rows = Rows(start: nat, height: nat)

  /** A call made on the PDF document: `addImage(data, "JPEG", x, y, w, h)` of
      the given canvas rows, or `addPage()`. */
  datatype PdfOp =
    | AddImage(x: real, y: real, widthMm: real, heightMm: real, rows: Rows)
    | AddPage

  function Min(a: nat, b: nat): nat { if a <= b then a else b }

  // ---------------------------------------------------------------------------
  // Scale arithmetic

  /** `pxToMm`: length in millimetres of `px` pixels at the assumed density. */
  function PxToMm(px: nat): real {
    px as real * MmPerInch / Dpi
  }

  /** The factor that maps the canvas width exactly onto the page width. */
  function ScaleFactor(w: nat): (k: real)
    requires w >= 1
    ensures k > 0.0
    ensures k * PxToMm(w) == PageWidthMm
  {
    PageWidthMm / PxToMm(w)
  }

  /** Height on the page of `h` canvas rows, scaled like the width. */
  function ScaledHeightMm(w: nat, h: nat): real
    requires w >= 1
  {
    PxToMm(h) * ScaleFactor(w)
  }

  /** Scaling to the page width turns `h` rows of a `w`-pixel-wide canvas into
      exactly `210·h/w` millimetres. */
  lemma ScaledHeightExact(w: nat, h: nat)
    requires w >= 1
    ensures ScaledHeightMm(w, h) >= 0.0
    ensures ScaledHeightMm(w, h) * w as real == 210.0 * h as real
  {
    var k := ScaleFactor(w);
    var mm := ScaledHeightMm(w, h);
    calc {
      mm * w as real;
      h as real * (MmPerInch / Dpi) * k * w as real;
      h as real * (k * PxToMm(w));
    }
  }

  /** The whole canvas fits on one page once scaled to the page width. */
  predicate FitsOnePage(w: nat, h: nat)
    requires w >= 1
  {
    ScaledHeightMm(w, h) <= PageHeightMm
  }

  /** The one-page test in exact arithmetic: 210·h ≤ 297·w. */
  lemma FitsOnePageExact(w: nat, h: nat)
    requires w >= 1
    ensures FitsOnePage(w, h) <==> 210 * h <= 297 * w
  {
    var mm := ScaledHeightMm(w, h);
    var wr := w as real;
    ScaledHeightExact(w, h);
    if mm <= PageHeightMm {
      assert mm * wr <= PageHeightMm * wr;
    } else {
      assert mm * wr > PageHeightMm * wr;
    }
  }

  /** `canvasPageHeightPx`: the number of canvas rows that fill one page height,
      rounded down; exactly ⌊297·w / 210⌋. */
  function PageSliceRows(w: nat): (p: nat)
    requires w >= 1
    ensures 210 * p <= 297 * w < 210 * (p + 1)
    ensures p >= 1
  {
    var k := ScaleFactor(w);
    var x := (PageHeightMm / k) * (Dpi / MmPerInch);
    assert x * 210.0 == 297.0 * w as real by {
      calc {
        x * 210.0;
        (PageHeightMm / k) * (Dpi / MmPerInch) * (k * PxToMm(w));
        PageHeightMm * (Dpi / MmPerInch) * PxToMm(w);
      }
    }
    assert x >= 1.0;
    var p := x.Floor;
    assert p as real <= x < p as real + 1.0;
    assert 210 * p <= 297 * w by {
      assert (210 * p) as real == 210.0 * p as real <= 210.0 * x;
    }
    assert 297 * w < 210 * (p + 1) by {
      assert (297 * w) as real == 210.0 * x < 210.0 * (p as real + 1.0);
    }
    p
  }

  // ---------------------------------------------------------------------------
  // Slicing

  /** `s` covers rows `from` up to `to` of the canvas, each slice starting where
      the previous one ended: no row is skipped and none is repeated. */
  predicate Tiles(s: seq<Rows>, from: nat, to: nat)
    decreases |s|
  {
    if s == [] then from == to
    else s[0].start == from && Tiles(s[1..], from + s[0].height, to)
  }

  function SumHeights(s: seq<Rows>): nat {
    if s == [] then 0 else s[0].height + SumHeights(s[1..])
  }

  /** The slice loop as a recursive function: starting at row `pos`, slices of
      `p` rows, the last one possibly shorter, until row `h` is reached. */
  function Slices(h: nat, p: nat, pos: nat): seq<Rows>
    requires p >= 1 && pos <= h
    decreases h - pos
  {
    if pos >= h then []
    else
      var height := Min(p, h - pos);
      [Rows(pos, height)] + Slices(h, p, pos + height)
  }

  /** The slices from `pos` cover rows `pos` to `h` without gap or overlap; each
      is `min(p, rows left)` high, so only the last may be shorter than `p`. */
  lemma {:induction false} SlicesShape(h: nat, p: nat, pos: nat)
    requires p >= 1 && pos <= h
    ensures var s := Slices(h, p, pos);
      && Tiles(s, pos, h)
      && (forall i :: 0 <= i < |s| ==> s[i].start < h && s[i].height == Min(p, h - s[i].start))
      && (forall i :: 0 <= i < |s| - 1 ==> s[i].height == p)
    decreases h - pos
  {
    if pos < h {
      var height := Min(p, h - pos);
      var rest := Slices(h, p, pos + height);
      var s := Slices(h, p, pos);
      SlicesShape(h, p, pos + height);
      assert s == [Rows(pos, height)] + rest;
      assert s[1..] == rest;
      assert forall i :: 1 <= i < |s| ==> s[i] == rest[i - 1];
    }
  }

  /** What `Tiles` means slice by slice: the first slice starts at `from`, each
      later one where its predecessor ended, the last ends at `to`, and the
      heights add up to the number of rows covered. */
  lemma {:induction false} TilesContiguous(s: seq<Rows>, from: nat, to: nat)
    requires Tiles(s, from, to)
    ensures s == [] ==> from == to
    ensures s != [] ==> s[0].start == from && s[|s| - 1].start + s[|s| - 1].height == to
    ensures forall i :: 0 <= i < |s| - 1 ==> s[i + 1].start == s[i].start + s[i].height
    ensures from + SumHeights(s) == to
    decreases |s|
  {
    if s != [] {
      TilesContiguous(s[1..], from + s[0].height, to);
      assert forall i :: 1 <= i < |s| ==> s[i] == s[1..][i - 1];
    }
  }

  /** The loop produces ⌈(h − pos) / p⌉ slices: the fewest slices of `p` rows
      that cover `h − pos` rows. */
  lemma {:induction false} SlicesCount(h: nat, p: nat, pos: nat)
    requires p >= 1 && pos <= h
    ensures var n := |Slices(h, p, pos)|;
      (n - 1) * p < h - pos <= n * p || (n == 0 && pos == h)
    decreases h - pos
  {
    var n := |Slices(h, p, pos)|;
    if pos < h && h - pos > p {
      assert Slices(h, p, pos) == [Rows(pos, p)] + Slices(h, p, pos + p);
      SlicesCount(h, p, pos + p);
      CoverStep(|Slices(h, p, pos + p)|, p, h - pos);
    }
  }

  /** One more slice of `p` rows covers `p` more rows. */
  lemma CoverStep(m: nat, p: nat, rows: nat)
    requires p >= 1 && rows > p
    requires (m - 1) * p < rows - p <= m * p
    ensures m * p < rows <= (m + 1) * p
  {
    assert (m + 1) * p == m * p + p;
  }

  /** The slices partition the canvas rows: they start at row 0, are contiguous,
      have positive heights summing to `h`, every slice but the last is exactly
      `p` rows, and there are ⌈h / p⌉ of them (the fewest slices of `p` rows
      that cover `h` rows). */
  lemma SlicesPartition(h: nat, p: nat)
    requires p >= 1
    ensures var s := Slices(h, p, 0);
      && Tiles(s, 0, h)
      && SumHeights(s) == h
      && (h > 0 ==> (|s| - 1) * p < h <= |s| * p)
      && (s != [] ==> s[0].start == 0)
      && (forall i :: 0 <= i < |s| - 1 ==> s[i + 1].start == s[i].start + s[i].height)
      && (forall i :: 0 <= i < |s| ==> s[i].height >= 1)
      && (forall i :: 0 <= i < |s| - 1 ==> s[i].height == p)
  {
    SlicesShape(h, p, 0);
    TilesContiguous(Slices(h, p, 0), 0, h);
    SlicesCount(h, p, 0);
  }

  /** Rows that do not fit on one page need at least two slices. */
  lemma MultiPageHasTwoSlices(w: nat, h: nat)
    requires w >= 1
    requires !FitsOnePage(w, h)
    ensures |Slices(h, PageSliceRows(w), 0)| >= 2
  {
    FitsOnePageExact(w, h);
    var p := PageSliceRows(w);
    var s := Slices(h, p, 0);
    SlicesShape(h, p, 0);
    TilesContiguous(s, 0, h);
    assert s[0].start + s[0].height < h;
  }

  // ---------------------------------------------------------------------------
  // Pages

  /** The `addImage` call that places canvas rows `r` at the top-left of a page,
      at the page width and their scaled height. */
  function PlaceRows(w: nat, r: Rows): PdfOp
    requires w >= 1
  {
    AddImage(0.0, 0.0, PageWidthMm, ScaledHeightMm(w, r.height), r)
  }

  /** One image per slice, in order, with a page break between neighbours. */
  function Pages(w: nat, s: seq<Rows>): seq<PdfOp>
    requires w >= 1
  {
    if s == [] then []
    else [PlaceRows(w, s[0])] + (if |s| == 1 then [] else [AddPage]) + Pages(w, s[1..])
  }

  /** The canvas rows drawn by the image calls, in call order. */
  function Images(ops: seq<PdfOp>): seq<Rows> {
    if ops == [] then []
    else (if ops[0].AddImage? then [ops[0].rows] else []) + Images(ops[1..])
  }

  /** Number of `addPage` calls. */
  function CountBreaks(ops: seq<PdfOp>): nat {
    if ops == [] then 0 else (if ops[0].AddPage? then 1 else 0) + CountBreaks(ops[1..])
  }

  /** The page sequence draws exactly the given slices, calls `addPage` once
      fewer than it draws, and images and breaks alternate starting and ending
      with an image. */
  lemma {:induction false} PagesShape(w: nat, s: seq<Rows>)
    requires w >= 1
    requires s != []
    ensures var ops := Pages(w, s);
      && Images(ops) == s
      && CountBreaks(ops) == |s| - 1
      && |ops| == 2 * |s| - 1
      && (forall i :: 0 <= i < |ops| ==> ops[i] == if i % 2 == 0 then PlaceRows(w, s[i / 2]) else AddPage)
    decreases |s|
  {
    PagesCounts(w, s);
    PagesAt(w, s);
  }

  lemma {:induction false} PagesCounts(w: nat, s: seq<Rows>)
    requires w >= 1
    requires s != []
    ensures var ops := Pages(w, s);
      && Images(ops) == s
      && CountBreaks(ops) == |s| - 1
      && |ops| == 2 * |s| - 1
    decreases |s|
  {
    var ops := Pages(w, s);
    if |s| == 1 {
      assert s[1..] == [];
      assert Pages(w, s[1..]) == [];
      assert ops == [PlaceRows(w, s[0])];
      assert ops[1..] == [];
    } else {
      var tail := Pages(w, s[1..]);
      PagesCounts(w, s[1..]);
      assert ops == [PlaceRows(w, s[0]), AddPage] + tail;
      assert ops[1..] == [AddPage] + tail && ops[1..][1..] == tail;
      assert Images(ops) == [s[0]] + Images(ops[1..]);
      assert Images(ops[1..]) == Images(tail);
      assert CountBreaks(ops) == 1 + CountBreaks(tail);
      assert [s[0]] + s[1..] == s;
    }
  }

  /** Images at the even positions, breaks at the odd ones. */
  lemma {:induction false} PagesAt(w: nat, s: seq<Rows>)
    requires w >= 1
    requires |Pages(w, s)| == 2 * |s| - 1
    ensures var ops := Pages(w, s);
      forall i :: 0 <= i < |ops| ==> ops[i] == if i % 2 == 0 then PlaceRows(w, s[i / 2]) else AddPage
    decreases |s|
  {
    var ops := Pages(w, s);
    if |s| == 1 {
      assert Pages(w, s[1..]) == [];
      assert ops == [PlaceRows(w, s[0])];
    } else if |s| > 1 {
      var tail := Pages(w, s[1..]);
      PagesCounts(w, s[1..]);
      PagesAt(w, s[1..]);
      assert ops == [PlaceRows(w, s[0]), AddPage] + tail;
      forall i | 2 <= i < |ops|
        ensures ops[i] == if i % 2 == 0 then PlaceRows(w, s[i / 2]) else AddPage
      {
        HalfStep(i);
        assert ops[i] == tail[i - 2];
        assert s[1..][(i - 2) / 2] == s[i / 2];
      }
    }
  }

  lemma HalfStep(i: int)
    requires i >= 2
    ensures (i - 2) / 2 + 1 == i / 2 && (i - 2) % 2 == i % 2
  {
  }

  /** Every image is drawn at the top-left corner, at the page width, and no
      taller than a page. */
  predicate PlacedOnPage(ops: seq<PdfOp>) {
    forall i :: 0 <= i < |ops| && ops[i].AddImage? ==>
      ops[i].x == 0.0 && ops[i].y == 0.0 && ops[i].widthMm == PageWidthMm && ops[i].heightMm <= PageHeightMm
  }

  /** A slice of at most a page's rows is placed no taller than a page. */
  lemma SliceWithinPage(w: nat, r: Rows)
    requires w >= 1
    requires r.height <= PageSliceRows(w)
    ensures PlaceRows(w, r).widthMm == PageWidthMm && PlaceRows(w, r).heightMm <= PageHeightMm
  {
    FitsOnePageExact(w, r.height);
  }

  /** The multi-page layout: at least two slices partitioning the rows, one
      `addPage` fewer than images, every image within its page. */
  lemma MultiPageLayout(w: nat, h: nat)
    requires w >= 1
    requires !FitsOnePage(w, h)
    ensures var ops := Pages(w, Slices(h, PageSliceRows(w), 0));
      && Tiles(Images(ops), 0, h)
      && |Images(ops)| >= 2
      && CountBreaks(ops) == |Images(ops)| - 1
      && PlacedOnPage(ops)
  {
    var p := PageSliceRows(w);
    var s := Slices(h, p, 0);
    SlicesShape(h, p, 0);
    MultiPageHasTwoSlices(w, h);
    PagesShape(w, s);
    var ops := Pages(w, s);
    forall i | 0 <= i < |ops| && ops[i].AddImage?
      ensures ops[i].x == 0.0 && ops[i].y == 0.0 && ops[i].widthMm == PageWidthMm && ops[i].heightMm <= PageHeightMm
    {
      assert i % 2 == 0;
      SliceWithinPage(w, s[i / 2]);
    }
  }

  /** The one-page layout: a single image of all rows, no `addPage`. */
  lemma OnePageLayout(w: nat, h: nat)
    requires w >= 1
    requires FitsOnePage(w, h)
    ensures var ops := [AddImage(0.0, 0.0, PageWidthMm, ScaledHeightMm(w, h), Rows(0, h))];
      && Tiles(Images(ops), 0, h)
      && |Images(ops)| == 1
      && CountBreaks(ops) == 0
      && PlacedOnPage(ops)
  {
    var ops := [AddImage(0.0, 0.0, PageWidthMm, ScaledHeightMm(w, h), Rows(0, h))];
    assert ops[1..] == [];
    assert Images(ops) == [Rows(0, h)];
    assert Tiles([Rows(0, h)][1..], h, h);
  }

  /** The export routine's page logic: one page when the scaled canvas fits,
      otherwise `p` = `canvasPageHeightPx` rows per page, cut by the slice loop. */
  method ExportPages(w: nat, h: nat) returns (ops: seq<PdfOp>)
    requires w >= 1
    ensures FitsOnePage(w, h) ==> ops == [AddImage(0.0, 0.0, PageWidthMm, ScaledHeightMm(w, h), Rows(0, h))]
    ensures !FitsOnePage(w, h) ==> ops == Pages(w, Slices(h, PageSliceRows(w), 0))
    ensures Tiles(Images(ops), 0, h)
    ensures FitsOnePage(w, h) <==> |Images(ops)| == 1
    ensures CountBreaks(ops) == |Images(ops)| - 1
    ensures PlacedOnPage(ops)
  {
    if ScaledHeightMm(w, h) <= PageHeightMm {
      ops := [AddImage(0.0, 0.0, PageWidthMm, ScaledHeightMm(w, h), Rows(0, h))];
      OnePageLayout(w, h);
    } else {
      var p := PageSliceRows(w);
      ops := SliceLoop(w, h, p);
      MultiPageLayout(w, h);
    }
  }

  /** The slice loop: from row 0, draw `min(p, rows left)` rows on the current
      page, advance, and add a page only while rows remain. */
  method SliceLoop(w: nat, h: nat, p: nat) returns (ops: seq<PdfOp>)
    requires w >= 1 && p >= 1
    ensures ops == Pages(w, Slices(h, p, 0))
  {
    ghost var all := Pages(w, Slices(h, p, 0));
    var position: nat := 0;
    ops := [];
    while position < h
      invariant position <= h
      invariant ops + Pages(w, Slices(h, p, position)) == all
      decreases h - position
    {
      var sliceHeight := Min(p, h - position);
      var image := AddImage(0.0, 0.0, PageWidthMm, ScaledHeightMm(w, sliceHeight), Rows(position, sliceHeight));
      ghost var start, before := position, ops;
      ops := ops + [image];
      position := position + sliceHeight;
      if position < h {
        ops := ops + [AddPage];
      }
      SliceStep(w, h, p, start, before, ops);
    }
  }

  /** One turn of the slice loop: appending the image of the next slice, and
      a page break if rows remain after it, keeps the loop invariant. */
  lemma SliceStep(w: nat, h: nat, p: nat, pos: nat, before: seq<PdfOp>, after: seq<PdfOp>)
    requires w >= 1 && p >= 1 && pos < h
    requires var height := Min(p, h - pos);
      after == before + [PlaceRows(w, Rows(pos, height))]
               + (if pos + height < h then [AddPage] else [])
    ensures var height := Min(p, h - pos);
      after + Pages(w, Slices(h, p, pos + height)) == before + Pages(w, Slices(h, p, pos))
  {
    var height := Min(p, h - pos);
    var here := Slices(h, p, pos);
    var rest := Slices(h, p, pos + height);
    assert here == [Rows(pos, height)] + rest;
    assert here[1..] == rest;
    assert rest == [] <==> pos + height >= h;
  }

  // ---------------------------------------------------------------------------
  // File name

  /** The saved file's name: the trip title, or "itinerary" when the title is
      empty, with each run of whitespace replaced by `_`, plus ".pdf". */
  function FileName(title: string): (name: string)
    ensures |name| >= 5 && name[|name| - 4..] == ".pdf"
    ensures NoSpace(name)
    ensures title == [] ==> name == "itinerary" + ".pdf"
    ensures title != [] && NoSpace(title) ==> name == title + ".pdf"
    ensures title != [] ==> name[..|name| - 4] == CollapseSpaces(title)
  {
    var base := if title == [] then "itinerary" else title;
    var stem := CollapseSpaces(base);
    WithSuffix(stem);
    FallbackName("itinerary");
    CollapseIdentity(base);
    stem + ".pdf"
  }

  lemma FallbackName(s: string)
    requires s == "itinerary"
    ensures NoSpace(s) && CollapseSpaces(s) == s
  {
    LowercaseNoSpace(s);
    CollapseNoSpace(s);
  }

  lemma LowercaseNoSpace(s: string)
    requires forall i :: 0 <= i < |s| ==> 'a' <= s[i] <= 'z'
    ensures NoSpace(s)
  {
  }

  lemma WithSuffix(stem: string)
    requires NoSpace(stem)
    ensures var name := stem + ".pdf";
      |name| == |stem| + 4 && name[|name| - 4..] == ".pdf" && name[..|name| - 4] == stem && NoSpace(name)
  {
    var name := stem + ".pdf";
    NoSpaceAppend(stem, ".pdf");
    assert name[|name| - 4..] == ".pdf" && name[..|name| - 4] == stem;
  }

  lemma NoSpaceAppend(a: string, b: string)
    requires NoSpace(a) && NoSpace(b)
    ensures NoSpace(a + b)
  {
    forall k | 0 <= k < |a + b| ensures !IsSpace((a + b)[k]) {
      if k < |a| { assert (a + b)[k] == a[k]; } else { assert (a + b)[k] == b[k - |a|]; }
    }
  }

  /** "My Singapore Trip" is saved as "My_Singapore_Trip.pdf". */
  lemma FileNameExample(title: string)
    requires title == "My Singapore Trip"
    ensures FileName(title) == "My" + "_" + "Singapore" + "_" + "Trip" + ".pdf"
  {
    ExampleTitleCollapses(title);
    var name := FileName(title);
    assert name == name[..|name| - 4] + name[|name| - 4..];
  }

  lemma ExampleTitleCollapses(title: string)
    requires title == "My Singapore Trip"
    ensures CollapseSpaces(title) == "My" + "_" + "Singapore" + "_" + "Trip"
  {
    var my, singapore, trip := "My", "Singapore", "Trip";
    assert title == my + " " + singapore + " " + trip;
    LowercaseNoSpace(my[1..]);
    LowercaseNoSpace(singapore[1..]);
    LowercaseNoSpace(trip[1..]);
    NoSpaceCons(my);
    NoSpaceCons(singapore);
    NoSpaceCons(trip);
    CollapseThreeWords(my, singapore, trip);
  }

  lemma NoSpaceCons(s: string)
    requires s != [] && 'A' <= s[0] <= 'Z' && NoSpace(s[1..])
    ensures NoSpace(s)
  {
    forall i | 1 <= i < |s| ensures !IsSpace(s[i]) {
      assert s[i] == s[1..][i - 1];
    }
  }

  /** A canvas 1000 px wide and 1500 px tall does not fit one page; at 1414
      rows per page it is cut into two slices. */
  lemma TallCanvasExample()
    ensures !FitsOnePage(1000, 1500)
    ensures PageSliceRows(1000) == 1414
    ensures Slices(1500, 1414, 0) == [Rows(0, 1414), Rows(1414, 86)]
  {
    FitsOnePageExact(1000, 1500);
  }

  /** A canvas 1000 px wide and 500 px tall fits on one page, 105 mm high. */
  lemma ShortCanvasExample()
    ensures FitsOnePage(1000, 500)
    ensures ScaledHeightMm(1000, 500) == 105.0
  {
    FitsOnePageExact(1000, 500);
    ScaledHeightExact(1000, 500);
  }
}
