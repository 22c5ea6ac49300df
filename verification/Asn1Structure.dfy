/** What every successful walk of Asn1Walk looks like: the printed nodes tile the buffer,
    and each node's bytes carry its whole subtree. */
module Asn1Structure {
  import opened Octets
  import opened Asn1Header
  import opened Asn1Walk
  import opened Asn1Probe

  // ---- subtrees in a printed listing ----

  /** The first index from `j` on whose depth is at most `d`, or the end. */
  function Scan(vs: seq<NodeInfo>, j: nat, d: int): (k: nat)
    requires j <= |vs|
    ensures j <= k <= |vs|
    decreases |vs| - j
  {
    if j == |vs| || vs[j].depth <= d then j else Scan(vs, j + 1, d)
  }

  /** Where the lines printed for the subtree of node `i` stop. */
  function SubtreeEnd(vs: seq<NodeInfo>, i: nat): (k: nat)
    requires i < |vs|
    ensures i < k <= |vs|
  {
    Scan(vs, i + 1, vs[i].depth)
  }

  lemma {:induction false} ScanStops(vs: seq<NodeInfo>, j: nat, k: nat, d: int)
    requires j <= k <= |vs|
    requires forall x | j <= x < k :: vs[x].depth > d
    requires k == |vs| || vs[k].depth <= d
    ensures Scan(vs, j, d) == k
    decreases k - j
  {
    if j < k {
      ScanStops(vs, j + 1, k, d);
    }
  }

  lemma {:induction false} ScanMeaning(vs: seq<NodeInfo>, j: nat, d: int)
    requires j <= |vs|
    ensures var k := Scan(vs, j, d);
      && (forall x | j <= x < k :: vs[x].depth > d)
      && (k == |vs| || vs[k].depth <= d)
    decreases |vs| - j
  {
    if j < |vs| && vs[j].depth > d {
      ScanMeaning(vs, j + 1, d);
    }
  }

  /** Every line is at depth `d` or below it, the first one at `d`. */
  predicate Rooted(vs: seq<NodeInfo>, d: int) {
    && (forall i | 0 <= i < |vs| :: vs[i].depth >= d)
    && (vs != [] ==> vs[0].depth == d)
  }

  lemma SubtreeOfFirst(v: NodeInfo, inner: seq<NodeInfo>, rest: seq<NodeInfo>)
    requires Rooted(inner, v.depth + 1) && Rooted(rest, v.depth)
    ensures var vs := [v] + inner + rest;
      SubtreeEnd(vs, 0) == 1 + |inner| && vs[1..1 + |inner|] == inner && vs[1 + |inner|..] == rest
    ensures Rooted([v] + inner + rest, v.depth)
  {
    var vs := [v] + inner + rest;
    ScanStops(vs, 1, 1 + |inner|, v.depth);
  }

  // ---- tiling ----

  /** The listing `vs` describes `buf[lo..hi]` at depth `d`: each line is the header found at
      its offset, siblings follow each other with no gap from `lo` to `hi`, the lines below a
      constructed node tile its whole content, and lines below a primitive node appear exactly for
      a BIT STRING of two or more octets that begins a container behind the first, and tile those. */
  ghost predicate Tiles(buf: Buffer, vs: seq<NodeInfo>, lo: nat, hi: nat, d: nat)
    decreases |vs|, 0
  {
    if vs == [] then lo == hi
    else
      var j := SubtreeEnd(vs, 0);
      && HeaderAt(buf, lo).Ok?
      && var h := HeaderAt(buf, lo).value;
      && vs[0] == Line(lo, d, h)
      && lo + h.headerLen + h.contentLen <= hi
      && BelowTiles(buf, vs[1..j], lo + h.headerLen, h, d)
      && Tiles(buf, vs[j..], lo + h.headerLen + h.contentLen, hi, d)
  }

  /** A primitive BIT STRING whose octets behind the first begin a container. */
  ghost predicate Wraps(buf: Buffer, contentOff: nat, h: Header) {
    && !h.tag.constructed && h.tag.tagClass == 0 && h.tag.tagNumber == 3 && h.contentLen >= 2
    && contentOff + h.contentLen <= |buf| && BeginsContainer(buf[contentOff + 1..contentOff + h.contentLen])
  }

  lemma WrapsIff(buf: Buffer, contentOff: nat, h: Header, end: nat)
    requires contentOff + h.contentLen <= end <= |buf| && !h.tag.constructed
    ensures Wraps(buf, contentOff, h) <==> IsWrapper(h) && LooksLikeDer(buf, contentOff + 1, h.contentLen - 1, end)
  {
    hide LooksLikeDer, BeginsContainer;
    if h.contentLen >= 2 {
      ProbeIff(buf, contentOff + 1, h.contentLen - 1, end);
    }
  }

  ghost predicate BelowTiles(buf: Buffer, inner: seq<NodeInfo>, contentOff: nat, h: Header, d: nat)
    decreases |inner|, 1
  {
    if h.tag.constructed then
      d < 128 && Tiles(buf, inner, contentOff, contentOff + h.contentLen, d + 1)
    else if Wraps(buf, contentOff, h) then
      d < 128 && Tiles(buf, inner, contentOff + 1, contentOff + h.contentLen, d + 1)
    else inner == []
  }

  lemma TilesCons(buf: Buffer, p: nat, end: nat, d: nat, h: Header, inner: seq<NodeInfo>, rest: seq<NodeInfo>)
    requires HeaderAt(buf, p) == Ok(h) && p + h.headerLen + h.contentLen <= end
    requires Rooted(inner, d + 1) && Rooted(rest, d)
    requires BelowTiles(buf, inner, p + h.headerLen, h, d)
    requires Tiles(buf, rest, p + h.headerLen + h.contentLen, end, d)
    ensures Tiles(buf, [Line(p, d, h)] + inner + rest, p, end, d)
    ensures Rooted([Line(p, d, h)] + inner + rest, d)
  {
    hide HeaderAt, BelowTiles;
    SubtreeOfFirst(Line(p, d, h), inner, rest);
  }

  lemma {:induction false} RegionTiles(buf: Buffer, base: nat, avail: nat, depth: nat)
    requires base + avail <= |buf|
    requires WalkRegion(buf, base, avail, depth).status == Success
    ensures var vs := WalkRegion(buf, base, avail, depth).lines;
      Rooted(vs, depth) && Tiles(buf, vs, base, base + avail, depth)
    decreases avail, 1
  {
    if avail > 0 {
      LoopTiles(buf, base, base + avail, depth);
    }
  }

  lemma {:induction false} ContentTiles(buf: Buffer, contentOff: nat, h: Header, end: nat, depth: nat)
    requires contentOff + h.contentLen <= end <= |buf|
    requires WalkContent(buf, contentOff, h, end, depth).status == Success
    ensures var inner := WalkContent(buf, contentOff, h, end, depth).lines;
      Rooted(inner, depth + 1) && BelowTiles(buf, inner, contentOff, h, depth)
    decreases h.contentLen, 2
  {
    hide LooksLikeDer, Tiles, Wraps;
    if !h.tag.constructed {
      WrapsIff(buf, contentOff, h, end);
    }
    if h.tag.constructed {
      RegionTiles(buf, contentOff, h.contentLen, depth + 1);
    } else if IsWrapper(h) && LooksLikeDer(buf, contentOff + 1, h.contentLen - 1, end) {
      RegionTiles(buf, contentOff + 1, h.contentLen - 1, depth + 1);
    }
  }

  lemma {:induction false} LoopTiles(buf: Buffer, p: nat, end: nat, depth: nat)
    requires p <= end <= |buf|
    requires WalkFrom(buf, p, end, depth).status == Success
    ensures var vs := WalkFrom(buf, p, end, depth).lines;
      Rooted(vs, depth) && Tiles(buf, vs, p, end, depth)
    decreases end - p, 0
  {
    hide HeaderAt, WalkContent, Tiles, BelowTiles;
    if p < end {
      var h := HeaderAt(buf, p).value;
      var next := p + h.headerLen + h.contentLen;
      var inner := WalkContent(buf, p + h.headerLen, h, end, depth).lines;
      ContentTiles(buf, p + h.headerLen, h, end, depth);
      LoopTiles(buf, next, end, depth);
      TilesCons(buf, p, end, depth, h, inner, WalkFrom(buf, next, end, depth).lines);
    } else {
      TilesNil(buf, p, end, depth);
    }
  }

  lemma TilesNil(buf: Buffer, lo: nat, hi: nat, d: nat)
    ensures Tiles(buf, [], lo, hi, d) <==> lo == hi
  {
  }

  /** Conversely, a tiling is what the loop prints. */
  lemma HeaderHasOctets(buf: Buffer, p: nat)
    requires HeaderAt(buf, p).Ok?
    ensures HeaderAt(buf, p).value.headerLen >= 2
  {
  }

  lemma {:induction false} TilesAreWalked(buf: Buffer, vs: seq<NodeInfo>, lo: nat, hi: nat, d: nat)
    requires lo <= hi <= |buf|
    requires Tiles(buf, vs, lo, hi, d)
    ensures WalkFrom(buf, lo, hi, d) == Outcome(Success, vs)
    decreases |vs|, 0
  {
    hide HeaderAt, WalkContent, BelowTiles, WalkFrom, Scan, Line;
    if vs == [] {
      WalkOfNothing(buf, hi, d);
    } else {
      var j := SubtreeEnd(vs, 0);
      var h := HeaderAt(buf, lo).value;
      var inner, rest := vs[1..j], vs[j..];
      BelowIsWalked(buf, inner, lo + h.headerLen, h, hi, d);
      TilesAreWalked(buf, rest, lo + h.headerLen + h.contentLen, hi, d);
      assert lo < hi by { HeaderHasOctets(buf, lo); }
      WalkJoins(buf, lo, hi, d, h);
      assert vs == [vs[0]] + inner + rest;
    }
  }

  lemma {:induction false} BelowIsWalked(buf: Buffer, inner: seq<NodeInfo>, contentOff: nat, h: Header, hi: nat, d: nat)
    requires contentOff + h.contentLen <= hi <= |buf|
    requires BelowTiles(buf, inner, contentOff, h, d)
    ensures WalkContent(buf, contentOff, h, hi, d) == Outcome(Success, inner)
    decreases |inner|, 2
  {
    hide HeaderAt, LooksLikeDer, WalkFrom, Tiles, Wraps;
    if !h.tag.constructed {
      WrapsIff(buf, contentOff, h, hi);
    }
    if h.tag.constructed {
      TilesNil(buf, contentOff, contentOff, d + 1);
      RegionIsWalked(buf, inner, contentOff, h.contentLen, d + 1);
    } else if IsWrapper(h) && LooksLikeDer(buf, contentOff + 1, h.contentLen - 1, hi) {
      RegionIsWalked(buf, inner, contentOff + 1, h.contentLen - 1, d + 1);
    }
  }

  lemma {:induction false} RegionIsWalked(buf: Buffer, vs: seq<NodeInfo>, base: nat, avail: nat, d: nat)
    requires base + avail <= |buf| && d <= MAX_PARSE_DEPTH
    requires Tiles(buf, vs, base, base + avail, d)
    ensures WalkRegion(buf, base, avail, d) == Outcome(Success, vs)
    decreases |vs|, 1
  {
    TilesAreWalked(buf, vs, base, base + avail, d);
  }

  /** A buffer parses with listing `vs` exactly when `vs` tiles the whole of it. In particular a
      constructed node with content is never skipped: the guard that returns success without
      looking is reached only for empty content. */
  lemma ParseIffTiles(buf: Buffer, vs: seq<NodeInfo>)
    ensures Parse(buf) == Outcome(Success, vs) <==> buf != [] && Tiles(buf, vs, 0, |buf|, 0)
  {
    hide WalkRegion, Tiles;
    if buf != [] {
      if Parse(buf) == Outcome(Success, vs) {
        RegionTiles(buf, 0, |buf|, 0);
      }
      if Tiles(buf, vs, 0, |buf|, 0) {
        RegionIsWalked(buf, vs, 0, |buf|, 0);
      }
    }
  }

  /** A node's byte range lies before another's, or strictly inside its content. */
  predicate BeforeOrInside(v: NodeInfo, w: NodeInfo) {
    || v.End() <= w.offset
    || (v.ContentStart() <= w.offset && w.End() <= v.End() && v.depth < w.depth)
  }

  ghost predicate Laminar(vs: seq<NodeInfo>, lo: int, hi: int) {
    && (forall i | 0 <= i < |vs| :: lo <= vs[i].offset && vs[i].End() <= hi)
    && (forall i, j | 0 <= i < j < |vs| :: BeforeOrInside(vs[i], vs[j]))
  }

  lemma {:induction false} TilesAreLaminar(buf: Buffer, vs: seq<NodeInfo>, lo: nat, hi: nat, d: nat)
    requires Tiles(buf, vs, lo, hi, d)
    ensures Laminar(vs, lo, hi)
    decreases |vs|, 0
  {
    hide HeaderAt, LooksLikeDer;
    if vs != [] {
      var j := SubtreeEnd(vs, 0);
      var h := HeaderAt(buf, lo).value;
      var inner := vs[1..j];
      ScanMeaning(vs, 1, vs[0].depth);
      if h.tag.constructed {
        TilesAreLaminar(buf, inner, lo + h.headerLen, vs[0].End(), d + 1);
      } else if inner != [] {
        TilesAreLaminar(buf, inner, lo + h.headerLen + 1, vs[0].End(), d + 1);
      }
      TilesAreLaminar(buf, vs[j..], lo + h.headerLen + h.contentLen, hi, d);
      JoinLaminar(vs, j, lo, hi);
    }
  }

  lemma JoinLaminar(vs: seq<NodeInfo>, j: nat, lo: int, hi: int)
    requires 1 <= j <= |vs|
    requires lo == vs[0].offset && vs[0].End() <= hi
    requires Laminar(vs[1..j], vs[0].ContentStart(), vs[0].End())
    requires Laminar(vs[j..], vs[0].End(), hi)
    requires forall x | 1 <= x < j :: vs[x].depth > vs[0].depth
    ensures Laminar(vs, lo, hi)
  {
    forall x | 0 <= x < |vs|
      ensures lo <= vs[x].offset && vs[x].End() <= hi
      ensures 1 <= x < j ==> vs[0].ContentStart() <= vs[x].offset && vs[x].End() <= vs[0].End()
      ensures x >= j ==> vs[0].End() <= vs[x].offset
    {
      if 1 <= x < j { assert vs[x] == vs[1..j][x - 1]; } else if x >= j { assert vs[x] == vs[j..][x - j]; }
    }
    forall x, y | 0 <= x < y < |vs|
      ensures BeforeOrInside(vs[x], vs[y])
    {
      if 1 <= x && y < j {
        assert BeforeOrInside(vs[1..j][x - 1], vs[1..j][y - 1]);
      } else if x >= j {
        assert BeforeOrInside(vs[j..][x - j], vs[j..][y - j]);
      }
    }
  }

  /** Any two nodes of a successful parse are disjoint or nested, in printing order. */
  lemma ParseIsLaminar(buf: Buffer)
    requires Parse(buf).status == Success
    ensures Laminar(Parse(buf).lines, 0, |buf|)
  {
    ParseIffTiles(buf, Parse(buf).lines);
    TilesAreLaminar(buf, Parse(buf).lines, 0, |buf|, 0);
  }

  // ---- locality ----

  /** The listing moved by `dOff` bytes and `dDepth` levels. */
  function Moved(vs: seq<NodeInfo>, dOff: int, dDepth: int): (r: seq<NodeInfo>)
    ensures |r| == |vs|
  {
    seq(|vs|, i requires 0 <= i < |vs| => vs[i].(offset := vs[i].offset + dOff, depth := vs[i].depth + dDepth))
  }

  lemma MovedAppend(a: seq<NodeInfo>, b: seq<NodeInfo>, dOff: int, dDepth: int)
    ensures Moved(a + b, dOff, dDepth) == Moved(a, dOff, dDepth) + Moved(b, dOff, dDepth)
  {
  }

  lemma MovedLine(p: nat, d: nat, h: Header, dOff: int, dDepth: int)
    requires p + dOff >= 0
    ensures Moved([Line(p, d, h)], dOff, dDepth) == [Line(p + dOff, d + dDepth, h)]
  {
  }

  /** A positive probe inside one buffer is positive inside any buffer with the same inner bytes. */
  lemma ProbeLocal(a: Buffer, i: nat, aEnd: nat, b: Buffer, j: nat, bEnd: nat, n: nat)
    requires i + n <= aEnd <= |a| && j + n <= bEnd <= |b| && a[i..i + n] == b[j..j + n]
    ensures LooksLikeDer(a, i, n, aEnd) <==> LooksLikeDer(b, j, n, bEnd)
  {
    hide LooksLikeDer, BeginsContainer;
    ProbeIff(a, i, n, aEnd);
    ProbeIff(b, j, n, bEnd);
  }

  lemma {:induction false} RegionMoves(a: Buffer, i: nat, b: Buffer, j: nat, n: nat, d: nat, d': nat)
    requires i + n <= |a| && j + n <= |b| && a[i..i + n] == b[j..j + n] && d' <= d
    requires WalkRegion(a, i, n, d).status == Success
    ensures WalkRegion(b, j, n, d') == Outcome(Success, Moved(WalkRegion(a, i, n, d).lines, j - i, d' - d))
    decreases n, 1
  {
    if n > 0 {
      LoopMoves(a, i, b, j, n, d, d');
    }
  }

  lemma {:induction false} ContentMoves(a: Buffer, i: nat, aEnd: nat, b: Buffer, j: nat, bEnd: nat, h: Header, d: nat, d': nat)
    requires i + h.contentLen <= aEnd <= |a| && j + h.contentLen <= bEnd <= |b| && d' <= d
    requires a[i..i + h.contentLen] == b[j..j + h.contentLen]
    requires WalkContent(a, i, h, aEnd, d).status == Success
    ensures WalkContent(b, j, h, bEnd, d') ==
            Outcome(Success, Moved(WalkContent(a, i, h, aEnd, d).lines, j - i, d' - d))
    decreases h.contentLen, 2
  {
    hide LooksLikeDer, WalkRegion;
    var n := h.contentLen;
    if h.tag.constructed {
      RegionMoves(a, i, b, j, n, d + 1, d' + 1);
    } else if IsWrapper(h) {
      SubSlice(a, i, b, j, n, 1, n - 1);
      ProbeLocal(a, i + 1, aEnd, b, j + 1, bEnd, n - 1);
      if LooksLikeDer(a, i + 1, n - 1, aEnd) {
        RegionMoves(a, i + 1, b, j + 1, n - 1, d + 1, d' + 1);
      }
    }
  }

  lemma {:induction false} LoopMoves(a: Buffer, i: nat, b: Buffer, j: nat, n: nat, d: nat, d': nat)
    requires i + n <= |a| && j + n <= |b| && a[i..i + n] == b[j..j + n] && d' <= d
    requires WalkFrom(a, i, i + n, d).status == Success
    ensures WalkFrom(b, j, j + n, d') == Outcome(Success, Moved(WalkFrom(a, i, i + n, d).lines, j - i, d' - d))
    decreases n, 0
  {
    hide HeaderAt, WalkContent, WalkFrom, Moved, Line;
    if n == 0 {
      WalkOfNothing(a, i, d);
      WalkOfNothing(b, j, d');
      MovedNothing(j - i, d' - d);
    } else {
      WalkSucceeds(a, i, i + n, d);
      var h := HeaderAt(a, i).value;
      FirstMoves(a, i, b, j, n, d, d', h);
      var m := h.headerLen + h.contentLen;
      SubSlice(a, i, b, j, n, m, n - m);
      LoopMoves(a, i + m, b, j + m, n - m, d, d');
      WalkJoins(b, j, j + n, d', h);
      MovedNode(i, d, h, WalkContent(a, i + h.headerLen, h, i + n, d).lines, WalkFrom(a, i + m, i + n, d).lines, j - i, d' - d);
    }
  }

  /** The first node of equal slices has the same header and, moved, the same nodes below it. */
  lemma {:induction false} FirstMoves(a: Buffer, i: nat, b: Buffer, j: nat, n: nat, d: nat, d': nat, h: Header)
    requires i + n <= |a| && j + n <= |b| && a[i..i + n] == b[j..j + n] && d' <= d
    requires HeaderAt(a, i) == Ok(h) && h.headerLen + h.contentLen <= n
    requires WalkContent(a, i + h.headerLen, h, i + n, d).status == Success
    ensures HeaderAt(b, j) == Ok(h)
    ensures WalkContent(b, j + h.headerLen, h, j + n, d') ==
            Outcome(Success, Moved(WalkContent(a, i + h.headerLen, h, i + n, d).lines, j - i, d' - d))
    decreases h.contentLen, 3
  {
    hide HeaderAt, WalkContent, Moved;
    SubSlice(a, i, b, j, n, 0, h.headerLen);
    HeaderLocal(a, i, b, j);
    SubSlice(a, i, b, j, n, h.headerLen, h.contentLen);
    ContentMoves(a, i + h.headerLen, i + n, b, j + h.headerLen, j + n, h, d, d');
  }

  lemma MovedNothing(dOff: int, dDepth: int)
    ensures Moved([], dOff, dDepth) == []
  {
  }

  lemma MovedNode(p: nat, d: nat, h: Header, inner: seq<NodeInfo>, rest: seq<NodeInfo>, dOff: int, dDepth: int)
    requires p + dOff >= 0
    ensures Moved([Line(p, d, h)] + inner + rest, dOff, dDepth) ==
            [Line(p + dOff, d + dDepth, h)] + Moved(inner, dOff, dDepth) + Moved(rest, dOff, dDepth)
  {
    hide Moved, Line;
    MovedLine(p, d, h, dOff, dDepth);
    MovedAppend([Line(p, d, h)], inner, dOff, dDepth);
    MovedAppend([Line(p, d, h)] + inner, rest, dOff, dDepth);
  }

  /** Node `i` of a listing, walked alone in place, prints exactly its subtree. */
  ghost predicate StandsAlone(buf: Buffer, vs: seq<NodeInfo>, i: nat, end: int)
    requires i < |vs|
  {
    var v := vs[i];
    && 0 <= v.offset && v.End() <= |buf| && v.End() <= end && 0 <= v.depth <= MAX_PARSE_DEPTH
    && HeaderAt(buf, v.offset).Ok? && v == Line(v.offset, v.depth, HeaderAt(buf, v.offset).value)
    && WalkFrom(buf, v.offset, v.End(), v.depth) == Outcome(Success, vs[i..SubtreeEnd(vs, i)])
  }

  lemma MidSlice<T>(pre: seq<T>, mid: seq<T>, post: seq<T>, i: nat, k: nat)
    requires i <= k <= |mid|
    ensures (pre + mid + post)[|pre| + i..|pre| + k] == mid[i..k]
  {
    var u, v := (pre + mid + post)[|pre| + i..|pre| + k], mid[i..k];
    assert |u| == |v| && forall x | 0 <= x < |u| :: u[x] == v[x];
  }

  /** A subtree is not affected by lines printed before and, unless deeper, after. */
  lemma SubtreeIn(pre: seq<NodeInfo>, mid: seq<NodeInfo>, post: seq<NodeInfo>, i: nat)
    requires i < |mid| && (post == [] || post[0].depth <= mid[i].depth)
    ensures var vs := pre + mid + post;
      vs[|pre| + i] == mid[i] && SubtreeEnd(vs, |pre| + i) == |pre| + SubtreeEnd(mid, i)
  {
    hide Scan;
    var vs := pre + mid + post;
    var k := SubtreeEnd(mid, i);
    ScanMeaning(mid, i + 1, mid[i].depth);
    forall x | |pre| + i + 1 <= x < |pre| + k
      ensures vs[x].depth > mid[i].depth
    {
      assert vs[x] == mid[x - |pre|];
    }
    ScanStops(vs, |pre| + i + 1, |pre| + k, mid[i].depth);
  }

  /** Standing alone is not affected by lines printed before and after. */
  lemma StandsAloneIn(buf: Buffer, pre: seq<NodeInfo>, mid: seq<NodeInfo>, post: seq<NodeInfo>, i: nat, end: int, end': int)
    requires i < |mid| && end <= end'
    requires StandsAlone(buf, mid, i, end)
    requires post == [] || post[0].depth <= mid[i].depth
    ensures StandsAlone(buf, pre + mid + post, |pre| + i, end')
  {
    hide HeaderAt, WalkFrom, SubtreeEnd;
    SubtreeIn(pre, mid, post, i);
    MidSlice(pre, mid, post, i, SubtreeEnd(mid, i));
  }

  lemma {:induction false} RegionStandsAlone(buf: Buffer, base: nat, avail: nat, depth: nat, i: nat)
    requires base + avail <= |buf|
    requires WalkRegion(buf, base, avail, depth).status == Success
    requires i < |WalkRegion(buf, base, avail, depth).lines|
    ensures StandsAlone(buf, WalkRegion(buf, base, avail, depth).lines, i, base + avail)
    decreases avail, 1
  {
    LoopStandsAlone(buf, base, base + avail, depth, i);
  }

  lemma {:induction false} ContentStandsAlone(buf: Buffer, contentOff: nat, h: Header, end: nat, depth: nat, i: nat)
    requires contentOff + h.contentLen <= end <= |buf|
    requires WalkContent(buf, contentOff, h, end, depth).status == Success
    requires i < |WalkContent(buf, contentOff, h, end, depth).lines|
    ensures StandsAlone(buf, WalkContent(buf, contentOff, h, end, depth).lines, i, contentOff + h.contentLen)
    decreases h.contentLen, 2
  {
    hide LooksLikeDer, WalkRegion, StandsAlone;
    if h.tag.constructed {
      RegionStandsAlone(buf, contentOff, h.contentLen, depth + 1, i);
    } else {
      RegionStandsAlone(buf, contentOff + 1, h.contentLen - 1, depth + 1, i);
    }
  }

  lemma {:induction false} LoopStandsAlone(buf: Buffer, p: nat, end: nat, depth: nat, i: nat)
    requires p <= end <= |buf| && depth <= MAX_PARSE_DEPTH
    requires WalkFrom(buf, p, end, depth).status == Success
    requires i < |WalkFrom(buf, p, end, depth).lines|
    ensures StandsAlone(buf, WalkFrom(buf, p, end, depth).lines, i, end)
    decreases end - p, 0
  {
    hide HeaderAt, WalkContent, StandsAlone, WalkFrom, Line, Tiles, BelowTiles, Rooted;
    WalkOfNothing(buf, end, depth);
    WalkSucceeds(buf, p, end, depth);
    var h := HeaderAt(buf, p).value;
    var inner := WalkContent(buf, p + h.headerLen, h, end, depth).lines;
    if i == 0 {
      FirstStandsAlone(buf, p, end, depth);
    } else if i <= |inner| {
      ContentStandsAlone(buf, p + h.headerLen, h, end, depth, i - 1);
      InnerStandsAlone(buf, p, end, depth, i);
    } else {
      var next := p + h.headerLen + h.contentLen;
      var rest := WalkFrom(buf, next, end, depth).lines;
      LoopStandsAlone(buf, next, end, depth, i - 1 - |inner|);
      StandsAloneIn(buf, [Line(p, depth, h)] + inner, rest, [], i - 1 - |inner|, end, end);
      assert [Line(p, depth, h)] + inner + rest + [] == [Line(p, depth, h)] + inner + rest;
    }
  }

  /** A node below the first one, in the whole listing. */
  lemma InnerStandsAlone(buf: Buffer, p: nat, end: nat, depth: nat, i: nat)
    requires p < end <= |buf| && depth <= MAX_PARSE_DEPTH
    requires WalkFrom(buf, p, end, depth).status == Success && HeaderAt(buf, p).Ok?
    requires var h := HeaderAt(buf, p).value;
      && p + h.headerLen + h.contentLen <= end
      && var inner := WalkContent(buf, p + h.headerLen, h, end, depth).lines;
      1 <= i <= |inner| && StandsAlone(buf, inner, i - 1, p + h.headerLen + h.contentLen)
    requires i < |WalkFrom(buf, p, end, depth).lines|
    ensures StandsAlone(buf, WalkFrom(buf, p, end, depth).lines, i, end)
  {
    hide HeaderAt, WalkContent, StandsAlone, WalkFrom, Tiles, BelowTiles;
    WalkSucceeds(buf, p, end, depth);
    var h := HeaderAt(buf, p).value;
    var next := p + h.headerLen + h.contentLen;
    var inner := WalkContent(buf, p + h.headerLen, h, end, depth).lines;
    LoopTiles(buf, next, end, depth);
    ContentTiles(buf, p + h.headerLen, h, end, depth);
    StandsAloneIn(buf, [Line(p, depth, h)], inner, WalkFrom(buf, next, end, depth).lines, i - 1, next, end);
  }

  lemma WalkOfNothing(buf: Buffer, end: nat, depth: nat)
    requires end <= |buf|
    ensures WalkFrom(buf, end, end, depth) == Outcome(Success, [])
  {
  }

  /** The first node walked in a region of its own size. */
  lemma FirstAlone(buf: Buffer, p: nat, end: nat, depth: nat)
    requires p < end <= |buf|
    requires WalkFrom(buf, p, end, depth).status == Success
    ensures var h := HeaderAt(buf, p).value;
      WalkFrom(buf, p, p + h.headerLen + h.contentLen, depth) ==
      Outcome(Success, [Line(p, depth, h)] + WalkContent(buf, p + h.headerLen, h, end, depth).lines)
  {
    hide HeaderAt, WalkContent, WalkFrom;
    WalkSucceeds(buf, p, end, depth);
    var h := HeaderAt(buf, p).value;
    var next := p + h.headerLen + h.contentLen;
    var inner := WalkContent(buf, p + h.headerLen, h, end, depth).lines;
    WalkOfNothing(buf, next, depth);
    ContentMoves(buf, p + h.headerLen, end, buf, p + h.headerLen, next, h, depth, depth);
    assert Moved(inner, 0, 0) == inner;
    WalkJoins(buf, p, next, depth, h);
    assert [Line(p, depth, h)] + inner + [] == [Line(p, depth, h)] + inner;
  }

  lemma FirstStandsAlone(buf: Buffer, p: nat, end: nat, depth: nat)
    requires p < end <= |buf| && depth <= MAX_PARSE_DEPTH
    requires WalkFrom(buf, p, end, depth).status == Success
    ensures StandsAlone(buf, WalkFrom(buf, p, end, depth).lines, 0, end)
  {
    hide HeaderAt, WalkContent, WalkFrom, Tiles, BelowTiles;
    WalkSucceeds(buf, p, end, depth);
    var h := HeaderAt(buf, p).value;
    var next := p + h.headerLen + h.contentLen;
    var inner := WalkContent(buf, p + h.headerLen, h, end, depth).lines;
    var rest := WalkFrom(buf, next, end, depth).lines;
    LoopTiles(buf, next, end, depth);
    ContentTiles(buf, p + h.headerLen, h, end, depth);
    SubtreeOfFirst(Line(p, depth, h), inner, rest);
    FirstAlone(buf, p, end, depth);
    assert ([Line(p, depth, h)] + inner + rest)[..1 + |inner|] == [Line(p, depth, h)] + inner;
  }

  /** If a buffer parses, then cutting out any printed node returns exactly its bytes, and
      parsing those bytes alone succeeds and prints exactly that node's subtree, embedded
      nodes included, moved to offset and depth zero. */
  lemma Locality(buf: Buffer, i: nat)
    requires Parse(buf).status == Success && i < |Parse(buf).lines|
    ensures var vs := Parse(buf).lines; var v := vs[i];
      && 0 <= v.offset <= v.End() <= |buf|
      && NodeBytes(buf, v.offset) == Extracted(buf[v.offset..v.End()])
      && Parse(buf[v.offset..v.End()]) ==
         Outcome(Success, Moved(vs[i..SubtreeEnd(vs, i)], -v.offset, -v.depth))
  {
    hide TagAt, LengthAt, WalkFrom;
    var vs := Parse(buf).lines;
    var v := vs[i];
    RegionStandsAlone(buf, 0, |buf|, 0, i);
    var node := buf[v.offset..v.End()];
    var n := v.headerLen + v.contentLen;
    assert node[0..n] == buf[v.offset..v.offset + n];
    LoopMoves(buf, v.offset, node, 0, n, v.depth, 0);
  }

  // ---- the depth cap ----

  /** The walk gives up for depth exactly below a node at depth 128, and on no other account. */
  ghost predicate TooDeepAt(r: Outcome, depth: nat) {
    r.status == InvalidArgument ==>
      if r.lines == [] then depth > 128 else r.lines[|r.lines| - 1].depth == 128
  }

  lemma {:induction false} RegionTooDeep(buf: Buffer, base: nat, avail: nat, depth: nat)
    ensures TooDeepAt(WalkRegion(buf, base, avail, depth), depth)
    decreases avail, 1
  {
    if base + avail <= |buf| && depth <= MAX_PARSE_DEPTH {
      LoopTooDeep(buf, base, base + avail, depth);
    }
  }

  lemma {:induction false} LoopTooDeep(buf: Buffer, p: nat, end: nat, depth: nat)
    requires p <= end <= |buf| && depth <= 128
    ensures WalkFrom(buf, p, end, depth).status == InvalidArgument ==> WalkFrom(buf, p, end, depth).lines != []
    ensures TooDeepAt(WalkFrom(buf, p, end, depth), depth)
    decreases end - p, 0
  {
    hide HeaderAt, LooksLikeDer, WalkRegion;
    if p < end && HeaderAt(buf, p).Ok? {
      var h := HeaderAt(buf, p).value;
      var next := p + h.headerLen + h.contentLen;
      if next <= end {
        RegionTooDeep(buf, p + h.headerLen, h.contentLen, depth + 1);
        if h.contentLen > 1 {
          RegionTooDeep(buf, p + h.headerLen + 1, h.contentLen - 1, depth + 1);
        }
        LoopTooDeep(buf, next, end, depth);
      }
    }
  }

  /** A buffer is refused as an invalid argument if it is empty; otherwise only after a node at depth
      128 was printed that has something below it. */
  lemma ParseTooDeep(buf: Buffer)
    requires Parse(buf).status == InvalidArgument
    ensures buf == [] || (Parse(buf).lines != [] && Parse(buf).lines[|Parse(buf).lines| - 1].depth == 128)
  {
    RegionTooDeep(buf, 0, |buf|, 0);
  }
}
