/** CannyLogic.trackEdge: hysteresis edge tracking. A weak pixel (grey 127) becomes strong
    (255) when its 8-connected component of weak pixels touches a strong pixel, and is
    dropped (0) otherwise; every other pixel is left as it is. The search is an iterative
    breadth-first flood fill that marks visited pixels by zeroing them in the image. */
module CannyTrack {
  import opened Pixels
  import opened Grid
  import opened Buffers

  /** Pixels p and q of a grid of width w lie in one 3x3 window: their columns and their
      rows differ by at most one. */
  predicate Adjacent(w: int, p: int, q: int)
    requires w > 0
  {
    -1 <= q % w - p % w <= 1 && -1 <= q / w - p / w <= 1
  }

  /** Pixel p of the grey image G is weak. */
  predicate IsWeak(G: seq<int>, p: int)
  {
    0 <= p < |G| && G[p] == 127
  }

  /** A walk through weak pixels, each step to a pixel of the 3x3 window of the last. */
  ghost predicate WeakPath(G: seq<int>, w: int, path: seq<int>)
    requires w > 0
  {
    && |path| > 0
    && (forall k :: 0 <= k < |path| ==> IsWeak(G, path[k]))
    && (forall k :: 0 <= k < |path| - 1 ==> Adjacent(w, path[k], path[k + 1]))
  }

  /** q is in the 8-connected weak component of p. */
  ghost predicate Connected(G: seq<int>, w: int, p: int, q: int)
    requires w > 0
  {
    exists path :: WeakPath(G, w, path) && path[0] == p && path[|path| - 1] == q
  }

  /** Pixel p has a strong pixel in its 3x3 window. */
  ghost predicate Touches(G: seq<int>, w: int, p: int)
    requires w > 0
  {
    exists r :: 0 <= r < |G| && Adjacent(w, p, r) && G[r] == 255
  }

  /** The component of p has a member next to a strong pixel. */
  ghost predicate Kept(G: seq<int>, w: int, p: int)
    requires w > 0
  {
    exists q :: Connected(G, w, p, q) && Touches(G, w, q)
  }

  /** The component of p contains a pixel before index i, so the row-major scan has
      already searched it once it reaches i. */
  ghost predicate Resolved(G: seq<int>, w: int, p: int, i: int)
    requires w > 0
  {
    exists q :: 0 <= q < i && Connected(G, w, p, q)
  }

  /** The final grey value of a weak pixel. */
  ghost function Verdict(G: seq<int>, w: int, p: int): Byte
    requires w > 0
  {
    if Kept(G, w, p) then 255 else 0
  }

  /** The writes of trackEdge: every weak pixel gets its verdict, every other pixel is
      untouched. */
  ghost function TrackedOver(G: seq<int>, w: int): (over: seq<Option<Byte>>)
    requires w > 0
    ensures |over| == |G|
  {
    seq(|G|, p requires 0 <= p < |G| => if G[p] == 127 then Some(Verdict(G, w, p)) else None)
  }

  /** The store trackEdge returns for the store bytes of an image of width w. */
  ghost function TrackedBytes(bytes: seq<Byte>, w: int): (r: seq<Byte>)
    requires w > 0 && |bytes| % 4 == 0
    ensures |r| == |bytes|
  {
    Overlay(bytes, TrackedOver(Mids(bytes), w))
  }

  /** The writes of trackEdge once its scan has passed the pixels before i: the weak
      pixels of the components already searched have their verdict. */
  ghost function ScanOver(G: seq<int>, w: int, i: int): (over: seq<Option<Byte>>)
    requires w > 0
    ensures |over| == |G|
  {
    seq(|G|, p requires 0 <= p < |G| =>
      if G[p] == 127 && Resolved(G, w, p, i) then Some(Verdict(G, w, p)) else None)
  }

  /** The writes Z with the byte c written over every pixel of S. */
  ghost function Paint(Z: seq<Option<Byte>>, S: set<int>, c: Byte): (r: seq<Option<Byte>>)
    ensures |r| == |Z|
  {
    seq(|Z|, p requires 0 <= p < |Z| => if p in S then Some(c) else Z[p])
  }

  predicate NoDup(s: seq<int>)
  {
    forall a, b :: 0 <= a < b < |s| ==> s[a] != s[b]
  }

  // ---------------------------------------------------------------------------
  // Connectivity

  lemma ConnectedEnds(G: seq<int>, w: int, p: int, q: int)
    requires w > 0 && Connected(G, w, p, q)
    ensures IsWeak(G, p) && IsWeak(G, q)
  {
    var path :| WeakPath(G, w, path) && path[0] == p && path[|path| - 1] == q;
    assert IsWeak(G, path[0]) && IsWeak(G, path[|path| - 1]);
  }

  lemma ConnectedSelf(G: seq<int>, w: int, p: int)
    requires w > 0 && IsWeak(G, p)
    ensures Connected(G, w, p, p)
  {
    assert WeakPath(G, w, [p]);
  }

  /** A component grows by every weak pixel next to one of its members. */
  lemma ConnectedExtend(G: seq<int>, w: int, p: int, q: int, r: int)
    requires w > 0 && Connected(G, w, p, q) && Adjacent(w, q, r) && IsWeak(G, r)
    ensures Connected(G, w, p, r)
  {
    var path :| WeakPath(G, w, path) && path[0] == p && path[|path| - 1] == q;
    var path' := path + [r];
    forall k | 0 <= k < |path'| - 1
      ensures Adjacent(w, path'[k], path'[k + 1])
    {
      if k < |path| - 1 {
        assert path'[k] == path[k] && path'[k + 1] == path[k + 1];
      }
    }
    assert WeakPath(G, w, path');
  }

  lemma ConnectedTrans(G: seq<int>, w: int, p: int, q: int, r: int)
    requires w > 0 && Connected(G, w, p, q) && Connected(G, w, q, r)
    ensures Connected(G, w, p, r)
  {
    var a :| WeakPath(G, w, a) && a[0] == p && a[|a| - 1] == q;
    var b :| WeakPath(G, w, b) && b[0] == q && b[|b| - 1] == r;
    var c := a + b[1..];
    forall k | 0 <= k < |c|
      ensures IsWeak(G, c[k])
    {
      if k >= |a| {
        assert c[k] == b[k - |a| + 1];
      }
    }
    forall k | 0 <= k < |c| - 1
      ensures Adjacent(w, c[k], c[k + 1])
    {
      if k < |a| - 1 {
        assert c[k] == a[k] && c[k + 1] == a[k + 1];
      } else {
        var m := k - |a| + 1;
        assert c[k] == b[m] && c[k + 1] == b[m + 1];
      }
    }
    assert WeakPath(G, w, c);
  }

  lemma ConnectedSym(G: seq<int>, w: int, p: int, q: int)
    requires w > 0 && Connected(G, w, p, q)
    ensures Connected(G, w, q, p)
  {
    var a :| WeakPath(G, w, a) && a[0] == p && a[|a| - 1] == q;
    var b := seq(|a|, k requires 0 <= k < |a| => a[|a| - 1 - k]);
    forall k | 0 <= k < |b| - 1
      ensures Adjacent(w, b[k], b[k + 1])
    {
      assert Adjacent(w, a[|a| - 2 - k], a[|a| - 1 - k]);
    }
    assert WeakPath(G, w, b);
  }

  /** A component is settled all at once: a pixel connected to an unsearched one is
      unsearched too. */
  lemma UnresolvedSpread(G: seq<int>, w: int, s: int, r: int, i: int)
    requires w > 0 && !Resolved(G, w, s, i) && Connected(G, w, s, r)
    ensures !Resolved(G, w, r, i)
  {
    forall q | 0 <= q < i
      ensures !Connected(G, w, r, q)
    {
      if Connected(G, w, r, q) {
        ConnectedTrans(G, w, s, r, q);
      }
    }
  }

  /** All pixels of one component share their verdict. */
  lemma {:induction false} VerdictShared(G: seq<int>, w: int, p: int, q: int)
    requires w > 0 && Connected(G, w, p, q)
    ensures Kept(G, w, p) <==> Kept(G, w, q)
    ensures Verdict(G, w, p) == Verdict(G, w, q)
  {
    ConnectedSym(G, w, p, q);
    if Kept(G, w, p) {
      var r :| Connected(G, w, p, r) && Touches(G, w, r);
      ConnectedTrans(G, w, q, p, r);
    }
    if Kept(G, w, q) {
      var r :| Connected(G, w, q, r) && Touches(G, w, r);
      ConnectedTrans(G, w, p, q, r);
    }
  }

  // ---------------------------------------------------------------------------
  // The row-major scan

  /** Before the scan nothing is written. */
  lemma ScanStart(G: seq<int>, w: int)
    requires w > 0
    ensures ScanOver(G, w, 0) == NoWrites(|G|)
  {
  }

  /** After the scan every weak pixel has its verdict. */
  lemma ScanEnd(G: seq<int>, w: int)
    requires w > 0
    ensures ScanOver(G, w, |G|) == TrackedOver(G, w)
  {
    forall p | 0 <= p < |G| && G[p] == 127
      ensures Resolved(G, w, p, |G|)
    {
      ConnectedSelf(G, w, p);
    }
  }

  /** Once the scan has passed i, the components searched are those with a member before
      i or the component of i. */
  lemma ResolvedNext(G: seq<int>, w: int, p: int, i: int)
    requires w > 0 && 0 <= i
    ensures Resolved(G, w, p, i + 1) <==> Resolved(G, w, p, i) || Connected(G, w, p, i)
  {
  }

  /** Passing a pixel that is not an unsearched weak pixel writes nothing. */
  lemma ScanSkip(G: seq<int>, w: int, i: int)
    requires w > 0 && 0 <= i < |G|
    requires !(G[i] == 127 && !Resolved(G, w, i, i))
    ensures ScanOver(G, w, i + 1) == ScanOver(G, w, i)
  {
    forall p | 0 <= p < |G|
      ensures Resolved(G, w, p, i + 1) == Resolved(G, w, p, i)
    {
      ResolvedNext(G, w, p, i);
      if Connected(G, w, p, i) {
        ConnectedEnds(G, w, p, i);
        var q :| 0 <= q < i && Connected(G, w, i, q);
        ConnectedTrans(G, w, p, i, q);
      }
    }
  }

  /** Passing an unsearched weak pixel i writes the verdict of i over its component. */
  lemma ScanComponent(G: seq<int>, w: int, i: int, vis: set<int>)
    requires w > 0 && 0 <= i < |G| && G[i] == 127 && !Resolved(G, w, i, i)
    requires forall p :: p in vis <==> 0 <= p < |G| && Connected(G, w, i, p)
    ensures ScanOver(G, w, i + 1) == Paint(ScanOver(G, w, i), vis, Verdict(G, w, i))
  {
    var lhs, rhs := ScanOver(G, w, i + 1), Paint(ScanOver(G, w, i), vis, Verdict(G, w, i));
    forall p | 0 <= p < |G|
      ensures lhs[p] == rhs[p]
    {
      ResolvedNext(G, w, p, i);
      if p in vis {
        ConnectedEnds(G, w, i, p);
        ConnectedSym(G, w, i, p);
        VerdictShared(G, w, i, p);
      } else if Connected(G, w, p, i) {
        ConnectedSym(G, w, p, i);
        assert false;
      }
    }
  }

  /** Painting a set pixel by pixel. */
  lemma PaintAdd(Z: seq<Option<Byte>>, S: set<int>, q: int, c: Byte)
    requires 0 <= q < |Z|
    ensures Paint(Z, S, c)[q := Some(c)] == Paint(Z, S + {q}, c)
  {
  }

  lemma PaintNothing(Z: seq<Option<Byte>>, c: Byte)
    ensures Paint(Z, {}, c) == Z
  {
  }

  lemma PaintOver(Z: seq<Option<Byte>>, S: set<int>, c: Byte, d: Byte)
    ensures Paint(Paint(Z, S, c), S, d) == Paint(Z, S, d)
  {
  }

  // ---------------------------------------------------------------------------
  // The search of one component

  /** A set of pixels of the component of s. */
  ghost predicate Component(G: seq<int>, w: int, s: int, vis: set<int>)
  {
    w > 0 && forall p :: p in vis ==> 0 <= p < |G| && Connected(G, w, s, p)
  }

  /** Every weak pixel next to a pixel of done is in vis. */
  ghost predicate Closed(G: seq<int>, w: int, done: set<int>, vis: set<int>)
  {
    w > 0 && forall p, q :: p in done && 0 <= q < |G| && G[q] == 127 && Adjacent(w, p, q) ==> q in vis
  }

  /** A set of pixels of the grid has at most as many members as the grid. */
  lemma {:induction false} SubsetSize(S: set<int>, n: nat)
    requires forall q :: q in S ==> 0 <= q < n
    ensures |S| <= n
  {
    if n > 0 {
      SubsetSize(S - {n - 1}, n - 1);
    } else {
      forall q | q in S
        ensures false
      {
      }
      assert S == {};
    }
  }

  /** A closed part of the component of s that contains s is the whole component. */
  lemma ClosedComponent(G: seq<int>, w: int, s: int, vis: set<int>)
    requires Component(G, w, s, vis) && s in vis && Closed(G, w, vis, vis)
    ensures forall p :: p in vis <==> 0 <= p < |G| && Connected(G, w, s, p)
  {
    forall p | 0 <= p < |G| && Connected(G, w, s, p)
      ensures p in vis
    {
      var path :| WeakPath(G, w, path) && path[0] == s && path[|path| - 1] == p;
      var k := 0;
      while k < |path| - 1
        invariant 0 <= k < |path| && path[k] in vis
      {
        assert IsWeak(G, path[k + 1]) && Adjacent(w, path[k], path[k + 1]);
        k := k + 1;
      }
    }
  }

  /** The frame of a search: the result store of trackEdge started as orig, whose grey
      image is G, and s is the weak pixel the search started from, in a component that
      no earlier search reached. */
  ghost predicate SearchFrame(wrapperRes: Uint8ClampedWrapper, orig: seq<Byte>, G: seq<int>, s: int)
    reads wrapperRes
  {
    && wrapperRes.Valid() && wrapperRes.data != null
    && |orig| == wrapperRes.data.Length && |orig| % 4 == 0 && G == Mids(orig)
    && |G| == wrapperRes.width * wrapperRes.height
    && 0 <= s < |G| && G[s] == 127 && !Resolved(G, wrapperRes.width, s, s)
  }

  /** The sets of a search: vis, the pixels in buffAll (each once), is a part of the
      component of s that contains s. */
  ghost predicate SearchSets(G: seq<int>, w: int, s: int, vis: set<int>, buffAll: seq<int>)
  {
    && s in vis && Component(G, w, s, vis)
    && (forall p :: p in vis <==> p in buffAll) && NoDup(buffAll)
  }

  /** The state of a search: its sets, and the pixels of vis are those zeroed in the store
      so far. */
  ghost predicate Searching(wrapperRes: Uint8ClampedWrapper, orig: seq<Byte>, G: seq<int>, s: int,
                            vis: set<int>, buffAll: seq<int>)
    reads wrapperRes, wrapperRes.data
  {
    && SearchFrame(wrapperRes, orig, G, s)
    && SearchSets(G, wrapperRes.width, s, vis, buffAll)
    && wrapperRes.data[..] == Overlay(orig, Paint(ScanOver(G, wrapperRes.width, s), vis, 0))
  }

  /** Pushing a weak, unvisited pixel next to a visited one keeps the sets of a search. */
  lemma SetsPush(G: seq<int>, w: int, s: int, vis: set<int>, buffAll: seq<int>, p: int, q: int)
    requires SearchSets(G, w, s, vis, buffAll) && p in vis
    requires Adjacent(w, p, q) && IsWeak(G, q) && q !in vis
    ensures SearchSets(G, w, s, vis + {q}, buffAll + [q])
    ensures |vis + {q}| == |vis| + 1
  {
    ConnectedExtend(G, w, s, p, q);
  }

  /** A cell of the window of a visited pixel: in the grid, and reading as 0 when visited
      and with its grey value otherwise. */
  lemma CellRead(wrapperRes: Uint8ClampedWrapper, width: int, height: int, orig: seq<Byte>,
                 G: seq<int>, s: int, vis: set<int>, buffAll: seq<int>, p: int, j: int, i: int)
    requires Searching(wrapperRes, orig, G, s, vis, buffAll) && p in vis
    requires width == wrapperRes.width && height == wrapperRes.height
    requires p % width - 1 <= j <= p % width + 1
    requires p / width - 1 <= i <= p / width + 1
    requires IsCorrectIndex(width, height, j, i)
    ensures 0 <= j < width && 0 <= i < height
    ensures var q := i * width + j;
      && 0 <= q < |G| && Adjacent(width, p, q) && CellIs(G, width, height, j, i, G[q])
      && wrapperRes.GetMid(j, i) == if q in vis then 0 else G[q]
  {
    var q := i * width + j;
    IndexInRange(width, height, j, i);
    IndexDecode(width, j, i);
    assert Adjacent(width, p, q);
    if G[q] == 127 {
      ConnectedExtend(G, width, s, p, q);
    }
    SearchMid(orig, G, width, s, vis, q);
  }

  /** Cell (j, i) lies in the grid of width w and height h and has grey value c. */
  ghost predicate CellIs(G: seq<int>, w: int, h: int, j: int, i: int, c: int)
  {
    IsCorrectIndex(w, h, j, i) && 0 <= i * w + j < |G| && G[i * w + j] == c
  }

  /** One search step adds the pixels of added, not visited before, to vis, to the end
      of buffAll and to the end of the next frontier. */
  ghost predicate Grows(vis0: set<int>, all0: seq<int>, next0: seq<int>,
                        vis: set<int>, all: seq<int>, next: seq<int>, added: seq<int>)
  {
    && all == all0 + added && next == next0 + added
    && (forall q :: q in vis <==> q in vis0 || q in added)
    && |vis| == |vis0| + |added|
  }

  /** During a search, a pixel next to the component reads as 0 when visited and with its
      original grey value otherwise. */
  lemma SearchMid(orig: seq<Byte>, G: seq<int>, w: int, s: int, vis: set<int>, r: int)
    requires |orig| % 4 == 0 && G == Mids(orig) && w > 0
    requires 0 <= s < |G| && !Resolved(G, w, s, s) && Component(G, w, s, vis)
    requires 0 <= r < |G| && (G[r] == 127 ==> Connected(G, w, s, r))
    ensures MidOf(Overlay(orig, Paint(ScanOver(G, w, s), vis, 0)), r) == if r in vis then 0 else G[r]
  {
    var Z := ScanOver(G, w, s);
    OverlayPixel(orig, Paint(Z, vis, 0), r);
    if G[r] == 127 {
      UnresolvedSpread(G, w, s, r, s);
    } else if r in vis {
      ConnectedEnds(G, w, s, r);
    }
  }

  /** The body of the innermost loop of the search: cell (j, i) of the 3x3 window of the
      visited pixel p. A strong cell sets the flag; a weak, unvisited cell is zeroed and
      pushed onto buffAll and the next frontier. */
  method VisitCell(wrapperRes: Uint8ClampedWrapper, width: int, height: int, p: int, j: int, i: int,
                   flagIn: bool, allIn: seq<int>, nextIn: seq<int>,
                   ghost orig: seq<Byte>, ghost G: seq<int>, ghost s: int, ghost visIn: set<int>)
    returns (flagSave: bool, buffAll: seq<int>, buffNext: seq<int>, ghost vis: set<int>,
             ghost added: seq<int>)
    requires Searching(wrapperRes, orig, G, s, visIn, allIn) && p in visIn
    requires width == wrapperRes.width && height == wrapperRes.height
    requires p % width - 1 <= j <= p % width + 1
    requires p / width - 1 <= i <= p / width + 1
    modifies wrapperRes.data
    ensures Searching(wrapperRes, orig, G, s, vis, buffAll)
    ensures visIn <= vis
    ensures Grows(visIn, allIn, nextIn, vis, buffAll, buffNext, added)
    ensures CellIs(G, width, height, j, i, 127) ==> i * width + j in vis
    ensures flagSave == (flagIn || CellIs(G, width, height, j, i, 255))
  {
    flagSave, buffAll, buffNext, vis, added := flagIn, allIn, nextIn, visIn, [];
    if IsCorrectIndex(width, height, j, i) {
      ghost var q := i * width + j;
      CellRead(wrapperRes, width, height, orig, G, s, visIn, allIn, p, j, i);
      var grad := wrapperRes.GetMid(j, i);
      if grad == 255 {
        flagSave := true;
      } else if grad == 127 {
        buffAll, buffNext, vis := PushCell(wrapperRes, width, height, p, j, i, allIn, nextIn,
                                           orig, G, s, visIn);
        added := [q];
      }
    }
  }

  /** Zeroes the weak, unvisited cell (j, i) next to the visited pixel p and pushes it onto
      buffAll and the next frontier. */
  method PushCell(wrapperRes: Uint8ClampedWrapper, width: int, height: int, p: int, j: int, i: int,
                  allIn: seq<int>, nextIn: seq<int>,
                  ghost orig: seq<Byte>, ghost G: seq<int>, ghost s: int, ghost visIn: set<int>)
    returns (buffAll: seq<int>, buffNext: seq<int>, ghost vis: set<int>)
    requires Searching(wrapperRes, orig, G, s, visIn, allIn) && p in visIn
    requires width == wrapperRes.width && height == wrapperRes.height
    requires 0 <= j < width && 0 <= i < height
    requires 0 <= i * width + j < |G| && Adjacent(width, p, i * width + j)
    requires G[i * width + j] == 127 && i * width + j !in visIn
    modifies wrapperRes.data
    ensures Searching(wrapperRes, orig, G, s, vis, buffAll)
    ensures vis == visIn + {i * width + j} && |vis| == |visIn| + 1
    ensures buffAll == allIn + [i * width + j] && buffNext == nextIn + [i * width + j]
  {
    ghost var Z := ScanOver(G, width, s);
    ghost var q := i * width + j;
    PaintAdd(Z, visIn, q, 0);
    SetsPush(G, width, s, visIn, allIn, p, q);
    ghost var over := wrapperRes.SetMidOverlay(j, i, 0, q, orig, Paint(Z, visIn, 0));
    var index := i * width + j;
    buffAll := allIn + [index];
    buffNext := nextIn + [index];
    vis := visIn + {index};
  }

  /** Two search steps in a row grow the search by what both added. */
  lemma GrowsTrans(vis0: set<int>, all0: seq<int>, next0: seq<int>,
                   vis1: set<int>, all1: seq<int>, next1: seq<int>, added1: seq<int>,
                   vis2: set<int>, all2: seq<int>, next2: seq<int>, added2: seq<int>)
    requires Grows(vis0, all0, next0, vis1, all1, next1, added1)
    requires Grows(vis1, all1, next1, vis2, all2, next2, added2)
    ensures Grows(vis0, all0, next0, vis2, all2, next2, added1 + added2)
  {
    assert all0 + added1 + added2 == all0 + (added1 + added2);
    assert next0 + added1 + added2 == next0 + (added1 + added2);
  }

  /** The weak cells of row i from column x - 1 up to column hi - 1 are all in vis. */
  ghost predicate RowDone(G: seq<int>, w: int, h: int, i: int, x: int, hi: int, vis: set<int>)
  {
    forall j :: x - 1 <= j < hi && CellIs(G, w, h, j, i, 127) ==> i * w + j in vis
  }

  /** Row i has a strong cell from column x - 1 up to column hi - 1. */
  ghost predicate RowStrong(G: seq<int>, w: int, h: int, i: int, x: int, hi: int)
  {
    exists j :: x - 1 <= j < hi && CellIs(G, w, h, j, i, 255)
  }

  /** The three cells of row i around column x: the weak ones are in vis. */
  ghost predicate RowComplete(G: seq<int>, w: int, h: int, i: int, x: int, vis: set<int>)
  {
    RowDone(G, w, h, i, x, x + 2, vis)
  }

  /** The three cells of row i around column x: one of them is strong. */
  ghost predicate RowHasStrong(G: seq<int>, w: int, h: int, i: int, x: int)
  {
    RowStrong(G, w, h, i, x, x + 2)
  }

  lemma RowStep(G: seq<int>, w: int, h: int, i: int, x: int, j: int, vis0: set<int>, vis: set<int>)
    requires x - 1 <= j && RowDone(G, w, h, i, x, j, vis0) && vis0 <= vis
    requires CellIs(G, w, h, j, i, 127) ==> i * w + j in vis
    ensures RowDone(G, w, h, i, x, j + 1, vis)
    ensures RowStrong(G, w, h, i, x, j + 1) <==> RowStrong(G, w, h, i, x, j) || CellIs(G, w, h, j, i, 255)
  {
  }

  /** The loop over j: row i of the 3x3 window of the visited pixel p, whose column is
      restX. */
  method ExpandRow(wrapperRes: Uint8ClampedWrapper, width: int, height: int, p: int,
                   restX: int, i: int, flagIn: bool, allIn: seq<int>, nextIn: seq<int>,
                   ghost orig: seq<Byte>, ghost G: seq<int>, ghost s: int, ghost visIn: set<int>)
    returns (flagSave: bool, buffAll: seq<int>, buffNext: seq<int>, ghost vis: set<int>,
             ghost added: seq<int>)
    requires Searching(wrapperRes, orig, G, s, visIn, allIn) && p in visIn
    requires width == wrapperRes.width && height == wrapperRes.height
    requires restX == p % width && p / width - 1 <= i <= p / width + 1
    modifies wrapperRes.data
    ensures Searching(wrapperRes, orig, G, s, vis, buffAll)
    ensures visIn <= vis && Grows(visIn, allIn, nextIn, vis, buffAll, buffNext, added)
    ensures RowComplete(G, width, height, i, restX, vis)
    ensures flagSave == (flagIn || RowHasStrong(G, width, height, i, restX))
  {
    flagSave, buffAll, buffNext, vis, added := flagIn, allIn, nextIn, visIn, [];
    var j := restX - 1;
    while j <= restX + 1
      invariant restX - 1 <= j <= restX + 2
      invariant Searching(wrapperRes, orig, G, s, vis, buffAll)
      invariant visIn <= vis && Grows(visIn, allIn, nextIn, vis, buffAll, buffNext, added)
      invariant RowDone(G, width, height, i, restX, j, vis)
      invariant flagSave == (flagIn || RowStrong(G, width, height, i, restX, j))
    {
      ghost var vis0, all0, next0, added0 := vis, buffAll, buffNext, added;
      ghost var step;
      flagSave, buffAll, buffNext, vis, step :=
        VisitCell(wrapperRes, width, height, p, j, i, flagSave, buffAll, buffNext, orig, G, s, vis);
      RowStep(G, width, height, i, restX, j, vis0, vis);
      GrowsTrans(visIn, allIn, nextIn, vis0, all0, next0, added0, vis, buffAll, buffNext, step);
      added := added0 + step;
      j := j + 1;
    }
  }

  /** The rows of the 3x3 window around column x and row y, up to row hi - 1: their weak
      cells are in vis. */
  ghost predicate WindowDone(G: seq<int>, w: int, h: int, x: int, y: int, hi: int, vis: set<int>)
  {
    forall i :: y - 1 <= i < hi ==> RowComplete(G, w, h, i, x, vis)
  }

  /** The rows of the 3x3 window around column x and row y, up to row hi - 1: one of them
      has a strong cell. */
  ghost predicate WindowStrong(G: seq<int>, w: int, h: int, x: int, y: int, hi: int)
  {
    exists i :: y - 1 <= i < hi && RowHasStrong(G, w, h, i, x)
  }

  lemma WindowStep(G: seq<int>, w: int, h: int, x: int, y: int, i: int, vis0: set<int>, vis: set<int>)
    requires y - 1 <= i && WindowDone(G, w, h, x, y, i, vis0) && vis0 <= vis
    requires RowComplete(G, w, h, i, x, vis)
    ensures WindowDone(G, w, h, x, y, i + 1, vis)
    ensures WindowStrong(G, w, h, x, y, i + 1) <==> WindowStrong(G, w, h, x, y, i) || RowHasStrong(G, w, h, i, x)
  {
    forall ii | y - 1 <= ii < i + 1
      ensures RowComplete(G, w, h, ii, x, vis)
    {
      if ii < i {
        assert RowComplete(G, w, h, ii, x, vis0);
      }
    }
  }

  /** Once the whole window of p is done, every weak pixel next to p is in vis. */
  lemma WindowClosed(G: seq<int>, w: int, h: int, p: int, vis: set<int>)
    requires w > 0 && |G| == w * h && WindowDone(G, w, h, p % w, p / w, p / w + 2, vis)
    ensures forall q :: 0 <= q < |G| && G[q] == 127 && Adjacent(w, p, q) ==> q in vis
  {
    forall q | 0 <= q < |G| && G[q] == 127 && Adjacent(w, p, q)
      ensures q in vis
    {
      IndexCoords(w, h, q);
      var j, i := q % w, q / w;
      assert CellIs(G, w, h, j, i, 127);
      assert RowComplete(G, w, h, i, p % w, vis);
    }
  }

  /** The window of p has a strong cell exactly when p touches a strong pixel. */
  lemma WindowTouches(G: seq<int>, w: int, h: int, p: int)
    requires w > 0 && |G| == w * h
    ensures WindowStrong(G, w, h, p % w, p / w, p / w + 2) <==> Touches(G, w, p)
  {
    if WindowStrong(G, w, h, p % w, p / w, p / w + 2) {
      var i :| p / w - 1 <= i < p / w + 2 && RowHasStrong(G, w, h, i, p % w);
      var j :| p % w - 1 <= j < p % w + 2 && CellIs(G, w, h, j, i, 255);
      IndexDecode(w, j, i);
      assert Adjacent(w, p, i * w + j);
    }
    if Touches(G, w, p) {
      var r :| 0 <= r < |G| && Adjacent(w, p, r) && G[r] == 255;
      IndexCoords(w, h, r);
      assert CellIs(G, w, h, r % w, r / w, 255);
      assert RowHasStrong(G, w, h, r / w, p % w);
    }
  }

  /** The loop over i: the 3x3 window of the visited pixel index. Afterwards every weak
      pixel next to index is visited, and the flag records whether index touches a strong
      pixel. */
  method ExpandPixel(wrapperRes: Uint8ClampedWrapper, width: int, height: int, index: int,
                     flagIn: bool, allIn: seq<int>, nextIn: seq<int>,
                     ghost orig: seq<Byte>, ghost G: seq<int>, ghost s: int, ghost visIn: set<int>)
    returns (flagSave: bool, buffAll: seq<int>, buffNext: seq<int>, ghost vis: set<int>,
             ghost added: seq<int>)
    requires Searching(wrapperRes, orig, G, s, visIn, allIn) && index in visIn
    requires width == wrapperRes.width && height == wrapperRes.height
    modifies wrapperRes.data
    ensures Searching(wrapperRes, orig, G, s, vis, buffAll)
    ensures visIn <= vis && Grows(visIn, allIn, nextIn, vis, buffAll, buffNext, added)
    ensures forall q :: 0 <= q < |G| && G[q] == 127 && Adjacent(width, index, q) ==> q in vis
    ensures flagSave == (flagIn || Touches(G, width, index))
  {
    var restY := index / width;
    var restX := index - restY * width;
    IndexCoords(width, height, index);
    flagSave, buffAll, buffNext, vis, added := flagIn, allIn, nextIn, visIn, [];
    var i := restY - 1;
    while i <= restY + 1
      invariant restY - 1 <= i <= restY + 2
      invariant Searching(wrapperRes, orig, G, s, vis, buffAll)
      invariant visIn <= vis && Grows(visIn, allIn, nextIn, vis, buffAll, buffNext, added)
      invariant WindowDone(G, width, height, restX, restY, i, vis)
      invariant flagSave == (flagIn || WindowStrong(G, width, height, restX, restY, i))
    {
      ghost var vis0, all0, next0, added0 := vis, buffAll, buffNext, added;
      ghost var step;
      flagSave, buffAll, buffNext, vis, step :=
        ExpandRow(wrapperRes, width, height, index, restX, i, flagSave, buffAll, buffNext,
                  orig, G, s, vis);
      WindowStep(G, width, height, restX, restY, i, vis0, vis);
      GrowsTrans(visIn, allIn, nextIn, vis0, all0, next0, added0, vis, buffAll, buffNext, step);
      added := added0 + step;
      i := i + 1;
    }
    WindowClosed(G, width, height, index, vis);
    WindowTouches(G, width, height, index);
  }

  /** Some pixel of D touches a strong pixel. */
  ghost predicate AnyTouches(G: seq<int>, w: int, D: set<int>)
    requires w > 0
  {
    exists p :: p in D && Touches(G, w, p)
  }

  /** Expanding p: the done set grows by p and stays closed. */
  lemma DoneStep(G: seq<int>, w: int, done: set<int>, vis0: set<int>, vis: set<int>, p: int)
    requires Closed(G, w, done, vis0) && vis0 <= vis
    requires forall q :: 0 <= q < |G| && G[q] == 127 && Adjacent(w, p, q) ==> q in vis
    ensures Closed(G, w, done + {p}, vis)
    ensures AnyTouches(G, w, done + {p}) <==> AnyTouches(G, w, done) || Touches(G, w, p)
  {
  }

  /** The loop over buffCurr: expands every pixel of the current frontier, and collects
      the weak pixels it reaches for the first time into the next frontier. */
  method ExpandLayer(wrapperRes: Uint8ClampedWrapper, width: int, height: int, buffCurr: seq<int>,
                     flagIn: bool, allIn: seq<int>, ghost orig: seq<Byte>, ghost G: seq<int>,
                     ghost s: int, ghost visIn: set<int>, ghost doneIn: set<int>)
    returns (flagSave: bool, buffAll: seq<int>, buffNext: seq<int>, ghost vis: set<int>,
             ghost done: set<int>)
    requires Searching(wrapperRes, orig, G, s, visIn, allIn)
    requires width == wrapperRes.width && height == wrapperRes.height
    requires forall p :: p in buffCurr ==> p in visIn
    requires doneIn <= visIn && Closed(G, width, doneIn, visIn)
    requires flagIn == AnyTouches(G, width, doneIn)
    modifies wrapperRes.data
    ensures Searching(wrapperRes, orig, G, s, vis, buffAll)
    ensures visIn <= vis && Grows(visIn, allIn, [], vis, buffAll, buffNext, buffNext)
    ensures forall p :: p in done <==> p in doneIn || p in buffCurr
    ensures done <= vis && Closed(G, width, done, vis)
    ensures flagSave == AnyTouches(G, width, done)
  {
    flagSave, buffAll, buffNext, vis, done := flagIn, allIn, [], visIn, doneIn;
    for k := 0 to |buffCurr|
      invariant Searching(wrapperRes, orig, G, s, vis, buffAll)
      invariant visIn <= vis && Grows(visIn, allIn, [], vis, buffAll, buffNext, buffNext)
      invariant forall p :: p in done <==> p in doneIn || p in buffCurr[..k]
      invariant done <= vis && Closed(G, width, done, vis)
      invariant flagSave == AnyTouches(G, width, done)
    {
      var index := buffCurr[k];
      ghost var vis0, all0, next0 := vis, buffAll, buffNext;
      ghost var step;
      flagSave, buffAll, buffNext, vis, step :=
        ExpandPixel(wrapperRes, width, height, index, flagSave, buffAll, buffNext, orig, G, s, vis);
      GrowsTrans(visIn, allIn, [], vis0, all0, next0, next0, vis, buffAll, buffNext, step);
      DoneStep(G, width, done, vis0, vis, index);
      assert buffCurr[..k + 1] == buffCurr[..k] + [index];
      done := done + {index};
    }
    assert buffCurr[..|buffCurr|] == buffCurr;
  }

  /** A component has a member touching a strong pixel exactly when it is kept. */
  lemma KeptComponent(G: seq<int>, w: int, s: int, vis: set<int>)
    requires w > 0
    requires forall p :: p in vis <==> 0 <= p < |G| && Connected(G, w, s, p)
    ensures AnyTouches(G, w, vis) <==> Kept(G, w, s)
  {
    if Kept(G, w, s) {
      var q :| Connected(G, w, s, q) && Touches(G, w, q);
      ConnectedEnds(G, w, s, q);
      assert q in vis;
    }
  }

  /** The flood fill from the unsearched weak pixel (x, y): zeroes its whole component,
      lists it in buffAll, and reports whether the component touches a strong pixel. */
  method SearchComponent(wrapperRes: Uint8ClampedWrapper, width: int, height: int, x: int, y: int,
                         ghost orig: seq<Byte>, ghost G: seq<int>)
    returns (flagSave: bool, buffAll: seq<int>, ghost vis: set<int>)
    requires width == wrapperRes.width && height == wrapperRes.height
    requires 0 <= x < width && 0 <= y < height
    requires SearchFrame(wrapperRes, orig, G, y * width + x)
    requires wrapperRes.data[..] == Overlay(orig, ScanOver(G, width, y * width + x))
    modifies wrapperRes.data
    ensures Searching(wrapperRes, orig, G, y * width + x, vis, buffAll) && NoDup(buffAll)
    ensures forall p :: p in vis <==> 0 <= p < |G| && Connected(G, width, y * width + x, p)
    ensures flagSave == Kept(G, width, y * width + x)
  {
    var index := y * width + x;
    ghost var Z := ScanOver(G, width, index);
    flagSave := false;
    buffAll := [index];
    var buffCurr := [index];
    PaintNothing(Z, 0);
    PaintAdd(Z, {}, index, 0);
    ghost var over := wrapperRes.SetMidOverlay(x, y, 0, index, orig, Z);
    vis := {index};
    ghost var done: set<int> := {};
    ConnectedSelf(G, width, index);
    while |buffCurr| > 0
      invariant Searching(wrapperRes, orig, G, index, vis, buffAll)
      invariant forall p :: p in buffCurr ==> p in vis
      invariant forall p :: p in vis ==> p in done || p in buffCurr
      invariant done <= vis && Closed(G, width, done, vis)
      invariant flagSave == AnyTouches(G, width, done)
      decreases |G| - |vis|, |buffCurr|
    {
      SubsetSize(vis, |G|);
      var buffNext;
      flagSave, buffAll, buffNext, vis, done :=
        ExpandLayer(wrapperRes, width, height, buffCurr, flagSave, buffAll, orig, G, index, vis, done);
      SubsetSize(vis, |G|);
      buffCurr := buffNext;
    }
    forall p | p in vis
      ensures p in done
    {
      assert p !in buffCurr;
    }
    assert done == vis;
    ClosedComponent(G, width, index, vis);
    KeptComponent(G, width, index, vis);
  }

  /** The loop over buffAll when the flag is set: writes 255 over every pixel of the
      component. */
  method RestoreComponent(wrapperRes: Uint8ClampedWrapper, width: int, height: int,
                          buffAll: seq<int>, ghost orig: seq<Byte>, ghost G: seq<int>, ghost s: int,
                          ghost vis: set<int>)
    requires Searching(wrapperRes, orig, G, s, vis, buffAll)
    requires width == wrapperRes.width && height == wrapperRes.height
    modifies wrapperRes.data
    ensures wrapperRes.data[..] == Overlay(orig, Paint(ScanOver(G, width, s), vis, 255))
  {
    ghost var Z0 := Paint(ScanOver(G, width, s), vis, 0);
    ghost var D: set<int> := {};
    assert |orig| == 4 * |Z0| && |Z0| == width * height;
    forall m | 0 <= m < |buffAll|
      ensures 0 <= buffAll[m] < width * height
    {
      assert buffAll[m] in vis;
    }
    PaintNothing(Z0, 255);
    for k := 0 to |buffAll|
      invariant wrapperRes.data[..] == Overlay(orig, Paint(Z0, D, 255))
      invariant forall p :: p in D <==> p in buffAll[..k]
    {
      var index := buffAll[k];
      var restY := index / width;
      var restX := index - restY * width;
      IndexCoords(width, height, index);
      PaintAdd(Z0, D, index, 255);
      ghost var over := wrapperRes.SetMidOverlay(restX, restY, 255, index, orig, Paint(Z0, D, 255));
      assert buffAll[..k + 1] == buffAll[..k] + [index];
      D := D + {index};
    }
    assert buffAll[..|buffAll|] == buffAll;
    forall p
      ensures p in D <==> p in vis
    {
    }
    assert D == vis;
    PaintOver(ScanOver(G, width, s), vis, 0, 255);
  }

  /** The scan reaches a weak pixel that no earlier search reached exactly when the pixel
      reads 127 at that point. */
  lemma ScanMid(wrapperRes: Uint8ClampedWrapper, width: int, height: int, x: int, y: int, s: int,
                orig: seq<Byte>, G: seq<int>)
    requires wrapperRes.Valid() && wrapperRes.data != null
    requires width == wrapperRes.width && height == wrapperRes.height
    requires |orig| == wrapperRes.data.Length && |orig| % 4 == 0 && G == Mids(orig)
    requires 0 <= x < width && 0 <= y < height && s == y * width + x && 0 <= s < |G|
    requires wrapperRes.data[..] == Overlay(orig, ScanOver(G, width, s))
    ensures wrapperRes.GetMid(x, y) == 127 <==> G[s] == 127 && !Resolved(G, width, s, s)
  {
    GetMidAt(wrapperRes, x, y, s);
    ScanValue(orig, G, width, s);
  }

  /** The grey value pixel s reads when the scan reaches it: 127 exactly for a weak pixel
      no earlier search reached. */
  lemma ScanValue(orig: seq<Byte>, G: seq<int>, w: int, s: int)
    requires |orig| % 4 == 0 && G == Mids(orig) && w > 0 && 0 <= s < |G|
    ensures MidOf(Overlay(orig, ScanOver(G, w, s)), s) == 127 <==> G[s] == 127 && !Resolved(G, w, s, s)
  {
    var Z := ScanOver(G, w, s);
    OverlayPixel(orig, Z, s);
    if G[s] == 127 && Resolved(G, w, s, s) {
      assert Z[s] == Some(Verdict(G, w, s));
    } else {
      assert Z[s] == None && MidOf(orig, s) == G[s];
    }
  }

  /** The body of the scan at pixel (x, y): a weak pixel that no earlier search reached
      starts a search of its component, whose pixels end at 255 when it touches a strong
      pixel and at 0 otherwise. */
  method TrackPixel(wrapperRes: Uint8ClampedWrapper, width: int, height: int, x: int, y: int,
                    ghost orig: seq<Byte>, ghost G: seq<int>)
    requires wrapperRes.Valid() && wrapperRes.data != null
    requires width == wrapperRes.width && height == wrapperRes.height
    requires |orig| == wrapperRes.data.Length && |orig| % 4 == 0 && G == Mids(orig)
    requires 0 <= x < width && 0 <= y < height
    requires wrapperRes.data[..] == Overlay(orig, ScanOver(G, width, y * width + x))
    modifies wrapperRes.data
    ensures wrapperRes.data[..] == Overlay(orig, ScanOver(G, width, y * width + x + 1))
  {
    ghost var s := y * width + x;
    IndexInRange(width, height, x, y);
    ScanMid(wrapperRes, width, height, x, y, s, orig, G);
    if wrapperRes.GetMid(x, y) == 127 {
      var flagSave, buffAll;
      ghost var vis;
      flagSave, buffAll, vis := SearchComponent(wrapperRes, width, height, x, y, orig, G);
      if flagSave {
        RestoreComponent(wrapperRes, width, height, buffAll, orig, G, s, vis);
      }
      ScanComponent(G, width, s, vis);
    } else {
      ScanSkip(G, width, s);
    }
  }

  /** The loop over x: row y of the scan. */
  method TrackRow(wrapperRes: Uint8ClampedWrapper, width: int, height: int, y: int,
                  ghost orig: seq<Byte>, ghost G: seq<int>)
    requires wrapperRes.Valid() && wrapperRes.data != null
    requires width == wrapperRes.width && height == wrapperRes.height
    requires |orig| == wrapperRes.data.Length && |orig| % 4 == 0 && G == Mids(orig)
    requires 0 <= y < height
    requires wrapperRes.data[..] == Overlay(orig, ScanOver(G, width, y * width))
    modifies wrapperRes.data
    ensures wrapperRes.data[..] == Overlay(orig, ScanOver(G, width, y * width + width))
  {
    for x := 0 to width
      invariant wrapperRes.data[..] == Overlay(orig, ScanOver(G, width, y * width + x))
    {
      TrackPixel(wrapperRes, width, height, x, y, orig, G);
    }
  }

  /** CannyLogic.trackEdge: copies the image and resolves every weak pixel of the copy by
      hysteresis. The result is the input store with every weak pixel replaced by its
      verdict, an empty input gives an empty result, and the input is left unchanged. */
  method TrackEdge(wrapper: Uint8ClampedWrapper) returns (wrapperRes: Uint8ClampedWrapper)
    requires wrapper.Valid()
    ensures fresh(wrapperRes) && wrapperRes.Valid()
    ensures wrapper.Empty() ==> wrapperRes.Empty()
    ensures !wrapper.Empty() ==> fresh(wrapperRes.data)
    ensures !wrapper.Empty() ==>
              && wrapperRes.width == wrapper.width && wrapperRes.height == wrapper.height
              && wrapperRes.data[..] == TrackedBytes(wrapper.data[..], wrapper.width)
  {
    var width := wrapper.width;
    var height := wrapper.height;
    wrapperRes := new Uint8ClampedWrapper();
    var ok := wrapperRes.SetBufferFromUint8Wrapper(wrapper);
    ghost var orig: seq<Byte> := if ok then wrapperRes.data[..] else [];
    ghost var G := Mids(orig);
    if ok {
      ScanStart(G, width);
      OverlayNothing(orig, ScanOver(G, width, 0));
    }
    for y := 0 to height
      invariant wrapperRes.Valid() && (ok <==> wrapperRes.data != null)
      invariant ok ==> fresh(wrapperRes.data)
      invariant ok ==> wrapperRes.width == width && wrapperRes.height == height
      invariant ok ==> wrapperRes.data[..] == Overlay(orig, ScanOver(G, width, y * width))
    {
      TrackRow(wrapperRes, width, height, y, orig, G);
      assert y * width + width == (y + 1) * width;
    }
    if ok {
      assert height * width == |G|;
      ScanEnd(G, width);
    }
  }

  // ---------------------------------------------------------------------------
  // Properties of the result of trackEdge

  /** Pixel by pixel: a weak pixel ends at 255 when its component touches a strong pixel
      and at 0 otherwise, so no weak pixel remains; every other pixel keeps all four of
      its bytes, and the alpha byte is always kept. */
  lemma TrackedPixel(bytes: seq<Byte>, w: int, p: int)
    requires w > 0 && |bytes| % 4 == 0 && 0 <= p < |bytes| / 4
    ensures var G, r := Mids(bytes), TrackedBytes(bytes, w);
      && MidOf(r, p) != 127
      && (G[p] == 127 ==> (MidOf(r, p) == 255 <==> Kept(G, w, p)))
      && (G[p] == 127 ==> (MidOf(r, p) == 0 <==> !Kept(G, w, p)))
      && (G[p] != 127 ==> r[4 * p .. 4 * p + 4] == bytes[4 * p .. 4 * p + 4])
      && r[4 * p + 3] == bytes[4 * p + 3]
  {
    var G, over := Mids(bytes), TrackedOver(Mids(bytes), w);
    OverlayPixel(bytes, over, p);
    if G[p] != 127 {
      assert MidOf(bytes, p) == G[p];
    }
  }

  /** An image without weak pixels comes back unchanged. */
  lemma TrackedNoWeak(bytes: seq<Byte>, w: int)
    requires w > 0 && |bytes| % 4 == 0
    requires forall p :: 0 <= p < |bytes| / 4 ==> MidOf(bytes, p) != 127
    ensures TrackedBytes(bytes, w) == bytes
  {
    OverlayNothing(bytes, TrackedOver(Mids(bytes), w));
  }

  /** Tracking a second time changes nothing. */
  lemma TrackedIdempotent(bytes: seq<Byte>, w: int)
    requires w > 0 && |bytes| % 4 == 0
    ensures TrackedBytes(TrackedBytes(bytes, w), w) == TrackedBytes(bytes, w)
  {
    var r := TrackedBytes(bytes, w);
    forall p | 0 <= p < |r| / 4
      ensures MidOf(r, p) != 127
    {
      TrackedPixel(bytes, w, p);
    }
    TrackedNoWeak(r, w);
  }

  /** Strong pixels stay strong, and the strong pixels of the result are the strong
      pixels of the input and the weak pixels of kept components. */
  lemma TrackedStrong(bytes: seq<Byte>, w: int, p: int)
    requires w > 0 && |bytes| % 4 == 0 && 0 <= p < |bytes| / 4
    ensures var G := Mids(bytes);
      MidOf(TrackedBytes(bytes, w), p) == 255 <==> G[p] == 255 || (G[p] == 127 && Kept(G, w, p))
  {
    var G, over := Mids(bytes), TrackedOver(Mids(bytes), w);
    OverlayPixel(bytes, over, p);
    if G[p] == 127 {
      assert over[p] == Some(Verdict(G, w, p));
    } else {
      assert over[p] == None && MidOf(bytes, p) == G[p];
    }
  }

  /** A weak pixel next to a strong pixel is kept. */
  lemma StrongNeighbourKept(G: seq<int>, w: int, p: int, r: int)
    requires w > 0 && IsWeak(G, p) && 0 <= r < |G| && Adjacent(w, p, r) && G[r] == 255
    ensures Verdict(G, w, p) == 255
  {
    ConnectedSelf(G, w, p);
    assert Touches(G, w, p);
  }

  /** Two weak pixels in one 3x3 window end with the same value. */
  lemma NeighboursShareVerdict(G: seq<int>, w: int, p: int, q: int)
    requires w > 0 && IsWeak(G, p) && IsWeak(G, q) && Adjacent(w, p, q)
    ensures Verdict(G, w, p) == Verdict(G, w, q)
  {
    ConnectedSelf(G, w, p);
    ConnectedExtend(G, w, p, p, q);
    VerdictShared(G, w, p, q);
  }

  /** A weak path starting in a set closed under weak neighbours stays in it. */
  lemma {:induction false} PathStaysIn(G: seq<int>, w: int, S: set<int>, path: seq<int>)
    requires w > 0 && WeakPath(G, w, path) && path[0] in S
    requires forall a, b :: a in S && IsWeak(G, b) && Adjacent(w, a, b) ==> b in S
    ensures path[|path| - 1] in S
    decreases |path|
  {
    if |path| > 1 {
      var prefix := path[..|path| - 1];
      assert WeakPath(G, w, prefix) by {
        forall k | 0 <= k < |prefix| - 1
          ensures Adjacent(w, prefix[k], prefix[k + 1])
        {
          assert prefix[k] == path[k] && prefix[k + 1] == path[k + 1];
        }
      }
      PathStaysIn(G, w, S, prefix);
      assert Adjacent(w, path[|path| - 2], path[|path| - 1]);
    }
  }

  /** A weak pixel inside a set of pixels that is closed under weak neighbours, none of
      which has a strong pixel in its 3x3 window, is dropped. */
  lemma EnclosedWeakDropped(G: seq<int>, w: int, S: set<int>, p: int)
    requires w > 0 && p in S && IsWeak(G, p)
    requires forall a, b :: a in S && IsWeak(G, b) && Adjacent(w, a, b) ==> b in S
    requires forall a :: a in S ==> !Touches(G, w, a)
    ensures Verdict(G, w, p) == 0
  {
    if Kept(G, w, p) {
      var q :| Connected(G, w, p, q) && Touches(G, w, q);
      var path :| WeakPath(G, w, path) && path[0] == p && path[|path| - 1] == q;
      PathStaysIn(G, w, S, path);
    }
  }

  /** Without any strong pixel in the image every weak pixel ends at 0. */
  lemma NoStrongAllDropped(bytes: seq<Byte>, w: int, p: int)
    requires w > 0 && |bytes| % 4 == 0 && 0 <= p < |bytes| / 4
    requires forall r :: 0 <= r < |bytes| / 4 ==> MidOf(bytes, r) != 255
    requires MidOf(bytes, p) == 127
    ensures MidOf(TrackedBytes(bytes, w), p) == 0
  {
    TrackedPixel(bytes, w, p);
  }
}
