/** Undoing a buffer transform in place: vertical flip and horizontal mirror of a captured frame. */
module Transform {
  import opened Arith
  import opened Bytes

  // ----- Rows and columns -----

  function RowOf(stride: pos, x: nat): nat {
    x / stride
  }

  function ColOf(stride: pos, x: nat): nat {
    x % stride
  }

  function Place(stride: pos, y: nat, c: nat): nat {
    y * stride + c
  }

  lemma PlaceOf(stride: pos, y: nat, c: nat)
    requires c < stride
    ensures RowOf(stride, Place(stride, y, c)) == y && ColOf(stride, Place(stride, y, c)) == c
  {
    DivModUnique(y * stride + c, stride, y, c);
  }

  lemma PlaceBack(stride: pos, x: nat)
    ensures Place(stride, RowOf(stride, x), ColOf(stride, x)) == x && ColOf(stride, x) < stride
  {
    DivModParts(x, stride);
  }

  /** Whole rows in a buffer of `n` bytes; a byte lies in one of them or in what is left over. */
  function Height(n: nat, stride: pos): nat {
    n / stride
  }

  lemma PlaceInside(n: nat, stride: pos, y: nat, c: nat)
    requires y < Height(n, stride) && c < stride
    ensures Place(stride, y, c) < n
  {
    DivModParts(n, stride);
    MulStrict(y, n / stride, stride);
  }

  // ----- The permutations -----

  function FlipIndex(n: nat, stride: pos, x: nat): nat {
    if RowOf(stride, x) < Height(n, stride)
    then Place(stride, Height(n, stride) - 1 - RowOf(stride, x), ColOf(stride, x)) else x
  }

  /** Column `c` after the whole pixels of its row have been reversed. */
  function MirrorCol(stride: pos, c: nat): nat {
    if c / 4 < stride / 4 then 4 * (stride / 4 - 1 - c / 4) + c % 4 else c
  }

  function MirrorIndex(n: nat, stride: pos, x: nat): nat {
    if RowOf(stride, x) < Height(n, stride)
    then Place(stride, RowOf(stride, x), MirrorCol(stride, ColOf(stride, x))) else x
  }

  lemma FlipInside(n: nat, stride: pos, x: nat)
    requires x < n
    ensures FlipIndex(n, stride, x) < n
  {
    PlaceBack(stride, x);
    if RowOf(stride, x) < Height(n, stride) {
      PlaceInside(n, stride, Height(n, stride) - 1 - RowOf(stride, x), ColOf(stride, x));
    }
  }

  lemma MirrorColInside(stride: pos, c: nat)
    requires c < stride
    ensures MirrorCol(stride, c) < stride && MirrorCol(stride, MirrorCol(stride, c)) == c
  {}

  lemma MirrorInside(n: nat, stride: pos, x: nat)
    requires x < n
    ensures MirrorIndex(n, stride, x) < n
  {
    PlaceBack(stride, x);
    MirrorColInside(stride, ColOf(stride, x));
    if RowOf(stride, x) < Height(n, stride) {
      PlaceInside(n, stride, RowOf(stride, x), MirrorCol(stride, ColOf(stride, x)));
    }
  }

  /** Each is its own inverse. */
  lemma IndexInvolutions(n: nat, stride: pos, x: nat)
    ensures FlipIndex(n, stride, FlipIndex(n, stride, x)) == x
    ensures MirrorIndex(n, stride, MirrorIndex(n, stride, x)) == x
  {
    hide RowOf, ColOf, Place, Height, MirrorCol;
    var h, y, c := Height(n, stride), RowOf(stride, x), ColOf(stride, x);
    PlaceBack(stride, x);
    if y < h {
      PlaceOf(stride, h - 1 - y, c);
      MirrorColInside(stride, c);
      PlaceOf(stride, y, MirrorCol(stride, c));
    }
  }

  /** The two commute. */
  lemma IndexCommutes(n: nat, stride: pos, x: nat)
    ensures FlipIndex(n, stride, MirrorIndex(n, stride, x)) == MirrorIndex(n, stride, FlipIndex(n, stride, x))
  {
    hide RowOf, ColOf, Place, Height, MirrorCol;
    var h, y, c := Height(n, stride), RowOf(stride, x), ColOf(stride, x);
    PlaceBack(stride, x);
    if y < h {
      PlaceOf(stride, h - 1 - y, c);
      MirrorColInside(stride, c);
      PlaceOf(stride, y, MirrorCol(stride, c));
    }
  }

  // ----- Vertical flip, in place -----

  function RowSwap(stride: pos, a: nat, b: nat, x: nat): nat {
    if RowOf(stride, x) == a then Place(stride, b, ColOf(stride, x))
    else if RowOf(stride, x) == b then Place(stride, a, ColOf(stride, x)) else x
  }

  lemma RowSwapPlaces(stride: pos, a: nat, b: nat, c: nat, x: nat)
    requires c < stride
    ensures x == Place(stride, a, c) <==> RowOf(stride, x) == a && ColOf(stride, x) == c
    ensures RowSwap(stride, a, b, Place(stride, a, c)) == Place(stride, b, c)
    ensures RowSwap(stride, b, a, Place(stride, a, c)) == Place(stride, b, c)
  {
    PlaceOf(stride, a, c);
    PlaceBack(stride, x);
  }

  lemma RowSwapInside(n: nat, stride: pos, a: nat, b: nat, x: nat)
    requires a < Height(n, stride) && b < Height(n, stride) && x < n
    ensures RowSwap(stride, a, b, x) < n
  {
    PlaceBack(stride, x);
    PlaceInside(n, stride, a, ColOf(stride, x));
    PlaceInside(n, stride, b, ColOf(stride, x));
  }

  /** The bytes of `s` read through the exchange of two rows, up to column `c`. */
  predicate RowsSwapped(t: seq<byte>, s: seq<byte>, stride: pos, a: nat, b: nat, c: nat)
    requires a < Height(|s|, stride) && b < Height(|s|, stride)
  {
    |t| == |s| && forall x :: 0 <= x < |s| ==>
      (RowSwapInside(|s|, stride, a, b, x); t[x] == if ColOf(stride, x) < c then s[RowSwap(stride, a, b, x)] else s[x])
  }

  function Exchanged(t: seq<byte>, i: nat, j: nat): (r: seq<byte>)
    requires i < |t| && j < |t|
    ensures |r| == |t|
  {
    t[i := t[j]][j := t[i]]
  }

  lemma RowsSwappedStep(t: seq<byte>, s: seq<byte>, stride: pos, a: nat, b: nat, c: nat)
    requires a < Height(|s|, stride) && b < Height(|s|, stride) && a != b && c < stride
    requires RowsSwapped(t, s, stride, a, b, c)
    requires Place(stride, a, c) < |s| && Place(stride, b, c) < |s|
    ensures RowsSwapped(Exchanged(t, Place(stride, a, c), Place(stride, b, c)), s, stride, a, b, c + 1)
  {
    hide RowOf, ColOf, Place, Height, RowSwap;
    var i, j := Place(stride, a, c), Place(stride, b, c);
    var u := Exchanged(t, i, j);
    PlaceOf(stride, a, c);
    PlaceOf(stride, b, c);
    forall x | 0 <= x < |s|
      ensures RowSwap(stride, a, b, x) < |s|
      ensures u[x] == if ColOf(stride, x) < c + 1 then s[RowSwap(stride, a, b, x)] else s[x]
    {
      RowSwapInside(|s|, stride, a, b, x);
      RowSwapPlaces(stride, a, b, c, x);
      RowSwapPlaces(stride, b, a, c, x);
      RowSwapElsewhere(stride, a, b, x);
    }
  }

  lemma RowSwapElsewhere(stride: pos, a: nat, b: nat, x: nat)
    ensures RowOf(stride, x) != a && RowOf(stride, x) != b ==> RowSwap(stride, a, b, x) == x
  {}

  /** Exchanges two rows. */
  method SwapRows(data: array<byte>, stride: pos, a: nat, b: nat)
    requires a < Height(data.Length, stride) && b < Height(data.Length, stride) && a != b
    modifies data
    ensures RowsSwapped(data[..], old(data[..]), stride, a, b, stride)
  {
    ghost var was := data[..];
    for c := 0 to stride
      invariant RowsSwapped(data[..], was, stride, a, b, c)
    {
      hide RowsSwapped;
      PlaceInside(data.Length, stride, a, c);
      PlaceInside(data.Length, stride, b, c);
      ghost var before := data[..];
      var i, j := a * stride + c, b * stride + c;
      RowsSwappedStep(before, was, stride, a, b, c);
      data[i], data[j] := data[j], data[i];
      assert data[..] == Exchanged(before, i, j);
    }
  }

  /** The flip, as far as the outermost `top` pairs of rows are concerned. */
  predicate FlippedUpTo(t: seq<byte>, s: seq<byte>, stride: pos, top: nat) {
    |t| == |s| && forall x :: 0 <= x < |s| ==>
      (FlipInside(|s|, stride, x);
       t[x] == if RowOf(stride, x) < top || RowOf(stride, x) + top >= Height(|s|, stride)
               then s[FlipIndex(|s|, stride, x)] else s[x])
  }

  lemma FlippedStep(u: seq<byte>, t: seq<byte>, s: seq<byte>, stride: pos, top: nat)
    requires 2 * top + 1 < Height(|s|, stride) && |t| == |s|
    requires FlippedUpTo(t, s, stride, top) && RowsSwapped(u, t, stride, top, Height(|s|, stride) - 1 - top, stride)
    ensures FlippedUpTo(u, s, stride, top + 1)
  {
    hide RowOf, ColOf, Place, Height;
    var h := Height(|s|, stride);
    forall x | 0 <= x < |s|
      ensures FlipIndex(|s|, stride, x) < |s|
      ensures u[x] == if RowOf(stride, x) < top + 1 || RowOf(stride, x) + top + 1 >= h
                      then s[FlipIndex(|s|, stride, x)] else s[x]
    {
      FlipInside(|s|, stride, x);
      PlaceBack(stride, x);
      RowSwapInside(|s|, stride, top, h - 1 - top, x);
      PlaceOf(stride, h - 1 - top, ColOf(stride, x));
      PlaceOf(stride, top, ColOf(stride, x));
    }
  }

  function Flipped(s: seq<byte>, stride: pos): (r: seq<byte>)
    ensures |r| == |s|
  {
    seq(|s|, x requires 0 <= x < |s| => (FlipInside(|s|, stride, x); s[FlipIndex(|s|, stride, x)]))
  }

  lemma FlippedEnd(t: seq<byte>, s: seq<byte>, stride: pos, top: nat)
    requires FlippedUpTo(t, s, stride, top) && 2 * top + 1 >= Height(|s|, stride)
    ensures t == Flipped(s, stride)
  {
    hide RowOf, ColOf, Place, Height;
    forall x | 0 <= x < |s| ensures FlipIndex(|s|, stride, x) < |s| && t[x] == s[FlipIndex(|s|, stride, x)] {
      FlipInside(|s|, stride, x);
      PlaceBack(stride, x);
    }
  }

  method FlipRows(data: array<byte>, stride: pos)
    modifies data
    ensures data[..] == Flipped(old(data[..]), stride)
  {
    hide FlippedUpTo, RowsSwapped, Flipped;
    ghost var was := data[..];
    var height := data.Length / stride;
    var top, bottom := 0, if height > 0 then height - 1 else 0;
    FlipStarts(was, stride);
    while top < bottom
      invariant top + bottom == (if height > 0 then height - 1 else 0) && 0 <= top <= bottom + 1
      invariant FlippedUpTo(data[..], was, stride, top)
    {
      ghost var before := data[..];
      SwapRows(data, stride, top, bottom);
      FlippedStep(data[..], before, was, stride, top);
      top := top + 1;
      bottom := bottom - 1;
    }
    FlippedEnd(data[..], was, stride, top);
  }

  lemma FlipStarts(s: seq<byte>, stride: pos)
    ensures FlippedUpTo(s, s, stride, 0)
  {}

  // ----- Horizontal mirror, in place -----

  /** Column `c` after bytes 0..k of pixels `l` and `r` have been exchanged. */
  function PixelSwapCol(l: nat, r: nat, k: nat, c: nat): nat {
    if c / 4 == l && c % 4 < k then 4 * r + c % 4
    else if c / 4 == r && c % 4 < k then 4 * l + c % 4 else c
  }

  /** Column `c` after the outermost `i` pairs of pixels have been exchanged. */
  function MirrorColUpTo(stride: pos, i: nat, c: nat): nat {
    if c / 4 < i || c / 4 + i >= stride / 4 then MirrorCol(stride, c) else c
  }

  lemma PixelSwapColInside(stride: pos, l: nat, r: nat, k: nat, c: nat)
    requires l < stride / 4 && r < stride / 4 && c < stride
    ensures PixelSwapCol(l, r, k, c) < stride
  {}

  lemma MirrorColStep(stride: pos, i: nat, c: nat)
    requires 2 * i + 1 < stride / 4 && c < stride
    ensures MirrorColUpTo(stride, i, PixelSwapCol(i, stride / 4 - 1 - i, 4, c)) == MirrorColUpTo(stride, i + 1, c)
  {}

  lemma MirrorColEnd(stride: pos, c: nat)
    requires c < stride
    ensures MirrorColUpTo(stride, (stride / 4) / 2, c) == MirrorCol(stride, c)
    ensures MirrorColUpTo(stride, 0, c) == c
  {}

  /** Byte `x` read through a rearrangement of row `y` that sends its column to `c`. */
  function InRow(stride: pos, y: nat, c: nat, x: nat): nat {
    if RowOf(stride, x) == y then Place(stride, y, c) else x
  }

  lemma InRowInside(n: nat, stride: pos, y: nat, c: nat, x: nat)
    requires y < Height(n, stride) && c < stride && x < n
    ensures InRow(stride, y, c, x) < n
  {
    PlaceInside(n, stride, y, c);
  }

  predicate PixelsSwapped(t: seq<byte>, s: seq<byte>, stride: pos, y: nat, l: nat, r: nat, k: nat) {
    |t| == |s| && forall x :: 0 <= x < |s| ==>
      var from := InRow(stride, y, PixelSwapCol(l, r, k, ColOf(stride, x)), x);
      from < |s| && t[x] == s[from]
  }

  lemma PixelsStart(s: seq<byte>, stride: pos, y: nat, l: nat, r: nat)
    ensures PixelsSwapped(s, s, stride, y, l, r, 0)
  {
    hide RowOf, ColOf, Place;
    forall x | 0 <= x < |s| ensures InRow(stride, y, PixelSwapCol(l, r, 0, ColOf(stride, x)), x) == x {
      PlaceBack(stride, x);
    }
  }

  lemma PixelsStep(t: seq<byte>, s: seq<byte>, stride: pos, y: nat, l: nat, r: nat, k: nat)
    requires y < Height(|s|, stride) && l < r < stride / 4 && k < 4 && PixelsSwapped(t, s, stride, y, l, r, k)
    requires Place(stride, y, 4 * l + k) < |s| && Place(stride, y, 4 * r + k) < |s|
    ensures PixelsSwapped(Exchanged(t, Place(stride, y, 4 * l + k), Place(stride, y, 4 * r + k)), s, stride, y, l, r, k + 1)
  {
    hide RowOf, ColOf, Place, Height;
    var i, j := Place(stride, y, 4 * l + k), Place(stride, y, 4 * r + k);
    var u := Exchanged(t, i, j);
    PlaceOf(stride, y, 4 * l + k);
    PlaceOf(stride, y, 4 * r + k);
    forall x | 0 <= x < |s|
      ensures var from := InRow(stride, y, PixelSwapCol(l, r, k + 1, ColOf(stride, x)), x);
              from < |s| && u[x] == s[from]
    {
      PlaceBack(stride, x);
      PixelSwapColInside(stride, l, r, k + 1, ColOf(stride, x));
      InRowInside(|s|, stride, y, PixelSwapCol(l, r, k + 1, ColOf(stride, x)), x);
    }
  }

  method SwapPixels(data: array<byte>, stride: pos, y: nat, l: nat, r: nat)
    requires y < Height(data.Length, stride) && l < r < stride / 4
    modifies data
    ensures PixelsSwapped(data[..], old(data[..]), stride, y, l, r, 4)
  {
    hide PixelsSwapped;
    ghost var was := data[..];
    PixelsStart(was, stride, y, l, r);
    for k := 0 to 4
      invariant PixelsSwapped(data[..], was, stride, y, l, r, k)
    {
      PlaceInside(data.Length, stride, y, 4 * l + k);
      PlaceInside(data.Length, stride, y, 4 * r + k);
      ghost var before := data[..];
      var i, j := y * stride + 4 * l + k, y * stride + 4 * r + k;
      PixelsStep(before, was, stride, y, l, r, k);
      data[i], data[j] := data[j], data[i];
      assert data[..] == Exchanged(before, i, j);
    }
  }

  predicate RowMirroredUpTo(t: seq<byte>, s: seq<byte>, stride: pos, y: nat, i: nat) {
    |t| == |s| && forall x :: 0 <= x < |s| ==>
      var from := InRow(stride, y, MirrorColUpTo(stride, i, ColOf(stride, x)), x);
      from < |s| && t[x] == s[from]
  }

  lemma RowStart(s: seq<byte>, stride: pos, y: nat)
    ensures RowMirroredUpTo(s, s, stride, y, 0)
  {
    hide RowOf, ColOf, Place, MirrorColUpTo;
    forall x | 0 <= x < |s| ensures InRow(stride, y, MirrorColUpTo(stride, 0, ColOf(stride, x)), x) == x {
      PlaceBack(stride, x);
      MirrorColEnd(stride, ColOf(stride, x));
    }
  }

  lemma RowStep(u: seq<byte>, t: seq<byte>, s: seq<byte>, stride: pos, y: nat, i: nat)
    requires y < Height(|s|, stride) && 2 * i + 1 < stride / 4
    requires RowMirroredUpTo(t, s, stride, y, i) && PixelsSwapped(u, t, stride, y, i, stride / 4 - 1 - i, 4)
    ensures RowMirroredUpTo(u, s, stride, y, i + 1)
  {
    hide RowOf, ColOf, Place, Height, MirrorColUpTo, PixelSwapCol;
    forall x | 0 <= x < |s|
      ensures var from := InRow(stride, y, MirrorColUpTo(stride, i + 1, ColOf(stride, x)), x);
              from < |s| && u[x] == s[from]
    {
      var c := ColOf(stride, x);
      PlaceBack(stride, x);
      PixelSwapColInside(stride, i, stride / 4 - 1 - i, 4, c);
      PlaceOf(stride, y, PixelSwapCol(i, stride / 4 - 1 - i, 4, c));
      MirrorColStep(stride, i, c);
    }
  }

  method MirrorRow(data: array<byte>, stride: pos, y: nat)
    requires y < Height(data.Length, stride)
    modifies data
    ensures RowMirroredUpTo(data[..], old(data[..]), stride, y, (stride / 4) / 2)
  {
    hide RowMirroredUpTo, PixelsSwapped;
    ghost var was := data[..];
    var pixels := stride / 4;
    RowStart(was, stride, y);
    for i := 0 to pixels / 2
      invariant RowMirroredUpTo(data[..], was, stride, y, i)
    {
      ghost var before := data[..];
      SwapPixels(data, stride, y, i, pixels - 1 - i);
      RowStep(data[..], before, was, stride, y, i);
    }
  }

  predicate MirroredUpTo(t: seq<byte>, s: seq<byte>, stride: pos, y: nat) {
    |t| == |s| && forall x :: 0 <= x < |s| ==>
      (MirrorInside(|s|, stride, x); t[x] == if RowOf(stride, x) < y then s[MirrorIndex(|s|, stride, x)] else s[x])
  }

  lemma MirroredStep(u: seq<byte>, t: seq<byte>, s: seq<byte>, stride: pos, y: nat)
    requires y < Height(|s|, stride) && MirroredUpTo(t, s, stride, y)
    requires RowMirroredUpTo(u, t, stride, y, (stride / 4) / 2)
    ensures MirroredUpTo(u, s, stride, y + 1)
  {
    hide RowOf, ColOf, Place, Height, MirrorColUpTo, MirrorCol;
    forall x | 0 <= x < |s|
      ensures MirrorIndex(|s|, stride, x) < |s|
      ensures u[x] == if RowOf(stride, x) < y + 1 then s[MirrorIndex(|s|, stride, x)] else s[x]
    {
      MirrorInside(|s|, stride, x);
      PlaceBack(stride, x);
      MirrorColEnd(stride, ColOf(stride, x));
      MirrorColInside(stride, ColOf(stride, x));
      PlaceOf(stride, y, MirrorCol(stride, ColOf(stride, x)));
    }
  }

  function Mirrored(s: seq<byte>, stride: pos): (r: seq<byte>)
    ensures |r| == |s|
  {
    seq(|s|, x requires 0 <= x < |s| => (MirrorInside(|s|, stride, x); s[MirrorIndex(|s|, stride, x)]))
  }

  lemma MirrorEnds(t: seq<byte>, s: seq<byte>, stride: pos)
    ensures MirroredUpTo(s, s, stride, 0)
    ensures MirroredUpTo(t, s, stride, Height(|s|, stride)) ==> t == Mirrored(s, stride)
  {
    hide RowOf, ColOf, Place, Height, MirrorCol;
    forall x | 0 <= x < |s| ensures MirrorIndex(|s|, stride, x) < |s| {
      MirrorInside(|s|, stride, x);
    }
  }

  method MirrorRows(data: array<byte>, stride: pos)
    modifies data
    ensures data[..] == Mirrored(old(data[..]), stride)
  {
    hide MirroredUpTo, RowMirroredUpTo, Mirrored;
    ghost var was := data[..];
    MirrorEnds(was, was, stride);
    for y := 0 to data.Length / stride
      invariant MirroredUpTo(data[..], was, stride, y)
    {
      ghost var before := data[..];
      MirrorRow(data, stride, y);
      MirroredStep(data[..], before, was, stride, y);
    }
    MirrorEnds(data[..], was, stride);
  }

  // ----- What running them does -----

  lemma FlipTwice(s: seq<byte>, stride: pos)
    ensures Flipped(Flipped(s, stride), stride) == s
  {
    hide FlipIndex;
    forall x | 0 <= x < |s| ensures Flipped(Flipped(s, stride), stride)[x] == s[x] {
      FlipInside(|s|, stride, x);
      IndexInvolutions(|s|, stride, x);
    }
  }

  lemma MirrorTwice(s: seq<byte>, stride: pos)
    ensures Mirrored(Mirrored(s, stride), stride) == s
  {
    hide MirrorIndex;
    forall x | 0 <= x < |s| ensures Mirrored(Mirrored(s, stride), stride)[x] == s[x] {
      MirrorInside(|s|, stride, x);
      IndexInvolutions(|s|, stride, x);
    }
  }

  lemma FlipMirrorCommute(s: seq<byte>, stride: pos)
    ensures Flipped(Mirrored(s, stride), stride) == Mirrored(Flipped(s, stride), stride)
  {
    hide FlipIndex, MirrorIndex;
    forall x | 0 <= x < |s| ensures Flipped(Mirrored(s, stride), stride)[x] == Mirrored(Flipped(s, stride), stride)[x] {
      FlipInside(|s|, stride, x);
      MirrorInside(|s|, stride, x);
      IndexCommutes(|s|, stride, x);
    }
  }

  /** A 180-degree rotation: the pixels of the buffer in reverse order. */
  function RotatedIndex(n: nat, x: nat): nat {
    if x / 4 < n / 4 then 4 * (n / 4 - 1 - x / 4) + x % 4 else x
  }

  function Rotated(s: seq<byte>): (r: seq<byte>)
    ensures |r| == |s|
  {
    seq(|s|, x requires 0 <= x < |s| => s[RotatedIndex(|s|, x)])
  }

  lemma RotationIndex(h: nat, px: pos, y: nat, c: nat)
    requires y < h && c < 4 * px
    ensures RotatedIndex(h * (4 * px), y * (4 * px) + c) == (h - 1 - y) * (4 * px) + 4 * (px - 1 - c / 4) + c % 4
  {
    var n, x := h * (4 * px), y * (4 * px) + c;
    var top, at := h * px, y * px;
    assert n == 4 * top && x == 4 * at + c;
    assert n / 4 == top && x / 4 == at + c / 4 && x % 4 == c % 4;
    assert (h - 1 - y) * (4 * px) == 4 * (top - px - at) by {
      assert (h - 1 - y) * px == h * px - px - y * px;
    }
    MulStrict(y, h, px);
  }

  /** In a buffer of whole rows of whole pixels, flip and mirror together rotate by 180 degrees. */
  lemma FlipMirrorRotates(s: seq<byte>, px: pos, h: nat)
    requires |s| == h * (4 * px)
    ensures Mirrored(Flipped(s, 4 * px), 4 * px) == Rotated(s)
  {
    var stride: pos := 4 * px;
    DivModUnique(|s|, stride, h, 0);
    forall x | 0 <= x < |s| ensures Mirrored(Flipped(s, stride), stride)[x] == Rotated(s)[x] {
      var y, c := RowOf(stride, x), ColOf(stride, x);
      PlaceBack(stride, x);
      RowInBuffer(stride, h, x);
      RotationPlaces(|s|, px, h, y, c);
      MirrorInside(|s|, stride, x);
      FlipInside(|s|, stride, MirrorIndex(|s|, stride, x));
    }
  }

  lemma RowInBuffer(stride: pos, h: nat, x: nat)
    requires x < h * stride
    ensures RowOf(stride, x) < h
  {
    PlaceBack(stride, x);
    if RowOf(stride, x) >= h {
      MulMono(h, RowOf(stride, x), stride);
    }
  }

  lemma RotationPlaces(n: nat, px: pos, h: nat, y: nat, c: nat)
    requires n == h * (4 * px) && Height(n, 4 * px) == h && y < h && c < 4 * px
    ensures var x := Place(4 * px, y, c);
            FlipIndex(n, 4 * px, MirrorIndex(n, 4 * px, x)) == RotatedIndex(n, x)
  {
    hide RotatedIndex, RowOf, ColOf, Height;
    var stride: pos := 4 * px;
    MirrorColInside(stride, c);
    PlaceOf(stride, y, c);
    PlaceOf(stride, y, MirrorCol(stride, c));
    RotationIndex(h, px, y, c);
    assert stride / 4 == px;
  }

  lemma RotateTwice(s: seq<byte>)
    ensures Rotated(Rotated(s)) == s
  {}

  // ----- Undoing the transform of a buffer -----

  function Undone(transform: u32, s: seq<byte>, stride: pos): (r: seq<byte>)
    ensures |r| == |s|
  {
    match transform
    case 2 => Mirrored(Flipped(s, stride), stride)
    case 4 => Mirrored(s, stride)
    case 6 => Flipped(s, stride)
    case _ => s
  }

  /** Every other value, the ones not supported among them, leaves the buffer as it is. */
  lemma OthersUntouched(transform: u32, s: seq<byte>, stride: pos)
    requires transform != 2 && transform != 4 && transform != 6
    ensures Undone(transform, s, stride) == s
  {}

  /** Bytes past the last whole row, and those of a row past its last whole pixel, stay. */
  lemma SpareStays(s: seq<byte>, stride: pos, x: nat)
    requires x < |s|
    ensures x >= Height(|s|, stride) * stride ==> Flipped(s, stride)[x] == s[x] && Mirrored(s, stride)[x] == s[x]
    ensures ColOf(stride, x) >= 4 * (stride / 4) ==> Mirrored(s, stride)[x] == s[x]
  {
    PlaceBack(stride, x);
    if x >= Height(|s|, stride) * stride && RowOf(stride, x) < Height(|s|, stride) {
      MulStrict(RowOf(stride, x), Height(|s|, stride), stride);
    }
  }

  /** The match on the transform; the result tells whether the whole frame counts as damaged. */
  method Undo(transform: u32, data: array<byte>, stride: pos) returns (fullDamage: bool)
    modifies data
    ensures data[..] == Undone(transform, old(data[..]), stride)
    ensures transform != 2 && transform != 4 && transform != 6 ==> data[..] == old(data[..])
    ensures fullDamage <==> transform != 0
  {
    fullDamage := true;
    match transform
    case 0 => fullDamage := false;
    case 2 =>
      FlipRows(data, stride);
      MirrorRows(data, stride);
    case 4 => MirrorRows(data, stride);
    case 6 => FlipRows(data, stride);
    case _ =>
  }

  /** In a buffer of whole rows of whole pixels, undoing value 2 undoes the rotation of every byte. */
  lemma UndoRotation(s: seq<byte>, px: pos, h: nat)
    requires |s| == h * (4 * px)
    ensures Undone(2, Rotated(s), 4 * px) == s
  {
    hide Mirrored, Flipped, Rotated;
    FlipMirrorRotates(Rotated(s), px, h);
    RotateTwice(s);
  }

  // ----- What the user sees -----

  /** Byte column `c` of row `y`. */
  function ByteAt(s: seq<byte>, stride: pos, y: nat, c: nat): byte
    requires y < Height(|s|, stride) && c < stride
  {
    PlaceInside(|s|, stride, y, c);
    s[Place(stride, y, c)]
  }

  /** Where the compositor's transform takes the pixels of a `width` x `height` picture from: 2 turns
      it by 180 degrees, 4 mirrors it, 6 turns it upside down, 0 leaves it. */
  function FromRow(transform: u32, height: nat, y: nat): nat
    requires y < height
  {
    if transform == 2 || transform == 6 then height - 1 - y else y
  }

  function FromCol(transform: u32, width: nat, c: nat): nat
    requires c < 4 * width
  {
    if transform == 2 || transform == 4 then 4 * (width - 1 - c / 4) + c % 4 else c
  }

  /** The visible pixels of `t` are those of the upright picture in `s`, transformed. Padding is
      arbitrary in both. */
  predicate Shows(transform: u32, t: seq<byte>, s: seq<byte>, stride: pos, width: nat)
    requires |t| == |s| && 4 * width <= stride
  {
    forall y: nat, c: nat :: y < Height(|s|, stride) && c < 4 * width ==>
      ByteAt(t, stride, y, c)
      == ByteAt(s, stride, FromRow(transform, Height(|s|, stride), y), FromCol(transform, width, c))
  }

  predicate SamePicture(a: seq<byte>, b: seq<byte>, stride: pos, width: nat)
    requires |a| == |b| && 4 * width <= stride
  {
    forall y: nat, c: nat :: y < Height(|a|, stride) && c < 4 * width ==>
      ByteAt(a, stride, y, c) == ByteAt(b, stride, y, c)
  }

  lemma FlippedAt(s: seq<byte>, stride: pos, y: nat, c: nat)
    requires y < Height(|s|, stride) && c < stride
    ensures ByteAt(Flipped(s, stride), stride, y, c) == ByteAt(s, stride, Height(|s|, stride) - 1 - y, c)
  {
    hide Height, RowOf, ColOf, Place;
    PlaceOf(stride, y, c);
    PlaceInside(|s|, stride, y, c);
    FlipInside(|s|, stride, Place(stride, y, c));
  }

  lemma MirroredAt(s: seq<byte>, stride: pos, y: nat, c: nat)
    requires y < Height(|s|, stride) && c < stride
    ensures MirrorCol(stride, c) < stride
    ensures ByteAt(Mirrored(s, stride), stride, y, c) == ByteAt(s, stride, y, MirrorCol(stride, c))
  {
    hide Height, RowOf, ColOf, Place, MirrorCol;
    MirrorColInside(stride, c);
    PlaceOf(stride, y, c);
    PlaceInside(|s|, stride, y, c);
    MirrorInside(|s|, stride, Place(stride, y, c));
  }

  lemma UndoneAt(transform: u32, t: seq<byte>, stride: pos, y: nat, c: nat)
    requires transform in {0, 2, 4, 6} && y < Height(|t|, stride) && c < stride
    ensures MirrorCol(stride, c) < stride
    ensures ByteAt(Undone(transform, t, stride), stride, y, c)
            == ByteAt(t, stride, FromRow(transform, Height(|t|, stride), y),
                      if transform == 2 || transform == 4 then MirrorCol(stride, c) else c)
  {
    hide ByteAt, Flipped, Mirrored, MirrorCol, Height;
    MirrorColInside(stride, c);
    FlippedAt(t, stride, y, c);
    MirroredAt(t, stride, y, c);
    MirroredAt(Flipped(t, stride), stride, y, c);
    FlippedAt(t, stride, y, MirrorCol(stride, c));
  }

  /** Each transform is its own inverse on coordinates, and a tight row is mirrored as it is. */
  lemma FromTwice(transform: u32, stride: pos, width: pos, height: nat, y: nat, c: nat)
    requires y < height && c < 4 * width <= stride
    ensures FromRow(transform, height, y) < height && FromCol(transform, width, c) < 4 * width
    ensures FromRow(transform, height, FromRow(transform, height, y)) == y
    ensures FromCol(transform, width, FromCol(transform, width, c)) == c
    ensures (transform == 2 || transform == 4) && stride / 4 == width ==>
              MirrorCol(stride, c) == FromCol(transform, width, c)
    ensures transform != 2 && transform != 4 ==> FromCol(transform, width, c) == c
  {}

  lemma TightUndoes(transform: u32, t: seq<byte>, s: seq<byte>, stride: pos, width: pos)
    requires transform in {0, 2, 4, 6} && |t| == |s| && 4 * width <= stride
    requires transform in {0, 6} || stride / 4 == width
    requires Shows(transform, t, s, stride, width)
    ensures SamePicture(Undone(transform, t, stride), s, stride, width)
  {
    hide ByteAt, Undone, Height, FromRow, FromCol, MirrorCol;
    forall y: nat, c: nat | y < Height(|s|, stride) && c < 4 * width
      ensures ByteAt(Undone(transform, t, stride), stride, y, c) == ByteAt(s, stride, y, c)
    {
      UndoneAt(transform, t, stride, y, c);
      FromTwice(transform, stride, width, Height(|s|, stride), y, c);
    }
  }

  /** A captured buffer has four bytes a pixel and no padding: undoing the transform gives back the
      upright picture, and with whole rows every byte of it. */
  lemma CapturedIsUpright(transform: u32, t: seq<byte>, s: seq<byte>, width: pos)
    requires transform in {0, 2, 4, 6} && |t| == |s| && Shows(transform, t, s, 4 * width, width)
    ensures SamePicture(Undone(transform, t, 4 * width), s, 4 * width, width)
    ensures |s| % (4 * width) == 0 ==> Undone(transform, t, 4 * width) == s
  {
    hide Shows, SamePicture, Undone;
    TightUndoes(transform, t, s, 4 * width, width);
    if |s| % (4 * width) == 0 {
      AllVisible(Undone(transform, t, 4 * width), s, width);
    }
  }

  /** Without padding, the same picture is the same buffer. */
  lemma AllVisible(a: seq<byte>, b: seq<byte>, width: pos)
    requires |a| == |b| && |b| % (4 * width) == 0 && SamePicture(a, b, 4 * width, width)
    ensures a == b
  {
    hide RowOf, ColOf, Place;
    var stride: pos := 4 * width;
    DivModParts(|b|, stride);
    forall i | 0 <= i < |b| ensures a[i] == b[i] {
      RowInBuffer(stride, Height(|b|, stride), i);
      var y, c := RowOf(stride, i), ColOf(stride, i);
      PlaceBack(stride, i);
      assert ByteAt(a, stride, y, c) == ByteAt(b, stride, y, c);
    }
  }

  /** A black buffer with one bright byte. */
  function Bright(n: nat, stride: pos, y: nat, c: nat): (r: seq<byte>)
    requires y < Height(n, stride) && c < stride
    ensures |r| == n
  {
    PlaceInside(n, stride, y, c);
    Zeros(n)[Place(stride, y, c) := 1]
  }

  lemma BrightAt(n: nat, stride: pos, y: nat, c: nat, y': nat, c': nat)
    requires y < Height(n, stride) && c < stride && y' < Height(n, stride) && c' < stride
    ensures ByteAt(Bright(n, stride, y, c), stride, y', c') == if y' == y && c' == c then 1 else 0
    ensures ByteAt(Zeros(n), stride, y', c') == 0
  {
    hide Height, Place, RowOf, ColOf;
    PlaceInside(n, stride, y, c);
    PlaceInside(n, stride, y', c');
    PlaceOf(stride, y, c);
    PlaceOf(stride, y', c');
  }

  /** Flip and mirror at a stride with room for a padding pixel, which no captured buffer has: a
      bright pixel in the padding moves into view. */
  lemma PaddingShows(transform: u32, stride: pos, width: pos, height: pos) returns (t: seq<byte>, s: seq<byte>)
    requires transform in {2, 4} && width < stride / 4
    ensures |t| == |s| && Height(|s|, stride) == height && Shows(transform, t, s, stride, width)
    ensures !SamePicture(Undone(transform, t, stride), s, stride, width)
  {
    var n := height * stride;
    assert Height(n, stride) == height by { DivModUnique(n, stride, height, 0); }
    hide Undone, Bright, ByteAt, Height;
    var y, c := FromRow(transform, height, 0), MirrorCol(stride, 0);
    s, t := Zeros(n), Bright(n, stride, y, c);
    forall y': nat, c': nat | y' < height && c' < 4 * width
      ensures ByteAt(t, stride, y', c')
              == ByteAt(s, stride, FromRow(transform, height, y'), FromCol(transform, width, c'))
    {
      BrightAt(n, stride, y, c, y', c');
      BrightAt(n, stride, y, c, FromRow(transform, height, y'), FromCol(transform, width, c'));
    }
    UndoneAt(transform, t, stride, 0, 0);
    BrightAt(n, stride, y, c, y, c);
    BrightAt(n, stride, y, c, 0, 0);
  }

  /** Flip and mirror at any stride, whatever a picture and its padding hold: they bring back the
      visible pixels, for 0 and 6 always, and for 2 and 4 if and only if a row has no room for a
      padding pixel. */
  lemma UndoUndoes(transform: u32, stride: pos, width: pos, height: pos)
    requires transform in {0, 2, 4, 6} && 4 * width <= stride
    ensures (forall t: seq<byte>, s: seq<byte> ::
               |t| == |s| && Height(|s|, stride) == height && Shows(transform, t, s, stride, width)
               ==> SamePicture(Undone(transform, t, stride), s, stride, width))
       <==> transform in {0, 6} || stride / 4 == width
  {
    hide Shows, SamePicture, Undone, Height;
    if transform in {0, 6} || stride / 4 == width {
      forall t: seq<byte>, s: seq<byte> |
        |t| == |s| && Height(|s|, stride) == height && Shows(transform, t, s, stride, width)
        ensures SamePicture(Undone(transform, t, stride), s, stride, width)
      {
        TightUndoes(transform, t, s, stride, width);
      }
    } else {
      var t, s := PaddingShows(transform, stride, width, height);
    }
  }

  /** The mirror reverses the whole row, padding included: it mirrors the `width` visible pixels
      onto themselves exactly when the row has no room for another pixel. */
  lemma MirrorNeedsTightRows(stride: pos, width: pos)
    requires width <= stride / 4
    ensures (forall c: nat :: c < 4 * width ==> MirrorCol(stride, c) == 4 * (width - 1 - c / 4) + c % 4)
       <==> stride / 4 == width
  {
    assert MirrorCol(stride, 0) == 4 * (stride / 4 - 1);
  }
}
