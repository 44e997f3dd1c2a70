/** Cutting a full frame into horizontal stripes for parallel compression. */
module Stripes {
  import opened Arith
  import opened Bytes
  import opened Delta

  /** The number of stripes: the requested count as a u32, at most one per row, at least one. */
  function StripeCount(height: u32, n: nat): pos {
    var m := n % 0x1_0000_0000;
    var k := if m < height then m else height;
    if k == 0 then 1 else k
  }

  /** The first `height % n` stripes are one row taller than the others. */
  function StripeHeight(height: u32, n: pos, i: nat): nat {
    height / n + if i < height % n then 1 else 0
  }

  function StripeTop(height: u32, n: pos, i: nat): nat {
    if i == 0 then 0 else StripeTop(height, n, i - 1) + StripeHeight(height, n, i - 1)
  }

  lemma {:induction false} StripeTopClosed(height: u32, n: pos, i: nat)
    ensures StripeTop(height, n, i) == i * (height / n) + if i < height % n then i else height % n
  {
    if i > 0 {
      StripeTopClosed(height, n, i - 1);
      var q := height / n;
      assert i * q == (i - 1) * q + q;
    }
  }

  lemma StripeTopEnd(height: u32, n: pos)
    ensures StripeTop(height, n, n) == height
  {
    StripeTopClosed(height, n, n);
    DivModParts(height, n);
  }

  lemma {:induction false} StripeTopMonotone(height: u32, n: pos, i: nat, j: nat)
    requires i <= j
    ensures StripeTop(height, n, i) <= StripeTop(height, n, j)
    decreases j - i
  {
    if i < j {
      StripeTopMonotone(height, n, i, j - 1);
    }
  }

  lemma StripeInFrame(height: u32, n: pos, i: nat)
    requires i < n
    ensures StripeTop(height, n, i) + StripeHeight(height, n, i) <= height
  {
    StripeTopMonotone(height, n, i + 1, n);
    StripeTopEnd(height, n);
  }

  function Stripe(width: u32, height: u32, n: pos, i: nat): DamageRect
    requires i < n
  {
    StripeInFrame(height, n, i);
    DamageRect(0, StripeTop(height, n, i), width, StripeHeight(height, n, i))
  }

  function StripesFrom(width: u32, height: u32, n: pos, i: nat): seq<DamageRect>
    requires i <= n
    decreases n - i
  {
    if i == n then [] else [Stripe(width, height, n, i)] + StripesFrom(width, height, n, i + 1)
  }

  function StripesOf(width: u32, height: u32, n: nat): seq<DamageRect> {
    StripesFrom(width, height, StripeCount(height, n), 0)
  }

  lemma {:induction false} StripesAt(width: u32, height: u32, n: pos, i: nat)
    requires i <= n
    ensures |StripesFrom(width, height, n, i)| == n - i
    ensures forall k :: i <= k < n ==> StripesFrom(width, height, n, i)[k - i] == Stripe(width, height, n, k)
    decreases n - i
  {
    if i < n {
      StripesAt(width, height, n, i + 1);
    }
  }

  lemma StripeStep(width: u32, height: u32, n: pos, i: nat)
    requires i < n
    ensures StripesFrom(width, height, n, i) == [Stripe(width, height, n, i)] + StripesFrom(width, height, n, i + 1)
    ensures StripeTop(height, n, i + 1) == StripeTop(height, n, i) + StripeHeight(height, n, i)
  {}

  lemma OneStripe(width: u32, height: u32)
    ensures StripesFrom(width, height, 1, 0) == [DamageRect(0, 0, width, height)]
  {
    StripeTopEnd(height, 1);
    StripesAt(width, height, 1, 0);
    assert StripesFrom(width, height, 1, 0)[0 - 0] == Stripe(width, height, 1, 0);
  }

  method StripeFullFrame(width: u32, height: u32, threads: nat) returns (stripes: seq<DamageRect>)
    ensures stripes == StripesOf(width, height, threads)
  {
    hide StripeCount;
    var n: pos := StripeCount(height, threads);
    if n == 1 {
      OneStripe(width, height);
      return [DamageRect(0, 0, width, height)];
    }
    var base, rem := height / n, height % n;
    stripes := [];
    var y := 0;
    AppendEmpty(StripesFrom(width, height, n, 0));
    for i := 0 to n
      invariant y == StripeTop(height, n, i)
      invariant stripes + StripesFrom(width, height, n, i) == StripesOf(width, height, threads)
    {
      hide StripeTop, StripesFrom, StripesOf;
      var h := base + if i < rem then 1 else 0;
      StripeInFrame(height, n, i);
      StripeStep(width, height, n, i);
      AppendAssoc(stripes, [Stripe(width, height, n, i)], StripesFrom(width, height, n, i + 1));
      stripes := stripes + [DamageRect(0, y, width, h)];
      y := y + h;
    }
    AppendEmpty(stripes);
  }

  /** The stripes number min(n, height), at least one; they span the full width, stay in the frame,
      get no taller downwards, and their heights differ by at most one row. */
  lemma StripesShape(width: u32, height: u32, n: nat)
    ensures var r := StripesOf(width, height, n);
            && |r| == StripeCount(height, n) && AllInFrame(r, width, height)
            && (if n % 0x1_0000_0000 == 0 || height == 0 then |r| == 1
                else |r| <= n % 0x1_0000_0000 && |r| <= height && (|r| == n % 0x1_0000_0000 || |r| == height))
            && (forall i :: 0 <= i < |r| ==> r[i].x == 0 && r[i].width == width)
            && (forall i, j :: 0 <= i < |r| && 0 <= j < |r| ==> r[i].height <= r[j].height + 1)
            && (forall i, j :: 0 <= i <= j < |r| ==> r[j].height <= r[i].height)
  {
    var m := StripeCount(height, n);
    StripesAt(width, height, m, 0);
    var r := StripesOf(width, height, n);
    forall i | 0 <= i < m ensures InFrame(r[i], width, height) {
      assert r[i - 0] == Stripe(width, height, m, i);
      StripeInFrame(height, m, i);
    }
    forall i | 0 <= i < m
      ensures r[i].x == 0 && r[i].width == width && r[i].height == StripeHeight(height, m, i)
    {
      assert r[i - 0] == Stripe(width, height, m, i);
    }
  }

  predicate HasRow(r: DamageRect, y: nat) {
    r.y <= y < r.y + r.height
  }

  /** Every row of the frame lies in exactly one stripe. */
  lemma StripesPartitionRows(width: u32, height: u32, n: nat, y: nat) returns (i: nat)
    requires y < height
    ensures var r := StripesOf(width, height, n);
            i < |r| && forall k :: 0 <= k < |r| ==> (HasRow(r[k], y) <==> k == i)
  {
    var m := StripeCount(height, n);
    StripeTopEnd(height, m);
    i := RowOwner(height, m, y, m);
    StripesAt(width, height, m, 0);
    var r := StripesOf(width, height, n);
    forall k | 0 <= k < m ensures HasRow(r[k], y) <==> k == i {
      assert r[k - 0] == Stripe(width, height, m, k);
      if k < i {
        StripeTopMonotone(height, m, k + 1, i);
      } else if k > i {
        StripeTopMonotone(height, m, i + 1, k);
      }
    }
  }

  lemma {:induction false} RowOwner(height: u32, n: pos, y: nat, k: nat) returns (i: nat)
    requires y < StripeTop(height, n, k)
    ensures i < k && StripeTop(height, n, i) <= y < StripeTop(height, n, i + 1)
  {
    if y >= StripeTop(height, n, k - 1) {
      i := k - 1;
    } else {
      i := RowOwner(height, n, y, k - 1);
    }
  }

  // ----- Stripes and deltas -----

  lemma {:induction false} RowSpansJoin(stride: nat, full: DamageRect, s: DamageRect, row: nat)
    requires full.x == s.x && full.y == 0 && full.width == s.width && s.y + s.height <= full.height && row <= s.height
    ensures RowSpans(stride, s, row, RowSpans(stride, full, s.y + s.height, Nil)) == RowSpans(stride, full, s.y + row, Nil)
    decreases s.height - row
  {
    if row < s.height {
      RowSpansJoin(stride, full, s, row + 1);
      assert RowStart(stride, s, row) == RowStart(stride, full, s.y + row);
    }
  }

  lemma {:induction false} StripeSpansFrom(stride: nat, width: u32, height: u32, n: nat, i: nat)
    requires i <= StripeCount(height, n)
    ensures SpansFrom(stride, StripesOf(width, height, n), i)
            == RowSpans(stride, DamageRect(0, 0, width, height), StripeTop(height, StripeCount(height, n), i), Nil)
    decreases StripeCount(height, n) - i
  {
    var m := StripeCount(height, n);
    StripesAt(width, height, m, 0);
    StripeTopEnd(height, m);
    if i < m {
      var stripes := StripesOf(width, height, n);
      assert stripes[i - 0] == Stripe(width, height, m, i);
      StripeSpansFrom(stride, width, height, n, i + 1);
      StripeInFrame(height, m, i);
      RowSpansJoin(stride, DamageRect(0, 0, width, height), Stripe(width, height, m, i), 0);
    }
  }

  /** The stripes visit the bytes of the frame in the same order as the single full rectangle,
      so the delta over the stripes is byte for byte the delta over the full rectangle. */
  lemma StripesSpans(stride: nat, width: u32, height: u32, n: nat)
    ensures SpansOf(stride, StripesOf(width, height, n)) == SpansOf(stride, [DamageRect(0, 0, width, height)])
  {
    var full := DamageRect(0, 0, width, height);
    StripeSpansFrom(stride, width, height, n, 0);
    assert SpansFrom(stride, [full], 1) == Nil;
  }

  lemma StripesEncodeAsFull(cur: seq<byte>, prev: seq<byte>, stride: nat, width: u32, height: u32, n: nat)
    requires |cur| == |prev| == stride * height && 4 * width <= stride
    ensures var stripes, full := StripesOf(width, height, n), [DamageRect(0, 0, width, height)];
            && Fit(SpansOf(stride, stripes), |cur|) && Fit(SpansOf(stride, full), |cur|)
            && Encode(cur, prev, stride, stripes) == Encode(cur, prev, stride, full)
  {
    StripesSpans(stride, width, height, n);
    SpansFit(stride, [DamageRect(0, 0, width, height)], 0, width, height);
  }

  /** Every visible byte of the frame is covered by the stripes. */
  lemma StripesCover(stride: nat, width: u32, height: u32, n: nat, y: nat, c: nat)
    requires 4 * width <= stride && y < height && c < 4 * width
    ensures Covered(SpansOf(stride, StripesOf(width, height, n)), y * stride + c)
  {
    var full := DamageRect(0, 0, width, height);
    StripesSpans(stride, width, height, n);
    SpansCover(stride, [full], width, height, y, c);
    assert InRect([full][0], y, c);
  }
}
