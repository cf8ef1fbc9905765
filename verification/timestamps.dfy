/**
 Timestamps on their way from the camera to the publisher: capture nanoseconds to
 encoder ticks, back to nanoseconds, then relative to the first packet.
 */
module Timestamps {
  import opened Common
  import opened Arithmetic

  const NS := 1_000_000_000
  const NOPTS := -0x8000_0000_0000_0000

  /** a*b/c to the nearest integer, halves away from zero, as av_rescale_q rounds. */
  function Rescale(a: int, b: nat, c: nat): int
    requires c > 0
  {
    if a >= 0 then (a * b + c / 2) / c else -((-a * b + c / 2) / c)
  }

  function ToTicks(ns: int, fps: nat): int { Rescale(ns, fps, NS) }

  function ToNs(ticks: int, fps: nat): int
    requires fps > 0
  {
    if ticks == NOPTS then 0 else Rescale(ticks, NS, fps)
  }

  /** The packet timestamp of a frame captured at `ns`. */
  function PacketPts(ns: int, fps: nat): int
    requires fps > 0
  {
    ToNs(ToTicks(ns, fps), fps)
  }

  // ---- rounding ----

  /** The result is within half a unit of the exact quotient. */
  lemma RescaleIsNearest(a: nat, b: nat, c: nat)
    requires c > 0
    ensures Rescale(a, b, c) >= 0
    ensures 2 * Abs(Rescale(a, b, c) * c - a * b) <= c
  {
    FloorBounds(a * b + c / 2, c);
    var r := (a * b + c / 2) / c;
    assert a * b >= 0;
    assert c * r == r * c;
    if r < 0 { LessTimes(r + 1, 0, c); }
  }

  /** A tie, half a unit past k, goes to k + 1; negative values mirror positive ones, so
      halves go away from zero; and a packet without a timestamp is at zero. */
  lemma HalvesGoAwayFromZero(a: nat, b: nat, c: nat, k: nat)
    requires c > 0
    ensures 2 * (a * b) == (2 * k + 1) * c ==> Rescale(a, b, c) == k + 1
    ensures Rescale(-(a as int), b, c) == -Rescale(a, b, c)
    ensures b > 0 ==> ToNs(NOPTS, b) == 0
  {
    if 2 * (a * b) == (2 * k + 1) * c { TieGoesUp(a * b, c, k); }
    RescaleIsNearest(a, b, c);
  }

  lemma TieGoesUp(n: int, c: nat, k: nat)
    requires c > 0 && 2 * n == (2 * k + 1) * c
    ensures (n + c / 2) / c == k + 1
  {
    assert (2 * k + 1) * c == 2 * (k * c) + c && (k + 1) * c == k * c + c;
    FloorBounds(n + c / 2, c);
    var r := (n + c / 2) / c;
    assert c * r == r * c && n + c / 2 == (k + 1) * c;
    if r < k + 1 { LessTimes(r + 1, k + 1, c); } else if r > k + 1 { LessTimes(k + 2, r, c); }
  }

  lemma RescaleMonotone(a: nat, a': nat, b: nat, c: nat)
    requires c > 0 && a <= a'
    ensures Rescale(a, b, c) <= Rescale(a', b, c)
  {
    var r, r' := Rescale(a, b, c), Rescale(a', b, c);
    LessTimes(a, a', b);
    FloorBounds(a * b + c / 2, c);
    FloorBounds(a' * b + c / 2, c);
    if r' < r { LessTimes(r' + 1, r, c); }
  }

  // ---- there and back ----

  /** Converting to ticks and back moves a timestamp by at most half a frame period
      plus half a nanosecond, and keeps the order. */
  lemma RoundTripError(x: nat, fps: nat)
    requires fps > 0
    ensures PacketPts(x, fps) >= 0
    ensures 2 * (fps * Abs(PacketPts(x, fps) - x)) <= NS + fps
  {
    var t := ToTicks(x, fps);
    RescaleIsNearest(x, fps, NS);
    RescaleIsNearest(t, NS, fps);
    var y := PacketPts(x, fps);
    assert Abs(y * fps - x * fps) <= Abs(y * fps - t * NS) + Abs(t * NS - x * fps);
    TimesAbs(y, x, fps);
  }

  lemma RoundTripMonotone(x: nat, x': nat, fps: nat)
    requires fps > 0 && x <= x'
    ensures 0 <= ToTicks(x, fps) <= ToTicks(x', fps)
    ensures PacketPts(x, fps) <= PacketPts(x', fps)
  {
    RescaleIsNearest(x, fps, NS);
    RescaleMonotone(x, x', fps, NS);
    RescaleMonotone(ToTicks(x, fps), ToTicks(x', fps), NS, fps);
  }

  /** Ticks survive the trip to nanoseconds and back unchanged, at any frame rate of at
      most one frame per nanosecond. */
  lemma TicksSurvive(k: nat, fps: nat)
    requires 0 < fps <= NS
    ensures ToTicks(ToNs(k, fps), fps) == k
  {
    var y := ToNs(k, fps);
    RescaleIsNearest(k, NS, fps);
    RescaleIsNearest(y, fps, NS);
    var r := ToTicks(y, fps);
    FloorBounds(y * fps + NS / 2, NS);
    if r < k { LessTimes(r + 1, k, NS); } else if r > k { LessTimes(k + 1, r, NS); }
    if fps == NS { assert y == k by { ExactQuotient(k, NS); } }
  }

  /** If they all survive, no two ticks share a nanosecond, so tick k takes at least k. */
  lemma {:induction false} SurvivorsSpread(k: nat, fps: nat)
    requires fps > 0 && forall n: nat :: ToTicks(ToNs(n, fps), fps) == n
    ensures ToNs(k, fps) >= k
    decreases k
  {
    if k > 0 {
      SurvivorsSpread(k - 1, fps);
      RescaleMonotone(k - 1, k, NS, fps);
      assert ToTicks(ToNs(k - 1, fps), fps) != ToTicks(ToNs(k, fps), fps);
    } else {
      RescaleIsNearest(0, NS, fps);
    }
  }

  /** So every tick survives exactly at the frame rates of at most one frame per
      nanosecond. */
  lemma TicksSurviveExactly(fps: nat)
    requires fps > 0
    ensures (forall k: nat :: ToTicks(ToNs(k, fps), fps) == k) <==> fps <= NS
  {
    if fps <= NS {
      forall k: nat ensures ToTicks(ToNs(k, fps), fps) == k { TicksSurvive(k, fps); }
    } else if forall k: nat :: ToTicks(ToNs(k, fps), fps) == k {
      ExactQuotient(NS, fps);
      assert fps * NS == NS * fps && ToNs(fps, fps) == NS;
      SurvivorsSpread(fps, fps);
    }
  }

  /** Frames at least one frame period apart get different ticks, in order. */
  lemma SpacedFramesGetDistinctTicks(x: nat, x': nat, fps: nat)
    requires x <= x' && (x' - x) * fps >= NS
    ensures ToTicks(x, fps) + 1 <= ToTicks(x', fps)
  {
    assert x' * fps == x * fps + (x' - x) * fps;
    FloorBounds(x * fps + NS / 2, NS);
    FloorBounds(x' * fps + NS / 2, NS);
    var r, r' := ToTicks(x, fps), ToTicks(x', fps);
    if r' <= r { LessTimes(r', r, NS); }
  }

  // ---- relative to the first packet ----

  /** The unsigned 64-bit difference the publisher computes. */
  function Relative(pts: int, start: int): nat { (pts - start) % SPAN64 }

  /** What pushPacket stamps on a stream of packets; `start` is streamStartPts_. */
  function Published(start: int, pts: seq<int>): seq<nat>
    decreases |pts|
  {
    if pts == [] then []
    else
      var s := if start < 0 then pts[0] else start;
      [Relative(pts[0], s)] + Published(s, pts[1..])
  }

  predicate Int64Nat(pts: seq<int>) { forall i :: 0 <= i < |pts| ==> 0 <= pts[i] < INT64_LIMIT }

  lemma {:induction false} PublishedFrom(start: nat, pts: seq<int>)
    ensures |Published(start, pts)| == |pts|
    ensures forall i :: 0 <= i < |pts| ==> Published(start, pts)[i] == Relative(pts[i], start)
    decreases |pts|
  {
    if pts != [] { PublishedFrom(start, pts[1..]); }
  }

  lemma PublishedIsRelativeToFirst(pts: seq<int>)
    requires Int64Nat(pts)
    ensures |Published(-1, pts)| == |pts|
    ensures forall i :: 0 <= i < |pts| ==> Published(-1, pts)[i] == Relative(pts[i], pts[0])
  {
    if pts != [] { PublishedFrom(pts[0], pts[1..]); }
  }

  /** The unsigned difference of two 63-bit timestamps is the true one, or off by 2^64. */
  lemma RelativeValue(pts: int, start: int)
    requires 0 <= pts < INT64_LIMIT && 0 <= start < INT64_LIMIT
    ensures Relative(pts, start) == if start <= pts then pts - start else pts - start + SPAN64
  {
    var d := pts - start;
    if d < 0 { assert (d + SPAN64) % SPAN64 == d + SPAN64; }
  }

  /** A published timestamp is the true difference exactly when its packet is not
      earlier than the first; otherwise it is off by 2^64. */
  lemma WrapsExactlyWhenEarlier(pts: seq<int>, i: nat)
    requires Int64Nat(pts) && i < |pts|
    ensures |Published(-1, pts)| == |pts|
    ensures Published(-1, pts)[i] == pts[i] - pts[0] <==> pts[0] <= pts[i]
    ensures pts[0] <= pts[i] ==> Published(-1, pts)[i] < INT64_LIMIT
    ensures pts[i] < pts[0] ==> Published(-1, pts)[i] == pts[i] - pts[0] + SPAN64 > INT64_LIMIT
  {
    PublishedIsRelativeToFirst(pts);
    RelativeValue(pts[i], pts[0]);
  }

  predicate Ordered(xs: seq<int>) {
    && (forall i :: 0 <= i < |xs| ==> 0 <= xs[i])
    && (forall i, j :: 0 <= i < j < |xs| ==> xs[i] <= xs[j])
  }

  function Packets(xs: seq<int>, fps: nat): seq<int>
    requires fps > 0
  {
    seq(|xs|, i requires 0 <= i < |xs| => PacketPts(xs[i], fps))
  }

  /** For frames captured in nondecreasing time order the published timestamps start at
      zero, never wrap, never decrease, and differ from the capture spacing by at most
      one frame period plus a nanosecond. */
  lemma PublishedFollowsCapture(xs: seq<int>, fps: nat, i: nat, j: nat)
    requires fps > 0 && Ordered(xs) && Int64Nat(Packets(xs, fps)) && i <= j < |xs|
    ensures var out := Published(-1, Packets(xs, fps));
            && |out| == |xs| && out[0] == 0
            && out[i] <= out[j] < INT64_LIMIT
            && fps * Abs(out[j] - (xs[j] - xs[0])) <= NS + fps
  {
    var pts := Packets(xs, fps);
    var out := Published(-1, pts);
    RoundTripMonotone(xs[0], xs[i], fps);
    RoundTripMonotone(xs[i], xs[j], fps);
    WrapsExactlyWhenEarlier(pts, 0);
    WrapsExactlyWhenEarlier(pts, i);
    WrapsExactlyWhenEarlier(pts, j);
    RoundTripError(xs[0], fps);
    RoundTripError(xs[j], fps);
    AbsSpreads(pts[j] - xs[j], pts[0] - xs[0], fps);
  }

  /** When the first frame handed to the encoder is left over from an earlier run and was
      captured more than a frame period (and a nanosecond) after frame i on that clock,
      frame i's published timestamp wraps. */
  lemma StaleFirstFrameWraps(xs: seq<int>, fps: nat, i: nat)
    requires fps > 0 && i < |xs| && (forall j :: 0 <= j < |xs| ==> 0 <= xs[j]) && Int64Nat(Packets(xs, fps))
    requires (xs[0] - xs[i]) * fps > NS + fps
    ensures |Published(-1, Packets(xs, fps))| == |xs| && Published(-1, Packets(xs, fps))[i] > INT64_LIMIT
  {
    var pts := Packets(xs, fps);
    RoundTripError(xs[0], fps);
    RoundTripError(xs[i], fps);
    GapOutlastsDrift(xs[0] - xs[i], pts[0] - xs[0], pts[i] - xs[i], fps);
    WrapsExactlyWhenEarlier(pts, i);
  }

  lemma GapOutlastsDrift(d: int, a: int, b: int, f: nat)
    requires d * f > NS + f
    requires 2 * (f * Abs(a)) <= NS + f && 2 * (f * Abs(b)) <= NS + f
    ensures d + (a - b) > 0
  {
    AbsSpreads(a, b, f);
    if d <= Abs(a - b) { LessTimes(d, Abs(a - b), f); }
  }
}
