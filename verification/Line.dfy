/** Drawing a line with integer error terms (EfiGraph.c, lines 282-326). */
module Line {
  import opened Bytes

  datatype Point = Point(x: int, y: int)

  function Abs(x: int): nat {
    if x < 0 then -x else x
  }

  function Max(a: nat, b: nat): nat {
    if a >= b then a else b
  }

  function Rounded(n: nat, d: nat): nat
    requires d > 0
  {
    (2 * n + d) / (2 * d)
  }

  /** `steps` steps from one coordinate in the direction of another. */
  function Toward(from: int, to: int, steps: nat): int {
    if from < to then from + steps else from - steps
  }

  /** The steps along each axis at point k of the ideal line: k along the longer axis, and along the other the
      nearest to k times the slope, halves rounded up. */
  function StepsX(w: nat, h: nat, k: nat): nat {
    if w >= h then k else Rounded(k * w, h)
  }

  function StepsY(w: nat, h: nat, k: nat): nat {
    if w >= h then (if w == 0 then 0 else Rounded(k * h, w)) else k
  }

  /** Point k of the line, without regard to any other point. */
  function IdealPoint(p: Point, q: Point, k: nat): Point {
    var w, h := Abs(q.x - p.x), Abs(q.y - p.y);
    Point(Toward(p.x, q.x, StepsX(w, h, k)), Toward(p.y, q.y, StepsY(w, h, k)))
  }

  function IdealLine(p: Point, q: Point): (l: seq<Point>)
    ensures |l| == Max(Abs(q.x - p.x), Abs(q.y - p.y)) + 1
  {
    seq(Max(Abs(q.x - p.x), Abs(q.y - p.y)) + 1, k requires 0 <= k => IdealPoint(p, q, k))
  }

  lemma IdealLength(p: Point, q: Point)
    ensures |IdealLine(p, q)| == Max(Abs(q.x - p.x), Abs(q.y - p.y)) + 1
  {
  }

  // ---- what the ideal line is ----

  lemma RoundedNear(n: nat, d: nat)
    requires d > 0
    ensures 0 < 2 * (Rounded(n, d) * d - n) + d <= 2 * d
  {
    var r := Rounded(n, d);
    assert 2 * n + d == 2 * d * r + (2 * n + d) % (2 * d);
    assert 2 * d * r == 2 * (r * d);
  }

  lemma RoundedUnique(n: nat, d: nat, r: nat)
    requires d > 0 && 0 < 2 * (r * d - n) + d <= 2 * d
    ensures r == Rounded(n, d)
  {
    RoundedNear(n, d);
    var s := Rounded(n, d);
    assert -2 * d < 2 * (r * d - s * d) < 2 * d;
    assert (r - s) * d == r * d - s * d;
    assert (s - r) * d == s * d - r * d;
    if r > s {
      MulAtLeast(r - s, d);
    } else if r < s {
      MulAtLeast(s - r, d);
    }
  }

  lemma MulAtLeast(n: nat, d: nat)
    requires n >= 1
    ensures n * d >= d
  {
  }

  /** The deviation of every point from the exact line is at most half a step of the longer axis. */
  lemma IdealNear(w: nat, h: nat, k: nat)
    requires k <= Max(w, h)
    ensures 2 * Abs(StepsY(w, h, k) * w - StepsX(w, h, k) * h) <= Max(w, h)
  {
    if w >= h {
      if w > 0 {
        RoundedNear(k * h, w);
      }
    } else {
      RoundedNear(k * w, h);
    }
  }

  lemma RoundedMultiple(n: nat, d: nat)
    requires d > 0
    ensures Rounded(n * d, d) == n && Rounded(d * n, d) == n
  {
    assert n * d == d * n;
    RoundedUnique(n * d, d, n);
  }

  /** The line begins and ends where it should. */
  lemma IdealEnds(p: Point, q: Point)
    ensures IdealLine(p, q)[0] == p
    ensures IdealLine(p, q)[Max(Abs(q.x - p.x), Abs(q.y - p.y))] == q
  {
    hide Rounded;
    var w, h := Abs(q.x - p.x), Abs(q.y - p.y);
    if w >= h {
      if w > 0 {
        RoundedMultiple(0, w);
        RoundedMultiple(h, w);
      }
    } else {
      RoundedMultiple(0, h);
      RoundedMultiple(w, h);
    }
  }

  lemma RoundedStep(n: nat, d: nat, m: nat)
    requires d > 0 && m <= d
    ensures Rounded(n, d) <= Rounded(n + m, d) <= Rounded(n, d) + 1
  {
    var r, s := Rounded(n, d), Rounded(n + m, d);
    RoundedNear(n, d);
    RoundedNear(n + m, d);
    assert -1 * d < (s - r) * d < 2 * d by { assert (s - r) * d == s * d - r * d; }
    assert (r - s) * d + (s - r) * d == 0;
    if s < r {
      MulAtLeast(r - s, d);
    } else if s > r + 1 {
      assert (s - r) * d == (s - r - 1) * d + d;
      MulAtLeast(s - r - 1, d);
    }
  }

  /** From one point to the next the line moves by exactly one along its longer axis and by at most one along the
      other. */
  lemma IdealConnected(p: Point, q: Point, k: nat)
    requires k < Max(Abs(q.x - p.x), Abs(q.y - p.y))
    ensures var s, t := IdealPoint(p, q, k), IdealPoint(p, q, k + 1);
      var w, h := Abs(q.x - p.x), Abs(q.y - p.y);
      Abs(t.x - s.x) <= 1 && Abs(t.y - s.y) <= 1 && (if w >= h then Abs(t.x - s.x) == 1 else Abs(t.y - s.y) == 1)
  {
    var w, h := Abs(q.x - p.x), Abs(q.y - p.y);
    if w >= h {
      assert (k + 1) * h == k * h + h;
      RoundedStep(k * h, w, h);
    } else {
      assert (k + 1) * w == k * w + w;
      RoundedStep(k * w, h, w);
    }
  }

  // ---- the algorithm ----

  /** A mask shifted right i times. */
  function Shifted(mask: u32, i: nat): u32 {
    if i == 0 then mask else Shifted(mask, i - 1) / 2
  }

  predicate Dash(mask: u32, k: nat) {
    Shifted(mask, k % 32) % 2 == 1
  }

  /** The points among the first n at which the dash pattern draws. */
  function Dashed(l: seq<Point>, mask: u32, n: nat): seq<Point>
    requires n <= |l|
  {
    if n == 0 then [] else Dashed(l, mask, n - 1) + if Dash(mask, n - 1) then [l[n - 1]] else []
  }

  /** The word whose bits are these, the lowest first. */
  function WordOf(bits: seq<bool>): nat {
    if bits == [] then 0 else (if bits[0] then 1 else 0) + 2 * WordOf(bits[1..])
  }

  lemma {:induction false} WordBelow(bits: seq<bool>)
    requires |bits| == 32
    ensures WordOf(bits) < TWO_32
  {
    Power32();
    BitsBelow(bits, 32);
  }

  lemma Power32()
    ensures Power2(32) == TWO_32
  {
    assert Power2(8) == 256;
    assert Power2(16) == 65536;
    assert Power2(24) == 16777216;
  }

  lemma {:induction false} BitsBelow(bits: seq<bool>, n: nat)
    requires |bits| == n
    ensures WordOf(bits) < Power2(n)
  {
    if n > 0 {
      BitsBelow(bits[1..], n - 1);
    }
  }

  lemma {:induction false} ShiftedBits(bits: seq<bool>, i: nat)
    requires |bits| == 32 && i <= 32
    ensures WordOf(bits) < TWO_32 && Shifted(WordOf(bits), i) == WordOf(bits[i..])
  {
    WordBelow(bits);
    if i == 0 {
      assert bits[0..] == bits;
    } else {
      ShiftedBits(bits, i - 1);
      assert bits[i - 1..][1..] == bits[i..];
    }
  }

  /** Point k is drawn when bit k of the pattern, counted from the lowest and beginning anew after 32, is set. */
  lemma DashIsBit(bits: seq<bool>, k: nat)
    requires |bits| == 32
    ensures WordOf(bits) < TWO_32 && (Dash(WordOf(bits), k) <==> bits[k % 32])
  {
    ShiftedBits(bits, k % 32);
  }

  /** Every pattern has its bits. */
  lemma {:induction false} BitsOfWord(word: nat, n: nat) returns (bits: seq<bool>)
    requires word < Power2(n)
    ensures |bits| == n && WordOf(bits) == word
  {
    if n == 0 {
      bits := [];
    } else {
      var rest := BitsOfWord(word / 2, n - 1);
      bits := [word % 2 == 1] + rest;
      assert bits[1..] == rest;
    }
  }

  predicate InInt32(x: int) {
    -0x8000_0000 <= x < 0x8000_0000
  }

  type i32 = x: int | -0x8000_0000 <= x < 0x8000_0000

  /** The state of the loop after a steps along x and b along y: the error term, and how near the line is. */
  predicate OnTrack(w: nat, h: nat, a: nat, b: nat, err: int) {
    var d := b * w - a * h;
    && err == d + w - h && a <= w && b <= h
    && (if w >= h then 0 <= 2 * d + w <= 2 * w && (w > 0 ==> 0 < 2 * d + w) else 0 <= 2 * d + h < 2 * h)
  }

  /** On the way, the longer axis is stepped every time and the other one only while it has steps left; at the end of
      the longer axis, the other has ended too. */
  lemma Progress(w: nat, h: nat, a: nat, b: nat, err: int)
    requires OnTrack(w, h, a, b, err)
    ensures w >= h && a < w ==> 2 * err + h >= 0 && (2 * err <= w ==> b < h)
    ensures w >= h && a == w ==> b == h && 2 * err + h >= 0
    ensures w < h && b < h ==> 2 * err <= w && (2 * err + h >= 0 ==> a < w)
    ensures w < h && b == h ==> a == w && 2 * err <= w
  {
    var d := b * w - a * h;
    if w >= h {
      if a == w {
        assert d == (b - h) * w by { assert (b - h) * w == b * w - h * w; }
        assert (h - b) * w + d == 0;
        if b < h {
          MulAtLeast(h - b, w);
        }
      } else if b == h {
        assert d == h * (w - a) by { assert h * (w - a) == h * w - h * a; }
        assert h * (w - a) >= h by { MulAtLeast(w - a, h); }
      }
    } else {
      if b == h {
        assert d == h * (w - a) by { assert h * (w - a) == h * w - h * a; }
        if a < w {
          MulAtLeast(w - a, h);
        }
      } else if a == w {
        assert d == -(w * (h - b)) by { assert w * (h - b) == w * h - w * b; }
        MulAtLeast(h - b, w);
      }
    }
  }

  lemma NextOnTrack(w: nat, h: nat, a: nat, b: nat, err: int)
    requires OnTrack(w, h, a, b, err) && (if w >= h then a < w else b < h)
    ensures var x, y := if 2 * err + h >= 0 then 1 else 0, if 2 * err <= w then 1 else 0;
      OnTrack(w, h, a + x, b + y, err - (if x == 1 then h else 0) + (if y == 1 then w else 0))
  {
    Progress(w, h, a, b, err);
    assert (b + 1) * w == b * w + w && (a + 1) * h == a * h + h;
  }

  /** Being on track means being at an ideal point. */
  lemma TrackIsIdeal(w: nat, h: nat, a: nat, b: nat, err: int)
    requires OnTrack(w, h, a, b, err)
    ensures var k := if w >= h then a else b; a == StepsX(w, h, k) && b == StepsY(w, h, k)
  {
    if w >= h {
      if w > 0 {
        RoundedUnique(a * h, w, b);
      }
    } else {
      RoundedUnique(b * w, h, a);
    }
  }

  /** The error term at point k. */
  function ErrAt(w: nat, h: nat, k: nat): int {
    StepsY(w, h, k) * w - StepsX(w, h, k) * h + w - h
  }

  /** What is computed in 32 bits at point k: twice the error term, and the term after a step along x. */
  predicate FitsAt(w: nat, h: nat, k: nat) {
    && InInt32(2 * ErrAt(w, h, k))
    && (k < Max(w, h) && 2 * ErrAt(w, h, k) + h >= 0 ==> InInt32(ErrAt(w, h, k) - h))
  }

  /** No term of the line leaves 32 bits. */
  ghost predicate TermsFit(w: nat, h: nat) {
    InInt32(w) && InInt32(h) && forall k: nat :: k <= Max(w, h) ==> FitsAt(w, h, k)
  }

  /** Extents below a third of the range are always good; */
  lemma ShortFits(w: nat, h: nat)
    requires 3 * Max(w, h) < 0x8000_0000
    ensures TermsFit(w, h)
  {
    hide StepsX, StepsY;
    forall k: nat | k <= Max(w, h) ensures FitsAt(w, h, k) {
      IdealNear(w, h, k);
    }
  }

  /** a horizontal line is good exactly up to half of it. */
  lemma HorizontalFits(w: nat)
    ensures TermsFit(w, 0) <==> w < 0x4000_0000
  {
    hide ErrAt;
    forall k: nat | k <= w ensures FitsAt(w, 0, k) <==> w < 0x4000_0000 {
      FlatErr(w, k);
    }
    assert TermsFit(w, 0) ==> FitsAt(w, 0, 0);
  }

  lemma FlatErr(w: nat, k: nat)
    ensures ErrAt(w, 0, k) == w
  {
    if w > 0 {
      RoundedMultiple(0, w);
      assert k * 0 == 0 * w == 0;
    }
  }

  /** On the way the error term is the one of its point, so what the loop computes fits. */
  lemma TrackFits(w: nat, h: nat, a: nat, b: nat, err: int)
    requires OnTrack(w, h, a, b, err) && TermsFit(w, h)
    ensures var k := if w >= h then a else b;
      InInt32(err) && InInt32(2 * err) && (k < Max(w, h) && 2 * err + h >= 0 ==> InInt32(err - h))
  {
    var k := if w >= h then a else b;
    TrackIsIdeal(w, h, a, b, err);
    hide StepsX, StepsY;
    assert err == ErrAt(w, h, k) && FitsAt(w, h, k);
  }

  lemma AtIdeal(p: Point, q: Point, a: nat, b: nat, err: int)
    requires OnTrack(Abs(q.x - p.x), Abs(q.y - p.y), a, b, err)
    ensures var k := if Abs(q.x - p.x) >= Abs(q.y - p.y) then a else b;
      k < |IdealLine(p, q)| && IdealLine(p, q)[k] == Point(Toward(p.x, q.x, a), Toward(p.y, q.y, b))
  {
    TrackIsIdeal(Abs(q.x - p.x), Abs(q.y - p.y), a, b, err);
  }

  lemma Along(from: int, to: int, steps: nat)
    requires steps <= Abs(to - from)
    ensures Toward(from, to, steps) == to <==> steps == Abs(to - from)
    ensures Toward(from, to, steps) + (if from < to then 1 else -1) == Toward(from, to, steps + 1)
  {
  }

  /** The dash pattern is rotated by shifting it out and loading it again after 32 points. */
  predicate DashAt(mask: u32, dmask: u32, cmask: int, k: nat) {
    dmask == Shifted(mask, k % 32) && cmask == 32 - k % 32
  }

  lemma TickNext(mask: u32, k: nat)
    ensures Shifted(mask, (k + 1) % 32) == if k % 32 == 31 then mask else Shifted(mask, k % 32) / 2
    ensures (k + 1) % 32 == if k % 32 == 31 then 0 else k % 32 + 1
  {
    Next32(k);
  }

  lemma Next32(k: nat)
    ensures (k + 1) % 32 == if k % 32 == 31 then 0 else k % 32 + 1
  {
  }

  lemma DashedNext(l: seq<Point>, mask: u32, n: nat)
    requires n < |l|
    ensures Dashed(l, mask, 0) == []
    ensures Dashed(l, mask, n + 1) == Dashed(l, mask, n) + if Dash(mask, n) then [l[n]] else []
  {
  }

  method Tick(mask: u32, dmask: u32, cmask: int, ghost k: nat) returns (on: bool, dmask': u32, cmask': int)
    requires DashAt(mask, dmask, cmask, k)
    ensures on == Dash(mask, k) && DashAt(mask, dmask', cmask', k + 1)
  {
    TickNext(mask, k);
    hide Shifted;
    on := dmask % 2 == 1;
    dmask' := dmask / 2;
    cmask' := cmask - 1;
    if cmask' == 0 {
      dmask' := mask;
      cmask' := 32;
    }
  }

  /** What the two comparisons of the loop do at a point on the line: end it at its end, and step to the next point
      before. */
  lemma Turn(w: nat, h: nat, a: nat, b: nat, err: int)
    requires OnTrack(w, h, a, b, err)
    ensures a <= w && b <= h
    ensures var x, y := 2 * err + h >= 0, 2 * err <= w;
      if (w >= h && a == w) || (w < h && b == h) then a == w && b == h && (x || y)
      else
        (x ==> a < w) && (y ==> b < h) && (w >= h ==> x) && (w < h ==> y)
        && OnTrack(w, h, a + (if x then 1 else 0), b + (if y then 1 else 0),
                   err - (if x then h else 0) + (if y then w else 0))
  {
    Progress(w, h, a, b, err);
    if (w >= h && a < w) || (w < h && b < h) {
      NextOnTrack(w, h, a, b, err);
    }
  }

  /** The error term after a turn fits as well. */
  lemma TurnFits(w: nat, h: nat, a: nat, b: nat, err: int)
    requires OnTrack(w, h, a, b, err) && TermsFit(w, h)
    requires if w >= h then a < w else b < h
    ensures InInt32(err - (if 2 * err + h >= 0 then h else 0) + (if 2 * err <= w then w else 0))
  {
    hide OnTrack, TermsFit;
    NextOnTrack(w, h, a, b, err);
    var x, y := if 2 * err + h >= 0 then 1 else 0, if 2 * err <= w then 1 else 0;
    TrackFits(w, h, a + x, b + y, err - (if x == 1 then h else 0) + (if y == 1 then w else 0));
  }

  /** The two comparisons, and the steps and the updates of the error term they guard. */
  method Advance(p: Point, q: Point, dx: i32, dy: i32, err: i32, x0: int, y0: int, ghost a: nat, ghost b: nat)
    returns (done: bool, err': i32, x0': int, y0': int, ghost a': nat, ghost b': nat)
    requires dx == Abs(q.x - p.x) && dy + Abs(q.y - p.y) == 0 && TermsFit(Abs(q.x - p.x), Abs(q.y - p.y))
    requires OnTrack(Abs(q.x - p.x), Abs(q.y - p.y), a, b, err)
    requires x0 == Toward(p.x, q.x, a) && y0 == Toward(p.y, q.y, b)
    ensures done <==> (if dx >= -dy then a == dx else b == -dy)
    ensures !done ==>
      OnTrack(Abs(q.x - p.x), Abs(q.y - p.y), a', b', err') && (if dx >= -dy then a' == a + 1 else b' == b + 1)
      && x0' == Toward(p.x, q.x, a') && y0' == Toward(p.y, q.y, b')
  {
    ghost var w: nat, h: nat := Abs(q.x - p.x), Abs(q.y - p.y);
    hide OnTrack, Toward, Abs, TermsFit;
    TrackFits(w, h, a, b, err);
    Turn(w, h, a, b, err);
    if (if w >= h then a < w else b < h) {
      TurnFits(w, h, a, b, err);
    }
    Along(p.x, q.x, a);
    Along(p.y, q.y, b);
    done, err', x0', y0', a', b' := true, err, x0, y0, a, b;
    var e2: i32 := 2 * err;
    if e2 >= dy {
      if x0 == q.x {
        return;
      }
      err', x0', a' := err' + dy, x0 + (if p.x < q.x then 1 else -1), a + 1;
    }
    if e2 <= dx {
      if y0 == q.y {
        return;
      }
      err', y0', b' := err' + dx, y0 + (if p.y < q.y then 1 else -1), b + 1;
    }
    done := false;
  }

  /** The loop is at point k of the line, after a steps along x and b along y. */
  ghost predicate AtPoint(p: Point, q: Point, k: nat, a: nat, b: nat, err: int, x0: int, y0: int) {
    && OnTrack(Abs(q.x - p.x), Abs(q.y - p.y), a, b, err) && x0 == Toward(p.x, q.x, a) && y0 == Toward(p.y, q.y, b)
    && k == if Abs(q.x - p.x) >= Abs(q.y - p.y) then a else b
  }

  lemma PointIsIdeal(p: Point, q: Point, k: nat, a: nat, b: nat, err: int, x0: int, y0: int)
    requires AtPoint(p, q, k, a, b, err, x0, y0)
    ensures k < |IdealLine(p, q)| && IdealLine(p, q)[k] == Point(x0, y0)
  {
    hide OnTrack, IdealLine, Toward;
    AtIdeal(p, q, a, b, err);
  }

  /** The rest of a turn of the loop: on to the next point, or done at the last. */
  method Next(p: Point, q: Point, dx: i32, dy: i32, err: i32, x0: int, y0: int, ghost k: nat, ghost a: nat,
              ghost b: nat)
    returns (done: bool, err': i32, x0': int, y0': int, ghost a': nat, ghost b': nat)
    requires dx == Abs(q.x - p.x) && dy + Abs(q.y - p.y) == 0 && TermsFit(Abs(q.x - p.x), Abs(q.y - p.y))
    requires AtPoint(p, q, k, a, b, err, x0, y0)
    ensures done <==> k + 1 == |IdealLine(p, q)|
    ensures !done ==> AtPoint(p, q, k + 1, a', b', err', x0', y0')
  {
    hide OnTrack, IdealLine, Toward, Abs, TermsFit;
    IdealLength(p, q);
    done, err', x0', y0', a', b' := Advance(p, q, dx, dy, err, x0, y0, a, b);
  }

  /** BltLine: the points at which BltPoint is called, for a line none of whose terms overflows. */
  method BltLine(p: Point, q: Point, dashLine: u32) returns (drawn: seq<Point>)
    requires TermsFit(Abs(q.x - p.x), Abs(q.y - p.y))
    ensures drawn == Dashed(IdealLine(p, q), dashLine, |IdealLine(p, q)|)
  {
    var w: i32, h: i32 := Abs(q.x - p.x), Abs(q.y - p.y);
    StartFits(w, h);
    var dx: i32, dy: i32 := w, -h;
    var err: i32 := dx + dy;
    var dmask: u32, cmask := dashLine, 32;
    var x0, y0 := p.x, p.y;
    ghost var l := IdealLine(p, q);
    ghost var k: nat, a: nat, b: nat := 0, 0, 0;
    drawn := [];
    AtStart(p, q, dashLine);
    hide *;
    DashedNext(l, dashLine, 0);
    PointIsIdeal(p, q, k, a, b, err, x0, y0);
    var done := false;
    while !done
      invariant if done then k == |l| else k < |l| && AtPoint(p, q, k, a, b, err, x0, y0)
      invariant drawn == Dashed(l, dashLine, k)
      invariant DashAt(dashLine, dmask, cmask, k)
      decreases |l| - k
    {
      PointIsIdeal(p, q, k, a, b, err, x0, y0);
      DashedNext(l, dashLine, k);
      var on;
      on, dmask, cmask := Tick(dashLine, dmask, cmask, k);
      if on {
        drawn := drawn + [Point(x0, y0)];
      }
      done, err, x0, y0, a, b := Next(p, q, dx, dy, err, x0, y0, k, a, b);
      k := k + 1;
      if !done {
        PointIsIdeal(p, q, k, a, b, err, x0, y0);
      }
    }
  }

  lemma StartFits(w: nat, h: nat)
    requires TermsFit(w, h)
    ensures InInt32(0 - h) && InInt32(w - h)
  {
  }

  lemma AtStart(p: Point, q: Point, dashLine: u32)
    ensures AtPoint(p, q, 0, 0, 0, Abs(q.x - p.x) - Abs(q.y - p.y), p.x, p.y)
    ensures DashAt(dashLine, dashLine, 32, 0) && |IdealLine(p, q)| > 0
  {
  }
}
