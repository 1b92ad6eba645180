/** The terminal palette adapter: colours changed as little as needed to keep a
    7:1 contrast, in RGB and on the fixed part of the 256-colour table. */
module Palette {

  type component = x: int | 0 <= x < 256

  datatype Rgb = Rgb(r: component, g: component, b: component)

  const BLACK := Rgb(0, 0, 0)
  const WHITE := Rgb(255, 255, 255)

  // ---- Contrast -------------------------------------------------------------------

  /** The transfer curve of a colour component; only what is used of it. */
  predicate Curve(linear: component -> real) {
    linear(0) == 0.0 && linear(255) == 1.0 && forall c: component :: linear(c) >= 0.0
  }

  function Luminance(linear: component -> real, c: Rgb): (y: real)
    requires Curve(linear)
    ensures y >= 0.0
  {
    0.2126 * linear(c.r) + 0.7152 * linear(c.g) + 0.0722 * linear(c.b)
  }

  function Contrast(linear: component -> real, a: Rgb, b: Rgb): (ratio: real)
    requires Curve(linear)
  {
    var x, y := Luminance(linear, a), Luminance(linear, b);
    if x >= y then (x + 0.05) / (y + 0.05) else (y + 0.05) / (x + 0.05)
  }

  lemma ContrastSymmetric(linear: component -> real, a: Rgb, b: Rgb)
    requires Curve(linear)
    ensures Contrast(linear, a, b) == Contrast(linear, b, a)
  {
  }

  lemma BlackOnWhite(linear: component -> real)
    requires Curve(linear)
    ensures Contrast(linear, BLACK, WHITE) == 21.0 && Contrast(linear, WHITE, BLACK) == 21.0
  {
    assert Luminance(linear, BLACK) == 0.0;
    assert Luminance(linear, WHITE) == 1.0;
  }

  /** Red, green and blue weigh 0.2126, 0.7152 and 0.0722. */
  lemma Primaries(linear: component -> real)
    requires Curve(linear)
    ensures Luminance(linear, Rgb(255, 0, 0)) == 0.2126
    ensures Luminance(linear, Rgb(0, 255, 0)) == 0.7152
    ensures Luminance(linear, Rgb(0, 0, 255)) == 0.0722
    ensures Luminance(linear, BLACK) == 0.0 && Luminance(linear, WHITE) == 1.0
  {
  }

  /** The lighter of two colours is, with 0.05 added to both, contrast times as
      light as the darker one. */
  lemma ContrastLaw(linear: component -> real, a: Rgb, b: Rgb)
    requires Curve(linear)
    ensures var x, y, k := Luminance(linear, a), Luminance(linear, b), Contrast(linear, a, b);
            && k >= 1.0 && (k == 1.0 <==> x == y)
            && (x >= y ==> x + 0.05 == k * (y + 0.05)) && (y >= x ==> y + 0.05 == k * (x + 0.05))
  {
    var x, y := Luminance(linear, a) + 0.05, Luminance(linear, b) + 0.05;
    QuotientLaw(x, y);
    QuotientLaw(y, x);
  }

  lemma QuotientLaw(p: real, q: real)
    requires p > 0.0 && q > 0.0
    ensures p / q * q == p && (p >= q ==> p / q >= 1.0) && (p / q == 1.0 <==> p == q)
  {
    var k := p / q;
    assert k * q == p;
    if k < 1.0 { assert k * q < 1.0 * q; }
  }

  // ---- blend ------------------------------------------------------------------------

  function Mix(a: component, b: component, t: nat): (r: component)
    requires t <= 255
    ensures if a <= b then a <= r <= b else b <= r <= a
    ensures t == 0 ==> r == a
    ensures t == 255 ==> r == b
  {
    MixBounds(a, b, t);
    (a * (255 - t) + b * t + 127) / 255
  }

  lemma MixBounds(a: component, b: component, t: nat)
    requires t <= 255
    ensures var r := (a * (255 - t) + b * t + 127) / 255;
            && (if a <= b then a <= r <= b else b <= r <= a)
            && (t == 0 ==> r == a) && (t == 255 ==> r == b)
  {
    var low, high := if a <= b then a else b, if a <= b then b else a;
    var s := a * (255 - t) + b * t;
    assert s == a * 255 + (b - a) * t;
    if a <= b {
      Between(b - a, t);
    } else {
      Between(a - b, t);
      assert (b - a) * t == -((a - b) * t);
    }
    assert low * 255 <= s <= high * 255;
  }

  lemma Between(d: nat, t: nat)
    requires t <= 255
    ensures 0 <= d * t <= d * 255
  {
  }

  /** A colour t / 255 of the way to another one. */
  function Blend(from: Rgb, to: Rgb, t: nat): Rgb
    requires t <= 255
  {
    Rgb(Mix(from.r, to.r, t), Mix(from.g, to.g, t), Mix(from.b, to.b, t))
  }

  lemma BlendEnds(from: Rgb, to: Rgb)
    ensures Blend(from, to, 0) == from && Blend(from, to, 255) == to
  {
  }

  /** r is the component nearest to t / 255 of the way from a to b. */
  predicate NearestMix(a: component, b: component, t: nat, r: component)
    requires t <= 255
  {
    -127 <= 255 * r - (a * (255 - t) + b * t) <= 127
  }

  lemma MixIsNearest(a: component, b: component, t: nat, r: component)
    requires t <= 255
    ensures NearestMix(a, b, t, r) <==> r == Mix(a, b, t)
  {
    var s := a * (255 - t) + b * t;
    var m := Mix(a, b, t);
    assert 255 * m <= s + 127 < 255 * m + 255;
  }

  predicate NearestBlend(from: Rgb, to: Rgb, t: nat, c: Rgb)
    requires t <= 255
  {
    NearestMix(from.r, to.r, t, c.r) && NearestMix(from.g, to.g, t, c.g) && NearestMix(from.b, to.b, t, c.b)
  }

  lemma BlendIsNearest(from: Rgb, to: Rgb, t: nat, c: Rgb)
    requires t <= 255
    ensures NearestBlend(from, to, t, c) <==> c == Blend(from, to, t)
  {
    hide NearestMix, Mix;
    MixIsNearest(from.r, to.r, t, c.r);
    MixIsNearest(from.g, to.g, t, c.g);
    MixIsNearest(from.b, to.b, t, c.b);
  }

  /** blend: the nearest colour. */
  method BlendColours(from: Rgb, to: Rgb, amount: nat) returns (c: Rgb)
    requires amount <= 255
    ensures NearestBlend(from, to, amount, c)
  {
    MixBounds(from.r, to.r, amount);
    MixBounds(from.g, to.g, amount);
    MixBounds(from.b, to.b, amount);
    c := Rgb((from.r * (255 - amount) + to.r * amount + 127) / 255,
             (from.g * (255 - amount) + to.g * amount + 127) / 255,
             (from.b * (255 - amount) + to.b * amount + 127) / 255);
    BlendIsNearest(from, to, amount, c);
  }

  // ---- contrast_text, contrast_background ---------------------------------------------

  /** t is the least amount of blending, from a given one on, that reaches the
      wanted contrast. */
  predicate Least(linear: component -> real, against: Rgb, from: Rgb, to: Rgb, want: real, first: nat, t: nat)
    requires Curve(linear)
  {
    && first <= t <= 255 && Contrast(linear, Blend(from, to, t), against) >= want
    && forall u :: first <= u < t ==> Contrast(linear, Blend(from, to, u), against) < want
  }

  /** No amount of blending reaches it. */
  predicate Hopeless(linear: component -> real, against: Rgb, from: Rgb, to: Rgb, want: real, first: nat)
    requires Curve(linear)
  {
    forall u :: first <= u <= 255 ==> Contrast(linear, Blend(from, to, u), against) < want
  }

  /** The first good blend, else the target. */
  ghost predicate IsFirstGood(linear: component -> real, against: Rgb, from: Rgb, to: Rgb, want: real, first: nat,
      c: Rgb)
    requires Curve(linear)
  {
    || (Hopeless(linear, against, from, to, want, first) && c == to)
    || exists t :: Least(linear, against, from, to, want, first, t) && c == Blend(from, to, t)
  }

  /** The loop that contrast_text and contrast_background share. */
  method FirstGood(linear: component -> real, against: Rgb, from: Rgb, to: Rgb, want: real, first: nat)
    returns (c: Rgb)
    requires Curve(linear) && first <= 1
    ensures IsFirstGood(linear, against, from, to, want, first, c)
  {
    hide Contrast, Blend, NearestBlend;
    var u: nat := first;
    while u < 256
      invariant first <= u <= 256
      invariant forall k :: first <= k < u ==> Contrast(linear, Blend(from, to, k), against) < want
    {
      c := BlendColours(from, to, u);
      BlendIsNearest(from, to, u, c);
      if Contrast(linear, c, against) >= want { return; }
      u := u + 1;
    }
    return to;
  }

  /** Text can be read on it in black or in white. */
  predicate Readable(linear: component -> real, bg: Rgb)
    requires Curve(linear)
  {
    Contrast(linear, BLACK, bg) >= 7.0 || Contrast(linear, WHITE, bg) >= 7.0
  }

  /** The extreme that is easier to read on bg. */
  function Extreme(linear: component -> real, bg: Rgb): Rgb
    requires Curve(linear)
  {
    if Contrast(linear, BLACK, bg) > Contrast(linear, WHITE, bg) then BLACK else WHITE
  }

  /** contrast_text: kept if good, otherwise changed as little as needed. */
  ghost predicate IsText(linear: component -> real, fg: Rgb, bg: Rgb, c: Rgb)
    requires Curve(linear)
  {
    if Contrast(linear, fg, bg) >= 7.0 then c == fg
    else IsFirstGood(linear, bg, fg, Extreme(linear, bg), 7.0, 1, c)
  }

  method ContrastText(linear: component -> real, fg: Rgb, bg: Rgb) returns (c: Rgb)
    requires Curve(linear)
    ensures IsText(linear, fg, bg, c)
  {
    hide Contrast, Least, Hopeless, Blend;
    if Contrast(linear, fg, bg) >= 7.0 { return fg; }
    var target := if Contrast(linear, BLACK, bg) > Contrast(linear, WHITE, bg) then BLACK else WHITE;
    c := FirstGood(linear, bg, fg, target, 7.0, 1);
  }

  /** The blend reaches its target, so with a readable target the search
      succeeds. */
  lemma ReachesTarget(linear: component -> real, against: Rgb, from: Rgb, to: Rgb, want: real, first: nat)
    requires Curve(linear) && first <= 255 && Contrast(linear, to, against) >= want
    ensures !Hopeless(linear, against, from, to, want, first)
  {
    hide Contrast;
    BlendEnds(from, to);
  }

  /** On a readable background the text always has contrast 7. */
  lemma TextReadable(linear: component -> real, fg: Rgb, bg: Rgb, c: Rgb)
    requires Curve(linear) && Readable(linear, bg) && IsText(linear, fg, bg, c)
    ensures Contrast(linear, c, bg) >= 7.0
  {
    hide Contrast, Hopeless, Blend;
    ReachesTarget(linear, bg, fg, Extreme(linear, bg), 7.0, 1);
  }

  /** contrast_background moves dark colours to black, others to white. */
  function BackTarget(linear: component -> real, bg: Rgb): Rgb
    requires Curve(linear)
  {
    if Luminance(linear, bg) < 0.18 then BLACK else WHITE
  }

  function BackText(target: Rgb): Rgb {
    if target == BLACK then WHITE else BLACK
  }

  ghost predicate IsBackground(linear: component -> real, bg: Rgb, c: Rgb)
    requires Curve(linear)
  {
    var target := BackTarget(linear, bg);
    exists t :: Least(linear, BackText(target), bg, target, 7.5, 0, t) && c == Blend(bg, target, t)
  }

  /** contrast_background; its loop always gives the result. */
  method ContrastBackground(linear: component -> real, bg: Rgb) returns (c: Rgb)
    requires Curve(linear)
    ensures IsBackground(linear, bg, c)
  {
    hide Contrast, Least, Hopeless, Blend;
    var target := if Luminance(linear, bg) < 0.18 then BLACK else WHITE;
    var text := if target != BLACK then BLACK else WHITE;
    BackgroundFound(linear, bg);
    c := FirstGood(linear, text, bg, target, 7.5, 0);
  }

  lemma BackgroundFound(linear: component -> real, bg: Rgb)
    requires Curve(linear)
    ensures var target := BackTarget(linear, bg); !Hopeless(linear, BackText(target), bg, target, 7.5, 0)
  {
    hide Contrast;
    BlackOnWhite(linear);
    var target := BackTarget(linear, bg);
    ReachesTarget(linear, BackText(target), bg, target, 7.5, 0);
  }

  lemma BackgroundReadable(linear: component -> real, bg: Rgb, c: Rgb)
    requires Curve(linear) && IsBackground(linear, bg, c)
    ensures Readable(linear, c)
  {
    hide Contrast, Blend;
    ContrastSymmetric(linear, c, BLACK);
    ContrastSymmetric(linear, c, WHITE);
  }

  /** A dark background gets no lighter and carries white text, another gets no
      darker and carries black. */
  lemma BackgroundSide(linear: component -> real, bg: Rgb, c: Rgb)
    requires Curve(linear) && IsBackground(linear, bg, c)
    ensures Luminance(linear, bg) < 0.18 ==>
            Contrast(linear, WHITE, c) >= 7.5 && c.r <= bg.r && c.g <= bg.g && c.b <= bg.b
    ensures Luminance(linear, bg) >= 0.18 ==>
            Contrast(linear, BLACK, c) >= 7.5 && c.r >= bg.r && c.g >= bg.g && c.b >= bg.b
  {
    hide Contrast, Luminance;
    ContrastSymmetric(linear, c, BLACK);
    ContrastSymmetric(linear, c, WHITE);
  }

  /** Text that had to change moves towards whichever of black and white is
      easier to read. */
  lemma ExtremeIsBest(linear: component -> real, bg: Rgb)
    requires Curve(linear)
    ensures var e := Extreme(linear, bg);
            && e in {Rgb(0, 0, 0), Rgb(255, 255, 255)}
            && Contrast(linear, e, bg) >= Contrast(linear, Rgb(0, 0, 0), bg)
            && Contrast(linear, e, bg) >= Contrast(linear, Rgb(255, 255, 255), bg)
  {
    hide Contrast, Luminance;
  }

  // ---- The 256-colour table ------------------------------------------------------------

  function Level(i: nat): component {
    if i == 0 then 0 else if i == 1 then 95 else if i == 2 then 135
    else if i == 3 then 175 else if i == 4 then 215 else 255
  }

  /** term_index_rgb; the sixteen user-configurable slots count as black. */
  function IndexRgb(i: nat): Rgb {
    if 232 <= i <= 255 then
      var c: component := 8 + 10 * (i - 232);
      Rgb(c, c, c)
    else if i < 16 || i > 231 then BLACK
    else
      var n := i - 16;
      Rgb(Level(n / 36), Level(n / 6 % 6), Level(n % 6))
  }

  lemma TableEnds()
    ensures IndexRgb(16) == BLACK && IndexRgb(231) == WHITE
  {
  }

  /** The colour cube and the grey ramp, by the levels of the terminal's table. */
  lemma TableLaw(r: nat, g: nat, b: nat, k: nat)
    requires r < 6 && g < 6 && b < 6 && k < 24
    ensures var levels: seq<component> := [0, 95, 135, 175, 215, 255];
            IndexRgb(16 + 36 * r + 6 * g + b) == Rgb(levels[r], levels[g], levels[b])
    ensures var grey: component := 8 + 10 * k; IndexRgb(232 + k) == Rgb(grey, grey, grey)
  {
    var n := 36 * r + 6 * g + b;
    assert n / 36 == r && n / 6 == 6 * r + g && n % 6 == b;
  }

  function Square(x: int): (s: nat)
    ensures s <= 65025 || x > 255 || x < -255
  {
    if x >= 0 then SquareBound(x); x * x else SquareBound(-x); x * x
  }

  lemma SquareBound(x: nat)
    ensures x * x >= 0 && (x <= 255 ==> x * x <= 65025)
  {
    if x <= 255 { assert x * x <= 255 * x; }
  }

  function Distance(a: Rgb, b: Rgb): (d: nat)
    ensures d <= 195075
  {
    Square(a.r - b.r) + Square(a.g - b.g) + Square(a.b - b.b)
  }

  /** The squared distance of the three components; zero for the same colour only. */
  lemma DistanceLaw(a: Rgb, b: Rgb)
    ensures var x, y, z := a.r - b.r, a.g - b.g, a.b - b.b; Distance(a, b) == x * x + y * y + z * z
    ensures Distance(a, b) == Distance(b, a)
    ensures Distance(a, b) == 0 <==> a == b
  {
    SquareLaw(a.r - b.r);
    SquareLaw(a.g - b.g);
    SquareLaw(a.b - b.b);
  }

  lemma SquareLaw(x: int)
    ensures Square(x) == x * x == Square(-x)
    ensures Square(x) == 0 <==> x == 0
  {
    if x > 0 { assert x * x >= x; }
    if x < 0 { assert (-x) * (-x) >= -x; }
  }

  /** A slot quantize may choose. */
  predicate Feasible(linear: component -> real, bg: Rgb, foreground: bool, i: nat)
    requires Curve(linear)
  {
    16 <= i <= 255 && if foreground then Contrast(linear, IndexRgb(i), bg) >= 7.0 else Readable(linear, IndexRgb(i))
  }

  /** The nearest feasible slot, the first of several. */
  ghost predicate IsNearest(linear: component -> real, rgb: Rgb, bg: Rgb, foreground: bool, best: nat)
    requires Curve(linear)
  {
    && Feasible(linear, bg, foreground, best)
    && (forall i: nat :: Feasible(linear, bg, foreground, i) ==>
       Distance(rgb, IndexRgb(best)) <= Distance(rgb, IndexRgb(i)))
    && (forall i: nat :: Feasible(linear, bg, foreground, i) && i < best ==>
       Distance(rgb, IndexRgb(best)) < Distance(rgb, IndexRgb(i)))
  }

  lemma NearestUnique(linear: component -> real, rgb: Rgb, bg: Rgb, foreground: bool, i: nat, j: nat)
    requires Curve(linear) && IsNearest(linear, rgb, bg, foreground, i) && IsNearest(linear, rgb, bg, foreground, j)
    ensures i == j
  {
    hide Feasible, Distance, IndexRgb;
    if i < j { NearestOrder(linear, rgb, bg, foreground, i, j); }
    if j < i { NearestOrder(linear, rgb, bg, foreground, j, i); }
  }

  lemma NearestOrder(linear: component -> real, rgb: Rgb, bg: Rgb, foreground: bool, i: nat, j: nat)
    requires Curve(linear) && IsNearest(linear, rgb, bg, foreground, i) && IsNearest(linear, rgb, bg, foreground, j)
    ensures i >= j
  {
    hide Feasible, Distance, IndexRgb;
  }

  /** quantize. Without a feasible slot it would choose slot 16. */
  method Quantize(linear: component -> real, rgb: Rgb, bg: Rgb, foreground: bool) returns (best: nat)
    requires Curve(linear)
    ensures (exists i: nat :: Feasible(linear, bg, foreground, i)) ==> IsNearest(linear, rgb, bg, foreground, best)
    ensures (forall i: nat :: !Feasible(linear, bg, foreground, i)) ==> best == 16
  {
    hide Distance, IndexRgb, Contrast;
    best := 16;
    var cost: nat := 0xFFFFFFFF;
    var i: nat := 16;
    while i <= 255
      invariant 16 <= i <= 256
      invariant cost == 0xFFFFFFFF ==> best == 16 && forall k :: 16 <= k < i ==> !Feasible(linear, bg, foreground, k)
      invariant cost < 0xFFFFFFFF ==>
                Feasible(linear, bg, foreground, best) && best < i && cost == Distance(rgb, IndexRgb(best))
      invariant forall k :: 16 <= k < i && Feasible(linear, bg, foreground, k) ==> cost <= Distance(rgb, IndexRgb(k))
      invariant forall k :: 16 <= k < best && Feasible(linear, bg, foreground, k) ==> cost < Distance(rgb, IndexRgb(k))
      invariant cost <= 0xFFFFFFFF
    {
      var candidate := IndexRgb(i);
      var skip := if foreground then Contrast(linear, candidate, bg) < 7.0
        else Contrast(linear, BLACK, candidate) < 7.0 && Contrast(linear, WHITE, candidate) < 7.0;
      if !skip {
        var d := Distance(rgb, candidate);
        if d < cost { best, cost := i, d; }
      }
      i := i + 1;
    }
  }

  /** There is a feasible background slot, and a feasible text slot on every
      feasible background. */
  lemma SlotExists(linear: component -> real, bg: Rgb)
    requires Curve(linear)
    ensures Feasible(linear, bg, false, 16)
    ensures Readable(linear, bg) ==> Feasible(linear, bg, true, 16) || Feasible(linear, bg, true, 231)
  {
    hide Contrast;
    TableEnds();
    BlackOnWhite(linear);
  }

  // ---- term_palette_update -----------------------------------------------------------------

  const FACES := 11
  const CURSOR := 10
  const CURSOR_TEXT := Rgb(0x10, 0x10, 0x18)
  const CURSOR_BACK := Rgb(0xff, 0xf4, 0xb8)

  datatype Face = Face(fg: Rgb, bg: Rgb, fg256: nat, bg256: nat, reverse: bool)

  predicate Barred(i: nat) {
    i == 8 || i == 9
  }

  /** Source colours of a face. */
  function TextSource(source: seq<Rgb>, i: nat): Rgb
    requires |source| == 10 && i < FACES
  {
    source[if i == 1 || i >= 8 then 0 else i]
  }

  function BackSource(source: seq<Rgb>, i: nat): Rgb
    requires |source| == 10 && i < FACES
  {
    source[if Barred(i) then i else 1]
  }

  /** Which source colour each face takes for its text and its background. */
  lemma Sources(source: seq<Rgb>, i: nat)
    requires |source| == 10 && i < FACES
    ensures TextSource(source, i) == source[[0, 0, 2, 3, 4, 5, 6, 7, 0, 0, 0][i]]
    ensures BackSource(source, i) == source[[1, 1, 1, 1, 1, 1, 1, 1, 8, 9, 1][i]]
    ensures Barred(i) || i == CURSOR <==> i in {8, 9, 10}
  {
  }

  ghost predicate IsIndexed(linear: component -> real, f: Face)
    requires Curve(linear)
  {
    && IsNearest(linear, f.bg, BLACK, false, f.bg256)
    && IsNearest(linear, f.fg, IndexRgb(f.bg256), true, f.fg256)
  }

  /** What face i of the palette for these source colours is. */
  ghost predicate IsFace(linear: component -> real, source: seq<Rgb>, i: nat, f: Face)
    requires Curve(linear) && |source| == 10 && i < FACES
  {
    && f.reverse == (Barred(i) || i == CURSOR) && IsIndexed(linear, f)
    && if i == CURSOR then f.fg == CURSOR_TEXT && f.bg == CURSOR_BACK
       else IsBackground(linear, BackSource(source, i), f.bg) && IsText(linear, TextSource(source, i), f.bg, f.fg)
  }

  /** The transfer curve lies between the cube and the identity, as that of
      sRGB does. */
  predicate Gamma(linear: component -> real) {
    forall c: component :: Share(c) * Share(c) * Share(c) <= linear(c) <= Share(c)
  }

  function Share(c: component): real {
    c as real / 255.0
  }

  /** The fixed colours of the cursor have contrast 7 under every such curve. */
  lemma CursorReadable(linear: component -> real)
    requires Curve(linear) && Gamma(linear)
    ensures Contrast(linear, CURSOR_TEXT, CURSOR_BACK) >= 7.0
  {
    var x, y := Luminance(linear, CURSOR_TEXT), Luminance(linear, CURSOR_BACK);
    DarkComponents(linear);
    assert linear(244) >= 0.87 by { assert Share(244) * Share(244) * Share(244) >= 0.87; }
    assert x <= 0.066 && y >= 0.8;
    Ratio(y + 0.05, x + 0.05, 7.0);
  }

  lemma DarkComponents(linear: component -> real)
    requires Gamma(linear)
    ensures linear(16) <= 0.063 && linear(24) <= 0.095
  {
    assert linear(16) <= Share(16) && linear(24) <= Share(24);
  }

  lemma Ratio(p: real, q: real, k: real)
    requires q > 0.0 && p >= k * q
    ensures p / q >= k
  {
    assert p / q >= (k * q) / q;
  }

  /** For every source palette: RGB contrast 7 on every face, on the cursor's
      under a curve like that of sRGB, and indexed contrast 7 on every face, in
      slots 16 to 255. */
  lemma FaceReadable(linear: component -> real, source: seq<Rgb>, i: nat, f: Face)
    requires Curve(linear) && |source| == 10 && i < FACES && IsFace(linear, source, i, f)
    ensures i != CURSOR || Gamma(linear) ==> Contrast(linear, f.fg, f.bg) >= 7.0
    ensures 16 <= f.fg256 <= 255 && 16 <= f.bg256 <= 255
    ensures Contrast(linear, IndexRgb(f.fg256), IndexRgb(f.bg256)) >= 7.0
  {
    hide Contrast, IsText, IsBackground, IndexRgb, Distance, Gamma;
    if i == CURSOR {
      if Gamma(linear) { CursorReadable(linear); ContrastSymmetric(linear, CURSOR_TEXT, CURSOR_BACK); }
    } else {
      BackgroundReadable(linear, BackSource(source, i), f.bg);
      TextReadable(linear, TextSource(source, i), f.bg, f.fg);
    }
  }

  class TermPalette {
    var initialized: bool
    var source: seq<Rgb>
    var face: seq<Face>

    /** The cached faces are those of the remembered source. */
    ghost predicate Valid(linear: component -> real)
      requires Curve(linear)
      reads this
    {
      initialized ==> |source| == 10 && |face| == FACES && forall i :: 0 <= i < FACES ==>
          IsFace(linear, source, i, face[i])
    }

    constructor (linear: component -> real)
      requires Curve(linear)
      ensures Valid(linear) && !initialized
    {
      initialized, source, face := false, [], [];
    }

    /** term_palette_update; the same source again changes nothing. */
    method Update(linear: component -> real, colours: seq<Rgb>)
      requires Curve(linear) && Valid(linear) && |colours| == 10
      modifies this
      ensures Valid(linear) && initialized && source == colours
      ensures old(initialized) && old(source) == colours ==> face == old(face)
    {
      hide IsFace, IsBackground, IsText;
      if initialized && source == colours { return; }
      var bg := ContrastBackground(linear, colours[1]);
      var faces: seq<Face> := [];
      while |faces| < FACES
        invariant |faces| <= FACES
        invariant forall k :: 0 <= k < |faces| ==> IsFace(linear, colours, k, faces[k])
      {
        var f := MakeFace(linear, colours, bg, |faces|);
        faces := faces + [f];
      }
      initialized, source, face := true, colours, faces;
    }
  }

  method MakeFace(linear: component -> real, source: seq<Rgb>, bg: Rgb, i: nat) returns (f: Face)
    requires Curve(linear) && |source| == 10 && i < FACES && IsBackground(linear, source[1], bg)
    ensures IsFace(linear, source, i, f)
  {
    hide IsText, IsBackground, IsNearest, Feasible, IndexRgb;
    var back := bg;
    if i == 8 || i == 9 {
      back := ContrastBackground(linear, source[i]);
    }
    var text := ContrastText(linear, source[if i == 1 || i >= 8 then 0 else i], back);
    var reverse := i == 8 || i == 9;
    if i == CURSOR {
      text, back, reverse := CURSOR_TEXT, CURSOR_BACK, true;
    }
    SlotExists(linear, BLACK);
    var bg256 := Quantize(linear, back, BLACK, false);
    ReadableSlot(linear, back, bg256);
    SlotExists(linear, IndexRgb(bg256));
    var fg256 := Quantize(linear, text, IndexRgb(bg256), true);
    f := Face(text, back, fg256, bg256, reverse);
  }

  lemma ReadableSlot(linear: component -> real, rgb: Rgb, i: nat)
    requires Curve(linear) && IsNearest(linear, rgb, BLACK, false, i)
    ensures Readable(linear, IndexRgb(i))
  {
    hide IndexRgb, Distance;
  }
}
