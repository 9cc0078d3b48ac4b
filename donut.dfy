/**
  The integer parts of the donut demo (donut.c): the canvas layout that
  gives each donut its own square cell, the luminance clamp and colour
  map, the depth-tested writes into the text and z buffers, and the loop
  that expands the text buffer into framebuffer pixels. The rotation and
  projection arithmetic that produces the points is not modelled: the
  points are an input.
*/
module Donut {
  import opened Alloc

  /** NN: the canvas is NN by NN pixels. */
  const NN: int := 640
  /** N_DONUTS: donuts sharing the canvas. */
  const N_DONUTS: int := 4
  /** The text buffer: 22 rows of 80 columns. */
  const COLS: int := 80
  const BUF_LEN: int := 1760

  // ---------------------------------------------------------------------
  // Canvas layout (donut_canvas_init)

  /** g is the smallest grid side with room for n cells. */
  predicate IsGrid(n: int, g: int)
  {
    g >= 1 && g * g >= n && (g == 1 || (g - 1) * (g - 1) < n)
  }

  /** With four donuts the grid is 2 by 2 and every cell 320 pixels wide. */
  lemma GridOfFour(g: int)
    requires IsGrid(N_DONUTS, g)
    ensures g == 2 && NN / g == 320
  {
  }

  lemma MulMonoInt(a: int, b: int, c: int)
    requires 0 <= a <= b && 0 <= c
    ensures a * c <= b * c
  {
  }

  /** The canvas offsets of donut i on a grid of side g with cells `cell` wide. */
  function XOff(i: int, g: int, cell: int): int
    requires g >= 1
  {
    (i % g) * cell
  }

  function YOff(i: int, g: int, cell: int): int
    requires g >= 1
  {
    (i / g) * cell
  }

  /**
    The layout puts every donut in a cell of its own inside the canvas: the
    offsets lie in [0, NN - cell], and two donuts' cells are at least a
    cell apart horizontally or vertically.
  */
  lemma LayoutSeparates(g: int, i: int, j: int)
    requires IsGrid(N_DONUTS, g)
    requires 0 <= i < N_DONUTS && 0 <= j < N_DONUTS && i != j
    ensures var cell := NN / g;
      && 0 <= XOff(i, g, cell) <= NN - cell && 0 <= YOff(i, g, cell) <= NN - cell
      && (XOff(i, g, cell) - XOff(j, g, cell) >= cell || XOff(j, g, cell) - XOff(i, g, cell) >= cell
          || YOff(i, g, cell) - YOff(j, g, cell) >= cell || YOff(j, g, cell) - YOff(i, g, cell) >= cell)
  {
    GridOfFour(g);
  }

  class Canvas {
    /** xoff[N_DONUTS], yoff[N_DONUTS] */
    const xoff: array<int>
    const yoff: array<int>

    ghost predicate Valid()
    {
      xoff.Length == N_DONUTS && yoff.Length == N_DONUTS && xoff != yoff
    }

    constructor ()
      ensures Valid() && fresh(xoff) && fresh(yoff)
    {
      xoff := new int[N_DONUTS];
      yoff := new int[N_DONUTS];
    }

    /**
      The layout part of donut_canvas_init: the smallest square grid with a
      cell for every donut, and each donut's offsets row by row.
    */
    method Layout() returns (grid: int, cell: int)
      requires Valid()
      modifies xoff, yoff
      ensures IsGrid(N_DONUTS, grid) && cell == NN / grid
      ensures forall i :: 0 <= i < N_DONUTS ==> xoff[i] == XOff(i, grid, cell) && yoff[i] == YOff(i, grid, cell)
    {
      grid := GridSide();
      cell := NN / grid;
      var i := 0;
      while i < N_DONUTS
        invariant 0 <= i <= N_DONUTS
        invariant forall j :: 0 <= j < i ==> xoff[j] == XOff(j, grid, cell) && yoff[j] == YOff(j, grid, cell)
      {
        var row := i / grid;
        var col := i % grid;
        xoff[i] := col * cell;
        yoff[i] := row * cell;
        i := i + 1;
      }
    }
  }

  /** The grid loop: grows the side until the square holds N_DONUTS cells. */
  method GridSide() returns (grid: int)
    ensures IsGrid(N_DONUTS, grid)
  {
    grid := 1;
    while grid * grid < N_DONUTS
      invariant grid >= 1
      invariant grid == 1 || (grid - 1) * (grid - 1) < N_DONUTS
      decreases N_DONUTS - grid
    {
      grid := grid + 1;
    }
  }

  /** The pixel scale of the text buffer in a cell: cell / 80, at least 1. */
  function Scale(cell: int): (s: int)
    ensures s >= 1
    ensures cell >= COLS ==> COLS * s <= cell < COLS * (s + 1)
  {
    if cell / COLS < 1 then 1 else cell / COLS
  }

  // ---------------------------------------------------------------------
  // Colour

  /** The luminance clamp: negative values give 0, others are divided by 5 and capped at 255. */
  function Luminance(l: int): (r: int)
    ensures 0 <= r <= 255
    ensures l >= 0 && l / 5 < 255 ==> r == l / 5
  {
    var v := if l < 0 then 0 else l / 5;
    if v < 255 then v else 255
  }

  /** A brighter spot never gets a lower luminance. */
  lemma LuminanceMonotone(a: int, b: int)
    requires a <= b
    ensures Luminance(a) <= Luminance(b)
  {
    if 0 <= a {
      DivMono(a, b);
    }
  }

  lemma DivMono(a: int, b: int)
    requires 0 <= a <= b
    ensures a / 5 <= b / 5
  {
  }

  /** An ARGB pixel value with the given channels. */
  function Rgb(r: int, g: int, b: int): (p: int)
    requires 0 <= r <= 255 && 0 <= g <= 255 && 0 <= b <= 255
    ensures 0 <= p <= 0xFF_FFFF
  {
    r * 0x1_0000 + g * 0x100 + b
  }

  /** The channels of a pixel value: red, green and blue. */
  function Red(p: int): int { p / 0x1_0000 % 0x100 }
  function Green(p: int): int { p / 0x100 % 0x100 }
  function Blue(p: int): int { p % 0x100 }

  /** Channels in [0, 255] pack into the low 24 bits and unpack again. */
  lemma RgbChannels(r: int, g: int, b: int)
    requires 0 <= r <= 255 && 0 <= g <= 255 && 0 <= b <= 255
    ensures 0 <= Rgb(r, g, b) <= 0xFF_FFFF
    ensures Red(Rgb(r, g, b)) == r && Green(Rgb(r, g, b)) == g && Blue(Rgb(r, g, b)) == b
  {
    var p := Rgb(r, g, b);
    ByteDigit(p, r * 0x100 + g, b);
    ByteDigit(r * 0x100 + g, r, g);
    ByteDigit(r, 0, r);
    assert p / 0x1_0000 == (p / 0x100) / 0x100;
  }

  /** Splitting off the low byte of n == q * 256 + m. */
  lemma ByteDigit(n: int, q: int, m: int)
    requires 0 <= m < 0x100 && n == q * 0x100 + m
    ensures n / 0x100 == q && n % 0x100 == m
  {
  }

  /**
    int2rgb: black to green over 0..85, then green towards cyan, then cyan
    to blue; 0 outside [0, 255]. The shifted channels do not overlap, so
    `|` is addition.
  */
  function Int2Rgb(v: int): (p: int)
    ensures 0 <= p <= 0xFF_FFFF
  {
    if 0 <= v <= 85 then GreenBand(v)
    else if 85 < v <= 170 then CyanBand(v)
    else if 170 < v <= 255 then BlueBand(v)
    else 0
  }

  /** 0..85: green rises from black. */
  function GreenBand(v: int): (p: int)
    requires 0 <= v <= 85
    ensures 0 <= p <= 0xFF_FFFF
    ensures Red(p) == 0 && Green(p) == 3 * v && Blue(p) == 0
  {
    RgbChannels(0, v * 3, 0);
    Rgb(0, v * 3, 0)
  }

  /** 86..170: red falls and blue rises under full green. */
  function CyanBand(v: int): (p: int)
    requires 85 < v <= 170
    ensures 0 <= p <= 0xFF_FFFF
    ensures Red(p) == 255 - 3 * (v - 85) && Green(p) == 255 && Blue(p) == 3 * (v - 85)
  {
    RgbChannels(255 - (v - 85) * 3, 255, (v - 85) * 3);
    Rgb(255 - (v - 85) * 3, 255, (v - 85) * 3)
  }

  /** 171..255: green falls under full blue. */
  function BlueBand(v: int): (p: int)
    requires 170 < v <= 255
    ensures 0 <= p <= 0xFF_FFFF
    ensures Red(p) == 0 && Green(p) == 255 - 3 * (v - 170) && Blue(p) == 255
  {
    RgbChannels(0, 255 - (v - 170) * 3, 255);
    Rgb(0, 255 - (v - 170) * 3, 255)
  }

  // ---------------------------------------------------------------------
  // Depth-tested writes into the text and z buffers

  /** A projected point: text column and row, depth, luminance. */
  datatype Point = Point(x: int, y: int, zz: int, lum: byte)

  /** The point lands strictly inside the 80x22 text area. */
  predicate Inside(x: int, y: int)
  {
    22 > y > 0 && x > 0 && COLS > x
  }

  function Index(x: int, y: int): int
  {
    x + COLS * y
  }

  /** Inside points index the buffers within bounds. */
  lemma InsideIndexInRange(x: int, y: int)
    requires Inside(x, y)
    ensures 0 <= Index(x, y) < BUF_LEN
  {
  }

  /** The text and z buffers of one donut, as values. */
  datatype Bufs = Bufs(b: seq<byte>, z: seq<int>)

  predicate Shaped(s: Bufs)
  {
    |s.b| == BUF_LEN && |s.z| == BUF_LEN
  }

  /** One depth-tested write: only a nearer point replaces the cell. */
  function Plotted(s: Bufs, p: Point): (r: Bufs)
    requires Shaped(s)
    ensures Shaped(r)
  {
    if Inside(p.x, p.y) && p.zz < s.z[Index(p.x, p.y)] then
      Bufs(s.b[Index(p.x, p.y) := p.lum], s.z[Index(p.x, p.y) := p.zz])
    else s
  }

  /** The buffers after a frame's points, starting from cleared buffers. */
  function Rendered(pts: seq<Point>): (r: Bufs)
    ensures Shaped(r)
    decreases |pts|
  {
    if |pts| == 0 then Bufs(seq(BUF_LEN, _ => 0), seq(BUF_LEN, _ => 127))
    else Plotted(Rendered(pts[..|pts| - 1]), pts[|pts| - 1])
  }

  /** Point p writes to text cell o if depth allows. */
  predicate Hits(p: Point, o: int)
  {
    Inside(p.x, p.y) && Index(p.x, p.y) == o
  }

  /** The nearest depth that reached cell o (127 when none did). */
  function Nearest(pts: seq<Point>, o: int): (d: int)
    ensures d <= 127
    decreases |pts|
  {
    if |pts| == 0 then 127
    else
      var d := Nearest(pts[..|pts| - 1], o);
      var p := pts[|pts| - 1];
      if Hits(p, o) && p.zz < d then p.zz else d
  }

  /**
    The z buffer holds the nearest depth of the points that hit each cell,
    and the text buffer the luminance of a point at that depth; untouched
    cells keep 0 and 127.
  */
  lemma {:induction false} RenderedIsNearest(pts: seq<Point>, o: int)
    requires 0 <= o < BUF_LEN
    ensures Rendered(pts).z[o] == Nearest(pts, o)
    ensures (Rendered(pts).b[o] == 0 && Rendered(pts).z[o] == 127)
         || exists i :: 0 <= i < |pts| && Hits(pts[i], o) && pts[i].lum == Rendered(pts).b[o] && pts[i].zz == Rendered(pts).z[o]
    decreases |pts|
  {
    if |pts| > 0 {
      var q := pts[..|pts| - 1];
      var p := pts[|pts| - 1];
      RenderedIsNearest(q, o);
      if !Hits(p, o) && (Rendered(q).b[o] != 0 || Rendered(q).z[o] != 127) {
        var i :| 0 <= i < |q| && Hits(q[i], o) && q[i].lum == Rendered(q).b[o] && q[i].zz == Rendered(q).z[o];
        assert pts[i] == q[i];
      }
      if Hits(p, o) && !(p.zz < Rendered(q).z[o]) && (Rendered(q).b[o] != 0 || Rendered(q).z[o] != 127) {
        var i :| 0 <= i < |q| && Hits(q[i], o) && q[i].lum == Rendered(q).b[o] && q[i].zz == Rendered(q).z[o];
        assert pts[i] == q[i];
      }
      if Hits(p, o) && p.zz < Rendered(q).z[o] {
        assert Hits(pts[|pts| - 1], o);
      }
    }
  }

  /** A depth in the z buffer never rises as points are added. */
  lemma {:induction false} NearestOnlyFalls(pts: seq<Point>, p: Point, o: int)
    ensures Nearest(pts + [p], o) <= Nearest(pts, o)
  {
    assert (pts + [p])[..|pts|] == pts;
  }

  class Buffers {
    /** b[idx] and z[idx] of one donut. */
    const b: array<byte>
    const z: array<int>

    ghost predicate Valid()
    {
      b.Length == BUF_LEN && z.Length == BUF_LEN
    }

    ghost function State(): Bufs
      reads b, z
    {
      Bufs(b[..], z[..])
    }

    constructor ()
      ensures Valid() && fresh(b) && fresh(z)
    {
      b := new byte[BUF_LEN];
      z := new int[BUF_LEN];
    }

    /** memset(b, 0) and memset(z, 127): the buffers at the start of a frame. */
    method Clear()
      requires Valid()
      modifies b, z
      ensures State() == Rendered([])
    {
      var i := 0;
      while i < BUF_LEN
        invariant 0 <= i <= BUF_LEN
        invariant forall j :: 0 <= j < i ==> b[j] == 0 && z[j] == 127
      {
        b[i] := 0;
        z[i] := 127;
        i := i + 1;
      }
    }

    /** The guarded write of donut_pixel: index checked first, then depth. */
    method Plot(p: Point)
      requires Valid()
      modifies b, z
      ensures State() == Plotted(old(State()), p)
    {
      if Inside(p.x, p.y) && p.zz < z[p.x + COLS * p.y] {
        var o := p.x + COLS * p.y;
        z[o] := p.zz;
        b[o] := p.lum;
      }
    }

    /** One frame of donut_pixel, given the projected points in order. */
    method Render(pts: seq<Point>)
      requires Valid()
      modifies b, z
      ensures State() == Rendered(pts)
    {
      Clear();
      var n := 0;
      while n < |pts|
        invariant n <= |pts|
        invariant State() == Rendered(pts[..n])
      {
        assert pts[..n + 1][..n] == pts[..n];
        Plot(pts[n]);
        n := n + 1;
      }
      assert pts[..n] == pts;
    }
  }

  // ---------------------------------------------------------------------
  // Expanding the text buffer into pixels

  datatype Pixel = Pixel(x: int, y: int, color: int)

  /** Text cell k is shown: not a row start and within the first 50 columns. */
  predicate Shown(k: int)
  {
    k % COLS != 0 && k % COLS < 50
  }

  /** The 2x2 block of pixels for text cell k: column k % 80 and row k / 80 + 1, scaled. */
  function Block(b: seq<byte>, k: int, scale: int, ox: int, oy: int): seq<Pixel>
    requires 0 <= k < |b|
  {
    var xx := (k % COLS) * scale + ox;
    var yy := (k / COLS + 1) * scale * 2 + oy;
    var c := Int2Rgb(b[k] as int);
    [Pixel(xx, yy, c), Pixel(xx + 1, yy, c), Pixel(xx, yy + 1, c), Pixel(xx + 1, yy + 1, c)]
  }

  /** The pixels written for text cells 0 .. n-1. */
  function Display(b: seq<byte>, scale: int, ox: int, oy: int, n: int): seq<Pixel>
    requires |b| == BUF_LEN && 0 <= n <= BUF_LEN + 1
    decreases n
  {
    if n == 0 then []
    else Display(b, scale, ox, oy, n - 1) + (if Shown(n - 1) then Block(b, n - 1, scale, ox, oy) else [])
  }

  /**
    The display loop of donut_pixel: k runs over 0..1760, and cell 1760,
    one past the buffer, is a row start and is never read.
  */
  method DisplayLoop(b: seq<byte>, scale: int, ox: int, oy: int) returns (pixels: seq<Pixel>)
    requires |b| == BUF_LEN
    ensures pixels == Display(b, scale, ox, oy, BUF_LEN + 1)
  {
    pixels := [];
    var y, x := 0, 0;
    var k := 0;
    while BUF_LEN + 1 > k
      invariant 0 <= k <= BUF_LEN + 1
      invariant k == 0 ==> x == 0 && y == 0
      invariant k > 0 ==> 1 <= x <= COLS && 1 <= y && k == (y - 1) * COLS + x
      invariant pixels == Display(b, scale, ox, oy, k)
    {
      if k > 0 && x < COLS {
        TextCell(k, y - 1, x);
      } else if k > 0 {
        TextCell(k, y, 0);
      }
      if k % COLS != 0 {
        if x < 50 {
          var block := SetBlock(b, k, x, y, scale, ox, oy);
          pixels := pixels + block;
        }
        x := x + 1;
      } else {
        y := y + 1;
        x := 1;
      }
      k := k + 1;
    }
  }

  /** The four setpixel calls for text cell k, at column x and row y. */
  method SetBlock(b: seq<byte>, k: int, x: int, y: int, scale: int, ox: int, oy: int) returns (block: seq<Pixel>)
    requires 0 <= k < |b| && x == k % COLS && y == k / COLS + 1
    ensures block == Block(b, k, scale, ox, oy)
  {
    var xx := x * scale + ox;
    var yy := y * scale * 2 + oy;
    var clr := Int2Rgb(b[k] as int);
    block := [Pixel(xx, yy, clr), Pixel(xx + 1, yy, clr), Pixel(xx, yy + 1, clr), Pixel(xx + 1, yy + 1, clr)];
  }

  /** Cell k of the text buffer is column r of row q. */
  lemma TextCell(k: int, q: int, r: int)
    requires 0 <= r < COLS && k == q * COLS + r
    ensures k % COLS == r && k / COLS == q
  {
  }

  /**
    With the scale of a cell at least 80 pixels wide, every pixel a donut
    writes lies inside its own cell, so the setpixel guard (x, y >= 0)
    holds for nonnegative offsets and donuts never draw over each other.
  */
  lemma {:induction false} DisplayInCell(b: seq<byte>, cell: int, ox: int, oy: int, n: int)
    requires |b| == BUF_LEN && 0 <= n <= BUF_LEN + 1
    requires cell >= COLS
    ensures forall p :: p in Display(b, Scale(cell), ox, oy, n) ==>
              ox <= p.x < ox + cell && oy <= p.y < oy + cell
    decreases n
  {
    if n > 0 {
      DisplayInCell(b, cell, ox, oy, n - 1);
      var k := n - 1;
      if Shown(k) {
        BlockInCell(b, cell, k, ox, oy);
      }
    }
  }

  lemma BlockInCell(b: seq<byte>, cell: int, k: int, ox: int, oy: int)
    requires |b| == BUF_LEN && 0 <= k < BUF_LEN && Shown(k)
    requires cell >= COLS
    ensures forall p :: p in Block(b, k, Scale(cell), ox, oy) ==>
              ox <= p.x < ox + cell && oy <= p.y < oy + cell
  {
    var s := Scale(cell);
    var col, row := k % COLS, k / COLS + 1;
    ColumnFits(col, s, cell);
    RowFits(row, s, cell);
    var xx := col * s + ox;
    var yy := row * s * 2 + oy;
    var c := Int2Rgb(b[k] as int);
    assert Block(b, k, s, ox, oy) == [Pixel(xx, yy, c), Pixel(xx + 1, yy, c), Pixel(xx, yy + 1, c), Pixel(xx + 1, yy + 1, c)];
  }

  lemma ColumnFits(col: int, s: int, cell: int)
    requires 1 <= col <= 49 && 1 <= s && COLS * s <= cell
    ensures 0 <= col * s && col * s + 1 < cell
  {
    MulMonoInt(0, col, s);
    MulMonoInt(col, 49, s);
  }

  lemma RowFits(row: int, s: int, cell: int)
    requires 1 <= row <= 22 && 1 <= s && COLS * s <= cell
    ensures 0 <= row * s * 2 && row * s * 2 + 1 < cell
  {
    MulMonoInt(0, row, s);
    MulMonoInt(row, 22, s);
  }
}
