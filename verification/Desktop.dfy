/**
  The compositor of spoon/gui/server/desktop.c: a bitmap and a window map painted from a window list
  whose first entry is the front-most window.
 */
module Desktop {
  import opened Arith
  import opened Bits
  import opened Seqs

  const DESKTOP_BGCOLOR: nat := 0x340034
  const TRANSPARENT: nat := 0xA5A5A5

  datatype Window = Window(wid: nat, x: int, y: int, width: int, height: int, hidden: bool, buffer: seq<nat>) {
    predicate Covers(px: int, py: int) { x <= px < x + width && y <= py < y + height }

    predicate Ok() { width >= 0 && height >= 0 && |buffer| == width * height }
  }

  /** What a pixel shows: a colour, and the window it belongs to. */
  type Shown = (nat, Option<nat>)

  // ---------- What the screen should show ----------

  /** The position of a pixel in a row-major buffer. */
  function Idx(px: int, py: int, width: int): int { py * width + px }

  lemma IdxInBounds(px: int, py: int, width: int, height: int)
    requires 0 <= px < width && 0 <= py < height
    ensures 0 <= Idx(px, py, width) < width * height
  {
    assert py * width <= (height - 1) * width;
    assert (height - 1) * width + width == height * width;
  }

  lemma IdxInjective(px: int, py: int, qx: int, qy: int, width: int)
    requires 0 <= px < width && 0 <= qx < width && Idx(px, py, width) == Idx(qx, qy, width)
    ensures px == qx && py == qy
  {
    DivUnique(Idx(px, py, width), py, px, width);
    DivUnique(Idx(px, py, width), qy, qx, width);
  }

  function ColourAt(w: Window, px: int, py: int): nat
    requires w.Ok() && w.Covers(px, py)
  {
    IdxInBounds(px - w.x, py - w.y, w.width, w.height);
    w.buffer[Idx(px - w.x, py - w.y, w.width)]
  }

  /** The window paints this pixel, if drawn. */
  predicate Paints(w: Window, px: int, py: int) {
    w.Ok() && w.Covers(px, py) && ColourAt(w, px, py) != TRANSPARENT
  }

  /** The front-most visible window with a non-transparent pixel here, or the background. */
  function Pixel(windows: seq<Window>, px: int, py: int): Shown {
    if windows == [] then (DESKTOP_BGCOLOR, None)
    else if !windows[0].hidden && Paints(windows[0], px, py) then (ColourAt(windows[0], px, py), Some(windows[0].wid))
    else Pixel(windows[1..], px, py)
  }

  ghost predicate AllOk(windows: seq<Window>) {
    forall i :: 0 <= i < |windows| ==> windows[i].Ok()
  }

  predicate InRect(px: int, py: int, x: int, y: int, width: int, height: int) {
    x <= px < x + width && y <= py < y + height
  }

  // ---------- The same without recursion ----------

  /** The window is visible, covers the pixel, and its buffer holds a colour there that is not transparent. */
  ghost predicate Drawn(w: Window, px: int, py: int) {
    var b := (py - w.y) * w.width + (px - w.x);
    && !w.hidden && w.x <= px < w.x + w.width && w.y <= py < w.y + w.height
    && 0 <= b < |w.buffer| && w.buffer[b] != 0xA5A5A5
  }

  /** What the entry of a drawn window's buffer gives the pixel. */
  ghost function Entry(w: Window, px: int, py: int): Shown
    requires Drawn(w, px, py)
  {
    (w.buffer[(py - w.y) * w.width + (px - w.x)], Some(w.wid))
  }

  /** No window of the list before entry `i` is drawn at the pixel. */
  ghost predicate ClearTo(windows: seq<Window>, i: nat, px: int, py: int) {
    i <= |windows| && forall j :: 0 <= j < i ==> !Drawn(windows[j], px, py)
  }

  /**
    The pixel shows the entry that the buffer of the front-most drawn window holds for it, and that
    window's id; where no window is drawn it shows the background.
   */
  ghost predicate Composed(windows: seq<Window>, px: int, py: int, shown: Shown) {
    && (forall i: nat | ClearTo(windows, i, px, py) && i < |windows| && Drawn(windows[i], px, py) ::
          shown == Entry(windows[i], px, py))
    && (ClearTo(windows, |windows|, px, py) ==> shown == (0x340034, None))
  }

  lemma DrawnIffPaints(w: Window, px: int, py: int)
    requires w.Ok()
    ensures Drawn(w, px, py) <==> !w.hidden && Paints(w, px, py)
    ensures Drawn(w, px, py) ==> (ColourAt(w, px, py), Some(w.wid)) == Entry(w, px, py)
  {
    if w.Covers(px, py) {
      IdxInBounds(px - w.x, py - w.y, w.width, w.height);
    }
  }

  lemma {:induction false} PixelComposed(windows: seq<Window>, px: int, py: int)
    requires AllOk(windows)
    ensures Composed(windows, px, py, Pixel(windows, px, py))
  {
    if windows != [] {
      PixelComposed(windows[1..], px, py);
      PixelAtFront(windows, px, py);
      hide Composed, Pixel, Drawn;
      if Drawn(windows[0], px, py) {
        FrontComposed(windows, px, py);
      } else {
        BehindComposed(windows, px, py, Pixel(windows, px, py));
      }
    }
  }

  lemma PixelAtFront(windows: seq<Window>, px: int, py: int)
    requires windows != [] && windows[0].Ok()
    ensures Pixel(windows, px, py) == if Drawn(windows[0], px, py) then Entry(windows[0], px, py) else Pixel(windows[1..], px, py)
  {
    DrawnIffPaints(windows[0], px, py);
    hide Drawn, Paints, ColourAt, Window.Ok, Entry;
  }

  lemma FrontComposed(windows: seq<Window>, px: int, py: int)
    requires windows != [] && Drawn(windows[0], px, py)
    ensures Composed(windows, px, py, Entry(windows[0], px, py))
  {
    assert forall i: nat :: ClearTo(windows, i, px, py) ==> i == 0;
  }

  lemma BehindComposed(windows: seq<Window>, px: int, py: int, shown: Shown)
    requires windows != [] && !Drawn(windows[0], px, py) && Composed(windows[1..], px, py, shown)
    ensures Composed(windows, px, py, shown)
  {
    var rest := windows[1..];
    forall i: nat | 0 < i && ClearTo(windows, i, px, py) ensures ClearTo(rest, i - 1, px, py) {
      assert forall j :: 0 <= j < i - 1 ==> rest[j] == windows[j + 1];
    }
    forall i: nat | ClearTo(windows, i, px, py) && i < |windows| && Drawn(windows[i], px, py)
      ensures shown == Entry(windows[i], px, py)
    {
      assert i > 0 && rest[i - 1] == windows[i];
    }
  }

  /** A pixel shows one thing: the two cases of the composition exclude each other and one of them applies. */
  lemma {:induction false} ComposedUnique(windows: seq<Window>, px: int, py: int, a: Shown, b: Shown)
    requires Composed(windows, px, py, a) && Composed(windows, px, py, b)
    ensures a == b
  {
    var i := FrontMost(windows, px, py);
    hide Drawn;
    assert ClearTo(windows, i, px, py);
  }

  ghost function FrontMost(windows: seq<Window>, px: int, py: int): (i: nat)
    ensures ClearTo(windows, i, px, py) && (i < |windows| ==> Drawn(windows[i], px, py))
  {
    FirstDrawn(windows, 0, px, py)
  }

  ghost function FirstDrawn(windows: seq<Window>, n: nat, px: int, py: int): (i: nat)
    requires ClearTo(windows, n, px, py)
    ensures ClearTo(windows, i, px, py) && (i < |windows| ==> Drawn(windows[i], px, py))
    decreases |windows| - n
  {
    if n < |windows| && !Drawn(windows[n], px, py) then FirstDrawn(windows, n + 1, px, py) else n
  }

  // ---------- Changes of the window list are confined to the window's rectangle ----------

  /** Inserting or removing a window anywhere in the list changes only pixels that the window covers. */
  lemma {:induction false} InsertConfined(windows: seq<Window>, k: nat, w: Window, px: int, py: int)
    requires k <= |windows| && !w.Covers(px, py)
    ensures Pixel(InsertAt(windows, k, w), px, py) == Pixel(windows, px, py)
  {
    var r := InsertAt(windows, k, w);
    if k == 0 {
      assert r[1..] == windows;
    } else {
      assert r[1..] == InsertAt(windows[1..], k - 1, w);
      InsertConfined(windows[1..], k - 1, w, px, py);
    }
  }

  lemma RemoveConfined(windows: seq<Window>, k: nat, px: int, py: int)
    requires k < |windows| && !windows[k].Covers(px, py)
    ensures Pixel(RemoveAt(windows, k), px, py) == Pixel(windows, px, py)
  {
    assert InsertAt(RemoveAt(windows, k), k, windows[k]) == windows;
    InsertConfined(RemoveAt(windows, k), k, windows[k], px, py);
  }

  /** desktop_focus moves the window to the front. */
  function Focused(windows: seq<Window>, k: nat): seq<Window>
    requires k < |windows|
  {
    [windows[k]] + RemoveAt(windows, k)
  }

  lemma FocusConfined(windows: seq<Window>, k: nat, px: int, py: int)
    requires k < |windows| && !windows[k].Covers(px, py)
    ensures Pixel(Focused(windows, k), px, py) == Pixel(windows, px, py)
  {
    RemoveConfined(windows, k, px, py);
    assert Focused(windows, k)[1..] == RemoveAt(windows, k);
  }

  class Screen {
    const width: nat
    const height: nat
    const bitmap: array<nat>
    const winmap: array<Option<nat>>
    var windows: seq<Window>

    ghost predicate Sized() { bitmap.Length == winmap.Length == width * height && bitmap as object != winmap }

    ghost predicate Valid()
      reads this
    {
      Sized() && AllOk(windows)
    }

    predicate OnScreen(px: int, py: int) { 0 <= px < width && 0 <= py < height }

    /** What the buffers hold for a pixel. */
    ghost function Shows(px: int, py: int): Shown
      reads bitmap, winmap
      requires Sized() && OnScreen(px, py)
    {
      IdxInBounds(px, py, width, height);
      (bitmap[Idx(px, py, width)], winmap[Idx(px, py, width)])
    }

    /** The entry of both buffers for the pixel is what the window list composes there. */
    ghost predicate ComposedAt(px: int, py: int)
      reads this, bitmap, winmap
    {
      var k := py * width + px;
      0 <= k < bitmap.Length && k < winmap.Length && Composed(windows, px, py, (bitmap[k], winmap[k]))
    }

    /** Every pixel on the screen shows what the window list says. */
    ghost predicate Painted()
      reads this, bitmap, winmap
      requires Valid()
    {
      forall px, py :: OnScreen(px, py) ==> Shows(px, py) == Pixel(windows, px, py)
    }

    /** desktop_create, when its buffers can be allocated. */
    constructor (width: nat, height: nat)
      ensures Valid() && this.width == width && this.height == height && windows == [] && fresh(bitmap) && fresh(winmap)
    {
      this.width, this.height, windows := width, height, [];
      bitmap := new nat[width * height];
      winmap := new Option<nat>[width * height];
    }

    method Plot(px: int, py: int, c: nat, wid: Option<nat>)
      requires Sized() && OnScreen(px, py)
      modifies bitmap, winmap
      ensures forall qx, qy :: OnScreen(qx, qy) ==>
        Shows(qx, qy) == if qx == px && qy == py then (c, wid) else old(Shows(qx, qy))
    {
      IdxInBounds(px, py, width, height);
      bitmap[Idx(px, py, width)] := c;
      winmap[Idx(px, py, width)] := wid;
      forall qx, qy | OnScreen(qx, qy)
        ensures Shows(qx, qy) == if qx == px && qy == py then (c, wid) else old(Shows(qx, qy))
      {
        IdxInBounds(qx, qy, width, height);
        if Idx(qx, qy, width) == Idx(px, py, width) {
          IdxInjective(qx, qy, px, py, width);
        }
      }
    }

    /** desktop_draw_background. */
    method DrawBackground(x: int, y: int, w: int, h: int)
      requires Valid()
      modifies bitmap, winmap
      ensures forall px, py :: OnScreen(px, py) ==>
        Shows(px, py) == if InRect(px, py, x, y, w, h) then (DESKTOP_BGCOLOR, None) else old(Shows(px, py))
    {
      hide Shows;
      var i := 0;
      while i < w
        invariant 0 <= i && (i <= w || i == 0)
        invariant forall px, py :: OnScreen(px, py) ==>
          Shows(px, py) == if InRect(px, py, x, y, i, h) then (DESKTOP_BGCOLOR, None) else old(Shows(px, py))
      {
        var newX := x + i;
        if newX >= 0 {
          if newX >= width {
            break;
          }
          var j := 0;
          while j < h
            invariant 0 <= j && (j <= h || j == 0)
            invariant forall px, py :: OnScreen(px, py) ==>
              Shows(px, py) ==
                if InRect(px, py, x, y, i, h) || InRect(px, py, newX, y, 1, j)
                then (DESKTOP_BGCOLOR, None) else old(Shows(px, py))
          {
            var newY := y + j;
            if newY >= 0 {
              if newY >= height {
                break;
              }
              Plot(newX, newY, DESKTOP_BGCOLOR, None);
            }
            j := j + 1;
          }
        }
        i := i + 1;
      }
    }

    /** desktop_draw_window: paints the part of the window inside the rectangle and the screen. */
    method DrawWindow(win: Window, x: int, y: int, w: int, h: int)
      requires Valid() && win.Ok()
      modifies bitmap, winmap
      ensures forall px, py :: OnScreen(px, py) ==>
        Shows(px, py) ==
          if InRect(px, py, x, y, w, h) && Paints(win, px, py)
          then (ColourAt(win, px, py), Some(win.wid)) else old(Shows(px, py))
    {
      hide Shows, ColourAt, Window.Ok, Idx;
      var left, top, right, bottom := x, y, x + w, y + h;
      if x < win.x { left := win.x; }
      if y < win.y { top := win.y; }
      if x + w > win.x + win.width { right := win.x + win.width; }
      if y + h > win.y + win.height { bottom := win.y + win.height; }
      if top < 0 { top := 0; }
      if left < 0 { left := 0; }
      if right > width { right := width; }
      if bottom > height { bottom := height; }
      var i := left;
      while i < right
        invariant left <= i && (i <= right || i == left)
        invariant forall px, py :: OnScreen(px, py) ==>
          Shows(px, py) ==
            if left <= px < i && top <= py < bottom && Paints(win, px, py)
            then (ColourAt(win, px, py), Some(win.wid)) else old(Shows(px, py))
      {
        var j := top;
        while j < bottom
          invariant top <= j && (j <= bottom || j == top)
          invariant forall px, py :: OnScreen(px, py) ==>
            Shows(px, py) ==
              if ((left <= px < i && top <= py < bottom) || (px == i && top <= py < j)) && Paints(win, px, py)
              then (ColourAt(win, px, py), Some(win.wid)) else old(Shows(px, py))
        {
          var colour := ColourAt(win, i, j);
          if colour != TRANSPARENT {
            Plot(i, j, colour, Some(win.wid));
          }
          j := j + 1;
        }
        i := i + 1;
      }
    }

    /** desktop_update: repaints a rectangle, back to front. */
    method Update(x: int, y: int, w: int, h: int)
      requires Valid()
      modifies bitmap, winmap
      ensures forall px, py :: OnScreen(px, py) ==>
        Shows(px, py) == if InRect(px, py, x, y, w, h) then Pixel(windows, px, py) else old(Shows(px, py))
      ensures forall px, py :: 0 <= px < width && 0 <= py < height && x <= px < x + w && y <= py < y + h ==> ComposedAt(px, py)
    {
      hide Shows, Paints, ColourAt, ComposedAt;
      DrawBackground(x, y, w, h);
      var k := |windows|;
      while k > 0
        invariant 0 <= k <= |windows|
        invariant forall px, py :: OnScreen(px, py) ==>
          Shows(px, py) == if InRect(px, py, x, y, w, h) then Pixel(windows[k..], px, py) else old(Shows(px, py))
      {
        k := k - 1;
        ghost var rest := windows[k..];
        assert rest[0] == windows[k] && rest[1..] == windows[k + 1..];
        if !windows[k].hidden {
          DrawWindow(windows[k], x, y, w, h);
        }
      }
      assert windows[0..] == windows;
      hide Pixel;
      forall px, py | OnScreen(px, py) && InRect(px, py, x, y, w, h) ensures ComposedAt(px, py) {
        ShowsComposed(px, py);
      }
    }

    lemma ShowsComposed(px: int, py: int)
      requires Valid() && OnScreen(px, py) && Shows(px, py) == Pixel(windows, px, py)
      ensures ComposedAt(px, py)
    {
      hide Composed, Pixel;
      IdxInBounds(px, py, width, height);
      PixelComposed(windows, px, py);
    }

    /** desktop_refresh. */
    method Refresh()
      requires Valid()
      modifies bitmap, winmap
      ensures Painted() && forall px, py :: 0 <= px < width && 0 <= py < height ==> ComposedAt(px, py)
    {
      hide Shows, Pixel, ComposedAt;
      Update(0, 0, width, height);
    }

    /** desktop_add; `mem` is the success of the allocation of the list node. */
    method Add(win: Window, mem: bool) returns (ok: bool)
      requires Valid() && win.Ok()
      modifies this`windows
      ensures Valid() && ok == mem
      ensures windows == if ok then [win] + old(windows) else old(windows)
    {
      if mem {
        windows := [win] + windows;
      }
      return mem;
    }

    /** desktop_remove: unlinks the first entry of the window. */
    method Remove(wid: nat) returns (ok: bool, ghost k: nat)
      requires Valid()
      modifies this`windows
      ensures Valid()
      ensures ok ==> k < |old(windows)| && old(windows)[k].wid == wid && windows == RemoveAt(old(windows), k)
      ensures ok ==> forall j :: 0 <= j < k ==> old(windows)[j].wid != wid
      ensures !ok ==> windows == old(windows) && forall i :: 0 <= i < |windows| ==> windows[i].wid != wid
    {
      var i := 0;
      while i < |windows|
        invariant i <= |windows| && windows == old(windows)
        invariant forall j :: 0 <= j < i ==> windows[j].wid != wid
      {
        if windows[i].wid == wid {
          windows := RemoveAt(windows, i);
          return true, i;
        }
        i := i + 1;
      }
      return false, 0;
    }

    /**
      desktop_focus: removes the window and adds it in front. When the list node cannot be allocated the
      window is gone.
     */
    method Focus(win: Window, mem: bool) returns (ok: bool, ghost k: nat)
      requires Valid() && win.Ok() && forall i :: 0 <= i < |windows| && windows[i].wid == win.wid ==> windows[i] == win
      modifies this`windows
      ensures Valid() && (ok <==> win in old(windows) && mem)
      ensures win in old(windows) ==> k < |old(windows)| && old(windows)[k] == win
      ensures win in old(windows) ==> windows == if mem then Focused(old(windows), k) else RemoveAt(old(windows), k)
      ensures ok ==> windows == [win] + old(windows)[..k] + old(windows)[k + 1..]
      ensures win !in old(windows) ==> windows == old(windows)
    {
      hide Window.Ok, RemoveAt;
      ok, k := Remove(win.wid);
      if ok {
        assert RemoveAt(old(windows), k) == old(windows)[..k] + old(windows)[k + 1..];
        ok := Add(win, mem);
      }
    }

    /** Focusing a window, whether or not that succeeds, and repainting its own rectangle gives the full refresh. */
    method FocusAndUpdate(win: Window, mem: bool) returns (ok: bool)
      requires Valid() && Painted() && win.Ok()
      requires forall i :: 0 <= i < |windows| && windows[i].wid == win.wid ==> windows[i] == win
      modifies this`windows, bitmap, winmap
      ensures Valid() && Painted() && (ok <==> win in old(windows) && mem)
    {
      hide Shows, Pixel, Window.Ok, RemoveAt;
      ghost var k;
      ok, k := Focus(win, mem);
      forall px, py | !InRect(px, py, win.x, win.y, win.width, win.height)
        ensures Pixel(windows, px, py) == Pixel(old(windows), px, py)
      {
        if win in old(windows) {
          FocusConfined(old(windows), k, px, py);
          RemoveConfined(old(windows), k, px, py);
        }
      }
      Update(win.x, win.y, win.width, win.height);
    }

    /** desktop_get_xy: the window that a pixel belongs to. */
    method WindowAt(px: int, py: int) returns (r: Option<Option<nat>>)
      requires Valid() && Painted()
      ensures r == if OnScreen(px, py) then Some(Pixel(windows, px, py).1) else None
      ensures r.Some? <==> 0 <= px < width && 0 <= py < height
      ensures r.Some? ==> exists c :: Composed(windows, px, py, (c, r.value))
    {
      if px < 0 || py < 0 || px >= width || py >= height {
        return None;
      }
      IdxInBounds(px, py, width, height);
      assert Shows(px, py) == Pixel(windows, px, py);
      PixelComposed(windows, px, py);
      hide Composed;
      return Some(winmap[Idx(px, py, width)]);
    }

    /**
      Replaces the window list and repaints one rectangle. If every pixel that the change affects
      lies in the rectangle, a painted screen stays painted: the result equals a full refresh.
     */
    method Change(list: seq<Window>, x: int, y: int, w: int, h: int)
      requires Valid() && Painted() && AllOk(list)
      requires forall px, py :: OnScreen(px, py) && !InRect(px, py, x, y, w, h) ==>
        Pixel(list, px, py) == Pixel(windows, px, py)
      modifies this`windows, bitmap, winmap
      ensures Valid() && windows == list && Painted()
    {
      hide Pixel;
      windows := list;
      Update(x, y, w, h);
    }
  }
}
