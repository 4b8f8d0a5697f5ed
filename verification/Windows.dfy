/**
  Windows and their layered composition onto the screen.
 */
module Windows {
  import opened Common
  import opened FrameBuffer

  type LayerId = nat

  // ---------------------------------------------------------------- one window

  class Window {
    var pos: Vec2
    var transparent: Option<Color>
    var updated: bool
    const width: nat
    const height: nat
    const fore: FrameBuffer

    constructor (width: nat, height: nat, format: PixelFormat)
      ensures Valid() && fresh(fore) && fresh(fore.data) && fore.format == format
      ensures pos == Vec2(0, 0) && transparent.None? && !updated && this.width == width && this.height == height
    {
      pos, transparent, updated := Vec2(0, 0), None, false;
      this.width, this.height := width, height;
      fore := new FrameBuffer(width, height, format);
    }

    ghost predicate Valid() {
      fore.Valid() && fore.width == width && fore.height == height
    }

    ghost function Area(): Rect
      reads this
    {
      FromWh(pos.x, pos.y, width, height)
    }

    /** The window paints screen position (x, y): it covers it, and not with its transparent colour. */
    ghost predicate Paints(x: int, y: int)
      requires Valid()
      reads this, fore.data
    {
      Area().Has(x, y) && transparent != Some(fore.ColorAt(x - pos.x, y - pos.y))
    }

    ghost function Paint(x: int, y: int): Color
      requires Valid() && Area().Has(x, y)
      reads this, fore.data
    {
      fore.ColorAt(x - pos.x, y - pos.y)
    }

    method DrawTo(buf: FrameBuffer)
      requires Valid() && buf.Valid() && buf.format == fore.format && buf.data != fore.data
      modifies buf.data
      ensures forall x, y :: 0 <= x < buf.stride && 0 <= y < buf.height ==>
                buf.ColorAt(x, y) == if x < buf.width && Paints(x, y) then Paint(x, y) else old(buf.ColorAt(x, y))
    {
      if transparent.None? {
        buf.Copy(pos, fore);
      } else {
        DrawThrough(buf, transparent.value);
      }
    }

    /** One row of the pixel loop: the columns [x1, x2) of row `y0` of the window. */
    method DrawRowThrough(buf: FrameBuffer, tc: Color, x1: int, x2: int, y0: int)
      requires Valid() && buf.Valid() && buf.data != fore.data && transparent == Some(tc)
      requires 0 <= x1 <= x2 <= width && 0 <= y0 < height
      requires 0 <= pos.x + x1 && pos.x + x2 <= buf.width && 0 <= pos.y + y0 < buf.height
      modifies buf.data
      ensures forall x, y :: 0 <= x < buf.stride && 0 <= y < buf.height ==>
        buf.ColorAt(x, y) == if InRow(x, y, pos.x + x1, pos.x + x2, pos.y + y0) && Paints(x, y) then Paint(x, y)
                             else old(buf.ColorAt(x, y))
    {
      for x0 := x1 to x2
        invariant forall x, y :: 0 <= x < buf.stride && 0 <= y < buf.height ==>
          buf.ColorAt(x, y) == if InRow(x, y, pos.x + x1, pos.x + x0, pos.y + y0) && Paints(x, y) then Paint(x, y)
                               else old(buf.ColorAt(x, y))
      {
        var pixel := fore.ColorAt(x0, y0);
        if pixel != tc {
          buf.Write(Vec2(pos.x + x0, pos.y + y0), pixel);
        }
      }
    }

    /** The pixel loop for a window with a transparent colour. */
    method DrawThrough(buf: FrameBuffer, tc: Color)
      requires Valid() && buf.Valid() && buf.data != fore.data && transparent == Some(tc)
      modifies buf.data
      ensures forall x, y :: 0 <= x < buf.stride && 0 <= y < buf.height ==>
        buf.ColorAt(x, y) == if x < buf.width && Paints(x, y) then Paint(x, y) else old(buf.ColorAt(x, y))
    {
      var common := buf.Screen().Intersection(FromWh(pos.x, pos.y, width, height));
      if common.None? {
        return;
      }
      var r := common.value.MoveRelative(-pos.x, -pos.y);
      for y0 := r.y1 to r.y2
        invariant forall x, y :: 0 <= x < buf.stride && 0 <= y < buf.height ==>
          buf.ColorAt(x, y) == if x < buf.width && Paints(x, y) && y < pos.y + y0 then Paint(x, y)
                               else old(buf.ColorAt(x, y))
      {
        DrawRowThrough(buf, tc, r.x1, r.x2, y0);
      }
    }
  }

  // ---------------------------------------------------------------- the stack of layers

  /** The stack without layer `id`, the others in order. */
  function Hidden(stack: seq<LayerId>, id: LayerId): seq<LayerId> {
    if stack == [] then []
    else Hidden(stack[..|stack| - 1], id) + if stack[|stack| - 1] == id then [] else [stack[|stack| - 1]]
  }

  function Raised(stack: seq<LayerId>, id: LayerId, height: int): seq<LayerId> {
    var others := Hidden(stack, id);
    if height < 0 then others
    else
      var k := if height < |others| then height else |others|;
      others[..k] + [id] + others[k..]
  }

  lemma AppendNoDuplicates(s: seq<LayerId>, x: LayerId)
    ensures NoDuplicates(s + [x]) <==> NoDuplicates(s) && x !in s
  {
    var t := s + [x];
    if NoDuplicates(t) {
      assert forall i :: 0 <= i < |s| ==> t[i] == s[i];
      assert forall i :: 0 <= i < |s| ==> t[i] != t[|s|];
    }
  }

  lemma {:induction false} HiddenMembers(stack: seq<LayerId>, id: LayerId)
    ensures forall x :: x in Hidden(stack, id) <==> x in stack && x != id
    ensures NoDuplicates(stack) ==> NoDuplicates(Hidden(stack, id))
  {
    if stack != [] {
      var s, x := stack[..|stack| - 1], stack[|stack| - 1];
      HiddenMembers(s, id);
      assert stack == s + [x];
      AppendNoDuplicates(s, x);
      AppendNoDuplicates(Hidden(s, id), x);
      assert Hidden(s, id) + [] == Hidden(s, id);
    }
  }

  lemma {:induction false} HiddenShorter(stack: seq<LayerId>, id: LayerId)
    ensures |Hidden(stack, id)| <= |stack|
  {
    if stack != [] { HiddenShorter(stack[..|stack| - 1], id); }
  }

  lemma {:induction false} HiddenAbsent(stack: seq<LayerId>, id: LayerId)
    requires id !in stack
    ensures Hidden(stack, id) == stack
  {
    if stack != [] {
      HiddenAbsent(stack[..|stack| - 1], id);
    }
  }

  lemma HiddenLast(s: seq<LayerId>, x: LayerId, id: LayerId)
    ensures Hidden(s + [x], id) == if x == id then Hidden(s, id) else Hidden(s, id) + [x]
  {
    assert (s + [x])[..|s|] == s;
  }

  lemma HiddenConcatOne(s: seq<LayerId>, t: seq<LayerId>, x: LayerId, id: LayerId)
    requires Hidden(s + t, id) == Hidden(s, id) + Hidden(t, id)
    ensures Hidden(s + (t + [x]), id) == Hidden(s, id) + Hidden(t + [x], id)
  {
    HiddenLast(s + t, x, id);
    HiddenLast(t, x, id);
    assert s + (t + [x]) == (s + t) + [x];
  }

  lemma {:induction false} HiddenConcat(s: seq<LayerId>, t: seq<LayerId>, id: LayerId)
    ensures Hidden(s + t, id) == Hidden(s, id) + Hidden(t, id)
  {
    if t == [] {
      assert s + t == s;
    } else {
      var init, last := t[..|t| - 1], t[|t| - 1];
      HiddenConcat(s, init, id);
      HiddenConcatOne(s, init, last, id);
      assert t == init + [last];
    }
  }

  /** Two layers can be hidden in either order. */
  lemma {:induction false} HiddenCommutes(s: seq<LayerId>, a: LayerId, b: LayerId)
    ensures Hidden(Hidden(s, a), b) == Hidden(Hidden(s, b), a)
  {
    if s != [] {
      var t, x := s[..|s| - 1], s[|s| - 1];
      HiddenCommutes(t, a, b);
      HiddenConcat(Hidden(t, a), if x == a then [] else [x], b);
      HiddenConcat(Hidden(t, b), if x == b then [] else [x], a);
      assert Hidden([x], a) == if x == a then [] else [x];
      assert Hidden([x], b) == if x == b then [] else [x];
    }
  }

  lemma InsertedNoDuplicates(s: seq<LayerId>, k: nat, id: LayerId)
    requires NoDuplicates(s) && k <= |s| && id !in s
    ensures NoDuplicates(s[..k] + [id] + s[k..])
  {
    var t := s[..k] + [id] + s[k..];
    assert forall i :: 0 <= i < |t| ==> t[i] == if i < k then s[i] else if i == k then id else s[i - 1];
  }

  lemma InsertedAt(s: seq<LayerId>, k: nat, id: LayerId)
    requires k <= |s|
    ensures |s[..k] + [id] + s[k..]| == |s| + 1 && (s[..k] + [id] + s[k..])[k] == id
  {
  }

  lemma InsertedHidden(s: seq<LayerId>, k: nat, id: LayerId)
    requires k <= |s| && id !in s
    ensures Hidden(s[..k] + [id] + s[k..], id) == s
  {
    var a, b := s[..k], s[k..];
    assert s == a + b && a + [id] + b == a + ([id] + b);
    HiddenAbsent(s, id);
    HiddenConcat(a, b, id);
    HiddenConcat([id], b, id);
    HiddenConcat(a, [id] + b, id);
    assert Hidden([id], id) == [];
    assert Hidden([id], id) + Hidden(b, id) == Hidden(b, id);
  }

  /**
    Raising a layer puts it at the requested height, or on top when that is too high, leaves the
    other layers in order, and keeps the stack free of duplicates.
   */
  lemma RaisedIsInsertion(stack: seq<LayerId>, id: LayerId, height: int)
    requires NoDuplicates(stack)
    ensures var r := Raised(stack, id, height);
            && NoDuplicates(r)
            && Hidden(r, id) == Hidden(stack, id)
            && (height < 0 ==> id !in r)
            && (height >= 0 ==> |r| >= 1 && r[if height < |r| then height else |r| - 1] == id)
  {
    var others := Hidden(stack, id);
    HiddenMembers(stack, id);
    if height < 0 {
      HiddenAbsent(others, id);
    } else {
      var k := if height < |others| then height else |others|;
      InsertedNoDuplicates(others, k, id);
      InsertedHidden(others, k, id);
      InsertedAt(others, k, id);
    }
  }

  datatype StackOp = Hide(id: LayerId) | UpDown(id: LayerId, height: int)

  ghost function AfterOps(stack: seq<LayerId>, ops: seq<StackOp>): seq<LayerId> {
    if ops == [] then stack
    else
      var s := AfterOps(stack, ops[..|ops| - 1]);
      match ops[|ops| - 1]
      case Hide(id) => Hidden(s, id)
      case UpDown(id, h) => Raised(s, id, h)
  }

  /** Hides every layer in `ids`. */
  ghost function HiddenAll(stack: seq<LayerId>, ids: seq<LayerId>): seq<LayerId> {
    if ids == [] then stack else Hidden(HiddenAll(stack, ids[..|ids| - 1]), ids[|ids| - 1])
  }

  lemma {:induction false} HiddenAllCommutes(s: seq<LayerId>, ids: seq<LayerId>, a: LayerId)
    ensures Hidden(HiddenAll(s, ids), a) == HiddenAll(Hidden(s, a), ids)
  {
    if ids != [] {
      var ids0, b := ids[..|ids| - 1], ids[|ids| - 1];
      HiddenAllCommutes(s, ids0, a);
      HiddenCommutes(HiddenAll(s, ids0), b, a);
    }
  }

  lemma {:induction false} HiddenTwice(s: seq<LayerId>, ids: seq<LayerId>, a: LayerId)
    requires a in ids
    ensures HiddenAll(Hidden(s, a), ids) == HiddenAll(s, ids)
  {
    var ids0, b := ids[..|ids| - 1], ids[|ids| - 1];
    if a == b {
      HiddenAllCommutes(s, ids0, a);
      HiddenMembers(HiddenAll(s, ids0), a);
      HiddenAbsent(Hidden(HiddenAll(s, ids0), a), a);
    } else {
      HiddenTwice(s, ids0, a);
    }
  }

  /**
    Over every run of hides and raises the stack stays free of duplicates, and the layers that no
    operation of the run names keep their order: once the named ones are left out of both, the
    stack before and the stack after are the same.
   */
  lemma {:induction false} RunsKeepOrder(stack: seq<LayerId>, ops: seq<StackOp>, named: seq<LayerId>)
    requires NoDuplicates(stack) && forall i :: 0 <= i < |ops| ==> ops[i].id in named
    ensures NoDuplicates(AfterOps(stack, ops))
    ensures HiddenAll(AfterOps(stack, ops), named) == HiddenAll(stack, named)
  {
    if ops != [] {
      var ops0, op := ops[..|ops| - 1], ops[|ops| - 1];
      RunsKeepOrder(stack, ops0, named);
      var s := AfterOps(stack, ops0);
      HiddenMembers(s, op.id);
      HiddenTwice(s, named, op.id);
      if op.UpDown? {
        RaisedIsInsertion(s, op.id, op.height);
        HiddenTwice(Raised(s, op.id, op.height), named, op.id);
      }
    }
  }

  // ---------------------------------------------------------------- the manager

  class LayeredWindowManager {
    var layers: seq<Window>
    var stack: seq<LayerId>
    const shadow: FrameBuffer
    const buffer: FrameBuffer

    /** Windows share the screen's pixel format and no memory with the screen or its shadow. */
    ghost predicate Valid()
      reads this
    {
      && shadow.Valid() && buffer.Valid() && shadow.data != buffer.data && shadow.format == buffer.format
      && shadow.width == buffer.width && shadow.height == buffer.height
      && NoDuplicates(stack)
      && (forall w :: w in layers ==> w.Valid() && w.fore.format == shadow.format
                                      && w.fore.data != shadow.data && w.fore.data != buffer.data)
    }

    /** Every layer on the stack exists; a frame with one that does not would index past `layers`. */
    ghost predicate Drawable()
      reads this
    {
      Valid() && forall k :: 0 <= k < |stack| ==> stack[k] < |layers|
    }

    constructor (buffer: FrameBuffer)
      requires buffer.Valid()
      ensures Valid() && fresh(shadow) && fresh(shadow.data) && this.buffer == buffer && layers == [] && stack == []
    {
      shadow := new FrameBuffer(buffer.width, buffer.height, buffer.format);
      this.buffer := buffer;
      layers, stack := [], [];
    }

    method NewLayer(window: Window) returns (id: LayerId)
      requires Valid() && window.Valid() && window.fore.format == shadow.format
      requires window.fore.data != shadow.data && window.fore.data != buffer.data
      modifies this`layers
      ensures Valid() && layers == old(layers) + [window] && id == |old(layers)|
    {
      layers := layers + [window];
      id := |layers| - 1;
    }

    method HideLayer(id: LayerId)
      requires Valid()
      modifies this`stack
      ensures Valid() && stack == Hidden(old(stack), id)
    {
      HiddenMembers(stack, id);
      stack := Hidden(stack, id);
    }

    method UpDownLayer(id: LayerId, newHeight: int)
      requires Valid()
      modifies this`stack
      ensures Valid() && stack == Raised(old(stack), id, newHeight)
    {
      ghost var before := stack;
      RaisedIsInsertion(before, id, newHeight);
      if newHeight < 0 {
        HideLayer(id);
        return;
      }
      var height := if newHeight < |stack| then newHeight else |stack|;
      if id in stack {
        HideLayer(id);
        HiddenShorter(before, id);
        height := if height < |stack| then height else |stack|;
      } else {
        HiddenAbsent(before, id);
      }
      assert stack == Hidden(before, id) && height == if newHeight < |stack| then newHeight else |stack|;
      stack := stack[..height] + [id] + stack[height..];
    }

    ghost function WindowAt(k: nat): (w: Window)
      requires Drawable() && k < |stack|
      reads this
      ensures w in layers && w.Valid()
    {
      layers[stack[k]]
    }

    /** Layer k of the stack paints (x, y) in the next frame. */
    ghost predicate LayerPaints(k: nat, x: int, y: int)
      requires Drawable() && k < |stack|
      reads this, layers, set w | w in layers :: w.fore.data
    {
      WindowAt(k).updated && WindowAt(k).Paints(x, y)
    }

    /** The colour at (x, y) after the lowest k layers are drawn over `under`. */
    ghost function Composed(k: nat, x: int, y: int, under: Color): Color
      requires Drawable() && k <= |stack|
      reads this, layers, set w | w in layers :: w.fore.data
    {
      if k == 0 then under
      else if LayerPaints(k - 1, x, y) then WindowAt(k - 1).Paint(x, y)
      else Composed(k - 1, x, y, under)
    }

    /** The topmost layer that paints a position decides its colour. */
    lemma {:induction false} TopmostDecides(k: nat, n: nat, x: int, y: int, under: Color)
      requires Drawable() && k < n <= |stack| && LayerPaints(k, x, y)
      requires forall j :: k < j < n ==> !LayerPaints(j, x, y)
      ensures Composed(n, x, y, under) == WindowAt(k).Paint(x, y)
    {
      if k < n - 1 { TopmostDecides(k, n - 1, x, y, under); }
    }

    lemma {:induction false} NoneKeepsShadow(n: nat, x: int, y: int, under: Color)
      requires Drawable() && n <= |stack| && forall j :: 0 <= j < n ==> !LayerPaints(j, x, y)
      ensures Composed(n, x, y, under) == under
    {
      if n > 0 { NoneKeepsShadow(n - 1, x, y, under); }
    }

    /** One turn of the loop: layer k goes over what the layers below it left. */
    method DrawLayer(k: nat)
      requires Drawable() && k < |stack|
      modifies shadow.data
      ensures forall x, y :: 0 <= x < shadow.width && 0 <= y < shadow.height ==>
        shadow.ColorAt(x, y) == if LayerPaints(k, x, y) then WindowAt(k).Paint(x, y) else old(shadow.ColorAt(x, y))
    {
      var win := layers[stack[k]];
      assert win == WindowAt(k);
      if win.updated {
        win.DrawTo(shadow);
      }
    }

    /** The screen and the shadow show the composition of all updated layers over the last shadow. */
    method Draw()
      requires Drawable()
      modifies shadow.data, buffer.data
      ensures forall x, y :: 0 <= x < buffer.width && 0 <= y < buffer.height ==>
        && shadow.ColorAt(x, y) == Composed(|stack|, x, y, old(shadow.ColorAt(x, y)))
        && buffer.ColorAt(x, y) == shadow.ColorAt(x, y)
    {
      DrawLayers();
      buffer.Copy(Vec2(0, 0), shadow);
    }

    method DrawLayers()
      requires Drawable()
      modifies shadow.data
      ensures forall x, y :: 0 <= x < shadow.width && 0 <= y < shadow.height ==>
        shadow.ColorAt(x, y) == Composed(|stack|, x, y, old(shadow.ColorAt(x, y)))
    {
      for k := 0 to |stack|
        invariant forall x, y :: 0 <= x < shadow.width && 0 <= y < shadow.height ==>
          shadow.ColorAt(x, y) == Composed(k, x, y, old(shadow.ColorAt(x, y)))
      {
        DrawLayer(k);
      }
    }
  }
}
