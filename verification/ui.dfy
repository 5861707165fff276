/** The user interface (New/Shared/Screens/Element.cs, Window.cs and the
    constants of Screen.cs): hit-testing, event dispatch to children,
    pruning of removed children, the vertical layout run when a child is
    added, and a window's title-bar dragging.

    Element properties are virtual in the source; here a child is a `Node`
    whose getters and setters are spelled out per kind.  A child's own
    answer to an event is the parameter `handles`, and the cursor position
    `Screen.MouseX`/`Screen.MouseY` is passed in explicitly. */
module Ui {
  import opened Wrappers
  import Vec
  import Maths

  /** `Screen.PADDING`, `Screen.IN_PADDING`, `Screen.TITLE_BAR_SIZE`. */
  const Padding: int := 3
  const InPadding: int := 4
  const TitleBarSize: int := 24

  /** The close button's side, `TITLE_BAR_SIZE - PADDING * 2`. */
  const ButtonSize: int := TitleBarSize - Padding * 2

  /** An element's `X`, `Y`, `Width` and `Height`. */
  datatype Rect = Rect(x: int, y: int, width: int, height: int)

  /** `Element.InBounds`: the half-open rectangle [x, x+width) × [y, y+height). */
  predicate InRect(r: Rect, px: int, py: int) {
    r.x <= px < r.x + r.width && r.y <= py < r.y + r.height
  }

  /** The rectangle is half-open: it holds its top-left corner exactly when
      it is non-empty, never its right or bottom edge, and hit-testing does
      not depend on where it sits. */
  lemma BoundsHalfOpen(r: Rect, px: int, py: int)
    ensures InRect(r, r.x, r.y) <==> r.width > 0 && r.height > 0
    ensures !InRect(r, r.x + r.width, py) && !InRect(r, px, r.y + r.height)
    ensures InRect(r, px, py) <==> InRect(Rect(0, 0, r.width, r.height), px - r.x, py - r.y)
  {
  }

  // ---------------------------------------------------------------------
  // Event dispatch
  // ---------------------------------------------------------------------

  /** The first child, in order, that the event reaches and that handles it. */
  function FirstHandler<C>(children: seq<C>, reaches: C -> bool, handles: C -> bool): Option<nat>
    decreases |children|
  {
    if |children| == 0 then None
    else if reaches(children[0]) && handles(children[0]) then Some(0)
    else match FirstHandler(children[1..], reaches, handles)
      case None => None
      case Some(i) => Some(i + 1)
  }

  lemma {:induction false} FirstHandlerIsFirst<C>(children: seq<C>, reaches: C -> bool, handles: C -> bool)
    ensures FirstHandler(children, reaches, handles).Some? <==>
      exists i | 0 <= i < |children| :: reaches(children[i]) && handles(children[i])
    ensures FirstHandler(children, reaches, handles).Some? ==>
      var i := FirstHandler(children, reaches, handles).value;
      && i < |children| && reaches(children[i]) && handles(children[i])
      && forall j | 0 <= j < i :: !(reaches(children[j]) && handles(children[j]))
    decreases |children|
  {
    if |children| > 0 {
      var tail := children[1..];
      FirstHandlerIsFirst(tail, reaches, handles);
      assert forall i | 1 <= i < |children| :: children[i] == tail[i - 1];
      if exists i | 0 <= i < |children| :: reaches(children[i]) && handles(children[i]) {
        var i :| 0 <= i < |children| && reaches(children[i]) && handles(children[i]);
        if i > 0 && !(reaches(children[0]) && handles(children[0])) {
          assert reaches(tail[i - 1]) && handles(tail[i - 1]);
        }
      }
    }
  }

  /** Where dispatch stops: just after the handler, or at the end. */
  function Stop<C>(children: seq<C>, reaches: C -> bool, handles: C -> bool): nat {
    match FirstHandler(children, reaches, handles)
    case Some(i) => i + 1
    case None => |children|
  }

  /** The indices below `n` of the children the event reaches, in order. */
  function Reached<C>(children: seq<C>, reaches: C -> bool, n: nat): (r: seq<nat>)
    requires n <= |children|
    ensures forall k | 0 <= k < |r| :: r[k] < n && reaches(children[r[k]])
  {
    if n == 0 then []
    else Reached(children, reaches, n - 1) + (if reaches(children[n - 1]) then [n - 1] else [])
  }

  /** `MouseDown` (and `MouseUp`): ask, in order, each child whose bounds
      hold the cursor, and stop at the first that handles the press.
      `asked` lists the children whose handler ran. */
  method MouseDown<C>(children: seq<C>, inBounds: C -> bool, handles: C -> bool) returns (handled: bool, asked: seq<nat>)
    ensures handled <==> exists i | 0 <= i < |children| :: inBounds(children[i]) && handles(children[i])
    ensures Stop(children, inBounds, handles) <= |children|
    ensures asked == Reached(children, inBounds, Stop(children, inBounds, handles))
    ensures forall k | 0 <= k < |asked| :: asked[k] < |children|
    ensures handled ==> |asked| > 0 && handles(children[asked[|asked| - 1]])
  {
    FirstHandlerIsFirst(children, inBounds, handles);
    asked := [];
    var i := 0;
    while i < |children|
      invariant 0 <= i <= |children|
      invariant forall j | 0 <= j < i :: !(inBounds(children[j]) && handles(children[j]))
      invariant asked == Reached(children, inBounds, i)
    {
      if inBounds(children[i]) {
        asked := asked + [i];
        if handles(children[i]) {
          assert FirstHandler(children, inBounds, handles).value == i;
          return true, asked;
        }
      }
      i := i + 1;
    }
    return false, asked;
  }

  lemma {:induction false} ReachedAll<C>(children: seq<C>, reaches: C -> bool, n: nat)
    requires n <= |children|
    requires forall c :: reaches(c)
    ensures Reached(children, reaches, n) == seq(n, k => k)
  {
    if n > 0 {
      ReachedAll(children, reaches, n - 1);
    }
  }

  /** `KeyDown` (and `KeyUp`): ask every child in order and stop at the
      first that returns true; the children after it are not asked. */
  method KeyDown<C>(children: seq<C>, handles: C -> bool) returns (handled: bool, asked: seq<nat>)
    ensures handled <==> exists i | 0 <= i < |children| :: handles(children[i])
    ensures |asked| <= |children| && forall k | 0 <= k < |asked| :: asked[k] == k
    ensures handled ==> |asked| > 0 && handles(children[|asked| - 1])
    ensures forall k | 0 <= k < |asked| - 1 :: !handles(children[k])
    ensures !handled ==> |asked| == |children|
  {
    var all := (c: C) => true;
    handled, asked := MouseDown(children, all, handles);
    var s := Stop(children, all, handles);
    ReachedAll(children, all, s);
    FirstHandlerIsFirst(children, all, handles);
  }

  // ---------------------------------------------------------------------
  // Render
  // ---------------------------------------------------------------------

  /** `Render`: drop the removed children (keeping the rest in order), then
      render each survivor once, in order; `rendered` lists them. */
  method Render<C>(children: Vec.Vec<C>, removed: C -> bool, zero: C) returns (r: Vec.Vec<C>, rendered: seq<C>)
    requires children.Valid()
    ensures r.Valid() && Vec.Live(r) == Vec.Keep(Vec.Live(children), removed)
    ensures rendered == Vec.Live(r)
    ensures forall c :: c in rendered <==> c in Vec.Live(children) && !removed(c)
  {
    var dropped;
    r, dropped := Vec.RemoveAll(children, removed, zero);
    Vec.KeepContents(Vec.Live(children), removed);
    rendered := [];
    var i := 0;
    while i < r.count
      invariant 0 <= i <= r.count
      invariant rendered == r.items[..i]
    {
      rendered := rendered + [r.items[i]];
      i := i + 1;
    }
  }

  // ---------------------------------------------------------------------
  // Layout
  // ---------------------------------------------------------------------

  /** A child as the layout sees it: an element whose four properties are
      stored (`Window` and the sliders), a window's close button, whose
      position follows its window and whose setters throw, or a screen,
      which covers the game window and whose setters throw. */
  datatype Node =
    | Panel(rect: Rect)
    | Button(window: Rect, offX: int)
    | ScreenNode(winWidth: int, winHeight: int)

  /** The close button's rectangle: `offX` button widths (plus padding)
      left of the window's right edge, inside the title bar. */
  function ButtonRect(window: Rect, offX: int): (r: Rect)
    ensures r.width == 18 && r.height == 18
    ensures r.x == window.x + window.width - 21 * offX && r.y == window.y - 21
  {
    Rect(window.x + window.width - (ButtonSize + Padding) * offX, window.y - TitleBarSize + Padding, ButtonSize, ButtonSize)
  }

  /** The `X`, `Y`, `Width` and `Height` getters. */
  function Bounds(n: Node): Rect {
    match n
    case Panel(r) => r
    case Button(w, offX) => ButtonRect(w, offX)
    case ScreenNode(ww, wh) => Rect(0, 0, ww, wh)
  }

  const NotImplemented := "NotImplementedException"
  const NullReference := "NullReferenceException"

  /** The `X` setter followed by the `Y` setter. */
  function SetPos(n: Node, x: int, y: int): (r: Result<Node>)
    ensures r.Ok? <==> n.Panel?
    ensures r.Ok? ==> r.value == Panel(Rect(x, y, n.rect.width, n.rect.height))
    ensures r.Err? ==> r.msg == NotImplemented
  {
    if n.Panel? then Ok(Panel(n.rect.(x := x, y := y))) else Err(NotImplemented)
  }

  /** The `Width` setter followed by the `Height` setter. */
  function SetSize(n: Node, width: int, height: int): (r: Result<Node>)
    ensures r.Ok? <==> n.Panel?
    ensures r.Ok? ==> r.value == Panel(Rect(n.rect.x, n.rect.y, width, height))
    ensures r.Err? ==> r.msg == NotImplemented
  {
    if n.Panel? then Ok(Panel(n.rect.(width := width, height := height))) else Err(NotImplemented)
  }

  /** The layout loop over `slots`: each child is moved to column `x` and
      to `y0` plus the height stacked so far, and the widest width and the
      stacked height are accumulated.  A null slot throws at `child.X`. */
  function PlaceAll(slots: seq<Option<Node>>, x: int, y0: int, w0: int): (r: Result<(seq<Option<Node>>, int, int)>)
    ensures r.Ok? ==> |r.value.0| == |slots|
    decreases |slots|
  {
    if |slots| == 0 then Ok(([], w0, 0))
    else
      var n := |slots| - 1;
      var pre :- PlaceAll(slots[..n], x, y0, w0);
      match slots[n]
      case None => Err(NullReference)
      case Some(child) =>
        var placed :- SetPos(child, x, y0 + pre.2);
        var b := Bounds(placed);
        Ok((pre.0 + [Some(placed)], Maths.Max(pre.1, b.width), pre.2 + b.height + Padding))
  }

  /** Every slot holds an element with stored properties. */
  predicate Panels(slots: seq<Option<Node>>) {
    forall k | 0 <= k < |slots| :: slots[k].Some? && slots[k].value.Panel?
  }

  /** Reference definitions: the height the children stack to, each with
      its padding, and the widest of `w0` and their widths. */
  function StackHeight(slots: seq<Option<Node>>): int
    requires Panels(slots)
    decreases |slots|
  {
    if |slots| == 0 then 0
    else StackHeight(slots[..|slots| - 1]) + slots[|slots| - 1].value.rect.height + Padding
  }

  function Widest(w0: int, slots: seq<Option<Node>>): int
    requires Panels(slots)
    decreases |slots|
  {
    if |slots| == 0 then w0
    else Maths.Max(Widest(w0, slots[..|slots| - 1]), slots[|slots| - 1].value.rect.width)
  }

  /** On stored-property children the loop succeeds and stacks them: child
      `k` lands at column `x` and at `y0` plus the stacked height of the
      children before it, keeping its size. */
  lemma {:induction false} PlaceAllStacks(slots: seq<Option<Node>>, x: int, y0: int, w0: int)
    requires Panels(slots)
    ensures var r := PlaceAll(slots, x, y0, w0);
      && r.Ok? && r.value.1 == Widest(w0, slots) && r.value.2 == StackHeight(slots)
      && forall k | 0 <= k < |slots| :: Panels(slots[..k]) && r.value.0[k] == Placed(slots, k, x, y0)
    decreases |slots|
  {
    if |slots| > 0 {
      var n := |slots| - 1;
      var front := slots[..n];
      assert Panels(front);
      PlaceAllStacks(front, x, y0, w0);
      var pre := PlaceAll(front, x, y0, w0).value;
      var c := slots[n].value;
      var placed := Panel(Rect(x, y0 + pre.2, c.rect.width, c.rect.height));
      assert SetPos(c, x, y0 + pre.2) == Ok(placed);
      assert PlaceAll(slots, x, y0, w0) == Ok((pre.0 + [Some(placed)], Maths.Max(pre.1, c.rect.width), pre.2 + c.rect.height + Padding));
      assert StackHeight(slots) == StackHeight(front) + c.rect.height + Padding;
      assert Widest(w0, slots) == Maths.Max(Widest(w0, front), c.rect.width);
      assert Placed(slots, n, x, y0) == Some(placed) by {
        assert slots[..n] == front;
      }
      PlacedAppend(slots, x, y0, pre.0);
    }
  }

  /** Where the layout puts child `k` of `slots`: at column `x`, below the
      stacked height of the children before it, keeping its size. */
  function Placed(slots: seq<Option<Node>>, k: nat, x: int, y0: int): Option<Node>
    requires Panels(slots) && k < |slots|
  {
    assert Panels(slots[..k]);
    Some(Panel(Rect(x, y0 + StackHeight(slots[..k]), slots[k].value.rect.width, slots[k].value.rect.height)))
  }

  /** Placing the last child after the others extends the placements of
      the others. */
  lemma PlacedAppend(slots: seq<Option<Node>>, x: int, y0: int, pre: seq<Option<Node>>)
    requires Panels(slots) && |slots| > 0 && |pre| == |slots| - 1
    requires Panels(slots[..|slots| - 1])
    requires forall k | 0 <= k < |slots| - 1 :: pre[k] == Placed(slots[..|slots| - 1], k, x, y0)
    ensures var n := |slots| - 1;
      forall k | 0 <= k < |slots| :: Panels(slots[..k]) &&
        (pre + [Placed(slots, n, x, y0)])[k] == Placed(slots, k, x, y0)
  {
    var n := |slots| - 1;
    var front := slots[..n];
    forall k | 0 <= k < |slots|
      ensures Panels(slots[..k]) && (pre + [Placed(slots, n, x, y0)])[k] == Placed(slots, k, x, y0)
    {
      if k < n {
        assert slots[..k] == front[..k];
        assert Placed(slots, k, x, y0) == Placed(front, k, x, y0);
      }
    }
  }

  /** Which slot the loop fails at, and why: the first slot that does not
      hold a stored-property element; a null slot throws
      `NullReferenceException`, a button or screen `NotImplementedException`. */
  lemma {:induction false} PlaceAllFails(slots: seq<Option<Node>>, x: int, y0: int, w0: int)
    ensures PlaceAll(slots, x, y0, w0).Ok? <==> Panels(slots)
    ensures PlaceAll(slots, x, y0, w0).Err? ==> exists k | 0 <= k < |slots| ::
      && Panels(slots[..k])
      && !(slots[k].Some? && slots[k].value.Panel?)
      && PlaceAll(slots, x, y0, w0).msg == (if slots[k].None? then NullReference else NotImplemented)
    decreases |slots|
  {
    if |slots| > 0 {
      var n := |slots| - 1;
      var front := slots[..n];
      PlaceAllFails(front, x, y0, w0);
      assert forall k | 0 <= k <= n :: slots[..k] == front[..k];
      if Panels(front) {
        PlaceAllStacks(front, x, y0, w0);
        if !(slots[n].Some? && slots[n].value.Panel?) {
          assert slots[..n] == front;
        } else {
          assert Panels(slots);
        }
      } else {
        assert !Panels(slots) by {
          var k :| 0 <= k < n && !(front[k].Some? && front[k].value.Panel?);
          assert slots[k] == front[k];
        }
      }
    } else {
      assert Panels(slots);
    }
  }

  /** An element together with its children after a layout. */
  datatype Laid = Laid(parent: Node, children: Vec.Vec<Option<Node>>)

  /** `OnAddChild` as written: the loop runs over the whole backing array,
      `Children.Items.Length`, spare slots included. */
  function OnAddChildAsWritten(parent: Node, children: Vec.Vec<Option<Node>>): (r: Result<Laid>)
    requires children.Valid()
    ensures r.Ok? ==> r.value.children.Valid() && r.value.children.count == children.count
  {
    var b := Bounds(parent);
    var p :- PlaceAll(children.items, b.x + Padding, b.y + Padding, b.width);
    var parent' :- SetSize(parent, p.1, p.2);
    Ok(Laid(parent', Vec.Vec(p.0, children.count)))
  }

  /** `OnAddChild` as intended: the loop runs over the live children only,
      and the spare slots are left as they are. */
  function OnAddChild(parent: Node, children: Vec.Vec<Option<Node>>): (r: Result<Laid>)
    requires children.Valid()
    ensures r.Ok? ==> r.value.children.Valid() && r.value.children.count == children.count
    ensures r.Ok? ==> (|r.value.children.items| == |children.items|
      && r.value.children.items[children.count..] == children.items[children.count..])
  {
    var b := Bounds(parent);
    var p :- PlaceAll(Vec.Live(children), b.x + Padding, b.y + Padding, b.width);
    var parent' :- SetSize(parent, p.1, p.2);
    Ok(Laid(parent', Vec.Vec(p.0 + children.items[children.count..], children.count)))
  }

  /** The layout: with a stored-property parent and stored-property
      children it succeeds; child `k` moves to `X + 3` and
      `Y + 3 + Σ_{j<k}(h_j + 3)`, keeping its size; the parent's width
      becomes the widest of its own and its children's, and its height the
      stacked height.  Any other parent or child makes it throw. */
  lemma LayoutStacks(parent: Node, children: Vec.Vec<Option<Node>>)
    requires children.Valid()
    ensures OnAddChild(parent, children).Ok? <==> parent.Panel? && Panels(Vec.Live(children))
    ensures parent.Panel? && Panels(Vec.Live(children)) ==>
      var live := Vec.Live(children);
      var p := parent.rect;
      var r := OnAddChild(parent, children).value;
      && r.parent == Panel(Rect(p.x, p.y, Widest(p.width, live), StackHeight(live)))
      && forall k | 0 <= k < |live| :: r.children.items[k] == Placed(live, k, p.x + Padding, p.y + Padding)
  {
    var b := Bounds(parent);
    PlaceAllFails(Vec.Live(children), b.x + Padding, b.y + Padding, b.width);
    if parent.Panel? && Panels(Vec.Live(children)) {
      PlaceAllStacks(Vec.Live(children), b.x + Padding, b.y + Padding, b.width);
    }
  }

  /** `AddChild` as intended: append, then lay out the live children. */
  function AddChild(parent: Node, children: Vec.Vec<Option<Node>>, child: Node): (r: Result<Laid>)
    requires children.Valid()
    ensures r.Ok? <==> parent.Panel? && child.Panel? && Panels(Vec.Live(children))
    ensures r.Ok? ==> r.value.children.count == children.count + 1
  {
    var v := Vec.Add(children, Some(child), None);
    LayoutStacks(parent, v);
    assert Vec.Live(v)[..children.count] == Vec.Live(children);
    OnAddChild(parent, Vec.Add(children, Some(child), None))
  }

  /** `AddChild` as written: append, then lay out the whole backing array.
      When the append leaves a null spare slot it throws, even where every
      element stores its properties; only an append that fills the array
      lays out as intended. */
  function AddChildAsWritten(parent: Node, children: Vec.Vec<Option<Node>>, child: Node): (r: Result<Laid>)
    requires children.Valid()
    ensures r.Ok? ==> r.value.children.count == children.count + 1
    ensures var v := Vec.Add(children, Some(child), None);
      (parent.Panel? && child.Panel? && Panels(Vec.Live(children)) && v.count < |v.items| && v.items[v.count].None?)
        ==> r == Err(NullReference)
    ensures var v := Vec.Add(children, Some(child), None);
      v.count == |v.items| ==> r == AddChild(parent, children, child)
  {
    AddChildCases(parent, children, child);
    OnAddChildAsWritten(parent, Vec.Add(children, Some(child), None))
  }

  lemma AddChildCases(parent: Node, children: Vec.Vec<Option<Node>>, child: Node)
    requires children.Valid()
    ensures var v := Vec.Add(children, Some(child), None);
      (parent.Panel? && child.Panel? && Panels(Vec.Live(children)) && v.count < |v.items| && v.items[v.count].None?)
        ==> OnAddChildAsWritten(parent, v) == Err(NullReference)
    ensures var v := Vec.Add(children, Some(child), None);
      v.count == |v.items| ==> OnAddChildAsWritten(parent, v) == AddChild(parent, children, child)
  {
    var v := Vec.Add(children, Some(child), None);
    if parent.Panel? && child.Panel? && Panels(Vec.Live(children)) {
      assert Vec.Live(v)[..children.count] == Vec.Live(children);
      assert Panels(Vec.Live(v));
      LayoutAsWrittenVisitsSpare(parent, v);
    }
    if v.count == |v.items| {
      LayoutAgreesWhenFull(parent, v);
    }
  }

  /** `new Vec<Element>()`: four null slots. */
  function NewChildren(): (v: Vec.Vec<Option<Node>>)
    ensures v.Valid() && Vec.Live(v) == [] && |v.items| == Vec.DefaultCapacity
  {
    Vec.Vec(seq(Vec.DefaultCapacity, _ => None), 0)
  }

  /** Once a prefix of the slots throws, the whole loop throws the same. */
  lemma {:induction false} PlaceAllErrSticks(slots: seq<Option<Node>>, m: nat, x: int, y0: int, w0: int)
    requires m <= |slots|
    ensures PlaceAll(slots[..m], x, y0, w0).Err? ==> PlaceAll(slots, x, y0, w0) == PlaceAll(slots[..m], x, y0, w0)
    decreases |slots|
  {
    if m < |slots| {
      var n := |slots| - 1;
      PlaceAllErrSticks(slots[..n], m, x, y0, w0);
      assert slots[..n][..m] == slots[..m];
    } else {
      assert slots[..m] == slots;
    }
  }

  /** The as-written loop visits the spare slots: whenever the backing array
      has a null slot after stored-property children, it throws, although
      the intended layout succeeds. */
  lemma LayoutAsWrittenVisitsSpare(parent: Node, children: Vec.Vec<Option<Node>>)
    requires children.Valid() && parent.Panel? && Panels(Vec.Live(children))
    ensures children.count < |children.items| && children.items[children.count].None? ==>
      (OnAddChildAsWritten(parent, children) == Err(NullReference) && OnAddChild(parent, children).Ok?)
  {
    var b := Bounds(parent);
    var items := children.items;
    var c := children.count;
    LayoutStacks(parent, children);
    if c < |items| && items[c].None? {
      var pre := items[..c + 1];
      assert pre[..c] == Vec.Live(children);
      PlaceAllStacks(pre[..c], b.x + Padding, b.y + Padding, b.width);
      assert PlaceAll(pre, b.x + Padding, b.y + Padding, b.width) == Err(NullReference);
      PlaceAllErrSticks(items, c + 1, b.x + Padding, b.y + Padding, b.width);
    }
  }

  /** Only a full backing array, with no spare slot, is laid out alike by
      the as-written and the intended loop. */
  lemma LayoutAgreesWhenFull(parent: Node, children: Vec.Vec<Option<Node>>)
    requires children.Valid() && children.count == |children.items|
    ensures OnAddChildAsWritten(parent, children) == OnAddChild(parent, children)
  {
    var b := Bounds(parent);
    var items := children.items;
    assert Vec.Live(children) == items;
    var p := PlaceAll(items, b.x + Padding, b.y + Padding, b.width);
    if p.Ok? {
      assert p.value.0 + items[children.count..] == p.value.0;
    }
  }

  /** The first child ever added to an element: as written it throws a
      `NullReferenceException` at the three spare slots. */
  lemma FirstChildAsWritten()
    ensures AddChildAsWritten(Panel(Rect(0, 0, 0, 0)), NewChildren(), Panel(Rect(0, 0, 10, 10))) == Err(NullReference)
  {
    var v := Vec.Add(NewChildren(), Some(Panel(Rect(0, 0, 10, 10))), None);
    assert v.items == [Some(Panel(Rect(0, 0, 10, 10))), None, None, None];
    LayoutAsWrittenVisitsSpare(Panel(Rect(0, 0, 0, 0)), v);
  }

  /** The intended layout places that first child at (3, 3) and sizes the
      parent around it. */
  lemma FirstChildLaidOut()
    ensures var r := AddChild(Panel(Rect(0, 0, 0, 0)), NewChildren(), Panel(Rect(0, 0, 10, 10)));
      && r.Ok? && r.value.parent == Panel(Rect(0, 0, 10, 13))
      && r.value.children.items[0] == Some(Panel(Rect(3, 3, 10, 10)))
  {
    var v := Vec.Add(NewChildren(), Some(Panel(Rect(0, 0, 10, 10))), None);
    assert v.items == [Some(Panel(Rect(0, 0, 10, 10))), None, None, None];
    var live := Vec.Live(v);
    assert live == [Some(Panel(Rect(0, 0, 10, 10)))];
    assert live[..0] == [];
    assert Panels(live);
    assert StackHeight(live) == 13 && Widest(0, live) == 10;
    assert StackHeight(live[..0]) == 0;
    assert AddChild(Panel(Rect(0, 0, 0, 0)), NewChildren(), Panel(Rect(0, 0, 10, 10))) == OnAddChild(Panel(Rect(0, 0, 0, 0)), v);
    LayoutStacks(Panel(Rect(0, 0, 0, 0)), v);
  }

  /** `new Window()` adds its close button, and the layout then assigns the
      button's `X`, whose setter throws: constructing a window always ends
      in `NotImplementedException`, under either layout loop. */
  lemma NewWindowThrows(window: Rect)
    ensures AddChild(Panel(window), NewChildren(), Button(window, 1)) == Err(NotImplemented)
    ensures AddChildAsWritten(Panel(window), NewChildren(), Button(window, 1)) == Err(NotImplemented)
  {
    var v := Vec.Add(NewChildren(), Some(Button(window, 1)), None);
    var b := Bounds(Panel(window));
    var x, y0, w0 := b.x + Padding, b.y + Padding, b.width;
    assert v.items == [Some(Button(window, 1)), None, None, None] && v.count == 1;
    assert Vec.Live(v) == v.items[..1] == [Some(Button(window, 1))];
    assert PlaceAll(v.items[..1], x, y0, w0) == Err(NotImplemented) by {
      assert v.items[..1][..0] == [];
    }
    assert OnAddChild(Panel(window), v) == Err(NotImplemented);
    PlaceAllErrSticks(v.items, 1, x, y0, w0);
    assert OnAddChildAsWritten(Panel(window), v) == Err(NotImplemented);
  }

  // ---------------------------------------------------------------------
  // Window
  // ---------------------------------------------------------------------

  /** A window's geometry and its drag state `_dragging`, `_dragX`, `_dragY`. */
  datatype Window = Window(body: Rect, dragging: bool, dragX: int, dragY: int)

  /** The title bar: the strip of `TITLE_BAR_SIZE` just above the body. */
  function TitleBar(w: Window): Rect {
    Rect(w.body.x, w.body.y - TitleBarSize, w.body.width, TitleBarSize)
  }

  /** `InTitleBar`: [X, X+Width) × [Y-24, Y). */
  predicate InTitleBar(w: Window, px: int, py: int) {
    InRect(TitleBar(w), px, py)
  }

  /** `InBounds`: the body or the title bar. */
  predicate WindowInBounds(w: Window, px: int, py: int) {
    InRect(w.body, px, py) || InTitleBar(w, px, py)
  }

  /** The title bar and the body never overlap, and together they form the
      single rectangle [X, X+Width) × [Y-24, Y+Height) when the height is
      not negative. */
  lemma WindowBounds(w: Window, px: int, py: int)
    ensures !(InRect(w.body, px, py) && InTitleBar(w, px, py))
    ensures InTitleBar(w, px, py) <==> w.body.x <= px < w.body.x + w.body.width && w.body.y - 24 <= py < w.body.y
    ensures w.body.height >= 0 ==>
      (WindowInBounds(w, px, py) <==> InRect(Rect(w.body.x, w.body.y - 24, w.body.width, w.body.height + 24), px, py))
  {
  }

  /** The close button lies inside the title bar as long as the window is
      wide enough for it, so a click on it is inside the window's bounds. */
  lemma ButtonInTitleBar(w: Window, offX: int, px: int, py: int)
    requires 1 <= offX && 21 * offX <= w.body.width
    ensures InRect(ButtonRect(w.body, offX), px, py) ==> InTitleBar(w, px, py) && WindowInBounds(w, px, py)
  {
  }

  /** `MouseDown`: the children (`base.MouseDown`) come first; a press they
      do not handle that falls in the title bar starts a drag, remembering
      where in the window it was grabbed. */
  function WindowMouseDown(w: Window, childHandled: bool, mx: int, my: int): (r: (Window, bool))
    ensures r.0.body == w.body
    ensures r.1 <==> childHandled || InTitleBar(w, mx, my)
    ensures r.0.dragging <==> w.dragging || (!childHandled && InTitleBar(w, mx, my))
  {
    if childHandled then (w, true)
    else if !InTitleBar(w, mx, my) then (w, false)
    else (w.(dragging := true, dragX := mx - w.body.x, dragY := my - w.body.y - TitleBarSize), true)
  }

  /** `MouseUp`: pass the release on to the children, then stop dragging
      and report it unhandled. */
  function WindowMouseUp(w: Window): (r: (Window, bool))
    ensures !r.0.dragging && !r.1 && r.0.body == w.body
  {
    (w.(dragging := false), false)
  }

  /** The first step of `Render`: while dragging, move to follow the cursor. */
  function WindowFollow(w: Window, mx: int, my: int): (r: Window)
    ensures r.dragging == w.dragging && r.body.width == w.body.width && r.body.height == w.body.height
    ensures !w.dragging ==> r == w
  {
    if w.dragging then w.(body := w.body.(x := mx - w.dragX, y := my - TitleBarSize - w.dragY)) else w
  }

  /** Dragging moves the window by exactly the distance the cursor moved
      since the press, so the cursor stays on the same point of the title
      bar; a render at the position of the press leaves the window where
      it was. */
  lemma DragFollowsCursor(w: Window, mx: int, my: int, mx2: int, my2: int)
    requires InTitleBar(w, mx, my)
    ensures var d := WindowFollow(WindowMouseDown(w, false, mx, my).0, mx2, my2);
      && d.body == Rect(w.body.x + (mx2 - mx), w.body.y + (my2 - my), w.body.width, w.body.height)
      && InTitleBar(d, mx2, my2)
      && (mx2 == mx && my2 == my ==> d.body == w.body)
  {
  }

  /** After the release a render no longer moves the window. */
  lemma DragStops(w: Window, mx: int, my: int)
    ensures WindowFollow(WindowMouseUp(w).0, mx, my) == WindowMouseUp(w).0
    ensures WindowFollow(WindowMouseUp(w).0, mx, my).body == w.body
  {
  }

  /** The close button's `MouseDown`: its own children first; otherwise the
      click closes the window (sets `Removed`); it always reports the press
      handled. */
  function ButtonMouseDown(childHandled: bool, windowRemoved: bool): (r: (bool, bool))
    ensures r.1
    ensures r.0 <==> windowRemoved || !childHandled
  {
    if childHandled then (windowRemoved, true) else (true, true)
  }
}
