/**
 The entry points of debug.js as whole transitions: each changes the
 registry and then calls `resize()`, as `add` (line 62), `handleMinimize`
 (line 172), `handleCount` (line 179) and `handleClick` (line 201) do.
 `init()` throws before it registers its window listeners, so no window
 event ever reaches `resize()`.
 */
module Overlay {
  import opened Wrappers
  import opened SeqOps
  import opened OrderedMap
  import opened Registry
  import opened Layout

  /** The registry together with the styles of every element in the document. */
  datatype World = World(state: State, dom: Dom)

  predicate Consistent(w: World)
  {
    Valid(w.state) && Fits(w.state, w.dom)
  }

  const Start := World(Empty, Dom([], []))

  /** Gives the elements created since `dom` was laid out their initial styles. */
  function Grow(s: State, dom: Dom): (r: Dom)
    requires |dom.panels| <= |s.elements| && |dom.controls| <= |s.controls|
    ensures Fits(s, r)
    ensures forall i :: 0 <= i < |dom.panels| ==> r.panels[i] == dom.panels[i]
    ensures forall i :: |dom.panels| <= i < |r.panels| ==> r.panels[i] == NewPanelStyle
    ensures forall i :: 0 <= i < |dom.controls| ==> r.controls[i] == dom.controls[i]
    ensures forall i :: |dom.controls| <= i < |r.controls| ==> r.controls[i] == NewControlStyle
  {
    Dom(dom.panels + seq(|s.elements| - |dom.panels|, _ => NewPanelStyle),
        dom.controls + seq(|s.controls| - |dom.controls|, _ => NewControlStyle))
  }

  /** `add(name, options)`; the new panel is `|w.state.elements|`. */
  function OnAdd(w: World, name: string, o: Options, v: View): (r: World)
    requires Consistent(w)
    ensures Consistent(r)
    ensures r.state == Add(w.state, name, o)
  {
    AddPreservesValid(w.state, name, o);
    var s := Add(w.state, name, o);
    World(s, Resize(s, Grow(s, w.dom), v))
  }

  /** How a call ends: by returning, or by throwing an exception of the named kind to its caller. */
  datatype Completion = Returned | Threw(kind: string)

  /** The world a call leaves behind, and how the call ended. */
  datatype Outcome = Outcome(world: World, completion: Completion)

  /**
   `init()`: the add of the panel 'debug' sized 0.15 (line 15) runs to the
   end, relayout included. Line 16 then reads `error`, a name nothing
   outside the commented-out block declares, and throws a ReferenceError.
   So the error and resize listeners of lines 16-17 are never registered.
   */
  function Init(v: View): (r: Outcome)
    ensures Consistent(r.world)
    ensures r.world.state == Add(Empty, "debug", Options("", 0.15, 0.0, false))
    ensures r.completion == Threw("ReferenceError")
  {
    EmptyIsValid();
    Outcome(OnAdd(Start, "debug", Options("", 0.15, 0.0, false), v), Threw("ReferenceError"))
  }

  /** A click on panel `p`. */
  function OnClick(w: World, p: nat, v: View): (r: World)
    requires Consistent(w) && p < |w.state.elements|
    ensures Consistent(r)
    ensures r.state == HandleClick(w.state, p)
  {
    HandleClickPreservesValid(w.state, p);
    var s := HandleClick(w.state, p);
    World(s, Resize(s, w.dom, v))
  }

  /** A click on the count badge of control `c`. */
  function OnCount(w: World, c: nat, v: View): (r: World)
    requires Consistent(w) && c < |w.state.controls|
    ensures Consistent(r)
    ensures r.state == HandleCount(w.state, c)
  {
    HandleCountPreservesValid(w.state, c);
    var s := HandleCount(w.state, c);
    World(s, Resize(s, w.dom, v))
  }

  /** A click on the minimize button of control `c`. */
  function OnMinimize(w: World, c: nat, v: View): (r: World)
    requires Consistent(w) && c < |w.state.controls|
    ensures Consistent(r)
    ensures r.state == HandleMinimize(w.state, c)
  {
    HandleMinimizePreservesValid(w.state, c);
    var s := HandleMinimize(w.state, c);
    World(s, Resize(s, w.dom, v))
  }

  /**
   After `init()` the 'debug' panel is the default panel, the only panel on
   the left, a visible square of 0.15 times `max` at the bottom, and the
   left control sits 10 pixels above it with its badge hidden.
   */
  lemma InitLayout(v: View)
    ensures var w := Init(v).world;
      && w.state.defaultPanel == Some(0)
      && w.state.left.panels == [Entry("debug", 0)]
      && w.state.left.minimize == Some(0)
      && w.dom.panels[0] == PanelStyle(Block, Some(0.0), Some(MaxSize(v) as real * 0.15))
      && w.dom.controls[0].bottom == Some((10 + v.height(PanelElem(0))) as real)
      && w.dom.controls[0].countDisplay == Hidden
  {
    var w := Init(v).world;
    var s := w.state;
    var d := Grow(s, Start.dom);
    assert s.left.panels == [Entry("debug", 0)];
    assert Values(s.left.panels) == [0];
    assert Visible([0], []) == [0];
    var stack := Stack(s.left);
    assert stack == [PanelElem(0), ControlElem(0)];
    StackSideOffsets(s, Left, d, v);
    assert BottomOf(w.dom, stack[0]) == Some(Extent(Heights(stack, v), 0) as real);
    assert BottomOf(w.dom, stack[1]) == Some(Extent(Heights(stack, v), 1) as real);
    StackSideSizes(s, Left, d, v, 0);
    StackSideBadge(s, Left, d, v);
    assert HiddenSet([0], []) == {};
  }

  /**
   A panel added on the right is never laid out: no minimize control is ever
   stored on the right side, so `resize` skips it and the panel keeps its
   initial style.
   */
  lemma RightPanelNeverPlaced(w: World, name: string, o: Options, v: View)
    requires Consistent(w) && SideOf(o) == Right
    ensures OnAdd(w, name, o, v).dom.panels[|w.state.elements|] == NewPanelStyle
  {
    var s := Add(w.state, name, o);
    var id := |w.state.elements|;
    assert Get(s.right.panels, name) == Some(id);
    var i :| 0 <= i < |s.right.panels| && s.right.panels[i] == Entry(name, id);
    assert Values(s.right.panels)[i] == id;
  }

  /** No call, and no relayout, ever changes the style of a panel registered on the right. */
  lemma RightSideUntouched(w: World, v: View, p: nat)
    requires Consistent(w) && p in Values(w.state.right.panels)
    ensures Resize(w.state, w.dom, v).panels[p] == w.dom.panels[p]
    ensures forall name, o :: OnAdd(w, name, o, v).dom.panels[p] == w.dom.panels[p]
    ensures forall q: nat :: q < |w.state.elements| ==> OnClick(w, q, v).dom.panels[p] == w.dom.panels[p]
    ensures forall c: nat :: c < |w.state.controls| ==> OnCount(w, c, v).dom.panels[p] == w.dom.panels[p]
    ensures forall c: nat :: c < |w.state.controls| ==> OnMinimize(w, c, v).dom.panels[p] == w.dom.panels[p]
  {
  }

  /**
   The left side laid out as minimized: all its registered panels and its
   badge are hidden and its control sits at half the window height.
   */
  predicate LeftCollapsed(w: World, v: View)
    requires Consistent(w)
  {
    && w.state.left.minimize.Some?
    && (forall p :: p in Values(w.state.left.panels) ==> w.dom.panels[p].display == Hidden)
    && w.dom.controls[w.state.left.minimize.value].countDisplay == Hidden
    && w.dom.controls[w.state.left.minimize.value].bottom == Some(v.innerHeight as real / 2.0)
  }

  /** A relayout of a minimized left side collapses it. */
  lemma RelayoutCollapses(s: State, dom: Dom, v: View)
    requires Valid(s) && Fits(s, dom) && s.left.isMinimized && s.left.minimize.Some?
    ensures LeftCollapsed(World(s, Resize(s, dom, v)), v)
  {
    var d1 := Resize(s, dom, v);
    assert d1 == CollapseSide(s, Left, dom, v);
  }

  /**
   While the left side is minimized, adding a panel, clicking a panel and
   clicking a badge all leave it collapsed, including a panel just added.
   Only the minimize button restores it.
   */
  lemma MinimizedSideHidesAll(w: World, v: View)
    requires Consistent(w) && w.state.left.isMinimized && w.state.left.minimize.Some?
    ensures forall name, o :: LeftCollapsed(OnAdd(w, name, o, v), v)
    ensures forall q: nat :: q < |w.state.elements| ==> LeftCollapsed(OnClick(w, q, v), v)
    ensures forall c: nat :: c < |w.state.controls| ==> LeftCollapsed(OnCount(w, c, v), v)
  {
    forall name, o ensures LeftCollapsed(OnAdd(w, name, o, v), v) {
      var s := Add(w.state, name, o);
      AddPreservesValid(w.state, name, o);
      RelayoutCollapses(s, Grow(s, w.dom), v);
    }
    forall q: nat | q < |w.state.elements| ensures LeftCollapsed(OnClick(w, q, v), v) {
      HandleClickPreservesValid(w.state, q);
      RelayoutCollapses(HandleClick(w.state, q), w.dom, v);
    }
    forall c: nat | c < |w.state.controls| ensures LeftCollapsed(OnCount(w, c, v), v) {
      HandleCountPreservesValid(w.state, c);
      RelayoutCollapses(HandleCount(w.state, c), w.dom, v);
    }
  }

  /**
   Minimizing and restoring the left side gives back the state, and, for
   the same measured heights, every panel's position and size and every
   control's style that a relayout of the unchanged registry gives.
   */
  lemma MinimizeRoundTrip(w: World, c: nat, v: View)
    requires Consistent(w) && c < |w.state.controls| && !w.state.left.isMinimized
    ensures var w2 := OnMinimize(OnMinimize(w, c, v), c, v);
      var base := Resize(w.state, w.dom, v);
      && w2.state == w.state
      && w2.dom.controls == base.controls
      && forall p :: 0 <= p < |w2.dom.panels| ==>
           w2.dom.panels[p].bottom == base.panels[p].bottom && w2.dom.panels[p].size == base.panels[p].size
  {
    var s := w.state;
    var w1 := OnMinimize(w, c, v);
    var s1 := w1.state;
    assert s1 == s.(left := s.left.(isMinimized := true));
    MinimizeTwiceRestores(s, c);
    var d1 := CollapseSide(s1, Left, w.dom, v);
    assert w1.dom == d1;
    var w2 := OnMinimize(w1, c, v);
    assert w2.state == s;
    assert w2.dom == StackSide(s, Left, d1, v);
    var base := Resize(w.state, w.dom, v);
    assert base == StackSide(s, Left, w.dom, v);
    forall p | 0 <= p < |w2.dom.panels|
      ensures w2.dom.panels[p].bottom == base.panels[p].bottom
      ensures w2.dom.panels[p].size == base.panels[p].size
    {
      assert w2.dom.panels[p] == Restyled(s, Left, d1, v, p);
      assert base.panels[p] == Restyled(s, Left, w.dom, v, p);
    }
  }

  /**
   Minimizing and restoring the left side leaves a shown panel without
   `options.size` hidden: `display` is set back to 'block' only for sized
   panels.
   */
  lemma UnsizedPanelStaysHidden(w: World, c: nat, v: View, p: nat)
    requires Consistent(w) && c < |w.state.controls| && !w.state.left.isMinimized
    requires p in Visible(Values(w.state.left.panels), w.state.left.minimized)
    requires !Truthy(w.state.elements[p].options.size)
    ensures OnMinimize(OnMinimize(w, c, v), c, v).dom.panels[p].display == Hidden
  {
    var s := w.state;
    var w1 := OnMinimize(w, c, v);
    var d1 := CollapseSide(w1.state, Left, w.dom, v);
    assert w1.dom == d1;
    MinimizeTwiceRestores(s, c);
    StackSideSizes(s, Left, d1, v, p);
  }
}
