/**
 The layout walk of debug.js: `resizeSide` (lines 204-268) and `resize`
 (lines 270-280), as pure functions from the registry and the current styles
 to the new styles.

 The browser's measurements are inputs: the viewport size and each element's
 `offsetHeight` as the browser reports it once the element is styled. The
 outputs are the style fields the walk writes: `display`, `bottom`, the
 square `width`/`height` of sized panels, and the count badge's `display`
 and text.
 */
module Layout {
  import opened Wrappers
  import opened SeqOps
  import opened OrderedMap
  import opened Registry

  /** CSS `display`: `Unset` is the initial empty value, `Hidden` is 'none'. */
  datatype Display = Unset | Hidden | Block | Inline

  /** The style fields of a panel `div` the walk writes; `size` is both width and height. */
  datatype PanelStyle = PanelStyle(display: Display, bottom: Option<real>, size: Option<real>)

  /** A minimize control's `bottom`, and its count badge's `display` and number. */
  datatype ControlStyle = ControlStyle(bottom: Option<real>, countDisplay: Display, countText: Option<nat>)

  /** Styles of every panel and every control, indexed as in the registry. */
  datatype Dom = Dom(panels: seq<PanelStyle>, controls: seq<ControlStyle>)

  const NewPanelStyle := PanelStyle(Unset, None, None)

  /** A new control's badge starts hidden (line 150). */
  const NewControlStyle := ControlStyle(None, Hidden, None)

  datatype Elem = PanelElem(panel: nat) | ControlElem(control: nat)

  /** `innerWidth`, `innerHeight` and each element's `offsetHeight`. */
  datatype View = View(innerWidth: nat, innerHeight: nat, height: Elem -> nat)

  predicate Fits(s: State, dom: Dom)
  {
    |dom.panels| == |s.elements| && |dom.controls| == |s.controls|
  }

  /** `Math.min(innerWidth, innerHeight)`, which the source calls `max`. */
  function MaxSize(v: View): nat
  {
    if v.innerWidth < v.innerHeight then v.innerWidth else v.innerHeight
  }

  /** The registered panels that are not in `minimized`, in enumeration order. */
  function Visible(ids: seq<nat>, minimized: seq<nat>): (r: seq<nat>)
    ensures forall x :: x in r <==> x in ids && x !in minimized
    ensures |r| <= |ids|
  {
    if ids == [] then []
    else (if ids[0] in minimized then [] else [ids[0]]) + Visible(ids[1..], minimized)
  }

  /** Filtering keeps order: it distributes over concatenation. */
  lemma {:induction false} VisibleConcat(a: seq<nat>, b: seq<nat>, minimized: seq<nat>)
    ensures Visible(a + b, minimized) == Visible(a, minimized) + Visible(b, minimized)
  {
    if a == [] {
      assert a + b == b;
    } else {
      assert (a + b)[1..] == a[1..] + b;
      VisibleConcat(a[1..], b, minimized);
    }
  }

  lemma {:induction false} VisibleNoDup(ids: seq<nat>, minimized: seq<nat>)
    requires NoDup(ids)
    ensures NoDup(Visible(ids, minimized))
  {
    if ids != [] {
      assert ids == [ids[0]] + ids[1..];
      NoDupCons(ids[0], ids[1..]);
      VisibleNoDup(ids[1..], minimized);
      if ids[0] !in minimized {
        NoDupCons(ids[0], Visible(ids[1..], minimized));
      }
    }
  }

  /**
   The `count` of the walk: the registered panels found in `minimized`. With
   the shown ones it accounts for every registered panel.
   */
  function HiddenCount(ids: seq<nat>, minimized: seq<nat>): (n: nat)
    ensures n + |Visible(ids, minimized)| == |ids|
  {
    if ids == [] then 0
    else (if ids[0] in minimized then 1 else 0) + HiddenCount(ids[1..], minimized)
  }

  /** The registered panels that are in `minimized`, as a set. */
  function HiddenSet(ids: seq<nat>, minimized: seq<nat>): set<nat>
  {
    set x | x in ids && x in minimized
  }

  lemma HiddenSetCons(ids: seq<nat>, minimized: seq<nat>)
    requires ids != []
    ensures HiddenSet(ids, minimized)
         == (if ids[0] in minimized then {ids[0]} else {}) + HiddenSet(ids[1..], minimized)
  {
    assert forall x :: x in ids <==> x == ids[0] || x in ids[1..] by {
      assert ids == [ids[0]] + ids[1..];
    }
  }

  /** With no panel registered twice, the count is the number of registered panels in `minimized`. */
  lemma {:induction false} HiddenCountIsCardinality(ids: seq<nat>, minimized: seq<nat>)
    requires NoDup(ids)
    ensures HiddenCount(ids, minimized) == |HiddenSet(ids, minimized)|
  {
    if ids == [] {
      assert HiddenSet(ids, minimized) == {};
    } else {
      assert ids == [ids[0]] + ids[1..];
      NoDupCons(ids[0], ids[1..]);
      HiddenCountIsCardinality(ids[1..], minimized);
      HiddenSetCons(ids, minimized);
      var tail := HiddenSet(ids[1..], minimized);
      assert ids[0] !in tail;
      if ids[0] in minimized {
        assert |tail + {ids[0]}| == |tail| + 1;
      }
    }
  }

  /** Total extent of the first `i` stacking entries: the sum of `10 + height` over them. */
  function Extent(h: seq<nat>, i: nat): nat
    requires i <= |h|
  {
    if i == 0 then 0 else Extent(h, i - 1) + 10 + h[i - 1]
  }

  lemma {:induction false} ExtentShift(h: seq<nat>, i: nat)
    requires 1 <= i <= |h|
    ensures Extent(h, i) == 10 + h[0] + Extent(h[1..], i - 1)
  {
    if i > 1 {
      ExtentShift(h, i - 1);
    }
  }

  /**
   Entries never overlap: each entry starts at least 10 above the top of
   every earlier one, so the offsets strictly increase from 0.
   */
  lemma {:induction false} ExtentSeparates(h: seq<nat>, i: nat, j: nat)
    requires i < j <= |h|
    ensures Extent(h, i) + h[i] + 10 <= Extent(h, j)
    ensures Extent(h, 0) == 0
  {
    if j > i + 1 {
      ExtentSeparates(h, i, j - 1);
    }
  }

  /** The walk's running `current`, starting from `current`: one offset per entry. */
  function StackOffsets(h: seq<nat>, current: nat): (r: seq<nat>)
    ensures |r| == |h|
    ensures forall i :: 0 <= i < |h| ==> r[i] == current + Extent(h, i)
    decreases |h|
  {
    if h == [] then []
    else
      var rest := StackOffsets(h[1..], current + 10 + h[0]);
      assert forall i :: 1 <= i < |h| ==> Extent(h, i) == 10 + h[0] + Extent(h[1..], i - 1) by {
        forall i | 1 <= i < |h| {
          ExtentShift(h, i);
        }
      }
      [current] + rest
  }

  /** The stacking entries of a side that is not minimized: its shown panels, then its control. */
  function Stack(ss: SideState): seq<Elem>
    requires ss.minimize.Some?
  {
    var vis := Visible(Values(ss.panels), ss.minimized);
    seq(|vis|, k requires 0 <= k < |vis| => PanelElem(vis[k])) + [ControlElem(ss.minimize.value)]
  }

  /** The measured height of each stacking entry. */
  function Heights(stack: seq<Elem>, v: View): (h: seq<nat>)
    ensures |h| == |stack|
  {
    if stack == [] then [] else [v.height(stack[0])] + Heights(stack[1..], v)
  }

  function BottomOf(dom: Dom, e: Elem): Option<real>
  {
    match e
    case PanelElem(p) => if p < |dom.panels| then dom.panels[p].bottom else None
    case ControlElem(c) => if c < |dom.controls| then dom.controls[c].bottom else None
  }

  /**
   The fraction of `max` a sized panel takes: `options.expandable` while an
   expandable panel is expanded, `options.size` otherwise.
   */
  function Fraction(o: Options, expanded: bool): real
  {
    if Truthy(o.expandable) && expanded then o.expandable else o.size
  }

  /** One step of the walk for a shown panel (lines 239-254). */
  function Place(st: PanelStyle, p: Panel, bottom: nat, maxSize: nat): PanelStyle
  {
    if Truthy(p.options.size) then
      PanelStyle(Block, Some(bottom as real), Some(maxSize as real * Fraction(p.options, p.expanded)))
    else
      st.(bottom := Some(bottom as real))
  }

  /** The badge: hidden when nothing is hidden, otherwise shown with the count. */
  function Badge(cs: ControlStyle, count: nat): ControlStyle
  {
    if count == 0 then cs.(countDisplay := Hidden) else cs.(countDisplay := Inline, countText := Some(count))
  }

  /**
   `resizeSide` on a minimized side (lines 206-215): every registered panel
   is hidden, the control moves to half the window height and its badge is
   hidden; nothing else changes.
   */
  function CollapseSide(s: State, sd: SideId, dom: Dom, v: View): (r: Dom)
    requires WellFormed(s) && Fits(s, dom) && s.Side(sd).minimize.Some?
    ensures Fits(s, r)
    ensures forall p :: p in Values(s.Side(sd).panels) ==>
      r.panels[p] == dom.panels[p].(display := Hidden)
    ensures forall p :: 0 <= p < |r.panels| && p !in Values(s.Side(sd).panels) ==> r.panels[p] == dom.panels[p]
    ensures var c := s.Side(sd).minimize.value;
      && r.controls[c].bottom == Some(v.innerHeight as real / 2.0)
      && r.controls[c].countDisplay == Hidden
      && r.controls[c].countText == dom.controls[c].countText
      && forall i :: 0 <= i < |r.controls| && i != c ==> r.controls[i] == dom.controls[i]
  {
    var ss := s.Side(sd);
    var c := ss.minimize.value;
    var ids := Values(ss.panels);
    Dom(
      seq(|dom.panels|, p requires 0 <= p < |dom.panels| =>
        if p in ids then dom.panels[p].(display := Hidden) else dom.panels[p]),
      dom.controls[c := dom.controls[c].(bottom := Some(v.innerHeight as real / 2.0), countDisplay := Hidden)])
  }

  /** The bottom offset of each stacking entry of a side that is not minimized. */
  function Offsets(ss: SideState, v: View): (r: seq<nat>)
    requires ss.minimize.Some?
    ensures |r| == |Visible(Values(ss.panels), ss.minimized)| + 1
  {
    StackOffsets(Heights(Stack(ss), v), 0)
  }

  /** The style of panel `p` after the walk over a side that is not minimized. */
  function Restyled(s: State, sd: SideId, dom: Dom, v: View, p: nat): PanelStyle
    requires WellFormed(s) && Fits(s, dom) && s.Side(sd).minimize.Some? && p < |dom.panels|
  {
    var ss := s.Side(sd);
    var ids := Values(ss.panels);
    var vis := Visible(ids, ss.minimized);
    if p in vis then Place(dom.panels[p], s.elements[p], Offsets(ss, v)[IndexOf(vis, p)], MaxSize(v))
    else if p in ids then dom.panels[p].(display := Hidden)
    else dom.panels[p]
  }

  /**
   `resizeSide` on a side that is not minimized (lines 216-267). The lemmas
   below state what it does.
   */
  function StackSide(s: State, sd: SideId, dom: Dom, v: View): (r: Dom)
    requires WellFormed(s) && Fits(s, dom) && s.Side(sd).minimize.Some?
    ensures Fits(s, r)
    ensures forall p :: 0 <= p < |r.panels| ==> r.panels[p] == Restyled(s, sd, dom, v, p)
    ensures forall i :: 0 <= i < |r.controls| && i != s.Side(sd).minimize.value ==> r.controls[i] == dom.controls[i]
  {
    var ss := s.Side(sd);
    var c := ss.minimize.value;
    var ids := Values(ss.panels);
    var vis := Visible(ids, ss.minimized);
    Dom(
      seq(|dom.panels|, p requires 0 <= p < |dom.panels| => Restyled(s, sd, dom, v, p)),
      dom.controls[c := Badge(dom.controls[c].(bottom := Some(Offsets(ss, v)[|vis|] as real)),
                              HiddenCount(ids, ss.minimized))])
  }

  /** Panels not registered in this side's map keep their styles. */
  lemma StackSideLeavesOthers(s: State, sd: SideId, dom: Dom, v: View)
    requires WellFormed(s) && Fits(s, dom) && s.Side(sd).minimize.Some?
    ensures var r := StackSide(s, sd, dom, v);
      forall p :: 0 <= p < |r.panels| && p !in Values(s.Side(sd).panels) ==> r.panels[p] == dom.panels[p]
  {
  }

  /**
   A shown panel sits at the sum of `10 + height` over the entries stacked
   below it, which are the shown panels enumerated before it.
   */
  lemma StackSidePanelOffset(s: State, sd: SideId, dom: Dom, v: View, p: nat)
    requires WellFormed(s) && Fits(s, dom) && s.Side(sd).minimize.Some?
    requires p in Visible(Values(s.Side(sd).panels), s.Side(sd).minimized)
    ensures var vis := Visible(Values(s.Side(sd).panels), s.Side(sd).minimized);
      StackSide(s, sd, dom, v).panels[p].bottom == Some(Extent(Heights(Stack(s.Side(sd)), v), IndexOf(vis, p)) as real)
  {
    assert StackSide(s, sd, dom, v).panels[p] == Restyled(s, sd, dom, v, p);
  }

  /**
   The stacking entries are the shown panels in enumeration order and then
   the control; entry k is placed at the sum of `10 + height` over the
   entries before it.
   */
  lemma StackSideOffsets(s: State, sd: SideId, dom: Dom, v: View)
    requires WellFormed(s) && Fits(s, dom) && s.Side(sd).minimize.Some?
    ensures var stack := Stack(s.Side(sd));
      var r := StackSide(s, sd, dom, v);
      forall k :: 0 <= k < |stack| ==> BottomOf(r, stack[k]) == Some(Extent(Heights(stack, v), k) as real)
  {
    var ss := s.Side(sd);
    var vis := Visible(Values(ss.panels), ss.minimized);
    var stack := Stack(ss);
    var r := StackSide(s, sd, dom, v);
    var offs := Offsets(ss, v);
    assert offs == StackOffsets(Heights(stack, v), 0);
    forall k | 0 <= k < |stack|
      ensures BottomOf(r, stack[k]) == Some(Extent(Heights(stack, v), k) as real)
    {
      if k < |vis| {
        VisibleNoDup(Values(ss.panels), ss.minimized);
        IndexOfDistinct(vis, k);
        assert vis[k] in vis;
        StackSidePanelOffset(s, sd, dom, v, vis[k]);
        assert stack[k] == PanelElem(vis[k]);
      } else {
        assert stack[k] == ControlElem(ss.minimize.value);
      }
    }
  }

  /**
   A shown panel with `options.size` becomes a visible square of `max` times
   its fraction; a shown panel without it keeps its display and size.
   */
  lemma StackSideSizes(s: State, sd: SideId, dom: Dom, v: View, p: nat)
    requires WellFormed(s) && Fits(s, dom) && s.Side(sd).minimize.Some?
    requires p in Visible(Values(s.Side(sd).panels), s.Side(sd).minimized)
    ensures var r := StackSide(s, sd, dom, v);
      var e := s.elements[p];
      if Truthy(e.options.size) then
        && r.panels[p].display == Block
        && r.panels[p].size == Some(MaxSize(v) as real * Fraction(e.options, e.expanded))
      else
        r.panels[p].display == dom.panels[p].display && r.panels[p].size == dom.panels[p].size
  {
    assert StackSide(s, sd, dom, v).panels[p] == Restyled(s, sd, dom, v, p);
  }

  /** A registered panel in `minimized` is hidden and otherwise left alone. */
  lemma StackSideHides(s: State, sd: SideId, dom: Dom, v: View, p: nat)
    requires WellFormed(s) && Fits(s, dom) && s.Side(sd).minimize.Some?
    requires p in Values(s.Side(sd).panels) && p in s.Side(sd).minimized
    ensures StackSide(s, sd, dom, v).panels[p] == dom.panels[p].(display := Hidden)
  {
    assert StackSide(s, sd, dom, v).panels[p] == Restyled(s, sd, dom, v, p);
  }

  /**
   The badge is hidden exactly when no registered panel of the side is in
   `minimized`; otherwise it is shown with the number of them.
   */
  lemma StackSideBadge(s: State, sd: SideId, dom: Dom, v: View)
    requires WellFormed(s) && Fits(s, dom) && s.Side(sd).minimize.Some?
    ensures var ss := s.Side(sd);
      var c := ss.minimize.value;
      var r := StackSide(s, sd, dom, v);
      var count := |HiddenSet(Values(ss.panels), ss.minimized)|;
      && (r.controls[c].countDisplay == Hidden <==> count == 0)
      && (count == 0 ==> r.controls[c].countText == dom.controls[c].countText)
      && (count != 0 ==> r.controls[c].countDisplay == Inline && r.controls[c].countText == Some(count))
  {
    HiddenCountIsCardinality(Values(s.Side(sd).panels), s.Side(sd).minimized);
  }

  /** `resizeSide(side)`. */
  function ResizeSide(s: State, sd: SideId, dom: Dom, v: View): (r: Dom)
    requires WellFormed(s) && Fits(s, dom) && s.Side(sd).minimize.Some?
    ensures Fits(s, r)
    ensures forall p :: 0 <= p < |r.panels| && p !in Values(s.Side(sd).panels) ==> r.panels[p] == dom.panels[p]
  {
    if s.Side(sd).isMinimized then CollapseSide(s, sd, dom, v) else StackSide(s, sd, dom, v)
  }

  /**
   `resize()`: lays out each side that has a minimize control. A side without
   one is left exactly as it was.
   */
  function Resize(s: State, dom: Dom, v: View): (r: Dom)
    requires WellFormed(s) && Fits(s, dom)
    ensures Fits(s, r)
    ensures s.right.minimize.None? ==> forall p :: p in Values(s.right.panels) ==> r.panels[p] == dom.panels[p]
    ensures s.left.minimize.None? ==> forall p :: p in Values(s.left.panels) ==> r.panels[p] == dom.panels[p]
  {
    var d1 := if s.left.minimize.Some? then ResizeSide(s, Left, dom, v) else dom;
    if s.right.minimize.Some? then ResizeSide(s, Right, d1, v) else d1
  }
}
