/**
 The side registry of debug.js (lines 9-11) and the transitions that change it:
 `add` (lines 25-64), `minimizeCreate` (lines 110-155, only which side's
 control gets set) and the click handlers `handleMinimize`, `handleCount`
 and `handleClick` (lines 166-202).

 DOM elements are identified by position: a panel `div` by its index in
 `elements`, a minimize control by its index in `controls`. Every element ever
 created stays there, as it stays in the document, even after a later `add`
 under the same name takes its place in the side's map.
 */
module Registry {
  import opened Wrappers
  import opened SeqOps
  import opened OrderedMap

  datatype SideId = Left | Right

  /**
   The `options` object given to `add`. A number option that was not given is
   0.0, which JavaScript treats as false, as it does an explicit 0.
   */
  datatype Options = Options(side: string, size: real, expandable: real, isDefault: bool)

  /** `options || {}` when no options are passed. */
  const NoOptions := Options("", 0.0, 0.0, false)

  /** JavaScript truthiness of a number option. */
  predicate Truthy(x: real)
  {
    x != 0.0
  }

  /** Only the exact string "right" selects the right side (line 39). */
  function SideOf(o: Options): SideId
  {
    if o.side == "right" then Right else Left
  }

  /** A panel `div`: its name, its options, the side it was added to, and `div.expanded`. */
  datatype Panel = Panel(name: string, options: Options, side: SideId, expanded: bool)

  predicate Expandable(p: Panel)
  {
    Truthy(p.options.expandable)
  }

  /**
   One side record: the name -> panel map in enumeration order, the
   `minimized` list, the `isMinimized` flag and the minimize control (its
   count badge is part of the same control).
   */
  datatype SideState = SideState(
    panels: seq<Entry<string, nat>>,
    minimized: seq<nat>,
    isMinimized: bool,
    minimize: Option<nat>)

  const EmptySide := SideState([], [], false, None)

  datatype State = State(
    elements: seq<Panel>,
    controls: seq<SideId>,
    left: SideState,
    right: SideState,
    defaultPanel: Option<nat>)
  {
    function Side(sd: SideId): SideState
    {
      if sd == Left then left else right
    }

    function WithSide(sd: SideId, ss: SideState): State
    {
      if sd == Left then this.(left := ss) else this.(right := ss)
    }
  }

  /** The module state before any call: no elements, both sides empty and not minimized. */
  const Empty := State([], [], EmptySide, EmptySide, None)

  function Other(sd: SideId): SideId
  {
    if sd == Left then Right else Left
  }

  /** Everything a side refers to exists and belongs to that side. */
  predicate SideWellFormed(s: State, sd: SideId)
  {
    var ss := s.Side(sd);
    && DistinctKeys(ss.panels)
    && NoDup(Values(ss.panels))
    && (forall p :: p in Values(ss.panels) ==> p < |s.elements| && s.elements[p].side == sd)
    && NoDup(ss.minimized)
    && (forall p :: p in ss.minimized ==> p < |s.elements| && s.elements[p].side == sd)
    && (ss.minimize.Some? ==> ss.minimize.value < |s.controls| && s.controls[ss.minimize.value] == sd)
  }

  predicate WellFormed(s: State)
  {
    && SideWellFormed(s, Left)
    && SideWellFormed(s, Right)
    && (s.defaultPanel.Some? ==> s.defaultPanel.value < |s.elements|)
  }

  /**
   What holds of every state the program can reach: besides being well formed,
   every minimize control ever created belongs to the left side, the left
   side holds the latest one, and the right side never gets one.
   */
  predicate Valid(s: State)
  {
    && WellFormed(s)
    && s.left.minimize == (if |s.controls| == 0 then None else Some(|s.controls| - 1))
    && s.right.minimize.None?
    && (forall i :: 0 <= i < |s.controls| ==> s.controls[i] == Left)
  }

  lemma EmptyIsValid()
    ensures Valid(Empty)
  {
  }

  /**
   `minimizeCreate(isLeft)`: creates a control and stores it on the left side
   when `isLeft` is truthy. The callers pass the strings 'right' and 'left',
   both of which are truthy.
   */
  function MinimizeCreate(s: State, isLeft: string): (r: State)
    ensures isLeft != "" ==> r.left.minimize == Some(|s.controls|) && r.right == s.right
    ensures r.controls == s.controls + [if isLeft != "" then Left else Right]
    ensures r.elements == s.elements && r.defaultPanel == s.defaultPanel
    ensures r.left.panels == s.left.panels && r.right.panels == s.right.panels
    ensures r.left.minimized == s.left.minimized && r.right.minimized == s.right.minimized
    ensures r.left.isMinimized == s.left.isMinimized && r.right.isMinimized == s.right.isMinimized
  {
    var sd := if isLeft != "" then Left else Right;
    var c := |s.controls|;
    var s1 := s.(controls := s.controls + [sd]);
    s1.WithSide(sd, s1.Side(sd).(minimize := Some(c)))
  }

  /**
   `add(name, options)`: creates a panel on the side the options select,
   makes it the default panel when there is none yet or `options.default` is
   set, creates a minimize control when the guard of its branch says so, and
   stores the panel under `name`, replacing any panel of that name.
   */
  function Add(s: State, name: string, o: Options): (r: State)
    ensures r.elements == s.elements + [Panel(name, o, SideOf(o), false)]
    ensures Get(r.Side(SideOf(o)).panels, name) == Some(|s.elements|)
    ensures forall n :: n != name ==> Get(r.Side(SideOf(o)).panels, n) == Get(s.Side(SideOf(o)).panels, n)
    ensures r.Side(Other(SideOf(o))).panels == s.Side(Other(SideOf(o))).panels
    ensures r.left.minimized == s.left.minimized && r.right.minimized == s.right.minimized
    ensures r.left.isMinimized == s.left.isMinimized && r.right.isMinimized == s.right.isMinimized
    ensures s.defaultPanel.None? || o.isDefault ==> r.defaultPanel == Some(|s.elements|)
    ensures !(s.defaultPanel.None? || o.isDefault) ==> r.defaultPanel == s.defaultPanel
    ensures r.right.minimize == s.right.minimize
    ensures s.right.minimize.None? ==> r.left.minimize.Some?
    ensures SideOf(o) == Left && s.right.minimize.None? ==>
      r.controls == s.controls + [Left] && r.left.minimize == Some(|s.controls|)
    ensures SideOf(o) == Right ==>
      r.controls == (if s.left.minimize.None? then s.controls + [Left] else s.controls)
  {
    var sd := SideOf(o);
    Store(EnsureControl(CreatePanel(s, name, o), sd), sd, name, |s.elements|)
  }

  /** Lines 27-34 of `add`: the new `div`, which becomes the default panel when there is none or it asks to be. */
  function CreatePanel(s: State, name: string, o: Options): State
  {
    var id := |s.elements|;
    s.(elements := s.elements + [Panel(name, o, SideOf(o), false)],
       defaultPanel := if s.defaultPanel.None? || o.isDefault then Some(id) else s.defaultPanel)
  }

  /**
   Lines 39-56 of `add`: a right add creates a control when the left side has
   none; a left add creates one when the right side has none.
   */
  function EnsureControl(s: State, sd: SideId): State
  {
    if sd == Right then (if s.left.minimize.None? then MinimizeCreate(s, "right") else s)
    else (if s.right.minimize.None? then MinimizeCreate(s, "left") else s)
  }

  /** Line 58 of `add`: `side.panels[name] = div`. */
  function Store(s: State, sd: SideId, name: string, id: nat): State
  {
    s.WithSide(sd, s.Side(sd).(panels := Put(s.Side(sd).panels, name, id)))
  }

  /** Insertion order: a new name is enumerated last, an existing one keeps its place. */
  lemma AddKeepsOrder(s: State, name: string, o: Options)
    ensures var before := Keys(s.Side(SideOf(o)).panels);
            Keys(Add(s, name, o).Side(SideOf(o)).panels) == if name in before then before else before + [name]
  {
    var sd := SideOf(o);
    var s2 := EnsureControl(CreatePanel(s, name, o), sd);
    assert s2.Side(sd).panels == s.Side(sd).panels;
    PutKeys(s2.Side(sd).panels, name, |s.elements|);
  }

  lemma CreatePanelPreservesValid(s: State, name: string, o: Options)
    requires Valid(s)
    ensures Valid(CreatePanel(s, name, o))
  {
  }

  lemma EnsureControlPreservesValid(s: State, sd: SideId)
    requires Valid(s)
    ensures Valid(EnsureControl(s, sd))
  {
  }

  /** Storing a fresh element under a name keeps that side's names and elements distinct and on the side. */
  lemma StoreKeepsSideWellFormed(s: State, sd: SideId, name: string, id: nat)
    requires SideWellFormed(s, sd) && id < |s.elements| && s.elements[id].side == sd
    requires id !in Values(s.Side(sd).panels)
    ensures SideWellFormed(Store(s, sd, name, id), sd)
  {
    var m := s.Side(sd).panels;
    var r := Store(s, sd, name, id);
    var ss := r.Side(sd);
    assert r.elements == s.elements && r.controls == s.controls;
    assert ss == s.Side(sd).(panels := Put(m, name, id));
    PutKeepsKeysDistinct(m, name, id);
    PutValuesNoDup(m, name, id);
    PutValuesFrom(m, name, id);
    assert forall p :: p in Values(ss.panels) ==> p < |r.elements| && r.elements[p].side == sd;
  }

  /** Whether a side is well formed depends only on that side, the elements and the controls. */
  lemma SideWellFormedFrame(s: State, t: State, sd: SideId)
    requires s.elements == t.elements && s.controls == t.controls && s.Side(sd) == t.Side(sd)
    ensures SideWellFormed(s, sd) == SideWellFormed(t, sd)
  {
  }

  /**
   A state with as many elements as a valid one, and the same controls,
   default panel and control assignments, is valid once both its sides are
   well formed.
   */
  lemma ValidFromParts(s: State, t: State)
    requires Valid(s)
    requires |t.elements| == |s.elements| && t.controls == s.controls && t.defaultPanel == s.defaultPanel
    requires t.left.minimize == s.left.minimize && t.right.minimize == s.right.minimize
    requires SideWellFormed(t, Left) && SideWellFormed(t, Right)
    ensures Valid(t)
  {
  }

  lemma StorePreservesValid(s: State, sd: SideId, name: string, id: nat)
    requires Valid(s) && id < |s.elements| && s.elements[id].side == sd
    requires id !in Values(s.Side(sd).panels)
    ensures Valid(Store(s, sd, name, id))
  {
    var r := Store(s, sd, name, id);
    StoreKeepsSideWellFormed(s, sd, name, id);
    SideWellFormedFrame(r, s, Other(sd));
    ValidFromParts(s, r);
  }

  /**
   `add` keeps the registry valid: every control still belongs to the left
   side, the left side holds the newest one, the right side has none, and no
   panel is stored twice.
   */
  lemma AddPreservesValid(s: State, name: string, o: Options)
    requires Valid(s)
    ensures Valid(Add(s, name, o))
  {
    var sd := SideOf(o);
    var id := |s.elements|;
    var s1 := CreatePanel(s, name, o);
    CreatePanelPreservesValid(s, name, o);
    var s2 := EnsureControl(s1, sd);
    EnsureControlPreservesValid(s1, sd);
    assert s2.elements == s1.elements && s2.Side(sd).panels == s.Side(sd).panels;
    assert id !in Values(s.Side(sd).panels);
    StorePreservesValid(s2, sd, name, id);
  }

  /**
   `handleClick` on panel `p`: an expandable panel flips `expanded`; any other
   panel is pushed onto its side's `minimized` list when absent and spliced
   out of it when present.
   */
  function HandleClick(s: State, p: nat): (r: State)
    requires p < |s.elements|
    ensures |r.elements| == |s.elements| && r.controls == s.controls && r.defaultPanel == s.defaultPanel
    ensures forall q :: 0 <= q < |s.elements| && q != p ==> r.elements[q] == s.elements[q]
    ensures Expandable(s.elements[p]) ==>
      && r.elements[p] == s.elements[p].(expanded := !s.elements[p].expanded)
      && r.left == s.left && r.right == s.right
    ensures !Expandable(s.elements[p]) ==>
      var sd := s.elements[p].side;
      var before := s.Side(sd).minimized;
      var after := r.Side(sd).minimized;
      && r.elements == s.elements
      && r.Side(Other(sd)) == s.Side(Other(sd))
      && r.Side(sd) == s.Side(sd).(minimized := after)
      && (p !in before ==> after == before + [p])
      && (NoDup(before) ==> (p in after <==> p !in before) && NoDup(after))
      && Without(after, p) == Without(before, p)
  {
    var e := s.elements[p];
    if Expandable(e) then
      s.(elements := s.elements[p := e.(expanded := !e.expanded)])
    else
      var ss := s.Side(e.side);
      s.WithSide(e.side, ss.(minimized := Toggle(ss.minimized, p)))
  }

  lemma HandleClickPreservesValid(s: State, p: nat)
    requires Valid(s) && p < |s.elements|
    ensures Valid(HandleClick(s, p))
  {
    if Expandable(s.elements[p]) {
      ExpandPreservesValid(s, p);
    } else {
      HideShowPreservesValid(s, p);
    }
  }

  /** Expanding or collapsing a panel keeps every element on its side. */
  lemma ExpandPreservesValid(s: State, p: nat)
    requires Valid(s) && p < |s.elements| && Expandable(s.elements[p])
    ensures Valid(HandleClick(s, p))
  {
    var r := HandleClick(s, p);
    assert forall q :: 0 <= q < |r.elements| ==> r.elements[q].side == s.elements[q].side;
    assert SideWellFormed(r, Left) && SideWellFormed(r, Right);
    ValidFromParts(s, r);
  }

  /** Replacing a side's `minimized` list by a duplicate-free list of that side's panels keeps the registry valid. */
  lemma ReplaceMinimizedPreservesValid(s: State, sd: SideId, after: seq<nat>)
    requires Valid(s)
    requires NoDup(after) && forall q :: q in after ==> q < |s.elements| && s.elements[q].side == sd
    ensures Valid(s.WithSide(sd, s.Side(sd).(minimized := after)))
  {
    var r := s.WithSide(sd, s.Side(sd).(minimized := after));
    assert r.elements == s.elements && r.Side(sd) == s.Side(sd).(minimized := after);
    assert SideWellFormed(r, sd);
    SideWellFormedFrame(r, s, Other(sd));
    ValidFromParts(s, r);
  }

  /** Hiding or showing a panel keeps its side's `minimized` list duplicate-free and on that side. */
  lemma HideShowPreservesValid(s: State, p: nat)
    requires Valid(s) && p < |s.elements| && !Expandable(s.elements[p])
    ensures Valid(HandleClick(s, p))
  {
    var sd := s.elements[p].side;
    var ss := s.Side(sd);
    var after := Toggle(ss.minimized, p);
    assert forall q :: q in after ==> q in ss.minimized || q == p;
    ReplaceMinimizedPreservesValid(s, sd, after);
    assert HandleClick(s, p) == s.WithSide(sd, ss.(minimized := after));
  }

  /**
   `handleCount` on a control: pops the last entry of the `minimized` list of
   the control's side, bringing back the panel hidden most recently; an empty
   list stays empty.
   */
  function HandleCount(s: State, c: nat): (r: State)
    requires c < |s.controls|
    ensures var sd := s.controls[c];
      && r == s.WithSide(sd, r.Side(sd))
      && r.Side(sd) == s.Side(sd).(minimized := r.Side(sd).minimized)
      && (s.Side(sd).minimized == [] ==> r == s)
      && (s.Side(sd).minimized != [] ==>
            r.Side(sd).minimized + [s.Side(sd).minimized[|s.Side(sd).minimized| - 1]] == s.Side(sd).minimized)
  {
    var sd := s.controls[c];
    var ss := s.Side(sd);
    s.WithSide(sd, ss.(minimized := Pop(ss.minimized)))
  }

  lemma HandleCountPreservesValid(s: State, c: nat)
    requires Valid(s) && c < |s.controls|
    ensures Valid(HandleCount(s, c))
  {
    var sd := s.controls[c];
    var m := s.Side(sd).minimized;
    if m != [] {
      assert m == Pop(m) + [m[|m| - 1]];
      forall i, j | 0 <= i < j < |Pop(m)|
        ensures Pop(m)[i] != Pop(m)[j]
      {
        assert Pop(m)[i] == m[i] && Pop(m)[j] == m[j];
      }
    }
  }

  /** `handleMinimize` on a control: flips `isMinimized` of the control's side. */
  function HandleMinimize(s: State, c: nat): (r: State)
    requires c < |s.controls|
    ensures var sd := s.controls[c];
      && r.Side(sd).isMinimized == !s.Side(sd).isMinimized
      && r.Side(sd) == s.Side(sd).(isMinimized := r.Side(sd).isMinimized)
      && r == s.WithSide(sd, r.Side(sd))
  {
    var sd := s.controls[c];
    var ss := s.Side(sd);
    s.WithSide(sd, ss.(isMinimized := !ss.isMinimized))
  }

  lemma HandleMinimizePreservesValid(s: State, c: nat)
    requires Valid(s) && c < |s.controls|
    ensures Valid(HandleMinimize(s, c))
  {
  }

  /** In every reachable state a control click acts on the left side. */
  lemma ControlsActOnLeft(s: State, c: nat)
    requires Valid(s) && c < |s.controls|
    ensures HandleMinimize(s, c).right == s.right
    ensures HandleMinimize(s, c).left.isMinimized == !s.left.isMinimized
    ensures HandleCount(s, c).right == s.right
  {
  }

  /** Two clicks on the same minimize control restore the state. */
  lemma MinimizeTwiceRestores(s: State, c: nat)
    requires c < |s.controls|
    ensures HandleMinimize(HandleMinimize(s, c), c) == s
  {
  }

  /** Two clicks on an expandable panel restore the state. */
  lemma ExpandTwiceRestores(s: State, p: nat)
    requires p < |s.elements| && Expandable(s.elements[p])
    ensures HandleClick(HandleClick(s, p), p) == s
  {
  }

  /**
   Clicking a shown, non-expandable panel twice restores the state: the
   first click appends it to `minimized`, the second splices it out again.
   */
  lemma HideThenShowRestores(s: State, p: nat)
    requires p < |s.elements| && !Expandable(s.elements[p])
    requires p !in s.Side(s.elements[p].side).minimized
    ensures HandleClick(HandleClick(s, p), p) == s
  {
    var sd := s.elements[p].side;
    var m := s.Side(sd).minimized;
    var m' := m + [p];
    assert IndexOf(m', p) == |m|;
    assert RemoveAt(m', |m|) == m;
  }

  /**
   Hiding a panel and then clicking its side's count badge shows it again:
   `pop` removes exactly the entry that the click appended.
   */
  lemma CountUndoesHide(s: State, p: nat, c: nat)
    requires p < |s.elements| && !Expandable(s.elements[p])
    requires p !in s.Side(s.elements[p].side).minimized
    requires c < |s.controls| && s.controls[c] == s.elements[p].side
    ensures HandleCount(HandleClick(s, p), c) == s
  {
  }

  /** One `add(name, options)` call. */
  datatype Request = Request(name: string, options: Options)

  /** A sequence of `add` calls, in order. */
  function AddAll(s: State, reqs: seq<Request>): (r: State)
    ensures |r.elements| == |s.elements| + |reqs|
  {
    if reqs == [] then s
    else
      var last := reqs[|reqs| - 1];
      Add(AddAll(s, reqs[..|reqs| - 1]), last.name, last.options)
  }

  /** Once there is a default panel, only an `add` with `options.default` replaces it. */
  lemma {:induction false} DefaultKeptWithoutFlag(s: State, reqs: seq<Request>)
    requires s.defaultPanel.Some?
    requires forall i :: 0 <= i < |reqs| ==> !reqs[i].options.isDefault
    ensures AddAll(s, reqs).defaultPanel == s.defaultPanel
  {
    if reqs != [] {
      DefaultKeptWithoutFlag(s, reqs[..|reqs| - 1]);
    }
  }

  /** The first panel ever added is the default one when no `add` asks to be it. */
  lemma {:induction false} FirstPanelIsDefault(reqs: seq<Request>)
    requires reqs != []
    requires forall i :: 0 <= i < |reqs| ==> !reqs[i].options.isDefault
    ensures AddAll(Empty, reqs).defaultPanel == Some(0)
  {
    if |reqs| > 1 {
      FirstPanelIsDefault(reqs[..|reqs| - 1]);
    }
  }

  /** The default panel is the one added by the last `add` with `options.default`. */
  lemma {:induction false} LastFlaggedIsDefault(s: State, reqs: seq<Request>, k: nat)
    requires k < |reqs| && reqs[k].options.isDefault
    requires forall i :: k < i < |reqs| ==> !reqs[i].options.isDefault
    ensures AddAll(s, reqs).defaultPanel == Some(|s.elements| + k)
  {
    var prefix := reqs[..|reqs| - 1];
    var last := reqs[|reqs| - 1];
    var before := AddAll(s, prefix);
    assert AddAll(s, reqs) == Add(before, last.name, last.options);
    assert |before.elements| == |s.elements| + |reqs| - 1;
    if k < |reqs| - 1 {
      assert prefix[k] == reqs[k];
      LastFlaggedIsDefault(s, prefix, k);
      assert !last.options.isDefault;
    } else {
      assert last.options.isDefault;
    }
  }
}
