/**
 `debugOne(text, color, options)` (debug.js lines 70-95): which panel it
 writes to, and the text it writes there. An array of items is written
 separated by ", ".
 */
module DebugOne {
  import opened Wrappers
  import opened OrderedMap
  import opened Registry

  /** `options.panel` (a panel reference) and `options.name` ("" when not given, as it is falsy). */
  datatype Target = Target(panel: Option<nat>, name: string)

  /**
   The panel `debugOne` writes to: the default panel when neither a panel
   nor a name is given; otherwise the given panel, else the left side's panel
   of that name, else the right side's. `None` is the null or undefined
   reference, on which the source's next statement throws.
   */
  function Resolve(s: State, t: Target): (r: Option<nat>)
    ensures t.panel.None? && t.name == "" ==> r == s.defaultPanel
    ensures t.panel.Some? ==> r == t.panel
    ensures t.panel.None? && t.name != "" ==>
      (r.Some? <==> t.name in Keys(s.left.panels) || t.name in Keys(s.right.panels))
    ensures t.panel.None? && t.name != "" && r.Some? ==>
      Entry(t.name, r.value) in s.left.panels || Entry(t.name, r.value) in s.right.panels
    ensures t.panel.None? && t.name != "" && t.name in Keys(s.left.panels) ==>
      r == Get(s.left.panels, t.name)
  {
    if t.panel.None? && t.name == "" then s.defaultPanel
    else if t.panel.Some? then t.panel
    else
      var l := Get(s.left.panels, t.name);
      if l.Some? then l else Get(s.right.panels, t.name)
  }

  /** In a well-formed state a resolved panel exists. */
  lemma ResolvedPanelExists(s: State, t: Target)
    requires WellFormed(s) && t.panel.None?
    requires Resolve(s, t).Some?
    ensures Resolve(s, t).value < |s.elements|
  {
    var r := Resolve(s, t);
    if t.name != "" {
      if Entry(t.name, r.value) in s.left.panels {
        var i :| 0 <= i < |s.left.panels| && s.left.panels[i] == Entry(t.name, r.value);
        assert Values(s.left.panels)[i] == r.value;
        assert r.value in Values(s.left.panels);
      } else {
        var i :| 0 <= i < |s.right.panels| && s.right.panels[i] == Entry(t.name, r.value);
        assert Values(s.right.panels)[i] == r.value;
        assert r.value in Values(s.right.panels);
      }
    }
  }

  /** The items separated by ", ". */
  function Join(xs: seq<string>): string
  {
    if |xs| == 0 then ""
    else if |xs| == 1 then xs[0]
    else xs[0] + ", " + Join(xs[1..])
  }

  lemma {:induction false} JoinSnoc(xs: seq<string>, x: string)
    requires xs != []
    ensures Join(xs + [x]) == Join(xs) + ", " + x
  {
    if |xs| > 1 {
      assert (xs + [x])[1..] == xs[1..] + [x];
      JoinSnoc(xs[1..], x);
    }
  }

  function TotalLength(xs: seq<string>): nat
  {
    if xs == [] then 0 else |xs[0]| + TotalLength(xs[1..])
  }

  /** The joined text holds every item and one two-character separator between each pair. */
  lemma {:induction false} JoinLength(xs: seq<string>)
    requires xs != []
    ensures |Join(xs)| == TotalLength(xs) + 2 * (|xs| - 1)
  {
    if |xs| > 1 {
      JoinLength(xs[1..]);
    }
  }

  /**
   The loop at lines 86-89: each item is appended followed by ", " unless it
   is the last one.
   */
  method JoinItems(items: seq<string>) returns (text: string)
    ensures text == Join(items)
  {
    text := "";
    var i := 0;
    while i < |items|
      invariant 0 <= i <= |items|
      invariant i == 0 ==> text == ""
      invariant 0 < i < |items| ==> text == Join(items[..i]) + ", "
      invariant i == |items| ==> text == Join(items)
    {
      if i > 0 {
        JoinSnoc(items[..i], items[i]);
        assert items[..i + 1] == items[..i] + [items[i]];
      }
      text := text + items[i] + (if i != |items| - 1 then ", " else "");
      i := i + 1;
      if i == |items| {
        assert items[..i] == items;
      }
    }
  }

  /** The text argument: a string, or an array of strings. */
  datatype Text = Plain(s: string) | Items(items: seq<string>)

  /** `color || "rgb(100,100,100)"`. */
  function Background(color: string): string
  {
    if color == "" then "rgb(100,100,100)" else color
  }

  /** What `debugOne` writes: the target panel and the markup assigned to it. */
  datatype Write = Write(panel: nat, markup: string)

  method Debug(s: State, text: Text, color: string, t: Target) returns (r: Option<Write>)
    ensures r.None? <==> Resolve(s, t).None?
    ensures r.Some? ==> r.value.panel == Resolve(s, t).value
    ensures r.Some? ==>
      r.value.markup == "<p style=\"background: " + Background(color) + "\">"
        + (match text case Plain(x) => x case Items(xs) => Join(xs))
  {
    var target := Resolve(s, t);
    if target.None? {
      return None;
    }
    var body;
    match text {
      case Plain(x) => body := x;
      case Items(xs) => body := JoinItems(xs);
    }
    r := Some(Write(target.value, "<p style=\"background: " + Background(color) + "\">" + body));
  }
}
