/** The printer objects (gdb_printers.py, `DefaultPrinter`, `StaticPrinter`,
    `RawPrinter`, `ViewPrinter`, `ChunkPrinter`).

    A printer description is the dictionary passed to `add_printer`: an optional
    `summary`, an optional `default_view` and an optional list of `views`. Every
    callable in it becomes a function of the value; what those callables compute
    is the user's business and stays abstract. */
module Printers {
  import opened Wrappers
  import opened Decimal
  import opened Host
  import opened Tags
  import opened TagCodec
  import opened Fields
  import opened Chunking

  /** One `(name, accessor)` pair of a view's `nodes` list. */
  datatype NodeEntry = NodeEntry(name: string, accessor: Value -> Value)

  /** One entry of `views`; an absent key is `None`. `node` stands for the children
      of the printer object the `node` callable returns. */
  datatype ViewSpec = ViewSpec(name: string,
                               summary: Option<Value -> string>,
                               node: Option<Value -> seq<Child>>,
                               nodes: Option<seq<NodeEntry>>,
                               elements: Option<Value -> seq<Child>>)

  /** The dictionary registered for a type. A `default_view` of `None` counts as
      absent, as the code only ever compares it with `None`. */
  datatype PrinterSpec = PrinterSpec(summary: Option<Value -> string>,
                                     defaultView: Option<string>,
                                     views: Option<seq<ViewSpec>>)

  // ---------------------------------------------------------------------------
  // ViewPrinter

  /** The `nodes` pairs in order, each child read by its accessor. */
  function NodeChildren(val: Value, nodes: seq<NodeEntry>): (cs: seq<Child>)
    ensures |cs| == |nodes|
    ensures forall k :: 0 <= k < |nodes| ==> cs[k] == Child(nodes[k].name, Computed(nodes[k].accessor(val)))
  {
    if nodes == [] then [] else [Child(nodes[0].name, Computed(nodes[0].accessor(val)))] + NodeChildren(val, nodes[1..])
  }

  /** `ViewPrinter.children`: the `node` printer's children when there is one;
      otherwise the `nodes` pairs followed by the `elements`, which are only looked
      at when `nodes` is present. */
  function ViewChildren(val: Value, view: ViewSpec): (cs: seq<Child>)
    ensures view.node.Some? ==> cs == view.node.value(val)
    ensures view.node.None? && view.nodes.None? ==> cs == []
    ensures view.node.None? && view.nodes.Some? ==>
              && |view.nodes.value| <= |cs|
              && (forall k :: 0 <= k < |view.nodes.value| ==>
                    cs[k] == Child(view.nodes.value[k].name, Computed(view.nodes.value[k].accessor(val))))
              && cs[|view.nodes.value|..] == (if view.elements.Some? then view.elements.value(val) else [])
  {
    if view.node.Some? then view.node.value(val)
    else if view.nodes.Some? then
      NodeChildren(val, view.nodes.value) + (if view.elements.Some? then view.elements.value(val) else [])
    else []
  }

  /** `ViewPrinter.to_string`: the view's summary, or the empty string. */
  function ViewToString(val: Value, view: ViewSpec): (s: string)
    ensures view.summary.None? ==> s == ""
  {
    if view.summary.Some? then view.summary.value(val) else ""
  }

  // ---------------------------------------------------------------------------
  // DefaultPrinter

  /** The placeholder shown when `default_view` names no view. */
  function Placeholder(name: string): string {
    "<default_view \"" + name + "\" not defined>"
  }

  /** `DefaultPrinter(val, printer)`, with the fields of the value's type. */
  datatype DefaultPrinter = DefaultPrinter(val: Value, printer: Option<PrinterSpec>, fields: seq<Field>)
  {
    /** The `views` list, empty when there is no printer or no `views` key. */
    function Views(): seq<ViewSpec> {
      if printer.Some? && printer.value.views.Some? then printer.value.views.value else []
    }

    function CountViews(): (n: nat)
      ensures n == |Views()|
      ensures n > 0 ==> printer.Some? && printer.value.views.Some?
    {
      if printer.Some? && printer.value.views.Some? then |printer.value.views.value| else 0
    }

    /** `view_name(index)`: the view's name, or `"View <index>"` past the end. */
    function ViewName(index: nat): (s: string)
      ensures index < |Views()| ==> s == Views()[index].name
      ensures index >= |Views()| ==> s == "View " + Show(index)
    {
      if printer.Some? && printer.value.views.Some? && index < |printer.value.views.value|
      then printer.value.views.value[index].name
      else "View " + Show(index)
    }

    /** `get_view_named(name)`: the first view with that name. */
    function GetViewNamed(name: string): (r: Option<ViewSpec>)
      ensures r.Some? ==> (exists k :: 0 <= k < |Views()| && Views()[k] == r.value && r.value.name == name
                                      && forall j :: 0 <= j < k ==> Views()[j].name != name)
      ensures r.None? <==> forall k :: 0 <= k < |Views()| ==> Views()[k].name != name
    {
      FirstNamed(Views(), name, 0)
    }

    function DefaultViewName(): Option<string> {
      if printer.Some? then printer.value.defaultView else None
    }

    /** Whether the top level shows the raw members: no views, or no default view. */
    predicate ShowsRaw() {
      CountViews() == 0 || DefaultViewName().None?
    }

    /** `to_string`. */
    function ToString(): string {
      if ShowsRaw() then
        (if printer.Some? && printer.value.summary.Some? then printer.value.summary.value(val) else "")
      else
        match GetViewNamed(DefaultViewName().value)
        case None => Placeholder(DefaultViewName().value)
        case Some(view) => if view.summary.Some? then view.summary.value(val) else ""
    }

    /** The first part of `children`: the top-level view. */
    function TopChildren(): seq<Child> {
      if ShowsRaw() then RawChildren(fields)
      else
        match GetViewNamed(DefaultViewName().value)
        case None => [Child(Placeholder(DefaultViewName().value), Unexpandable(val))]
        case Some(view) => ViewChildren(val, view)
    }

    /** `<Static>` when the type has static members. */
    function StaticEntry(): seq<Child> {
      if HasStatic(fields) then [Child(Angle("Static"), Synthetic(Tag(val, StaticEnum)))] else []
    }

    /** `<Raw>` when there are views and a default view. */
    function RawEntry(): seq<Child> {
      if CountViews() > 0 && DefaultViewName().Some? then [Child(Angle("Raw"), Synthetic(Tag(val, RawEnum)))] else []
    }

    /** The entry of view `i`. */
    function ViewEntry(i: nat): Child {
      Child(Angle(ViewName(i)), Synthetic(Tag(val, ViewEnum(i))))
    }

    /** Whether view `k` gets an entry of its own: its name is not the default view's. */
    predicate Offered(k: nat) {
      Some(ViewName(k)) != DefaultViewName()
    }

    /** The views other than the default one, from index `i` on. */
    function ViewEntries(i: nat): seq<Child> {
      Kept(CountViews(), Offered, ViewEntry, i)
    }

    /** `children`, in the order the generator yields them. */
    function Children(): seq<Child> {
      TopChildren() + StaticEntry() + RawEntry() + ViewEntries(0)
    }
  }

  function FirstNamed(views: seq<ViewSpec>, name: string, from: nat): (r: Option<ViewSpec>)
    requires from <= |views|
    ensures r.Some? ==> (exists k :: from <= k < |views| && views[k] == r.value && r.value.name == name
                                    && forall j :: from <= j < k ==> views[j].name != name)
    ensures r.None? <==> forall k :: from <= k < |views| ==> views[k].name != name
    decreases |views| - from
  {
    if from == |views| then None
    else if views[from].name == name then Some(views[from])
    else FirstNamed(views, name, from + 1)
  }

  // ---------------------------------------------------------------------------
  // What DefaultPrinter promises

  /** `f(k)` for each `k` in `[i, n)` that passes `keep`, in increasing order: the
      shape of the `for i in range(view_count)` loop over the views. */
  function Kept<T>(n: nat, keep: nat -> bool, f: nat -> T, i: nat): seq<T>
    decreases if i < n then n - i else 0
  {
    if i >= n then [] else (if keep(i) then [f(i)] else []) + Kept(n, keep, f, i + 1)
  }

  lemma {:induction false} KeptHas<T>(n: nat, keep: nat -> bool, f: nat -> T, i: nat, k: nat)
    requires i <= k < n && keep(k)
    ensures f(k) in Kept(n, keep, f, i)
    decreases k - i
  {
    if i < k {
      KeptHas(n, keep, f, i + 1, k);
    }
  }

  lemma {:induction false} KeptFrom<T>(n: nat, keep: nat -> bool, f: nat -> T, i: nat, x: T) returns (k: nat)
    requires x in Kept(n, keep, f, i)
    ensures i <= k < n && keep(k) && x == f(k)
    decreases if i < n then n - i else 0
  {
    if keep(i) && x == f(i) {
      k := i;
    } else {
      k := KeptFrom(n, keep, f, i + 1, x);
    }
  }

  /** What `Kept` holds: exactly the images of the kept indices. */
  lemma KeptMembers<T>(n: nat, keep: nat -> bool, f: nat -> T, i: nat, x: T)
    ensures x in Kept(n, keep, f, i) <==> exists k :: i <= k < n && keep(k) && x == f(k)
  {
    if x in Kept(n, keep, f, i) {
      var k := KeptFrom(n, keep, f, i, x);
    }
    if exists k :: i <= k < n && keep(k) && x == f(k) {
      var k :| i <= k < n && keep(k) && x == f(k);
      KeptHas(n, keep, f, i, k);
    }
  }

  /** The order of `Kept` is the order of the indices, read back through `g`: each
      element's index exceeds the one before it, and none is below `i`. */
  lemma {:induction false} KeptOrdered<T>(n: nat, keep: nat -> bool, f: nat -> T, g: T -> int, i: nat)
    requires forall k: nat :: g(f(k)) == k
    ensures forall a :: 0 < a < |Kept(n, keep, f, i)| ==> g(Kept(n, keep, f, i)[a - 1]) < g(Kept(n, keep, f, i)[a])
    ensures forall a :: 0 <= a < |Kept(n, keep, f, i)| ==> g(Kept(n, keep, f, i)[a]) >= i
    decreases if i < n then n - i else 0
  {
    if i < n {
      KeptOrdered(n, keep, f, g, i + 1);
      var rest := Kept(n, keep, f, i + 1);
      if keep(i) {
        var es := [f(i)] + rest;
        assert Kept(n, keep, f, i) == es;
        assert forall a :: 1 <= a < |es| ==> es[a] == rest[a - 1];
      } else {
        assert Kept(n, keep, f, i) == rest;
      }
    }
  }

  /** The view entries are exactly the views not named like the default view,
      each under its own name with its own index. */
  lemma ViewEntriesMembers(p: DefaultPrinter, i: nat, c: Child)
    ensures c in p.ViewEntries(i) <==> exists k :: i <= k < p.CountViews() && p.Offered(k) && c == p.ViewEntry(k)
  {
    KeptMembers(p.CountViews(), p.Offered, p.ViewEntry, i, c);
  }

  /** The view index a child's tag carries, read back from its type text, or -1
      when the child is not a tag. */
  function ViewIndexOf(c: Child): int {
    if c.value.Synthetic? then
      var e := ExtractEnumsTag(c.value.tag);
      if e != [] then e[0] - ViewKind else -1
    else -1
  }

  lemma ViewEntryIndex(p: DefaultPrinter, i: nat)
    requires !HasBracketedNumber(p.val.typeName)
    ensures ViewIndexOf(p.ViewEntry(i)) == i
  {
    ExtractMakeEnumsTag(p.val, ViewEnum(i));
  }

  /** The view entries come in index order: the tags carry strictly increasing view
      indices, all at least `i`. */
  lemma ViewEntriesOrdered(p: DefaultPrinter, i: nat)
    requires !HasBracketedNumber(p.val.typeName)
    ensures forall a :: 0 < a < |p.ViewEntries(i)| ==>
              ViewIndexOf(p.ViewEntries(i)[a - 1]) < ViewIndexOf(p.ViewEntries(i)[a])
    ensures forall a :: 0 <= a < |p.ViewEntries(i)| ==> ViewIndexOf(p.ViewEntries(i)[a]) >= i
  {
    forall k: nat ensures ViewIndexOf(p.ViewEntry(k)) == k {
      ViewEntryIndex(p, k);
    }
    KeptOrdered(p.CountViews(), p.Offered, p.ViewEntry, ViewIndexOf, i);
  }

  lemma AngleInjective(a: string, b: string)
    requires Angle(a) == Angle(b)
    ensures a == b
  {
    assert a == Angle(a)[1..|Angle(a)| - 1];
    assert b == Angle(b)[1..|Angle(b)| - 1];
  }

  /** The default view is not offered a second time: no view entry carries its label. */
  lemma DefaultViewNotRepeated(p: DefaultPrinter, c: Child)
    requires p.DefaultViewName().Some? && c in p.ViewEntries(0)
    ensures c.name != Angle(p.DefaultViewName().value)
  {
    ViewEntriesMembers(p, 0, c);
    var k :| 0 <= k < p.CountViews() && p.Offered(k) && c == p.ViewEntry(k);
    if c.name == Angle(p.DefaultViewName().value) {
      AngleInjective(p.ViewName(k), p.DefaultViewName().value);
    }
  }

  /** The synthetic entries after the top level: `<Static>`, `<Raw>`, the other views. */
  lemma ChildrenAfterTop(p: DefaultPrinter, c: Child)
    requires c in p.StaticEntry() || c in p.RawEntry() || c in p.ViewEntries(0)
    ensures c in p.Children()
  {
    var top, st, raw, vs := p.TopChildren(), p.StaticEntry(), p.RawEntry(), p.ViewEntries(0);
    assert p.Children() == top + st + raw + vs;
  }

  /** Every view can be reached: it is the default view, shown at the top level, or
      it has its own entry among the children. */
  lemma EveryViewReachable(p: DefaultPrinter, k: nat)
    requires k < p.CountViews()
    ensures Some(p.ViewName(k)) == p.DefaultViewName() || p.ViewEntry(k) in p.Children()
  {
    if p.Offered(k) {
      ViewEntriesMembers(p, 0, p.ViewEntry(k));
      ChildrenAfterTop(p, p.ViewEntry(k));
    }
  }

  /** A raw member is a top-level child when the raw view is at the top. */
  lemma RawFieldAtTop(p: DefaultPrinter, k: nat)
    requires k < |p.fields| && IsRaw(p.fields[k]) && p.ShowsRaw()
    ensures RawChild(p.fields[k]) in p.Children()
  {
    RawChildrenMembers(p.fields, RawChild(p.fields[k]));
    var top, st, raw, vs := p.TopChildren(), p.StaticEntry(), p.RawEntry(), p.ViewEntries(0);
    assert top == RawChildren(p.fields);
    assert p.Children() == top + st + raw + vs;
  }

  /** When the raw view is not at the top, `<Raw>` is offered beside the summary. */
  lemma RawOffered(p: DefaultPrinter)
    requires !p.ShowsRaw()
    ensures Child(Angle("Raw"), Synthetic(Tag(p.val, RawEnum))) in p.Children()
  {
    var c := Child(Angle("Raw"), Synthetic(Tag(p.val, RawEnum)));
    assert p.RawEntry() == [c];
    ChildrenAfterTop(p, c);
  }

  /** The static members are behind `<Static>` whenever there are any. */
  lemma StaticOffered(p: DefaultPrinter, k: nat)
    requires k < |p.fields| && IsStatic(p.fields[k])
    ensures Child(Angle("Static"), Synthetic(Tag(p.val, StaticEnum))) in p.Children()
  {
    var c := Child(Angle("Static"), Synthetic(Tag(p.val, StaticEnum)));
    assert HasStatic(p.fields);
    assert p.StaticEntry() == [c];
    ChildrenAfterTop(p, c);
  }

  /** When the default view names no view, the summary line and the single top-level
      child both show the same placeholder, and that child cannot be expanded. */
  lemma PlaceholderAgrees(p: DefaultPrinter)
    requires !p.ShowsRaw() && p.GetViewNamed(p.DefaultViewName().value).None?
    ensures p.TopChildren() == [Child(p.ToString(), Unexpandable(p.val))]
    ensures p.ToString() == Placeholder(p.DefaultViewName().value)
  {
  }

  /** With a default view that exists, the top level is that view's printer. */
  lemma DefaultViewAtTop(p: DefaultPrinter, k: nat)
    requires k < p.CountViews() && p.DefaultViewName() == Some(p.Views()[k].name)
    requires forall j :: 0 <= j < k ==> p.Views()[j].name != p.Views()[k].name
    ensures p.TopChildren() == ViewChildren(p.val, p.Views()[k])
    ensures p.ToString() == ViewToString(p.val, p.Views()[k])
  {
    FirstNamedAt(p.Views(), p.Views()[k].name, 0, k);
  }

  /** The first view with a name is found, whichever later views share it. */
  lemma {:induction false} FirstNamedAt(views: seq<ViewSpec>, name: string, from: nat, k: nat)
    requires from <= k < |views| && views[k].name == name
    requires forall j :: from <= j < k ==> views[j].name != name
    ensures FirstNamed(views, name, from) == Some(views[k])
    decreases k - from
  {
    if from < k {
      FirstNamedAt(views, name, from + 1, k);
    }
  }

  // ---------------------------------------------------------------------------
  // The printer objects `_lookup_type` returns

  /** A printer object; `Children` is what its `children()` generator yields, given
      the value stored at each element position. */
  datatype Printer =
    | DefaultP(d: DefaultPrinter)
    | StaticP(val: Value, fields: seq<Field>)
    | RawP(val: Value, fields: seq<Field>)
    | ViewP(val: Value, view: ViewSpec)
    | ChunkP(val: Value, offset: nat, size: nat)
  {
    function Children(at: int -> Value): seq<Child> {
      match this
      case DefaultP(d) => d.Children()
      case StaticP(_, fs) => StaticChildren(fs)
      case RawP(_, fs) => RawChildren(fs)
      case ViewP(v, view) => ViewChildren(v, view)
      case ChunkP(v, o, n) => ElementsOf(at, v.addr, o, n)
    }

    function ToString(): string {
      match this
      case DefaultP(d) => d.ToString()
      case ViewP(v, view) => ViewToString(v, view)
      case _ => ""
    }
  }
}
