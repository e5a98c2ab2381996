/** `_lookup_type` (gdb_printers.py): the function gdb calls for every value it
    prints. A registered printer wins; a struct or union gets the default printer;
    a value whose type text carries `(****)` is a synthetic tag, decoded back into
    the value it was built from and the printer it selects. */
module Dispatch {
  import opened Wrappers
  import opened Host
  import opened Tags
  import opened TagCodec
  import opened Fields
  import opened Chunking
  import opened Registry
  import opened Printers

  /** What `_lookup_type` asks of the debugger: whether a type is a struct or union,
      the fields of a type, and whether `gdb.lookup_type` resolves a type text. */
  datatype Debugger = Debugger(isComposite: string -> bool, fieldsOf: string -> seq<Field>,
                               hasType: string -> bool)

  /** The exceptions a tag lookup can raise. */
  datatype LookupError =
    | MarkerMissing         // recover_value: str.index raises ValueError
    | UnknownType           // recover_value: gdb.lookup_type raises gdb.error
    | ShortTag              // enums[0], enums[1] or enums[2] past the end: IndexError
    | NoPrinterForBase      // _pretty_printers[base_key]: KeyError
    | NoViews               // printer["views"]: KeyError
    | NoSuchView            // views[view_index]: IndexError

  /** Where the view list of a view tag is looked up: the exact table alone, as the
      code does, or the whole registry, as `_match_printer` would. */
  datatype ViewTable = ExactOnly | WholeRegistry

  /** Python's `xs[i]`: a negative index counts from the end. */
  function PyIndex<T>(xs: seq<T>, i: int): (r: Option<T>)
    ensures 0 <= i < |xs| ==> r == Some(xs[i])
    ensures -|xs| <= i < 0 ==> r == Some(xs[|xs| + i])
    ensures r.None? <==> i < -|xs| || |xs| <= i
  {
    if 0 <= i < |xs| then Some(xs[i])
    else if -|xs| <= i < 0 then Some(xs[|xs| + i])
    else None
  }

  /** `str.find(p) != -1`, computably. */
  predicate Contains(s: string, p: string) {
    IndexFrom(s, p, 0).Some?
  }

  lemma ContainsIffOccurs(s: string, p: string)
    ensures Contains(s, p) <==> Occurs(s, p)
  {
    if Occurs(s, p) {
      var k :| OccursAt(s, p, k);
      assert 0 <= k;
    }
  }

  /** The printer dictionary the view list of a view tag is read from. */
  function BasePrinter(exact: map<string, PrinterSpec>, entries: seq<Entry<PrinterSpec>>,
                       table: ViewTable, base: string): (r: Option<PrinterSpec>)
    ensures table == ExactOnly ==> (r.Some? <==> base in exact)
    ensures table == WholeRegistry ==> r == Match(exact, entries, base)
  {
    match table
    case ExactOnly => if base in exact then Some(exact[base]) else None
    case WholeRegistry => Match(exact, entries, base)
  }

  /** `views[view_index]` of the printer found for the base type. */
  function SelectView(printer: Option<PrinterSpec>, index: int): (r: Result<ViewSpec, LookupError>)
    ensures r.Success? <==> printer.Some? && printer.value.views.Some? &&
                            PyIndex(printer.value.views.value, index).Some?
    ensures r.Success? ==> r.value == PyIndex(printer.value.views.value, index).value
    ensures printer.None? ==> r == Failure(NoPrinterForBase)
  {
    if printer.None? then Failure(NoPrinterForBase)
    else if printer.value.views.None? then Failure(NoViews)
    else match PyIndex(printer.value.views.value, index)
      case None => Failure(NoSuchView)
      case Some(view) => Success(view)
  }

  /** The printer a decoded tag selects for the recovered value. */
  function TagPrinter(exact: map<string, PrinterSpec>, entries: seq<Entry<PrinterSpec>>, dbg: Debugger,
                      table: ViewTable, actual: Value, sel: Selector): Result<Printer, LookupError>
  {
    match sel
    case Static => Success(StaticP(actual, dbg.fieldsOf(actual.typeName)))
    case Raw => Success(RawP(actual, dbg.fieldsOf(actual.typeName)))
    case Chunk(o, n) => Success(ChunkP(actual, o, n))
    case View(i) =>
      match SelectView(BasePrinter(exact, entries, table, actual.typeName), i)
      case Failure(e) => Failure(e)
      case Success(view) => Success(ViewP(actual, view))
  }

  /** `_lookup_type(val)`, with the view list of a view tag taken from `table`.
      `Success(None)` is the `return None` that leaves the value to gdb. */
  function Lookup(exact: map<string, PrinterSpec>, entries: seq<Entry<PrinterSpec>>, dbg: Debugger,
                  table: ViewTable, val: Value): Result<Option<Printer>, LookupError>
  {
    var s := val.typeName;
    match Match(exact, entries, s)
    case Some(spec) => Success(Some(DefaultP(DefaultPrinter(val, Some(spec), dbg.fieldsOf(s)))))
    case None =>
      if dbg.isComposite(s) then Success(Some(DefaultP(DefaultPrinter(val, None, dbg.fieldsOf(s)))))
      else if !Contains(s, "(****)") then Success(None)
      else
        var enums := ExtractEnumsTag(val);
        match RecoverValue(val)
        case Failure(_) => Failure(MarkerMissing)
        case Success(actual) =>
          if !dbg.hasType(actual.typeName) then Failure(UnknownType)
          else match DecodeEnums(enums)
          case Failure(_) => Failure(ShortTag)
          case Success(sel) =>
            match TagPrinter(exact, entries, dbg, table, actual, sel)
            case Failure(e) => Failure(e)
            case Success(p) => Success(Some(p))
  }

  /** `_lookup_type` as written: view lists come from the exact table only. */
  function LookupType(exact: map<string, PrinterSpec>, entries: seq<Entry<PrinterSpec>>, dbg: Debugger,
                      val: Value): Result<Option<Printer>, LookupError>
  {
    Lookup(exact, entries, dbg, ExactOnly, val)
  }

  /** `_lookup_type` with the view list resolved as the value's own printer was. */
  function LookupTypeCorrected(exact: map<string, PrinterSpec>, entries: seq<Entry<PrinterSpec>>, dbg: Debugger,
                               val: Value): Result<Option<Printer>, LookupError>
  {
    Lookup(exact, entries, dbg, WholeRegistry, val)
  }

  // ---------------------------------------------------------------------------
  // What the dispatch promises

  /** A registered printer takes precedence, and an unregistered struct or union
      gets the default printer without views; a type that is neither and carries no
      `(****)` is left to gdb. */
  lemma LookupOrdinary(exact: map<string, PrinterSpec>, entries: seq<Entry<PrinterSpec>>, dbg: Debugger,
                       table: ViewTable, val: Value)
    ensures Match(exact, entries, val.typeName).Some? ==>
              Lookup(exact, entries, dbg, table, val)
              == Success(Some(DefaultP(DefaultPrinter(val, Match(exact, entries, val.typeName), dbg.fieldsOf(val.typeName)))))
    ensures Match(exact, entries, val.typeName).None? && dbg.isComposite(val.typeName) ==>
              Lookup(exact, entries, dbg, table, val)
              == Success(Some(DefaultP(DefaultPrinter(val, None, dbg.fieldsOf(val.typeName)))))
    ensures Match(exact, entries, val.typeName).None? && !dbg.isComposite(val.typeName) && !Occurs(val.typeName, "(****)") ==>
              Lookup(exact, entries, dbg, table, val) == Success(None)
  {
    ContainsIffOccurs(val.typeName, "(****)");
  }

  /** No printer claims the type text `s`, and gdb does not call it a struct: true of
      tag types, which are pointers, unless a registered pattern matches them. */
  predicate Unclaimed(exact: map<string, PrinterSpec>, entries: seq<Entry<PrinterSpec>>, dbg: Debugger, s: string) {
    Match(exact, entries, s).None? && !dbg.isComposite(s)
  }

  /** A base type name the codec can carry: it ends in a name, and holds no
      bracketed number and no marker. */
  ghost predicate Carriable(base: string) {
    EndsInName(base) && !HasBracketedNumber(base) && !Occurs(base, Marker)
  }

  /** A tag built for a selector is dispatched to the printer that selector names,
      for the very value it was built from. */
  lemma {:induction false} TagDispatches(exact: map<string, PrinterSpec>, entries: seq<Entry<PrinterSpec>>, dbg: Debugger,
                                          table: ViewTable, v: Value, sel: Selector)
    requires sel.View? ==> sel.index >= 0
    requires Carriable(v.typeName) && dbg.hasType(v.typeName)
    requires Unclaimed(exact, entries, dbg, TagTypeName(v.typeName, EncodeSelector(sel)))
    ensures Lookup(exact, entries, dbg, table, Tag(v, EncodeSelector(sel)))
            == match TagPrinter(exact, entries, dbg, table, v, sel)
               case Failure(e) => Failure(e)
               case Success(p) => Success(Some(p))
  {
    var t := EncodeSelector(sel);
    var tag := Tag(v, t);
    assert t != [] && !EndsInStar(v.typeName);
    TagCarriesQuadPointer(v, t);
    ContainsIffOccurs(tag.typeName, "(****)");
    ExtractMakeEnumsTag(v, t);
    RecoverMakeEnumsTag(v, t);
    DecodeEncode(sel);
  }

  /** `<Static>` opens the static members of the value. */
  lemma StaticTagDispatches(exact: map<string, PrinterSpec>, entries: seq<Entry<PrinterSpec>>, dbg: Debugger,
                            table: ViewTable, v: Value, at: int -> Value)
    requires Carriable(v.typeName) && dbg.hasType(v.typeName)
    requires Unclaimed(exact, entries, dbg, TagTypeName(v.typeName, StaticEnum))
    ensures var r := Lookup(exact, entries, dbg, table, Tag(v, StaticEnum));
            r == Success(Some(StaticP(v, dbg.fieldsOf(v.typeName)))) &&
            r.value.value.Children(at) == StaticChildren(dbg.fieldsOf(v.typeName))
  {
    TagDispatches(exact, entries, dbg, table, v, Static);
  }

  /** `<Raw>` opens the raw members of the value. */
  lemma RawTagDispatches(exact: map<string, PrinterSpec>, entries: seq<Entry<PrinterSpec>>, dbg: Debugger,
                         table: ViewTable, v: Value, at: int -> Value)
    requires Carriable(v.typeName) && dbg.hasType(v.typeName)
    requires Unclaimed(exact, entries, dbg, TagTypeName(v.typeName, RawEnum))
    ensures var r := Lookup(exact, entries, dbg, table, Tag(v, RawEnum));
            r == Success(Some(RawP(v, dbg.fieldsOf(v.typeName)))) &&
            r.value.value.Children(at) == RawChildren(dbg.fieldsOf(v.typeName))
  {
    TagDispatches(exact, entries, dbg, table, v, Raw);
  }

  /** Expanding a chunk shows its elements: the tag of a chunk node re-dispatches to
      the chunk printer, whose children are what `Expand` describes. Together with
      `ChunksCoverElements`, the chunks of a range show every element once, in order. */
  lemma ChunkTagExpands(exact: map<string, PrinterSpec>, entries: seq<Entry<PrinterSpec>>, dbg: Debugger,
                        table: ViewTable, begin: int, sp: Span, cursorType: string, at: int -> Value)
    requires NonEmpty(sp) && Carriable(cursorType) && dbg.hasType(cursorType)
    requires Unclaimed(exact, entries, dbg, TagTypeName(cursorType, MakeChunk(begin, sp).tag))
    ensures var c := MakeChunk(begin, sp);
            var r := Lookup(exact, entries, dbg, table, Tag(Value(c.cursor, cursorType), c.tag));
            r.Success? && r.value.Some? && r.value.value.Children(at) == Expand(at, c)
  {
    var c := MakeChunk(begin, sp);
    ChunkTagDispatches(exact, entries, dbg, table, begin, sp, cursorType);
    ExpandChunk(at, begin, sp);
  }

  lemma ChunkTagDispatches(exact: map<string, PrinterSpec>, entries: seq<Entry<PrinterSpec>>, dbg: Debugger,
                           table: ViewTable, begin: int, sp: Span, cursorType: string)
    requires NonEmpty(sp) && Carriable(cursorType) && dbg.hasType(cursorType)
    requires Unclaimed(exact, entries, dbg, TagTypeName(cursorType, MakeChunk(begin, sp).tag))
    ensures var c := MakeChunk(begin, sp);
            Lookup(exact, entries, dbg, table, Tag(Value(c.cursor, cursorType), c.tag))
            == Success(Some(ChunkP(Value(c.cursor, cursorType), sp.offset, sp.size)))
  {
    var c := MakeChunk(begin, sp);
    assert c.tag == EncodeSelector(Chunk(sp.offset, sp.size));
    TagDispatches(exact, entries, dbg, table, Value(c.cursor, cursorType), Chunk(sp.offset, sp.size));
  }

  /** A tag built from a pointer value does not dispatch: gdb writes its type as
      `T **(****)[...]`, without the ` *(****)[` that `recover_value` looks for, so
      `str.index` raises ValueError. The pointer tier of `children` builds its chunk
      tags from cursors of such a type. */
  lemma PointerTagNotRecovered(exact: map<string, PrinterSpec>, entries: seq<Entry<PrinterSpec>>, dbg: Debugger,
                               table: ViewTable, v: Value, sel: Selector)
    requires sel.View? ==> sel.index >= 0
    requires EndsInStar(v.typeName) && !Occurs(v.typeName, Marker)
    requires Unclaimed(exact, entries, dbg, TagTypeName(v.typeName, EncodeSelector(sel)))
    ensures Lookup(exact, entries, dbg, table, Tag(v, EncodeSelector(sel))) == Failure(MarkerMissing)
  {
    var t := EncodeSelector(sel);
    assert t != [];
    TagCarriesQuadPointer(v, t);
    ContainsIffOccurs(Tag(v, t).typeName, "(****)");
    PointerBaseNotRecovered(v, t);
  }

  /** A tag whose base type text `gdb.lookup_type` does not resolve is not
      dispatched: `recover_value` raises gdb.error, whatever node the tag names. */
  lemma UnresolvedBaseNotDispatched(exact: map<string, PrinterSpec>, entries: seq<Entry<PrinterSpec>>, dbg: Debugger,
                                    table: ViewTable, v: Value, sel: Selector)
    requires sel.View? ==> sel.index >= 0
    requires Carriable(v.typeName) && !dbg.hasType(v.typeName)
    requires Unclaimed(exact, entries, dbg, TagTypeName(v.typeName, EncodeSelector(sel)))
    ensures Lookup(exact, entries, dbg, table, Tag(v, EncodeSelector(sel))) == Failure(UnknownType)
  {
    var t := EncodeSelector(sel);
    assert t != [] && !EndsInStar(v.typeName);
    TagCarriesQuadPointer(v, t);
    ContainsIffOccurs(Tag(v, t).typeName, "(****)");
    RecoverMakeEnumsTag(v, t);
  }

  /** As written, a view tag finds its view only when the value's type is in the
      exact table. */
  lemma ViewTagAsWritten(exact: map<string, PrinterSpec>, entries: seq<Entry<PrinterSpec>>, dbg: Debugger,
                         v: Value, i: nat)
    requires Carriable(v.typeName) && dbg.hasType(v.typeName)
    requires Unclaimed(exact, entries, dbg, TagTypeName(v.typeName, ViewEnum(i)))
    ensures v.typeName in exact && exact[v.typeName].views.Some? && i < |exact[v.typeName].views.value| ==>
              LookupType(exact, entries, dbg, Tag(v, ViewEnum(i)))
              == Success(Some(ViewP(v, exact[v.typeName].views.value[i])))
    ensures v.typeName !in exact ==>
              LookupType(exact, entries, dbg, Tag(v, ViewEnum(i))) == Failure(NoPrinterForBase)
  {
    TagDispatches(exact, entries, dbg, ExactOnly, v, View(i));
  }

  /** The default printer's view entries all open their own view, once the view list
      is read from the printer that was chosen for the value itself. */
  lemma ViewEntriesDispatch(exact: map<string, PrinterSpec>, entries: seq<Entry<PrinterSpec>>, dbg: Debugger,
                            v: Value, c: Child)
    requires Match(exact, entries, v.typeName).Some? && Carriable(v.typeName) && dbg.hasType(v.typeName)
    requires forall t :: t != [] ==> Unclaimed(exact, entries, dbg, TagTypeName(v.typeName, t))
    requires c in DefaultPrinter(v, Match(exact, entries, v.typeName), dbg.fieldsOf(v.typeName)).ViewEntries(0)
    ensures var p := DefaultPrinter(v, Match(exact, entries, v.typeName), dbg.fieldsOf(v.typeName));
            exists k :: 0 <= k < p.CountViews() && c.name == Angle(p.Views()[k].name) && c.value.Synthetic? &&
                        LookupTypeCorrected(exact, entries, dbg, c.value.tag) == Success(Some(ViewP(v, p.Views()[k])))
  {
    var p := DefaultPrinter(v, Match(exact, entries, v.typeName), dbg.fieldsOf(v.typeName));
    ViewEntriesMembers(p, 0, c);
    var k :| 0 <= k < p.CountViews() && p.Offered(k) && c == p.ViewEntry(k);
    assert ViewEnum(k) != [];
    TagDispatches(exact, entries, dbg, WholeRegistry, v, View(k));
  }

  // ---------------------------------------------------------------------------
  // A printer registered by pattern loses its views

  function WidgetViews(): seq<ViewSpec> {
    [ViewSpec("Detail", None, None, Some([]), None)]
  }

  function WidgetPrinter(): PrinterSpec {
    PrinterSpec(None, None, Some(WidgetViews()))
  }

  /** `add_re_printer("Widget$", …)`: `$` matches at the end or before a final
      newline. */
  function WidgetRegistry(): seq<Entry<PrinterSpec>> {
    [Entry(Regex("Widget$", (s: string) => s == "Widget" || s == "Widget\n"), WidgetPrinter())]
  }

  /** `add_re_printer("Widget", …)`: matches every text that begins with `Widget`. */
  function PrefixRegistry(): seq<Entry<PrinterSpec>> {
    [Entry(Regex("Widget", (s: string) => |s| >= 6 && s[..6] == "Widget"), WidgetPrinter())]
  }

  function PlainDebugger(): Debugger {
    Debugger((s: string) => false, (s: string) => [], (s: string) => s == "Widget")
  }

  lemma WidgetCarriable()
    ensures Carriable("Widget")
  {
    assert forall k :: 0 <= k < |"Widget"| ==> "Widget"[k] != '[';
    assert |Marker| > |"Widget"|;
    assert "Widget"[5] !in "*&)]";
  }

  lemma WidgetTagUnclaimed()
    ensures Unclaimed(map[], WidgetRegistry(), PlainDebugger(), TagTypeName("Widget", ViewEnum(0)))
  {
    var t := TagTypeName("Widget", ViewEnum(0));
    assert t != "Widget" && t != "Widget\n" by {
      assert |t| > |"Widget\n"|;
    }
  }

  /** A pattern without `$` claims the tags built from the values it prints: the
      tag of `<Detail>` is itself printed as a `Widget` by the default printer, and
      never reaches the view. */
  lemma UnanchoredPatternClaimsTag(v: Value)
    requires v.typeName == "Widget"
    ensures var tag := Tag(v, ViewEnum(0));
            LookupType(map[], PrefixRegistry(), PlainDebugger(), tag)
            == Success(Some(DefaultP(DefaultPrinter(tag, Some(WidgetPrinter()), []))))
  {
    var tag := Tag(v, ViewEnum(0));
    assert tag.typeName[..6] == "Widget";
  }

  /** The default printer of a `Widget` offers its one view as `<Detail>`. */
  lemma WidgetOffersDetail(v: Value)
    requires v.typeName == "Widget"
    ensures var p := DefaultPrinter(v, Match(map[], WidgetRegistry(), v.typeName), []);
            p.ViewEntries(0) == [p.ViewEntry(0)] && p.ViewEntry(0).name == "<Detail>"
  {
    var p := DefaultPrinter(v, Match(map[], WidgetRegistry(), v.typeName), []);
    assert p.printer == Some(PrinterSpec(None, None, Some(WidgetViews())));
    assert p.CountViews() == 1;
    assert p.ViewEntries(1) == [];
  }

  /** Expanding `<Detail>` raises KeyError as written, but opens the view when the
      view list is read through the whole registry. */
  lemma WidgetDetailLookup(v: Value)
    requires v.typeName == "Widget"
    ensures LookupType(map[], WidgetRegistry(), PlainDebugger(), Tag(v, ViewEnum(0))) == Failure(NoPrinterForBase)
    ensures LookupTypeCorrected(map[], WidgetRegistry(), PlainDebugger(), Tag(v, ViewEnum(0)))
            == Success(Some(ViewP(v, WidgetViews()[0])))
  {
    WidgetTagUnclaimed();
    WidgetCarriable();
    ViewTagAsWritten(map[], WidgetRegistry(), PlainDebugger(), v, 0);
    TagDispatches(map[], WidgetRegistry(), PlainDebugger(), WholeRegistry, v, View(0));
  }

  /** A type printed through `add_re_printer("Widget$", …)` with one view shows a
      `<Detail>` entry, but expanding it raises KeyError, because the view list is
      read from the exact table only. Read through the whole registry, it opens. */
  lemma RegexViewRaisesKeyError(v: Value)
    requires v.typeName == "Widget"
    ensures var p := DefaultPrinter(v, Match(map[], WidgetRegistry(), v.typeName), []);
            && p.ViewEntries(0) == [p.ViewEntry(0)]
            && p.ViewEntry(0).name == "<Detail>"
            && LookupType(map[], WidgetRegistry(), PlainDebugger(), p.ViewEntry(0).value.tag) == Failure(NoPrinterForBase)
            && LookupTypeCorrected(map[], WidgetRegistry(), PlainDebugger(), p.ViewEntry(0).value.tag)
               == Success(Some(ViewP(v, WidgetViews()[0])))
  {
    WidgetOffersDetail(v);
    WidgetDetailLookup(v);
  }
}
