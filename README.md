# gdb pretty printers, modelled in Dafny

A model of a small Python library of gdb pretty printers (`gdb_printers.py` and
`gdb_synthetic_nodes.py`). A user registers a printer description for a type, by
exact name or by regular expression. gdb then calls `_lookup_type` for every value
it shows. The value goes to one of these:

- a `DefaultPrinter`, which shows a summary line and the members or a chosen view;
- one of the printers behind the synthetic child nodes `<Static>`, `<Raw>`, `<ViewName>` and `[i..j]`;
- nobody.

A synthetic node is a "tag": the object's address cast to an absurd type.
Examples are `T *(****)[1]` or `T *(****)[2][0][16]`. The integers in brackets
encode which node it is. Type text like this never occurs in the wild, so
`_lookup_type` recognises a tag by its `(****)`. It reads the integers back and
recovers the original value from the prefix before ` *(****)[`.

Modules, following the two source files:

| module | what it models |
|---|---|
| `Wrappers`, `Decimal`, `Host` | `Option`/`Result`; decimal text of numbers; the debugger's values, fields and child nodes |
| `Tags` | the tag tuples `STATIC_ENUM`, `RAW_ENUM`, `CHUNK_ENUM`, `VIEW_ENUM` and how `_lookup_type` reads them |
| `TagCodec` | `make_enums_tag`, `extract_enums_tag`, `recover_value` on the type text |
| `Registry` | `_pretty_printers`, `_pretty_printers_re`, `add_printer`, `add_re_printer`, `_match_printer` (a class) |
| `ConvenienceVars` | `GdbConvenienceVars` over the debugger's variable store (classes) |
| `Chunking` | `emit_chunked_elements`: the pointer/random-access tiers as a loop, the forward tier as a scanner class; `emit_elements` |
| `Fields` | `emit_raw_children`, `emit_static_children`, `has_static`, and `summary` as written and corrected |
| `Printers` | `DefaultPrinter`, `StaticPrinter`, `RawPrinter`, `ViewPrinter`, `ChunkPrinter` |
| `Dispatch` | `_lookup_type`, as written and corrected |

The debugger is a parameter of the model, and so is everything else the code
asks of gdb:

- whether a type is a struct or union, and its fields;
- whether an iterator is a pointer or has a pointer member;
- whether `-`, `+` and `==` evaluate on iterators;
- a dereference `at(cursor)` for element values;
- the results of the user's summary and accessor callables.

Printing a type is its name as text.

## Model

| member | source | states |
|---|---|---|
| Tags.DecodeEnums | gdb_printers.py:740-751 | `(0,)` selects the static printer and `(1,)` the raw one, each exactly when the tuple is that. A tuple starting with 2 and at least three long is a chunk with offset `e[1]` and size `e[2]`. Decoding fails exactly for the empty tuple and for a chunk tuple shorter than three (the `IndexError`). Anything else is a view with index `e[0] - 3`, which may be negative. |
| Tags.DecodeEncode | gdb_printers.py:148-157 | Decoding `STATIC_ENUM`, `RAW_ENUM`, `CHUNK_ENUM(o, n)` or `VIEW_ENUM(i)` for `i >= 0` gives back the node that was encoded. |
| Tags.EncodeInjective | gdb_printers.py:148-157 | Two different nodes never get the same tuple. |
| Tags.EveryReadableTagDecodes | gdb_printers.py:740-751 | Every non-empty tuple that is not a short chunk tuple selects a printer without an indexing error. |
| TagCodec.MakeEnumsTag | gdb_synthetic_nodes.py:13-38 | The loop over the reversed tuple, wrapping an array of bound `e - 1` per entry and then four pointers, gives a tag at the value's own address. Its type text is `T *(****)[e0][e1]...`, or `T **(****)[e0]...` when `T` itself ends in `*`. |
| TagCodec.BoundsTextOfTuple | gdb_synthetic_nodes.py:33-37 | An array made with `array(e - 1)` prints with extent `e`, so the printed bounds are exactly the tuple. |
| TagCodec.FindDims | gdb_synthetic_nodes.py:54-56 | `re.findall(r'\[(\d+)\]')` on the dimensions text finds the tuple, in order. |
| TagCodec.ExtractMakeEnumsTag | gdb_synthetic_nodes.py:41-56 | Extracting from a tag returns the encoded tuple, when the base type's own text has no bracketed number. |
| TagCodec.NoBracketedNumberFindsNothing | gdb_synthetic_nodes.py:55 | A text with no `[digits]` yields no matches. |
| TagCodec.FoundIsBracketed | gdb_synthetic_nodes.py:55 | A match is found only where the text has a bracketed number. |
| TagCodec.IndexFrom | gdb_synthetic_nodes.py:75 | `str.index`: the occurrence returned is the first one at or after the start, and a missing text is reported. |
| TagCodec.RecoverMakeEnumsTag | gdb_synthetic_nodes.py:59-77 | Recovering from a tag of a non-empty tuple gives back the address and the base type's text, the name handed to `gdb.lookup_type`. This holds when the base type is not a pointer and its text does not contain ` *(****)[`. |
| TagCodec.PointerBaseNotRecovered | gdb_synthetic_nodes.py:75 | For a base type ending in `*` the tag text is `T **(****)[...]`, which holds no ` *(****)[`, so recovering raises `ValueError`. |
| TagCodec.TagCarriesQuadPointer | gdb_printers.py:734 | Every tag of a non-empty tuple has `(****)` in its type text, right after the pointer to the base type (` *`, or `*` when the base ends in `*`). |
| Registry.FirstMatch | gdb_printers.py:142-145 | The index of the first regex that matches the type; no earlier one matches, and none matches when there is no result. |
| Registry.Match | gdb_printers.py:138-146 | An exact registration wins. Otherwise the result is the printer of the first matching regex. The result is `None` exactly when no regex matches. |
| Registry.LaterRegexDoesNotShadow | gdb_printers.py:136 | Appending a regex printer never changes the printer of a type an earlier regex already matches. |
| Registry.LaterRegexCatchesRest | gdb_printers.py:136 | An appended regex takes exactly the types that no earlier regex matched. |
| Registry.Registry.constructor | gdb_printers.py:59-60 | Both tables start empty. |
| Registry.Registry.AddPrinter | gdb_printers.py:62-98 | Registers or replaces the exact entry for the name; the regex list is unchanged. |
| Registry.Registry.AddRePrinter | gdb_printers.py:100-136 | Appends the regex entry at the end; the exact table is unchanged. |
| ConvenienceVars.Assign | gdb_printers.py:309 | Setting a variable to a value defines it; setting it to `None` removes it; other variables keep their values. |
| ConvenienceVars.Saved | gdb_printers.py:304-308 | The saved list has one `(name, previous value)` entry per pair, in the given order. |
| ConvenienceVars.Session.Get | gdb_printers.py:307 | Reads a variable's current value, `None` if unset. |
| ConvenienceVars.Session.Set | gdb_printers.py:309 | The store afterwards is the old store with that one assignment. |
| ConvenienceVars.Scope.Enter | gdb_printers.py:302-309 | On success every pair is assigned in order, and the saved list holds each name's value just before its own assignment. At the first empty name (`IndexError`) or name starting with `$` (`ValueError`), it stops with that index. The earlier pairs are then already assigned. |
| ConvenienceVars.Scope.Exit | gdb_printers.py:314-316 | Writes the saved values back in the order they were saved. |
| ConvenienceVars.AssignBack | gdb_printers.py:307-316 | Writing back the saved previous value undoes one assignment exactly. |
| ConvenienceVars.ExitRestoresDistinct | gdb_printers.py:285-316 | When the names are distinct and the block left the variables as set, leaving the scope restores the whole store to what it was before entering. |
| ConvenienceVars.SavedIsEntryValue | gdb_printers.py:304-309 | With distinct names, each name is recorded with its value from before the scope was entered. |
| ConvenienceVars.ForwardRestoresEach | gdb_printers.py:314-316 | Writing back records with distinct names leaves each name at its recorded value, whatever the store held at exit. |
| ConvenienceVars.ExitRestoresAfterAnyBlock | gdb_printers.py:285-316 | With distinct names, whatever the block did to the store (`++$pp_it` at line 407), leaving the scope sets every listed variable back to its value before entering. Every other variable stays as the block left it. |
| ConvenienceVars.ForwardIsBackwardWhenDistinct | gdb_printers.py:315-316 | With distinct names, restoring forwards and restoring backwards give the same store. |
| ConvenienceVars.UnlistedUntouched | gdb_printers.py:304-316 | A variable not named in the pairs is neither changed on entry nor on exit. |
| ConvenienceVars.RepeatedNameNotRestored | gdb_printers.py:314-316 | With `("pp_it", 1)`, `("pp_it", 2)` on an empty store, leaving the scope leaves `pp_it = 1` behind. |
| ConvenienceVars.RestoreBackwardUndoesSetAll | gdb_printers.py:314-316 | When the block left the variables as set, restoring the saved values in reverse order gives back the whole store, repeated names included. |
| ConvenienceVars.BackwardRestoresAfterAnyBlock | gdb_printers.py:285-316 | Whatever the block did to the store (`++$pp_it` at line 407), restoring in reverse order sets every listed variable back to its value before entering, repeated names included. Every other variable stays as the block left it. |
| Decimal.Show | gdb_printers.py:609 | The decimal text of a number is non-empty and all digits. |
| Decimal.ParseShow | gdb_synthetic_nodes.py:56 | `int()` of a number's decimal text gives the number back. |
| Chunking.UnwrapPtrLike | gdb_printers.py:162-179 | A pointer iterator is used as it is. Otherwise the result is the first of `_M_current`, `__i`, `_Ptr` that exists and is a pointer. There is no result exactly when none is. |
| Chunking.FirstPointerMember | gdb_printers.py:172-178 | The search over the member names from a position returns the first pointer-typed one and skips missing ones. |
| Chunking.SelectTier | gdb_printers.py:340-361 | The pointer tier is used exactly when both ends unwrap to pointers. The random-access tier is used exactly when they do not and the evaluator probes succeed. Otherwise the forward scan is used. |
| Chunking.ChunkSizeAt | gdb_printers.py:346 | A chunk holds between 1 and `chunk_size` elements and never runs past the length. Only the last one is short. |
| Chunking.SpanCount | gdb_printers.py:345 | There are `ceil(length / chunk_size)` chunks, none for a length of 0 or less. |
| Chunking.SpanAt | gdb_printers.py:345-346 | Chunk `j` starts at `j * chunk_size`. |
| Chunking.SpanSizesSum | gdb_printers.py:345-346 | The chunk sizes add up to the length. |
| Chunking.SpansContiguous | gdb_printers.py:345-346 | Each chunk starts where the previous one ended, from 0 up to the length. |
| Chunking.IndexedChunkAt | gdb_printers.py:345-347 | Chunk `j` is labelled `[i..i+n-1]` with `i = j * chunk_size`. It sits on the cursor `i` elements after the start and carries `CHUNK_ENUM(i, n)`. |
| Chunking.IndexedTier | gdb_printers.py:345-357 | The `range(0, length, chunk_size)` loop yields exactly that list of chunks. |
| Chunking.ElementsOf | gdb_printers.py:397-408 | `emit_elements` yields `size` children. |
| Chunking.ElementsOfAt | gdb_printers.py:405-407 | Child `j` is labelled `[offset + j]` and is the element `j` steps after the cursor. |
| Chunking.EmitElements | gdb_printers.py:397-408 | The loop yields exactly those children. |
| Chunking.ElementsSplit | gdb_printers.py:397-408 | Emitting `n` and then the next `m` elements is emitting `n + m` elements. |
| Chunking.ExpandChunk | gdb_printers.py:714-715 | A chunk node expands to its own elements, labelled by their index in the whole range. |
| Chunking.ChunksCoverElements | gdb_printers.py:340-357 | Expanding every chunk in order gives exactly the elements `[0]` to `[length-1]` in order: no element is lost or repeated. |
| Chunking.StepSize | gdb_printers.py:377-387 | A forward round advances at most `chunk_size` steps. |
| Chunking.ScanStop | gdb_printers.py:374-390 | A forward scan stops only when it is bounded by a size or a reachable end. It has then produced exactly the chunks of the pointer tier. |
| Chunking.ForwardScanner.constructor | gdb_printers.py:361-372 | The scan starts at index 0 on `begin` and has produced nothing. |
| Chunking.ForwardScanner.AtEnd | gdb_printers.py:362-368 | `_at_end` holds exactly when `==` evaluates and the cursor is at `end`. |
| Chunking.ForwardScanner.Proceed | gdb_printers.py:374 | The outer loop goes on exactly when this round would advance. With a size it never compares iterators. |
| Chunking.ForwardScanner.Advance | gdb_printers.py:376-384 | The inner loop advances up to the limit, stopping early at a reachable end. |
| Chunking.ForwardScanner.Next | gdb_printers.py:374-390 | One outer round does one of two things. It yields the chunk `[i..i+steps-1]` on the cursor where the round began and advances `i`. Or it ends the scan, and an ended scan has produced the pointer tier's chunks. |
| Chunking.ForwardScanner.Drain | gdb_printers.py:374-390 | Running a bounded scan to the end yields the same chunks as the pointer tier. |
| Chunking.EmitChunkedElements | gdb_printers.py:318-395 | The chunks are listed for the pointer and random-access tiers. For the forward tier, a fresh scanner starts on `begin`, with `end` only when `==` evaluates. |
| Fields.RawChildrenMembers | gdb_printers.py:482-489 | A child is raw exactly when it comes from a base class, shown as `name (base)`, or from a member with a bit position. |
| Fields.RawChildrenAppend | gdb_printers.py:485-489 | The raw children of two field lists are the raw children of each, in order. |
| Fields.StaticChildrenMembers | gdb_printers.py:494-501 | A child is static exactly when it comes from a member without a bit position. |
| Fields.HasStaticIffStaticChildren | gdb_printers.py:538-545 | `has_static` holds exactly when `<Static>` would show something. |
| Fields.EveryFieldShown | gdb_printers.py:482-501 | Every field shows up among the raw children or the static children. |
| Fields.FirstWhere | gdb_printers.py:451-456 | The first loop stops at the first field passing its test, and no earlier field passes. |
| Fields.Entries | gdb_printers.py:440-443 | One entry per shown field. |
| Fields.Summary | gdb_printers.py:445-478 | The two loops compute as their text the fields' entries in braces. The first shown field is the first one passing line 453's test, and every later instance field follows. `{}` when nothing is shown, with the type name in front when asked. |
| Fields.AppendLater | gdb_printers.py:458-464 | The second loop appends `", " + entry` for each later non-base field with a bit position, and counts them. |
| Fields.ShownAreInstances | gdb_printers.py:451-464 | Every field the summary shows is a member of the type that is not a base class and has a bit position. |
| Fields.InstancesMembers | gdb_printers.py:460-463 | The instance fields are exactly the non-base fields with a bit position. |
| Fields.AsWrittenAgreesUnlessFirstAtZero | gdb_printers.py:451-464 | The summary as written shows the same fields as the corrected one unless the first instance field is at bit position 0. |
| Fields.AsWrittenDropsLeadingZeroFields | gdb_printers.py:453 | The summary as written leaves out exactly the instance fields before its first field. All of those are at bit position 0. |
| Fields.SummaryDropsFieldAtOffsetZero | gdb_printers.py:453 | For a struct `{r, g, b, a}` the summary as written is `{ g, b, a }`; corrected it is `{ r, g, b, a }`. |
| Fields.CorrectedSummaryShowsInstances | gdb_printers.py:445-469 | The corrected summary shows every instance field of the type, in declaration order. |
| Printers.NodeChildren | gdb_printers.py:687-693 | The `nodes` pairs become children in order, each named by its label and holding its accessor's result. |
| Printers.ViewChildren | gdb_printers.py:680-700 | A `node` view shows that printer's children. Otherwise the view shows its `nodes` pairs followed by its `elements`, or nothing without `nodes`. |
| Printers.ViewToString | gdb_printers.py:702-705 | A view without a summary shows the empty string. |
| Printers.DefaultPrinter.CountViews | gdb_printers.py:600-604 | The number of views; none without a printer or a `views` key. |
| Printers.DefaultPrinter.ViewName | gdb_printers.py:606-609 | A view's own name, or `View <index>` past the end of the list. |
| Printers.DefaultPrinter.GetViewNamed | gdb_printers.py:572-577 | The first view with that name. `None` exactly when no view has it. |
| Printers.FirstNamed | gdb_printers.py:574-576 | The search from a position returns the first view with the name. |
| Printers.ViewEntriesMembers | gdb_printers.py:646-650 | An entry `<name>` with tag `VIEW_ENUM(k)` is listed exactly when view `k` exists and is not the default view. |
| Printers.ViewEntriesOrdered | gdb_printers.py:647-650 | The view entries come in increasing view index. |
| Printers.ViewEntryIndex | gdb_printers.py:650 | The tag of view `k`'s entry encodes `k`. |
| Printers.DefaultViewNotRepeated | gdb_printers.py:649 | The default view is never listed again among the view entries. |
| Printers.EveryViewReachable | gdb_printers.py:641-650 | Every view is either the default one or has an entry among the children. |
| Printers.RawFieldAtTop | gdb_printers.py:623-626 | Without views or without a default view, every raw member is a top-level child. |
| Printers.RawOffered | gdb_printers.py:641-644 | With views and a default view, `<Raw>` is among the children. |
| Printers.StaticOffered | gdb_printers.py:637-639 | `<Static>` is among the children whenever the type has a static member. |
| Printers.ChildrenAfterTop | gdb_printers.py:636-650 | `<Static>`, `<Raw>` and the view entries are all children, whatever the top level shows. |
| Printers.PlaceholderAgrees | gdb_printers.py:593-594 | When `default_view` names no view, both the summary and the single top-level child read `<default_view "name" not defined>`, and the child is unexpandable. |
| Printers.DefaultViewAtTop | gdb_printers.py:591-596 | When `default_view` names view `k`, the top level and the summary are those of view `k`. |
| Dispatch.PyIndex | gdb_printers.py:753 | Python indexing: a negative index counts from the end, and an index out of range fails. |
| Dispatch.SelectView | gdb_printers.py:753 | The view is found exactly when there is a printer with a `views` list and the index falls inside it. A missing printer is the `KeyError`. |
| Dispatch.BasePrinter | gdb_printers.py:737-753 | As written, view lists are read from the exact table only. Corrected, they come from the same lookup that chose the printer. |
| Dispatch.ContainsIffOccurs | gdb_printers.py:734 | The `in` test on the type text holds exactly when `(****)` occurs in it. |
| Dispatch.LookupOrdinary | gdb_printers.py:720-756 | A registered type gets the default printer with its description. An unregistered struct or union gets the default printer without one. Anything else without `(****)` gets no printer. |
| Dispatch.TagDispatches | gdb_printers.py:733-753 | A tag built from a value is decoded back to that value and to the printer its node selects. This holds when no printer claims the tag's own type text and `gdb.lookup_type` resolves the base type text. |
| Dispatch.UnresolvedBaseNotDispatched | gdb_synthetic_nodes.py:77 | When `gdb.lookup_type` does not resolve the base type text, every tag of that base fails with the `gdb.error` of `recover_value`, whichever node it names. |
| Dispatch.StaticTagDispatches | gdb_printers.py:740-742 | A `<Static>` tag gives the static printer of the original value, whose children are exactly its static members. |
| Dispatch.RawTagDispatches | gdb_printers.py:743-745 | A `<Raw>` tag gives the raw printer of the original value, whose children are exactly its raw members. |
| Dispatch.ChunkTagDispatches | gdb_printers.py:746-748 | A chunk tag built at a cursor decodes to the chunk printer at that cursor, with the chunk's offset and size. |
| Dispatch.ChunkTagExpands | gdb_printers.py:746-748 | A chunk tag gives a printer whose children are that chunk's elements. |
| Dispatch.PointerTagNotRecovered | gdb_printers.py:734-736 | A tag built from a value of pointer type, such as a cursor of the pointer tier, is not dispatched: `_lookup_type` raises the `ValueError` of `recover_value`. |
| Dispatch.ViewTagAsWritten | gdb_printers.py:749-753 | As written, a view tag finds view `i` of an exactly registered type. For any other type it raises `KeyError`. |
| Dispatch.ViewEntriesDispatch | gdb_printers.py:646-650 | Corrected, every view entry a `DefaultPrinter` lists leads to that same view's printer, whichever way the type was registered. |
| Dispatch.RegexViewRaisesKeyError | gdb_printers.py:753 | A type `Widget` is registered with `add_re_printer("Widget$", …)` with one view, `Detail`. Its `<Detail>` entry is offered. Looking up that entry as written raises `KeyError`; corrected, it shows the view. |
| Dispatch.UnanchoredPatternClaimsTag | gdb_printers.py:724-727 | Registered with `add_re_printer("Widget", …)` instead, the pattern also matches the `<Detail>` tag's type text, so the tag gets the default printer of `Widget` again and the view is never reached. |

## Left out

- I/O: `log`, `gdb_logger` and all logging are left out. Each `try`/`except` that only logs and ends the generator early is left out too.
- gdb's value model is left out. A value is an address and a type text, and a tag keeps the address of the value it is built from. Which gdb values have an address is not modelled.
- Chunking.IndexedTier, Chunking.EmitChunkedElements, Dispatch.ChunkTagExpands: the cursors the chunk tiers pass to `make_enums_tag` are computed values: `b_ptr + i` (line 347), the result of `$_b + {i}` (lines 356-357) and the value of `$_it` (lines 375, 389). Such values are not in memory, so `val.address` is `None` and `make_enums_tag` raises `AttributeError` at gdb_synthetic_nodes.py:38. Line 394 catches it and ends the generator before the first chunk. The model describes the chunks the code evidently means to yield, each tagged at its cursor.
- Element access `$pp_it.dereference()` and `++$pp_it` are a host function `at(cursor)` over integer cursor positions.
- The evaluator probes (`_has_random_access`, `_to_int`, `==` in `_at_end`) are parameters of the range.
- `_is_random_access`, `_is_forward`, `_is_bidirectional`, `_is_pointer`, `call0`, `get_member_value` and `get_c_range_and_size` are left out. These helpers feed the modelled code only through those parameters.
- `val.type.code` and `type.fields()` are the debugger's `isComposite` and `fieldsOf`. Whether `gdb.lookup_type` resolves a text is its `hasType`. The text of a type is its name.
- TagCodec.RecoverMakeEnumsTag, Dispatch.TagDispatches, Dispatch.StaticTagDispatches, Dispatch.RawTagDispatches, Dispatch.ChunkTagDispatches, Dispatch.ChunkTagExpands, Dispatch.ViewTagAsWritten, Dispatch.ViewEntriesDispatch: the dispatch lemmas assume that `gdb.lookup_type` resolves the base type text (`hasType`). Which texts it resolves is not modelled. It takes a type name, so a cv-qualified text such as `const Color` (`*this` in a const member function) or an anonymous `struct {...}` would not resolve. Such a tag then fails with `UnknownType` (Dispatch.UnresolvedBaseNotDispatched). The type `gdb.lookup_type` returns is modelled as printing as the text it was given.
- `summary`'s `val_to_str`, including the character-as-integer choice, is a host function `text`. The callables in a printer description (`summary`, accessors, `node`, `elements`) are opaque functions of the value.
- The `<error>` child of a `nodes` accessor that raises (lines 692-696) is left out, because accessors are total functions here. The log call at line 691, which evaluates the accessor before the `try`, is left out as well.
- `nodes` lists of odd length are left out; the model takes a list of pairs. A view without a `name` key is also left out.
- Exceptions from `_lookup_type` on tags are named results (for example `NoPrinterForBase` for the `KeyError`). What gdb does with an exception raised from a lookup function is not modelled.
- A forward scan that never stops is left out. An iterator without `==` and without a size is modelled as a scanner whose `Next()` always yields; no termination is claimed for it.
- Chunking.ChunkSizeAt, Chunking.IndexedTier, Chunking.EmitChunkedElements: `chunk_size` is required to be positive. `range` with step 0 raises `ValueError`, and a negative step yields nothing; neither is modelled.
- Decimal.Show, TagCodec.FindDims: `\d` and `int()` are ASCII only. Python also accepts other Unicode digits.
- TagCodec.ExtractMakeEnumsTag, TagCodec.RecoverMakeEnumsTag: the round trips assume a base type whose own text has no bracketed number and no ` *(****)[`. `recover_value` also fails for a pointer base; TagCodec.PointerBaseNotRecovered proves that.
- TagCodec.TagTypeName, TagCodec.MakeEnumsTag, Dispatch.ChunkTagExpands: the tag's type text is written as gdb writes it for a base type ending in a name or in `*`. For an array or function base gdb nests the declarator: `int[3]` gives `int (*(****)[e])[3]`. That rendering is not modelled. On such a tag `extract_enums_tag` finds the base's extent last, after the tuple, and `recover_value` finds no ` *(****)[`. The dispatch lemmas require a base that ends in a name (Dispatch.Carriable).
- Dispatch.TagDispatches, Dispatch.ViewEntriesDispatch: both assume that no registered regex matches the tag's own type text and that the tag type is not a struct or union. `re.match` is anchored at the start only, so any pattern without `$` that matches a type name also matches the tags built from its values and claims them (Dispatch.UnanchoredPatternClaimsTag).
- The empty tag tuple renders as `T *****`, which `recover_value` cannot invert; no round trip is claimed for it.
- `disable_all_printers`, registration with gdb, the test printers and the STL vector printer are left out. They are setup code, not printing logic.
- Fields.Summary, Fields.RawChildrenMembers: a field name is always a string here. An anonymous member has `field.name` of `None`, and any exception while reading the members or in `val_to_str` makes `summary` return `None` (lines 472-474) and ends `emit_raw_children` (lines 490-492). Neither is modelled.
- The unreachable code after the `return` statements of `emit_static_children` (lines 506-536) and `has_static` (lines 547-564) is left out.

## Findings

| source | as written | input that shows it | evidently intended | confidence | as-written member | corrected member |
|---|---|---|---|---|---|---|
| gdb_printers.py:453 | the first loop takes the first non-base field whose bit position is present and non-zero | `struct ColorRGBA { r, g, b, a }` with `r` at bit 0 gives `{ g, b, a }` | every instance field is shown, the first one included: `{ r, g, b, a }` | high, not executed | Fields.SummaryDropsFieldAtOffsetZero | Fields.CorrectedSummaryShowsInstances |
| gdb_printers.py:314-316 | `__exit__` writes the saved values back in the order they were saved | `GdbConvenienceVars(("pp_it", 1), ("pp_it", 2))` on an unset `pp_it` leaves `pp_it = 1` behind | the variables are restored to what they were before the block | medium, not executed | ConvenienceVars.RepeatedNameNotRestored | ConvenienceVars.BackwardRestoresAfterAnyBlock |
| gdb_printers.py:753 | the view list of a view tag is read with `_pretty_printers[base_key]`, the exact table only | a type `Widget` registered with `add_re_printer("Widget$", {"views": [{"name": "Detail", "nodes": []}]})`: expanding `<Detail>` raises `KeyError` | the view comes from the printer `_match_printer` found, as in `DefaultPrinter` | high, not executed | Dispatch.RegexViewRaisesKeyError | Dispatch.ViewEntriesDispatch |
