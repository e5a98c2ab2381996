/** The synthetic-node tag tuples and how `_lookup_type` reads them back
    (gdb_printers.py, lines 148-157 and 740-753). */
module Tags {
  import opened Wrappers

  const StaticEnum: seq<nat> := [0]
  const RawEnum: seq<nat> := [1]
  const ChunkKind: nat := 2
  const ViewKind: nat := 3

  function ChunkEnum(offset: nat, size: nat): seq<nat> {
    [ChunkKind, offset, size]
  }

  function ViewEnum(index: nat): seq<nat> {
    [ViewKind + index]
  }

  /** Which renderer a tag selects. A view index may come out negative: the code
      does not reject it, and Python then indexes the view list from its end. */
  datatype Selector = Static | Raw | Chunk(offset: nat, size: nat) | View(index: int)

  /** Reading `enums[0]`, `enums[1]` or `enums[2]` past the end raises IndexError. */
  datatype DecodeError = TagTooShort

  /** The if-chain of `_lookup_type`: exactly `(0,)` is Static and exactly `(1,)` is
      Raw; otherwise a first component 2 is a chunk and anything else is a view. */
  function DecodeEnums(e: seq<nat>): (r: Result<Selector, DecodeError>)
    ensures r == Success(Static) <==> e == StaticEnum
    ensures r == Success(Raw) <==> e == RawEnum
    ensures r.Failure? <==> e == [] || (e[0] == ChunkKind && |e| < 3)
    ensures r.Success? && r.value.Chunk? <==> |e| >= 3 && e[0] == ChunkKind
    ensures r.Success? && r.value.Chunk? ==> r.value == Chunk(e[1], e[2])
    ensures r.Success? && r.value.View? ==> r.value.index == e[0] - ViewKind
  {
    if e == StaticEnum then Success(Static)
    else if e == RawEnum then Success(Raw)
    else if e == [] then Failure(TagTooShort)
    else if e[0] == ChunkKind then
      if |e| < 3 then Failure(TagTooShort) else Success(Chunk(e[1], e[2]))
    else Success(View(e[0] as int - ViewKind))
  }

  /** The tag each well-formed selector is written as. */
  function EncodeSelector(s: Selector): seq<nat>
    requires s.View? ==> s.index >= 0
  {
    match s
    case Static => StaticEnum
    case Raw => RawEnum
    case Chunk(o, n) => ChunkEnum(o, n)
    case View(i) => ViewEnum(i as nat)
  }

  /** Decoding inverts the tag constructors: `VIEW_ENUM(i)` gives view `i` for every
      `i >= 0` and `CHUNK_ENUM(o, n)` gives `(o, n)`. */
  lemma DecodeEncode(s: Selector)
    requires s.View? ==> s.index >= 0
    ensures DecodeEnums(EncodeSelector(s)) == Success(s)
  {
  }

  /** Distinct selectors are written as distinct tags. */
  lemma EncodeInjective(s: Selector, t: Selector)
    requires s.View? ==> s.index >= 0
    requires t.View? ==> t.index >= 0
    requires EncodeSelector(s) == EncodeSelector(t)
    ensures s == t
  {
    DecodeEncode(s);
    DecodeEncode(t);
  }

  /** There is no "unknown kind": every tag that can be indexed decodes. */
  lemma EveryReadableTagDecodes(e: seq<nat>)
    requires e != [] && (e[0] == ChunkKind ==> |e| >= 3)
    ensures DecodeEnums(e).Success?
  {
  }
}
