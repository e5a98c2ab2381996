/** Paginating a sequence into chunks of at most `chunk_size` elements, and
    expanding one chunk back into its elements (gdb_printers.py,
    `_unwrap_ptr_like`, `emit_chunked_elements`, `emit_elements`).

    Cursors are positions: a pointer or iterator that designates element `p` of
    the underlying sequence is the integer `p`, and `at(p)` is the value obtained
    by dereferencing it. Host probes whose outcome only decides a branch (does
    `$pp_e - $pp_b` evaluate, does `==` evaluate) are inputs. */
module Chunking {
  import opened Wrappers
  import opened Decimal
  import opened Host
  import opened Tags

  // ---------------------------------------------------------------------------
  // Labels and chunk records

  /** `f'[{i}..{i+n-1}]'` for a chunk of `n >= 1` elements starting at index `i`. */
  function RangeLabel(i: nat, n: nat): string
    requires n > 0
  {
    "[" + Show(i) + ".." + Show(i + n - 1) + "]"
  }

  /** `f'[{i}]'`, the label of one element. */
  function IndexLabel(i: nat): string {
    "[" + Show(i) + "]"
  }

  /** One yielded chunk: its label, the cursor its tag is built from, and the tag tuple. */
  datatype ChunkNode = ChunkNode(name: string, cursor: int, tag: seq<nat>)

  /** The index range a chunk covers: `size` elements from index `offset`. */
  datatype Span = Span(offset: nat, size: nat)

  predicate NonEmpty(sp: Span) {
    sp.size > 0
  }

  /** The chunk `(f'[{i}..{i+n-1}]', make_enums_tag(cursor, CHUNK_ENUM(i, n)))`. */
  function MakeChunk(begin: int, sp: Span): ChunkNode
    requires NonEmpty(sp)
  {
    ChunkNode(RangeLabel(sp.offset, sp.size), begin + sp.offset, ChunkEnum(sp.offset, sp.size))
  }

  function ChunksOf(begin: int, sps: seq<Span>): (cs: seq<ChunkNode>)
    requires forall j :: 0 <= j < |sps| ==> NonEmpty(sps[j])
    ensures |cs| == |sps|
  {
    if sps == [] then [] else [MakeChunk(begin, sps[0])] + ChunksOf(begin, sps[1..])
  }

  lemma {:induction false} ChunksOfAt(begin: int, sps: seq<Span>, j: nat)
    requires forall q :: 0 <= q < |sps| ==> NonEmpty(sps[q])
    requires j < |sps|
    ensures ChunksOf(begin, sps)[j] == MakeChunk(begin, sps[j])
    decreases j
  {
    if j > 0 {
      ChunksOfAt(begin, sps[1..], j - 1);
    }
  }

  lemma {:induction false} ChunksOfAppend(begin: int, sps: seq<Span>, sp: Span)
    requires forall q :: 0 <= q < |sps| ==> NonEmpty(sps[q])
    requires NonEmpty(sp)
    ensures ChunksOf(begin, sps + [sp]) == ChunksOf(begin, sps) + [MakeChunk(begin, sp)]
    decreases |sps|
  {
    if sps != [] {
      assert (sps + [sp])[1..] == sps[1..] + [sp];
      ChunksOfAppend(begin, sps[1..], sp);
    }
  }

  // ---------------------------------------------------------------------------
  // Pointer and random-access tiers: `for i in range(0, length, chunk_size)`

  function ChunkSizeAt(length: int, k: nat, i: nat): (n: nat)
    requires 0 < k && i < length
    ensures 0 < n <= k && i + n <= length
    ensures n < k ==> i + n == length
  {
    if i + k <= length then k else length - i
  }

  /** The spans from index `i` on: a chunk of `chunk_size` at each multiple of it,
      cut at `length`. */
  function Spans(length: int, k: nat, i: nat): (sps: seq<Span>)
    requires k > 0
    ensures forall j :: 0 <= j < |sps| ==> NonEmpty(sps[j])
    decreases if length > i then length - i else 0
  {
    if i >= length then []
    else [Span(i, ChunkSizeAt(length, k, i))] + Spans(length, k, i + k)
  }

  /** The chunks the pointer and random-access tiers yield, for a sequence whose
      first element is at cursor `begin`. */
  function IndexedChunks(begin: int, length: int, k: nat): seq<ChunkNode>
    requires k > 0
  {
    ChunksOf(begin, Spans(length, k, 0))
  }

  /** There are `ceil((length - i) / chunk_size)` chunks, none when nothing is left:
      `count` is the least number of whole chunks that reach `length`. */
  lemma {:induction false} SpanCount(length: int, k: nat, i: nat)
    requires k > 0
    ensures var count := |Spans(length, k, i)|;
            if length <= i then count == 0 else (count - 1) * k < length - i <= count * k
    decreases if length > i then length - i else 0
  {
    if i < length {
      SpanCount(length, k, i + k);
      var c := |Spans(length, k, i + k)|;
      assert |Spans(length, k, i)| == c + 1;
      assert (c + 1) * k == c * k + k;
    }
  }

  /** Span `j` starts at index `i + j * chunk_size` and holds `chunk_size` elements,
      except that it is cut at `length`. */
  lemma {:induction false} SpanAt(length: int, k: nat, i: nat, j: nat)
    requires k > 0 && j < |Spans(length, k, i)|
    ensures i + j * k < length
    ensures Spans(length, k, i)[j] == Span(i + j * k, ChunkSizeAt(length, k, i + j * k))
    decreases j
  {
    if j > 0 {
      var rest := Spans(length, k, i + k);
      assert Spans(length, k, i) == [Span(i, ChunkSizeAt(length, k, i))] + rest;
      SpanAt(length, k, i + k, j - 1);
      NextMultiple(i, j, k);
    }
  }

  lemma NextMultiple(i: nat, j: nat, k: nat)
    requires j > 0
    ensures (i + k) + (j - 1) * k == i + j * k
  {
    assert (j - 1) * k == j * k - k;
  }

  function SizeSum(sps: seq<Span>): int {
    if sps == [] then 0 else sps[0].size + SizeSum(sps[1..])
  }

  /** The sizes add up to the number of elements left. */
  lemma {:induction false} SpanSizesSum(length: int, k: nat, i: nat)
    requires k > 0
    ensures SizeSum(Spans(length, k, i)) == if length <= i then 0 else length - i
    decreases if length > i then length - i else 0
  {
    if i < length {
      SpanSizesSum(length, k, i + k);
      assert Spans(length, k, i)[1..] == Spans(length, k, i + k);
    }
  }

  /** The pointer tier for `length` elements and `chunk_size` elements per chunk:
      `ceil(length / chunk_size)` chunks, the `j`-th labelled `[j*k..j*k+n-1]`, tagged
      `CHUNK_ENUM(j*k, n)` and built on the cursor `j*k` elements after `begin`, where
      `n` is `chunk_size` except that the last one stops at `length`. */
  lemma IndexedChunkAt(begin: int, length: int, k: nat, j: nat)
    requires k > 0 && j < |IndexedChunks(begin, length, k)|
    ensures j * k < length
    ensures var n := if (j + 1) * k <= length then k else length - j * k;
            IndexedChunks(begin, length, k)[j] == ChunkNode(RangeLabel(j * k, n), begin + j * k, ChunkEnum(j * k, n))
  {
    SpanAt(length, k, 0, j);
    ChunksOfAt(begin, Spans(length, k, 0), j);
    assert (j + 1) * k == j * k + k;
  }

  // ---------------------------------------------------------------------------
  // emit_elements: expanding one chunk

  /** The element `emit_elements` yields for index `index`, read at `cursor`. */
  function Element(at: int -> Value, cursor: int, index: nat): Child {
    Child(IndexLabel(index), Computed(at(cursor)))
  }

  /** The children `emit_elements(it, offset, size)` yields: `size` elements, each
      labelled with its index and read one increment after the previous one. */
  function ElementsOf(at: int -> Value, cursor: int, offset: nat, size: nat): (r: seq<Child>)
    ensures |r| == size
    decreases size
  {
    if size == 0 then []
    else [Element(at, cursor, offset)] + ElementsOf(at, cursor + 1, offset + 1, size - 1)
  }

  /** Element `j` is labelled `[offset+j]` and read `j` increments after `it`. */
  lemma {:induction false} ElementsOfAt(at: int -> Value, cursor: int, offset: nat, size: nat, j: nat)
    requires j < size
    ensures ElementsOf(at, cursor, offset, size)[j] == Element(at, cursor + j, offset + j)
    decreases j
  {
    var h := Element(at, cursor, offset);
    var tail := ElementsOf(at, cursor + 1, offset + 1, size - 1);
    assert ElementsOf(at, cursor, offset, size) == [h] + tail;
    if j > 0 {
      ElementsOfAt(at, cursor + 1, offset + 1, size - 1, j - 1);
      assert tail[j - 1] == Element(at, cursor + j, offset + j);
    }
  }

  method EmitElements(at: int -> Value, it: int, offset: nat, size: nat) returns (out: seq<Child>)
    ensures out == ElementsOf(at, it, offset, size)
  {
    out := [];
    var cursor := it;
    var i: nat := 0;
    while i < size
      invariant i <= size
      invariant cursor == it + i
      invariant out == ElementsOf(at, it, offset, i)
    {
      ElementsSnoc(at, it, offset, i);
      out := out + [Element(at, cursor, offset + i)];
      cursor := cursor + 1;
      i := i + 1;
    }
  }

  lemma ElementsSnoc(at: int -> Value, cursor: int, offset: nat, n: nat)
    ensures ElementsOf(at, cursor, offset, n + 1)
            == ElementsOf(at, cursor, offset, n) + [Element(at, cursor + n, offset + n)]
  {
    ElementsSplit(at, cursor, offset, n, 1);
    assert ElementsOf(at, cursor + n, offset + n, 1) == [Element(at, cursor + n, offset + n)];
  }

  lemma ElementsSplit(at: int -> Value, cursor: int, offset: nat, n: nat, m: nat)
    ensures ElementsOf(at, cursor, offset, n) + ElementsOf(at, cursor + n, offset + n, m)
            == ElementsOf(at, cursor, offset, n + m)
  {
    var left := ElementsOf(at, cursor, offset, n);
    var right := ElementsOf(at, cursor + n, offset + n, m);
    var whole := ElementsOf(at, cursor, offset, n + m);
    forall j | 0 <= j < n + m ensures (left + right)[j] == whole[j] {
      ElementsSplitAt(at, cursor, offset, n, m, j);
    }
  }

  lemma ElementsSplitAt(at: int -> Value, cursor: int, offset: nat, n: nat, m: nat, j: nat)
    requires j < n + m
    ensures (ElementsOf(at, cursor, offset, n) + ElementsOf(at, cursor + n, offset + n, m))[j]
            == ElementsOf(at, cursor, offset, n + m)[j]
  {
    ElementsOfAt(at, cursor, offset, n + m, j);
    if j < n {
      ElementsOfAt(at, cursor, offset, n, j);
    } else {
      ElementsOfAt(at, cursor + n, offset + n, m, j - n);
      assert (cursor + n) + (j - n) == cursor + j && (offset + n) + (j - n) == offset + j;
    }
  }

  /** What the chunk printer shows for a chunk once its tag is decoded. */
  function Expand(at: int -> Value, c: ChunkNode): seq<Child> {
    var d := DecodeEnums(c.tag);
    if d.Success? && d.value.Chunk? then ElementsOf(at, c.cursor, d.value.offset, d.value.size) else []
  }

  function ExpandAll(at: int -> Value, cs: seq<ChunkNode>): seq<Child> {
    if cs == [] then [] else Expand(at, cs[0]) + ExpandAll(at, cs[1..])
  }

  /** Expanding every chunk in turn shows each element exactly once, in order,
      with its index as label: the chunks cover `[i, length)` without gap or overlap. */
  lemma ExpandChunk(at: int -> Value, begin: int, sp: Span)
    requires NonEmpty(sp)
    ensures Expand(at, MakeChunk(begin, sp)) == ElementsOf(at, begin + sp.offset, sp.offset, sp.size)
  {
  }

  lemma ExpandCons(at: int -> Value, begin: int, sp: Span, rest: seq<Span>)
    requires NonEmpty(sp) && forall q :: 0 <= q < |rest| ==> NonEmpty(rest[q])
    ensures ExpandAll(at, ChunksOf(begin, [sp] + rest))
            == ElementsOf(at, begin + sp.offset, sp.offset, sp.size) + ExpandAll(at, ChunksOf(begin, rest))
  {
    assert ([sp] + rest)[0] == sp;
    assert ([sp] + rest)[1..] == rest;
    ExpandChunk(at, begin, sp);
  }

  lemma NextSpan(length: int, k: nat, i: nat)
    requires 0 < k && i < length
    ensures Spans(length, k, i) == [Span(i, ChunkSizeAt(length, k, i))] + Spans(length, k, i + ChunkSizeAt(length, k, i))
    ensures Spans(length, k, i + k) == Spans(length, k, i + ChunkSizeAt(length, k, i))
  {
    var n := ChunkSizeAt(length, k, i);
    if n < k {
      assert Spans(length, k, i + n) == [] == Spans(length, k, i + k);
    }
  }

  /** `sps` covers the indices `[i, end)` in order, without gap or overlap. */
  ghost predicate Contiguous(sps: seq<Span>, i: nat, end: nat)
    decreases |sps|
  {
    if sps == [] then i == end
    else sps[0].offset == i && NonEmpty(sps[0]) && Contiguous(sps[1..], i + sps[0].size, end)
  }

  /** The elements of each span in turn, read from the cursor `begin` on. */
  function SpanElements(at: int -> Value, begin: int, sps: seq<Span>): seq<Child> {
    if sps == [] then []
    else ElementsOf(at, begin + sps[0].offset, sps[0].offset, sps[0].size) + SpanElements(at, begin, sps[1..])
  }

  /** Expanding the chunk of each span shows that span's elements. */
  lemma {:induction false} ExpandSpans(at: int -> Value, begin: int, sps: seq<Span>)
    requires forall q :: 0 <= q < |sps| ==> NonEmpty(sps[q])
    ensures ExpandAll(at, ChunksOf(begin, sps)) == SpanElements(at, begin, sps)
    decreases |sps|
  {
    if sps != [] {
      assert sps == [sps[0]] + sps[1..];
      ExpandCons(at, begin, sps[0], sps[1..]);
      ExpandSpans(at, begin, sps[1..]);
    }
  }

  /** Contiguous spans show each element of their range once, in order, labelled
      with its index. */
  lemma {:induction false} CoverSpans(at: int -> Value, begin: int, sps: seq<Span>, i: nat, end: nat)
    requires Contiguous(sps, i, end)
    ensures i <= end
    ensures SpanElements(at, begin, sps) == ElementsOf(at, begin + i, i, end - i)
    decreases |sps|
  {
    if sps != [] {
      var sp, rest := sps[0], sps[1..];
      var j: nat := i + sp.size;
      CoverSpans(at, begin, rest, j, end);
      ElementsSplit(at, begin + i, i, sp.size, end - j);
    }
  }

  /** The split of the pointer tier is contiguous up to `length`. */
  lemma {:induction false} SpansContiguous(length: int, k: nat, i: nat)
    requires k > 0
    ensures Contiguous(Spans(length, k, i), i, if length > i then length else i)
    decreases if length > i then length - i else 0
  {
    if i < length {
      NextSpan(length, k, i);
      var n := ChunkSizeAt(length, k, i);
      SpansContiguous(length, k, i + n);
      var sps := Spans(length, k, i);
      assert sps[0] == Span(i, n);
      assert sps[1..] == Spans(length, k, i + n);
    }
  }

  /** The chunks cover the sequence without gap or overlap: expanding them in turn
      (each through its decoded tag, as the chunk printer does) shows elements
      `[0]` to `[length-1]`, each read from its own position. */
  lemma ChunksCoverElements(at: int -> Value, begin: int, length: int, k: nat)
    requires k > 0
    ensures ExpandAll(at, IndexedChunks(begin, length, k)) == ElementsOf(at, begin, 0, if length > 0 then length else 0)
  {
    SpansContiguous(length, k, 0);
    ExpandSpans(at, begin, Spans(length, k, 0));
    CoverSpans(at, begin, Spans(length, k, 0), 0, if length > 0 then length else 0);
  }

  // ---------------------------------------------------------------------------
  // _unwrap_ptr_like and the choice of tier

  /** An iterator value as the probes see it: whether its type is a pointer, and for
      each member it has, whether that member's type is a pointer. */
  datatype Iterator = Iterator(pos: int, isPointer: bool, members: map<string, bool>)

  /** The members searched, in this order: libstdc++, libc++, MSVC. */
  const PointerMembers: seq<string> := ["_M_current", "__i", "_Ptr"]

  predicate PointerMember(it: Iterator, name: string) {
    name in it.members && it.members[name]
  }

  datatype Unwrapped = Itself | ViaMember(member: string)

  /** `_unwrap_ptr_like`: the iterator itself if it is a pointer, else its first
      pointer-typed member among `PointerMembers`; a missing member is skipped. */
  function UnwrapPtrLike(it: Iterator): (r: Option<Unwrapped>)
    ensures r == Some(Itself) <==> it.isPointer
    ensures r.Some? && r.value.ViaMember? ==>
      exists k :: 0 <= k < |PointerMembers| && r.value.member == PointerMembers[k] && PointerMember(it, PointerMembers[k])
                  && forall j :: 0 <= j < k ==> !PointerMember(it, PointerMembers[j])
    ensures r.None? <==> !it.isPointer && forall k :: 0 <= k < |PointerMembers| ==> !PointerMember(it, PointerMembers[k])
  {
    if it.isPointer then Some(Itself)
    else FirstPointerMember(it, 0)
  }

  function FirstPointerMember(it: Iterator, k: nat): (r: Option<Unwrapped>)
    requires k <= |PointerMembers|
    ensures r.Some? ==> r.value.ViaMember?
    ensures r.Some? ==>
      exists m :: k <= m < |PointerMembers| && r.value.member == PointerMembers[m] && PointerMember(it, PointerMembers[m])
                  && forall j :: k <= j < m ==> !PointerMember(it, PointerMembers[j])
    ensures r.None? <==> forall m :: k <= m < |PointerMembers| ==> !PointerMember(it, PointerMembers[m])
    decreases |PointerMembers| - k
  {
    if k == |PointerMembers| then None
    else if PointerMember(it, PointerMembers[k]) then Some(ViaMember(PointerMembers[k]))
    else FirstPointerMember(it, k + 1)
  }

  /** The three tiers, tried in this order. */
  datatype Tier = PointerTier | RandomAccessTier | ForwardTier

  /** `(begin, end)` or `(begin, end, size)`, with the outcome of the two evaluator
      probes: `randomAccess` when `$pp_e - $pp_b` and `$pp_b + 1` both evaluate,
      `equality` when `$_it == $_end` evaluates. */
  datatype ChunkRange = ChunkRange(begin: Iterator, end: Iterator, size: Option<int>,
                                   randomAccess: bool, equality: bool)

  function SelectTier(r: ChunkRange): (t: Tier)
    ensures t == PointerTier <==> UnwrapPtrLike(r.begin).Some? && UnwrapPtrLike(r.end).Some?
    ensures t == RandomAccessTier <==> t != PointerTier && r.randomAccess
  {
    if UnwrapPtrLike(r.begin).Some? && UnwrapPtrLike(r.end).Some? then PointerTier
    else if r.randomAccess then RandomAccessTier
    else ForwardTier
  }

  /** The element count of the first two tiers: `size` when given, else `end - begin`. */
  function IndexedLength(r: ChunkRange): int {
    if r.size.Some? then r.size.value else r.end.pos - r.begin.pos
  }

  // ---------------------------------------------------------------------------
  // Forward tier: a scan that only increments a cursor

  /** A bounded round appends the next span of the pointer-tier split. */
  lemma BoundedStep(spans: seq<Span>, length: int, k: nat, i: nat)
    requires 0 < k && i < length
    requires spans + Spans(length, k, i) == Spans(length, k, 0)
    ensures i + ChunkSizeAt(length, k, i) <= length
    ensures spans + [Span(i, ChunkSizeAt(length, k, i))] + Spans(length, k, i + ChunkSizeAt(length, k, i))
            == Spans(length, k, 0)
    ensures Spans(length, k, i + k) == Spans(length, k, i + ChunkSizeAt(length, k, i))
  {
    NextSpan(length, k, i);
  }

  /** Once the scan has reached `length`, the spans seen are the whole split. */
  lemma BoundedDone(spans: seq<Span>, length: int, k: nat, i: nat)
    requires 0 < k && length <= i
    requires spans + Spans(length, k, i) == Spans(length, k, 0)
    ensures spans == Spans(length, k, 0)
  {
    assert Spans(length, k, i) == [];
  }

  /** An unbounded round appends a whole chunk. */
  lemma UnboundedStep(spans: seq<Span>, k: nat)
    requires forall j :: 0 <= j < |spans| ==> spans[j] == Span(j * k, k)
    ensures var s' := spans + [Span(|spans| * k, k)];
            (forall j :: 0 <= j < |s'| ==> s'[j] == Span(j * k, k)) && |spans| * k + k == |s'| * k
  {
  }

  /** The fixed inputs of a forward scan: the begin position, the end position when
      `==` evaluates (when it does not, `_at_end` is always false), the size if one
      was given, and the chunk size. */
  datatype ScanParams = ScanParams(begin: int, end: Option<int>, size: Option<int>, k: nat)

  /** The scan stops by itself: a size is given, or `==` works and `end` is ahead. */
  predicate Bounded(p: ScanParams) {
    p.size.Some? || (p.end.Some? && p.end.value >= p.begin)
  }

  function Length(p: ScanParams): int
    requires Bounded(p)
  {
    if p.size.Some? then p.size.value else p.end.value - p.begin
  }

  /** How many steps the round starting at index `i` advances. */
  function StepSize(p: ScanParams, i: nat): (n: nat)
    requires 0 < p.k
    ensures n <= p.k
  {
    if Bounded(p) then (if i < Length(p) then ChunkSizeAt(Length(p), p.k, i) else 0)
    else p.k
  }

  /** After the rounds that produced `spans`, at index `i`: a bounded scan has produced
      a prefix of the pointer-tier split and stops only once it reaches `length`; an
      unbounded one has produced whole chunks and never stops. */
  ghost predicate ScanInv(p: ScanParams, i: nat, finished: bool, spans: seq<Span>) {
    && 0 < p.k
    && (Bounded(p) ==>
          && (i <= Length(p) || i == 0)
          && spans + Spans(Length(p), p.k, i) == Spans(Length(p), p.k, 0)
          && (finished ==> i >= Length(p)))
    && (!Bounded(p) ==>
          && !finished
          && i == |spans| * p.k
          && forall j :: 0 <= j < |spans| ==> spans[j] == Span(j * p.k, p.k))
  }

  lemma ScanAdvance(p: ScanParams, i: nat, spans: seq<Span>)
    requires ScanInv(p, i, false, spans) && StepSize(p, i) > 0
    ensures ScanInv(p, i + StepSize(p, i), false, spans + [Span(i, StepSize(p, i))])
  {
    if Bounded(p) {
      BoundedStep(spans, Length(p), p.k, i);
    } else {
      UnboundedStep(spans, p.k);
    }
  }

  /** A scan stops only when it is bounded and has produced the whole split. */
  lemma ScanStop(p: ScanParams, i: nat, finished: bool, spans: seq<Span>)
    requires ScanInv(p, i, finished, spans) && (finished || StepSize(p, i) == 0)
    ensures ScanInv(p, i, true, spans)
    ensures Bounded(p) && spans == Spans(Length(p), p.k, 0)
  {
    BoundedDone(spans, Length(p), p.k, i);
  }

  /** The forward tier (lines 361-390) as a resumable scanner: each `Next()` runs one
      round of the outer `while`, and `finished` records that the generator returned. */
  class ForwardScanner {
    const begin: int
    const end: Option<int>
    const size: Option<int>
    const chunkSize: nat
    var i: nat
    var cursor: int
    var finished: bool
    ghost var spans: seq<Span>
    ghost var equalityTests: nat

    function Params(): ScanParams {
      ScanParams(begin, end, size, chunkSize)
    }

    ghost predicate Valid()
      reads this
    {
      && cursor == begin + i
      && (forall j :: 0 <= j < |spans| ==> NonEmpty(spans[j]))
      && ScanInv(Params(), i, finished, spans)
    }

    constructor (begin: int, end: Option<int>, size: Option<int>, chunkSize: nat)
      requires 0 < chunkSize
      ensures Valid()
      ensures this.begin == begin && this.end == end && this.size == size && this.chunkSize == chunkSize
      ensures i == 0 && cursor == begin && !finished && spans == [] && equalityTests == 0
    {
      this.begin := begin;
      this.end := end;
      this.size := size;
      this.chunkSize := chunkSize;
      i := 0;
      cursor := begin;
      finished := false;
      spans := [];
      equalityTests := 0;
    }

    /** `_at_end()`: `$_it == $_end`, or false when `==` does not evaluate. */
    method AtEnd() returns (r: bool)
      modifies this`equalityTests
      ensures r <==> end.Some? && cursor == end.value
      ensures equalityTests == old(equalityTests) + 1
    {
      equalityTests := equalityTests + 1;
      r := end.Some? && cursor == end.value;
    }

    /** The condition of the outer loop: `i < total` with a size, else `not _at_end()`.
        It holds exactly when the next round advances. */
    method Proceed() returns (go: bool)
      requires Valid() && !finished
      modifies this`equalityTests
      ensures go <==> StepSize(Params(), i) > 0
      ensures size.Some? ==> equalityTests == old(equalityTests)
    {
      if size.Some? {
        go := i < size.value;
      } else {
        var atEnd := AtEnd();
        go := !atEnd;
      }
    }

    /** The inner loop: increment the cursor up to `limit` times, stopping early at
        the end only when no size is given. */
    method Advance(limit: nat) returns (steps: nat)
      modifies this`cursor, this`equalityTests
      ensures cursor == old(cursor) + steps
      ensures steps == if size.None? && end.Some? && end.value >= old(cursor)
                       then Min(limit, end.value - old(cursor)) else limit
      ensures size.Some? ==> equalityTests == old(equalityTests)
    {
      ghost var start := cursor;
      ghost var want := if size.None? && end.Some? && end.value >= start then Min(limit, end.value - start) else limit;
      steps := 0;
      while steps < limit
        invariant steps <= want && cursor == start + steps
        invariant size.Some? ==> equalityTests == old(equalityTests)
      {
        if size.None? {
          var atEnd := AtEnd();
          if atEnd {
            break;
          }
        }
        cursor := cursor + 1;
        steps := steps + 1;
      }
    }

    /** One round of the outer loop: stop when its condition fails, else advance and
        yield the chunk unless nothing advanced. */
    method Next() returns (r: Option<ChunkNode>)
      requires Valid()
      modifies this`i, this`cursor, this`finished, this`spans, this`equalityTests
      ensures Valid()
      ensures old(finished) ==> r.None? && i == old(i) && finished
      ensures !old(finished) && StepSize(Params(), old(i)) == 0 ==> r.None? && finished && i == old(i)
      ensures !old(finished) && StepSize(Params(), old(i)) > 0 ==>
                && r == Some(MakeChunk(begin, Span(old(i), StepSize(Params(), old(i)))))
                && i == old(i) + StepSize(Params(), old(i)) && !finished
      ensures spans == old(spans) + (if r.Some? then [Span(old(i), StepSize(Params(), old(i)))] else [])
      ensures size.Some? ==> equalityTests == old(equalityTests)
      ensures finished ==> Bounded(Params()) && spans == Spans(Length(Params()), chunkSize, 0)
    {
      if finished {
        ScanStop(Params(), i, finished, spans);
        return None;
      }
      var go := Proceed();
      if !go {
        ScanStop(Params(), i, false, spans);
        finished := true;
        return None;
      }
      var limit := if size.None? then chunkSize else Min(chunkSize, size.value - i);
      var steps := Advance(limit);
      // `if steps == 0: break` cannot fire: the loop condition has just held, so
      // the inner loop advanced at least once.
      assert steps == StepSize(Params(), i) > 0;
      var sp := Span(i, steps);
      r := Some(MakeChunk(begin, sp));
      ScanAdvance(Params(), i, spans);
      spans := spans + [sp];
      i := i + steps;
    }

    /** Runs a scan that stops by itself to the end: it yields the same chunks as
        the pointer and random-access tiers. */
    method Drain() returns (chunks: seq<ChunkNode>)
      requires Valid() && !finished && spans == [] && Bounded(Params())
      modifies this`i, this`cursor, this`finished, this`spans, this`equalityTests
      ensures Valid() && finished
      ensures chunks == IndexedChunks(begin, Length(Params()), chunkSize)
    {
      chunks := [];
      while !finished
        invariant Valid()
        invariant chunks == ChunksOf(begin, spans)
        decreases (if finished then 0 else 1), (if Length(Params()) > i then Length(Params()) - i else 0)
      {
        ghost var before, i0 := spans, i;
        var r := Next();
        if r.Some? {
          ghost var sp := Span(i0, StepSize(Params(), i0));
          assert NonEmpty(sp) && r.value == MakeChunk(begin, sp);
          ChunksOfAppend(begin, before, sp);
          chunks := chunks + [r.value];
        } else {
          assert spans == before;
        }
      }
      ScanStop(Params(), i, finished, spans);
    }
  }

  function Min(a: int, b: int): int {
    if a <= b then a else b
  }

  /** `for i in range(0, length, chunk_size)`: one chunk per multiple of `chunk_size`,
      built on the cursor `i` elements after `begin`. */
  method IndexedTier(begin: int, length: int, k: nat) returns (chunks: seq<ChunkNode>)
    requires 0 < k
    ensures chunks == IndexedChunks(begin, length, k)
  {
    chunks := [];
    var i: nat := 0;
    ghost var done: seq<Span> := [];
    while i < length
      invariant forall q :: 0 <= q < |done| ==> NonEmpty(done[q])
      invariant done + Spans(length, k, i) == Spans(length, k, 0)
      invariant chunks == ChunksOf(begin, done)
    {
      var n := if i + k <= length then k else length - i;
      BoundedStep(done, length, k, i);
      ChunksOfAppend(begin, done, Span(i, n));
      chunks := chunks + [MakeChunk(begin, Span(i, n))];
      done := done + [Span(i, n)];
      i := i + k;
    }
    BoundedDone(done, length, k, i);
  }

  /** What `emit_chunked_elements` produces: the whole list for the first two tiers,
      a scanner for the forward tier. */
  datatype ChunkStream = Listed(chunks: seq<ChunkNode>) | Scanning(scanner: ForwardScanner)

  method EmitChunkedElements(r: ChunkRange, chunkSize: nat) returns (s: ChunkStream)
    requires 0 < chunkSize
    ensures SelectTier(r) != ForwardTier ==>
              s == Listed(IndexedChunks(r.begin.pos, IndexedLength(r), chunkSize))
    ensures SelectTier(r) == ForwardTier ==>
              && s.Scanning? && fresh(s.scanner) && s.scanner.Valid()
              && s.scanner.begin == r.begin.pos && s.scanner.size == r.size
              && s.scanner.end == (if r.equality then Some(r.end.pos) else None)
              && s.scanner.chunkSize == chunkSize && s.scanner.i == 0 && !s.scanner.finished
  {
    var tier := SelectTier(r);
    if tier != ForwardTier {
      var chunks := IndexedTier(r.begin.pos, IndexedLength(r), chunkSize);
      return Listed(chunks);
    }
    var scanner := new ForwardScanner(r.begin.pos, if r.equality then Some(r.end.pos) else None, r.size, chunkSize);
    return Scanning(scanner);
  }
}
