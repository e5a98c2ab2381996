/** The synthetic-tag codec: a tuple of small naturals stored in the text of a
    value's type, by wrapping the type in one array dimension per component and
    four levels of pointer (gdb_synthetic_nodes.py). */
module TagCodec {
  import opened Wrappers
  import opened Decimal
  import opened Host

  /** The declarator gdb writes after a base type whose text ends in a name; a
      tuple component `e` then follows as `[e]`. */
  const QuadPointer: string := " *(****)"

  /** The same declarator after a base type whose text already ends in `*`. */
  const StarQuadPointer: string := "*(****)"

  /** What `recover_value` searches for: the declarator and the first dimension. */
  const Marker: string := " *(****)["

  /** The array dimensions, outermost first: one `[e]` per component. */
  function Dims(t: seq<nat>): string {
    if t == [] then "" else "[" + Show(t[0]) + "]" + Dims(t[1..])
  }

  /** The text of a pointer type ends in `*`. */
  predicate EndsInStar(base: string) {
    |base| > 0 && base[|base| - 1] == '*'
  }

  /** A type whose text ends in a name or a template argument list: not a pointer,
      reference, array or function type, whose declarators gdb writes differently. */
  predicate EndsInName(base: string) {
    |base| > 0 && base[|base| - 1] !in "*&)]"
  }

  /** How gdb writes a pointer to `pointee`: `Foo *`, but `int **` for a pointer to
      `int *`. */
  function PointerTo(pointee: string): string {
    if EndsInStar(pointee) then pointee + "*" else pointee + " *"
  }

  /** The text gdb gives to the type of a tag built from a value of type `base`.
      Without any dimension the type is a plain five-level pointer. */
  function TagTypeName(base: string, t: seq<nat>): string {
    if t == [] then PointerTo(base) + "****" else PointerTo(base) + "(****)" + Dims(t)
  }

  /** The type `make_enums_tag` builds step by step: a pointer to `pointee`, wrapped
      in arrays whose gdb upper bounds (`array(n)` has `n + 1` elements) are `bounds`,
      outermost first, and then in `levels` further pointers. */
  datatype TagType = TagType(pointee: string, bounds: seq<int>, levels: nat)

  function Stars(n: nat): string {
    if n == 0 then "" else "*" + Stars(n - 1)
  }

  function BoundsText(bounds: seq<int>): string
    requires forall k :: 0 <= k < |bounds| ==> bounds[k] >= -1
  {
    if bounds == [] then "" else "[" + Show(bounds[0] + 1) + "]" + BoundsText(bounds[1..])
  }

  /** How gdb prints such a type: the array dimensions show element counts. */
  function Render(tt: TagType): string
    requires forall k :: 0 <= k < |tt.bounds| ==> tt.bounds[k] >= -1
  {
    if tt.bounds == [] then PointerTo(tt.pointee) + Stars(tt.levels)
    else PointerTo(tt.pointee) + "(" + Stars(tt.levels) + ")" + BoundsText(tt.bounds)
  }

  lemma {:induction false} BoundsTextOfTuple(t: seq<nat>, bounds: seq<int>)
    requires |bounds| == |t| && forall k :: 0 <= k < |t| ==> bounds[k] == (t[k] as int) - 1
    ensures BoundsText(bounds) == Dims(t)
    decreases |t|
  {
    if t != [] {
      BoundsTextOfTuple(t[1..], bounds[1..]);
    }
  }

  /** `make_enums_tag(val, t)`: the address of `v` cast to the tag type. The loop runs
      over the tuple in reverse, so the first component ends up outermost. */
  method MakeEnumsTag(v: Value, t: seq<nat>) returns (tag: Value)
    ensures tag == Value(v.addr, TagTypeName(v.typeName, t))
  {
    var bounds: seq<int> := [];
    var k := |t|;
    while k > 0
      invariant 0 <= k <= |t|
      invariant |bounds| == |t| - k
      invariant forall j :: 0 <= j < |bounds| ==> bounds[j] == (t[k + j] as int) - 1
    {
      k := k - 1;
      bounds := [(t[k] as int) - 1] + bounds;
    }
    var tt := TagType(v.typeName, bounds, 4);
    BoundsTextOfTuple(t, bounds);
    tag := Value(v.addr, Render(tt));
  }

  /** The same tag as a value, for use in specifications. */
  function Tag(v: Value, t: seq<nat>): Value {
    Value(v.addr, TagTypeName(v.typeName, t))
  }

  // ---------------------------------------------------------------------------
  // extract_enums_tag: re.findall(r'\[(\d+)\]', ...) read back as integers

  /** Every non-overlapping `[digits]` in `s`, left to right, as a number; a
      failed attempt at a `[` moves on by one character, as a regex scan does. */
  function FindBracketedNumbers(s: string): seq<nat>
    decreases |s|
  {
    if s == [] then []
    else
      var j := DigitRun(s[1..]);
      if Opens(s, j) then [Parse(s[1..][..j])] + FindBracketedNumbers(s[j + 2..])
      else FindBracketedNumbers(s[1..])
  }

  /** The scan matches at the start of `s`: `[`, the `j` digits found after it, `]`. */
  predicate Opens(s: string, j: nat) {
    0 < |s| && s[0] == '[' && 0 < j && j + 1 < |s| && s[j + 1] == ']'
  }

  function ExtractEnumsTag(v: Value): seq<nat> {
    FindBracketedNumbers(v.typeName)
  }

  /** `s` has a substring `[d...d]` with at least one ASCII digit. */
  ghost predicate HasBracketedNumber(s: string) {
    exists i, j :: 0 <= i && i + 1 < j < |s| && s[i] == '[' && s[j] == ']' && AllDigits(s[i + 1..j])
  }

  lemma {:induction false} FoundIsBracketed(s: string)
    requires FindBracketedNumbers(s) != []
    ensures HasBracketedNumber(s)
    decreases |s|
  {
    var j := DigitRun(s[1..]);
    if Opens(s, j) {
      assert s[1..][..j] == s[0 + 1..j + 1];
      assert s[0] == '[' && s[j + 1] == ']' && AllDigits(s[0 + 1..j + 1]);
    } else {
      FoundIsBracketed(s[1..]);
      var i, j' :| 0 <= i && i + 1 < j' < |s[1..]| && s[1..][i] == '[' && s[1..][j'] == ']'
                   && AllDigits(s[1..][i + 1..j']);
      assert s[1..][i + 1..j'] == s[(i + 1) + 1..j' + 1];
      assert s[i + 1] == '[' && s[j' + 1] == ']' && AllDigits(s[(i + 1) + 1..j' + 1]);
    }
  }

  lemma NoBracketedNumberFindsNothing(s: string)
    requires !HasBracketedNumber(s)
    ensures FindBracketedNumbers(s) == []
  {
    if FindBracketedNumbers(s) != [] {
      FoundIsBracketed(s);
    }
  }

  lemma {:induction false} DigitRunAppend(x: string, b: string)
    requires b != [] && !IsDigit(b[0])
    ensures DigitRun(x + b) == DigitRun(x)
    decreases |x|
  {
    if x != [] && IsDigit(x[0]) {
      assert (x + b)[1..] == x[1..] + b;
      DigitRunAppend(x[1..], b);
    }
  }

  /** No match can straddle the end of `a` when `b` starts with neither a digit nor
      a closing bracket. */
  lemma {:induction false} FindAppend(a: string, b: string)
    requires b != [] && !IsDigit(b[0]) && b[0] != ']'
    ensures FindBracketedNumbers(a + b) == FindBracketedNumbers(a) + FindBracketedNumbers(b)
    decreases |a|
  {
    if a == [] {
      assert a + b == b;
    } else {
      var s := a + b;
      assert s[1..] == a[1..] + b;
      DigitRunAppend(a[1..], b);
      var j := DigitRun(a[1..]);
      assert DigitRun(s[1..]) == j;
      assert Opens(s, j) <==> Opens(a, j) by {
        if j + 1 == |a| {
          assert s[j + 1] == b[0];
        }
      }
      if Opens(a, j) {
        assert s[1..][..j] == a[1..][..j];
        assert s[j + 2..] == a[j + 2..] + b;
        FindAppend(a[j + 2..], b);
        assert FindBracketedNumbers(s) == [Parse(a[1..][..j])] + FindBracketedNumbers(a[j + 2..] + b);
      } else {
        FindAppend(a[1..], b);
        assert FindBracketedNumbers(s) == FindBracketedNumbers(a[1..] + b);
      }
    }
  }

  lemma {:induction false} FindDims(t: seq<nat>)
    ensures FindBracketedNumbers(Dims(t)) == t
    decreases |t|
  {
    if t != [] {
      var s := Dims(t);
      var d := Show(t[0]);
      assert s == "[" + d + "]" + Dims(t[1..]);
      assert s[1..] == d + ("]" + Dims(t[1..]));
      DigitRunOfDigits(d, "]" + Dims(t[1..]));
      assert s[1..][..|d|] == d;
      ParseShow(t[0]);
      assert Opens(s, |d|);
      assert s[|d| + 2..] == Dims(t[1..]);
      FindDims(t[1..]);
    }
  }

  lemma NoBracketNoMatch(s: string)
    requires forall k :: 0 <= k < |s| ==> s[k] != '['
    ensures FindBracketedNumbers(s) == []
  {
    if s != [] {
      NoBracketNoMatch(s[1..]);
    }
  }

  /** extract_enums_tag inverts make_enums_tag for every tuple, when the base type
      name holds no bracketed number of its own. */
  lemma {:induction false} ExtractMakeEnumsTag(v: Value, t: seq<nat>)
    requires !HasBracketedNumber(v.typeName)
    ensures ExtractEnumsTag(Tag(v, t)) == t
  {
    NoBracketedNumberFindsNothing(v.typeName);
    if t == [] {
      FindInPlainTag(v.typeName);
    } else {
      FindInTag(v.typeName, t);
    }
  }

  lemma FindInPlainTag(base: string)
    requires FindBracketedNumbers(base) == []
    ensures FindBracketedNumbers(TagTypeName(base, [])) == []
  {
    var rest := if EndsInStar(base) then "*****" else " *****";
    assert TagTypeName(base, []) == base + rest;
    NoBracketNoMatch(rest);
    FindAppend(base, rest);
  }

  lemma FindInTag(base: string, t: seq<nat>)
    requires t != [] && FindBracketedNumbers(base) == []
    ensures FindBracketedNumbers(TagTypeName(base, t)) == t
  {
    var decl := if EndsInStar(base) then StarQuadPointer else QuadPointer;
    FindDims(t);
    NoBracketNoMatch(decl);
    FindAppend(decl, Dims(t));
    TagTypeNameSplit(base, t);
    FindAppend(base, decl + Dims(t));
  }

  // ---------------------------------------------------------------------------
  // recover_value: the prefix before the first " *(****)["

  ghost predicate OccursAt(s: string, p: string, k: int) {
    0 <= k && k + |p| <= |s| && s[k..k + |p|] == p
  }

  ghost predicate Occurs(s: string, p: string) {
    exists k :: OccursAt(s, p, k)
  }

  /** `s.index(p, from)` as an option: the first place at or after `from` where `p` occurs. */
  function IndexFrom(s: string, p: string, from: nat): (r: Option<nat>)
    ensures r.Some? ==> from <= r.value && OccursAt(s, p, r.value)
    ensures forall k :: from <= k && (r.None? || k < r.value) ==> !OccursAt(s, p, k)
    decreases |s| - from
  {
    if from + |p| > |s| then None
    else if s[from..from + |p|] == p then Some(from)
    else IndexFrom(s, p, from + 1)
  }

  datatype RecoverError = MarkerNotFound   // `str.index` raises ValueError

  /** `recover_value(val)` on the type text: the value at the tag's address, typed by
      the prefix of the tag's type text before the first marker. Whether
      `gdb.lookup_type` resolves that prefix is the debugger's, asked in
      `Dispatch.Lookup`. */
  function RecoverValue(v: Value): Result<Value, RecoverError> {
    match IndexFrom(v.typeName, Marker, 0)
    case None => Failure(MarkerNotFound)
    case Some(i) => Success(Value(v.addr, v.typeName[..i]))
  }

  /** recover_value inverts make_enums_tag for a non-empty tuple when the base type
      name does not contain the marker. No occurrence can start inside the base
      name and run into the declarator, since the marker's only `[` is its last
      character and the declarator has none. */
  lemma RecoverMakeEnumsTag(v: Value, t: seq<nat>)
    requires t != [] && !Occurs(v.typeName, Marker) && !EndsInStar(v.typeName)
    ensures RecoverValue(Tag(v, t)) == Success(v)
  {
    var base := v.typeName;
    var s := TagTypeName(base, t);
    MarkerAfterBase(base, t);
    forall k | 0 <= k < |base| ensures !OccursAt(s, Marker, k) {
      TagTypeNameOfTuple(base, t);
      NoEarlyMarker(base, t, k);
    }
    var r := IndexFrom(s, Marker, 0);
    assert r == Some(|base|);
    TagTypeNameOfTuple(base, t);
    SliceBefore(base, QuadPointer + Dims(t), 0, |base|);
  }

  /** The marker starts right after the base name: the declarator, then the `[`
      that opens the first dimension. */
  lemma MarkerAfterBase(base: string, t: seq<nat>)
    requires t != [] && !EndsInStar(base)
    ensures OccursAt(TagTypeName(base, t), Marker, |base|)
  {
    TagTypeNameOfTuple(base, t);
    var d := Dims(t);
    assert d == "[" + Show(t[0]) + "]" + Dims(t[1..]);
    SliceAfter(base, QuadPointer + d, 0, |Marker|);
    assert (QuadPointer + d)[0..|Marker|] == Marker;
  }

  lemma NoEarlyMarker(base: string, t: seq<nat>, k: nat)
    requires t != [] && !Occurs(base, Marker) && k < |base|
    ensures !OccursAt(base + (QuadPointer + Dims(t)), Marker, k)
  {
    var s := base + (QuadPointer + Dims(t));
    if k + |Marker| <= |base| {
      assert !OccursAt(base, Marker, k);
      SliceBefore(base, QuadPointer + Dims(t), k, k + |Marker|);
    } else if k + |Marker| <= |s| {
      assert s[k + 8] == QuadPointer[k + 8 - |base|];
      assert s[k..k + |Marker|][8] != Marker[8];
    }
  }

  /** recover_value fails on the tag of a pointer: gdb writes its type as
      `int **(****)[...]`, which holds no ` *(****)[`, so `str.index` raises. */
  lemma PointerBaseNotRecovered(v: Value, t: seq<nat>)
    requires t != [] && !Occurs(v.typeName, Marker) && EndsInStar(v.typeName)
    ensures RecoverValue(Tag(v, t)) == Failure(MarkerNotFound)
  {
    var base := v.typeName;
    TagTypeNameSplit(base, t);
    forall k | 0 <= k ensures !OccursAt(TagTypeName(base, t), Marker, k) {
      NoMarkerAfterStar(base, t, k);
    }
  }

  lemma NoMarkerAfterStar(base: string, t: seq<nat>, k: nat)
    requires t != [] && !Occurs(base, Marker) && EndsInStar(base)
    ensures !OccursAt(base + (StarQuadPointer + Dims(t)), Marker, k)
  {
    var rest := StarQuadPointer + Dims(t);
    var s := base + rest;
    if k + |Marker| > |s| {
    } else if k + |Marker| <= |base| {
      assert !OccursAt(base, Marker, k);
      SliceBefore(base, rest, k, k + |Marker|);
    } else if k + 1 == |base| {
      assert s[k] == '*';
      assert s[k..k + |Marker|][0] != Marker[0];
    } else if k < |base| {
      assert s[k + 8] == rest[k + 8 - |base|] == StarQuadPointer[k + 8 - |base|];
      assert s[k..k + |Marker|][8] != Marker[8];
    } else {
      DimsHaveNoSpace(t);
      assert s[k] == rest[k - |base|];
      assert s[k..k + |Marker|][0] != Marker[0];
    }
  }

  /** The dimensions text holds brackets and digits only, no space. */
  lemma {:induction false} DimsHaveNoSpace(t: seq<nat>)
    ensures forall k :: 0 <= k < |Dims(t)| ==> Dims(t)[k] != ' '
    decreases |t|
  {
    if t != [] {
      DimsHaveNoSpace(t[1..]);
      var n := Show(t[0]);
      assert forall k :: 0 <= k < |n| ==> IsDigit(n[k]);
      assert Dims(t) == "[" + n + "]" + Dims(t[1..]);
    }
  }

  /** `_lookup_type` recognises a tag by `(****)` in its type text; every tag built
      from a non-empty tuple carries it, right after the pointer to the base type. */
  lemma TagCarriesQuadPointer(v: Value, t: seq<nat>)
    requires t != []
    ensures OccursAt(TagTypeName(v.typeName, t), "(****)", |PointerTo(v.typeName)|)
  {
    var p := PointerTo(v.typeName);
    SliceBefore(p + "(****)", Dims(t), |p|, |p| + 6);
    SliceAfter(p, "(****)", 0, 6);
  }

  lemma TagTypeNameOfTuple(base: string, t: seq<nat>)
    requires t != [] && !EndsInStar(base)
    ensures TagTypeName(base, t) == base + (QuadPointer + Dims(t))
  {
    TagTypeNameSplit(base, t);
  }

  /** The tag type of a non-empty tuple: the base type, its declarator, the dimensions. */
  lemma TagTypeNameSplit(base: string, t: seq<nat>)
    requires t != []
    ensures TagTypeName(base, t) == base + ((if EndsInStar(base) then StarQuadPointer else QuadPointer) + Dims(t))
  {
    var p := if EndsInStar(base) then "*" else " *";
    var decl := if EndsInStar(base) then StarQuadPointer else QuadPointer;
    assert PointerTo(base) == base + p;
    assert decl == p + "(****)";
    Regroup(base, p, "(****)", Dims(t));
  }

  lemma Regroup(a: string, b: string, c: string, d: string)
    ensures (a + b) + c + d == a + ((b + c) + d)
  {
  }

  lemma SliceAfter(a: string, b: string, i: nat, j: nat)
    requires i <= j <= |b|
    ensures (a + b)[|a| + i..|a| + j] == b[i..j]
  {
    assert forall k :: 0 <= k < j - i ==> (a + b)[|a| + i..|a| + j][k] == b[i..j][k];
  }

  lemma SliceBefore(a: string, b: string, i: nat, j: nat)
    requires i <= j <= |a|
    ensures (a + b)[i..j] == a[i..j]
  {
    assert forall k :: 0 <= k < j - i ==> (a + b)[i..j][k] == a[i..j][k];
  }
}
