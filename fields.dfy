/** The fields of a composite value as the printers show them (gdb_printers.py,
    `summary`, `emit_raw_children`, `emit_static_children`, `has_static`).

    A type's fields are a sequence of `Field` records in declaration order. Reading
    a member and turning it into text is the host's business: `text(name)` is the
    string `val_to_str(val[name])` produces, with the choice of showing characters
    as integers already made. */
module Fields {
  import opened Wrappers
  import opened Host

  // ---------------------------------------------------------------------------
  // emit_raw_children, emit_static_children, has_static

  /** A field with storage in the object: a non-static member or a base class. */
  predicate IsRaw(f: Field) {
    f.isBaseClass || f.bitpos.Some?
  }

  /** A static member: it has no bit position. */
  predicate IsStatic(f: Field) {
    f.bitpos.None?
  }

  /** The child a raw field is shown as: a base class cast to itself and labelled
      `"<name> (base)"`, a member read by name. */
  function RawChild(f: Field): Child {
    if f.isBaseClass then Child(f.name + " (base)", BaseValue(f.name))
    else Child(f.name, FieldValue(f.name))
  }

  /** `emit_raw_children`: the raw fields in declaration order. */
  function RawChildren(fs: seq<Field>): seq<Child> {
    if fs == [] then []
    else (if IsRaw(fs[0]) then [RawChild(fs[0])] else []) + RawChildren(fs[1..])
  }

  /** `emit_static_children` (up to its early `return`): the static members in
      declaration order, each read by name. */
  function StaticChildren(fs: seq<Field>): seq<Child> {
    if fs == [] then []
    else (if IsStatic(fs[0]) then [Child(fs[0].name, FieldValue(fs[0].name))] else []) + StaticChildren(fs[1..])
  }

  /** `has_static` (up to its early `return`): some field has no bit position. */
  predicate HasStatic(fs: seq<Field>) {
    exists k :: 0 <= k < |fs| && IsStatic(fs[k])
  }

  /** Each raw field contributes exactly its own child: the raw children of a
      concatenation are those of each part in turn, so declaration order is kept. */
  lemma {:induction false} RawChildrenAppend(a: seq<Field>, b: seq<Field>)
    ensures RawChildren(a + b) == RawChildren(a) + RawChildren(b)
    decreases |a|
  {
    if a == [] {
      assert a + b == b;
    } else {
      var h := if IsRaw(a[0]) then [RawChild(a[0])] else [];
      assert (a + b)[0] == a[0];
      assert (a + b)[1..] == a[1..] + b;
      assert RawChildren(a + b) == h + RawChildren(a[1..] + b);
      RawChildrenAppend(a[1..], b);
      assert RawChildren(a) == h + RawChildren(a[1..]);
    }
  }

  /** A child is raw exactly when it is the child of a raw field. */
  lemma {:induction false} RawChildrenMembers(fs: seq<Field>, c: Child)
    ensures c in RawChildren(fs) <==> exists k :: 0 <= k < |fs| && IsRaw(fs[k]) && c == RawChild(fs[k])
    decreases |fs|
  {
    if fs != [] {
      RawChildrenMembers(fs[1..], c);
      if c in RawChildren(fs[1..]) {
        var k :| 0 <= k < |fs[1..]| && IsRaw(fs[1..][k]) && c == RawChild(fs[1..][k]);
        assert fs[k + 1] == fs[1..][k];
      }
      if exists k :: 0 <= k < |fs| && IsRaw(fs[k]) && c == RawChild(fs[k]) {
        var k :| 0 <= k < |fs| && IsRaw(fs[k]) && c == RawChild(fs[k]);
        if k > 0 {
          assert fs[1..][k - 1] == fs[k];
        }
      }
    }
  }

  /** A child is static exactly when it shows a static member. */
  lemma {:induction false} StaticChildrenMembers(fs: seq<Field>, c: Child)
    ensures c in StaticChildren(fs) <==>
            exists k :: 0 <= k < |fs| && IsStatic(fs[k]) && c == Child(fs[k].name, FieldValue(fs[k].name))
    decreases |fs|
  {
    if fs != [] {
      StaticChildrenMembers(fs[1..], c);
      if c in StaticChildren(fs[1..]) {
        var k :| 0 <= k < |fs[1..]| && IsStatic(fs[1..][k]) && c == Child(fs[1..][k].name, FieldValue(fs[1..][k].name));
        assert fs[k + 1] == fs[1..][k];
      }
      if exists k :: 0 <= k < |fs| && IsStatic(fs[k]) && c == Child(fs[k].name, FieldValue(fs[k].name)) {
        var k :| 0 <= k < |fs| && IsStatic(fs[k]) && c == Child(fs[k].name, FieldValue(fs[k].name));
        if k > 0 {
          assert fs[1..][k - 1] == fs[k];
        }
      }
    }
  }

  /** `has_static` holds exactly when the static view has something to show. */
  lemma {:induction false} HasStaticIffStaticChildren(fs: seq<Field>)
    ensures HasStatic(fs) <==> StaticChildren(fs) != []
    decreases |fs|
  {
    if fs != [] {
      HasStaticIffStaticChildren(fs[1..]);
      if HasStatic(fs[1..]) {
        var k :| 0 <= k < |fs[1..]| && IsStatic(fs[1..][k]);
        assert IsStatic(fs[k + 1]);
      }
      if HasStatic(fs) && !IsStatic(fs[0]) {
        var k :| 0 <= k < |fs| && IsStatic(fs[k]);
        assert IsStatic(fs[1..][k - 1]);
      }
    }
  }

  /** No field is lost: every field is shown by the raw view or by the static one. */
  lemma EveryFieldShown(fs: seq<Field>, k: nat)
    requires k < |fs|
    ensures RawChild(fs[k]) in RawChildren(fs)
            || Child(fs[k].name, FieldValue(fs[k].name)) in StaticChildren(fs)
  {
    if IsRaw(fs[k]) {
      RawChildrenMembers(fs, RawChild(fs[k]));
    } else {
      StaticChildrenMembers(fs, Child(fs[k].name, FieldValue(fs[k].name)));
    }
  }

  // ---------------------------------------------------------------------------
  // summary

  /** The fields after the first one that `summary` shows: non-base fields with a
      bit position (lines 458-462). */
  predicate IsInstance(f: Field) {
    !f.isBaseClass && f.bitpos.Some?
  }

  /** The test the first loop applies (line 453): a non-base field whose bit position
      is present and not 0. A missing position reads as 0 there. */
  predicate AsWrittenLead(f: Field) {
    !f.isBaseClass && f.bitpos.Some? && f.bitpos.value != 0
  }

  /** The index of the first field satisfying `lead`. */
  function FirstWhere(fs: seq<Field>, lead: Field -> bool): (r: Option<nat>)
    ensures r.Some? ==> r.value < |fs| && lead(fs[r.value])
    ensures r.Some? ==> forall j :: 0 <= j < r.value ==> !lead(fs[j])
    ensures r.None? ==> forall j :: 0 <= j < |fs| ==> !lead(fs[j])
  {
    if fs == [] then None
    else if lead(fs[0]) then Some(0)
    else match FirstWhere(fs[1..], lead)
      case None => None
      case Some(j) => Some(j + 1)
  }

  /** The instance fields, in declaration order. */
  function Instances(fs: seq<Field>): seq<Field> {
    if fs == [] then []
    else Instances(fs[..|fs| - 1]) + (if IsInstance(fs[|fs| - 1]) then [fs[|fs| - 1]] else [])
  }

  /** The fields `summary` shows when the first one must satisfy `lead`: that first
      field, then every instance field after it. */
  function Shown(fs: seq<Field>, lead: Field -> bool): seq<Field> {
    match FirstWhere(fs, lead)
    case None => []
    case Some(i) => [fs[i]] + Instances(fs[i + 1..])
  }

  /** One entry: the member's text, after `name=` when `named`. */
  function Entry(f: Field, text: string -> string, named: bool): string {
    if named then f.name + "=" + text(f.name) else text(f.name)
  }

  function Entries(fs: seq<Field>, text: string -> string, named: bool): (es: seq<string>)
    ensures |es| == |fs|
  {
    if fs == [] then [] else Entries(fs[..|fs| - 1], text, named) + [Entry(fs[|fs| - 1], text, named)]
  }

  /** `"{ e1, e2, ..."`: the opening brace and the entries separated by `", "`. */
  function Opened(es: seq<string>): string
    requires es != []
  {
    if |es| == 1 then "{ " + es[0]
    else Opened(es[..|es| - 1]) + ", " + es[|es| - 1]
  }

  /** `"{ e1, e2, ... }"`, or `"{}"` when there is no entry. */
  function Braced(es: seq<string>): string {
    if es == [] then "{}" else Opened(es) + " }"
  }

  /** What `summary(named, show_type)(val)` returns for a value of type `typeName`
      whose fields are `fs`, the first shown field being chosen by `lead`. */
  function SummaryText(typeName: string, fs: seq<Field>, text: string -> string, named: bool, showType: bool,
                       lead: Field -> bool): string
  {
    var body := Braced(Entries(Shown(fs, lead), text, named));
    if showType then typeName + " " + body else body
  }

  /** The summary as the code computes it: a first loop that stops at the first
      field passing line 453's test, then a second loop over the later fields. */
  method Summary(typeName: string, fs: seq<Field>, text: string -> string, named: bool, showType: bool)
    returns (s: string)
    ensures s == SummaryText(typeName, fs, text, named, showType, AsWrittenLead)
  {
    if |fs| > 0 {
      s := "{ ";
      var fieldCount := 0;
      var i := 0;
      while i < |fs| && !AsWrittenLead(fs[i])
        invariant 0 <= i <= |fs|
        invariant forall j :: 0 <= j < i ==> !AsWrittenLead(fs[j])
      {
        i := i + 1;
      }
      FirstWhereUnique(fs, AsWrittenLead, i);
      // Without a `break`, Python leaves `i` at the last index, so the second loop
      // is empty and nothing was counted.
      if i < |fs| {
        s := s + Entry(fs[i], text, named);
        fieldCount := 1;
        var later;
        s, later := AppendLater(s, [fs[i]], fs, i + 1, text, named);
        fieldCount := fieldCount + later;
      }
      if fieldCount != 0 {
        s := s + " }";
      } else {
        s := "{}";
      }
    } else {
      s := "{}";
    }
    if showType {
      s := typeName + " " + s;
    }
  }

  /** The second loop of `summary`: append `", " + entry` for every instance field
      from index `from` on, counting them. */
  method AppendLater(s0: string, ghost shown0: seq<Field>, fs: seq<Field>, from: nat,
                     text: string -> string, named: bool)
    returns (s: string, count: nat)
    requires from <= |fs| && shown0 != []
    requires s0 == Opened(Entries(shown0, text, named))
    ensures s == Opened(Entries(shown0 + Instances(fs[from..]), text, named))
    ensures count == |Instances(fs[from..])|
  {
    s, count := s0, 0;
    ghost var shown := shown0;
    var j := from;
    assert fs[from..j] == [] && shown0 + [] == shown0;
    while j < |fs|
      invariant from <= j <= |fs|
      invariant shown == shown0 + Instances(fs[from..j])
      invariant s == Opened(Entries(shown, text, named))
      invariant count + |shown0| == |shown|
    {
      AppendStep(s, shown0, shown, fs, from, j, text, named);
      if IsInstance(fs[j]) {
        s := s + ", " + Entry(fs[j], text, named);
        count := count + 1;
        shown := shown + [fs[j]];
      }
      j := j + 1;
    }
    assert fs[from..j] == fs[from..];
  }

  /** One turn of the second loop: the text and the fields shown so far grow by the
      field at `j` exactly when it is an instance field. */
  lemma AppendStep(s: string, shown0: seq<Field>, shown: seq<Field>, fs: seq<Field>, from: nat, j: nat,
                   text: string -> string, named: bool)
    requires from <= j < |fs| && shown0 != []
    requires shown == shown0 + Instances(fs[from..j])
    requires s == Opened(Entries(shown, text, named))
    ensures IsInstance(fs[j]) ==> shown + [fs[j]] == shown0 + Instances(fs[from..j + 1])
    ensures IsInstance(fs[j]) ==>
              s + ", " + Entry(fs[j], text, named) == Opened(Entries(shown + [fs[j]], text, named))
    ensures !IsInstance(fs[j]) ==> shown == shown0 + Instances(fs[from..j + 1])
  {
    ShownStep(shown0, fs, from, j);
    EntriesSnoc(shown, fs[j], text, named);
  }

  lemma ShownStep(shown0: seq<Field>, fs: seq<Field>, from: nat, j: nat)
    requires from <= j < |fs|
    ensures shown0 + Instances(fs[from..j + 1])
            == (shown0 + Instances(fs[from..j])) + (if IsInstance(fs[j]) then [fs[j]] else [])
  {
    InstancesStep(fs, from, j);
  }

  lemma InstancesStep(fs: seq<Field>, from: nat, j: nat)
    requires from <= j < |fs|
    ensures Instances(fs[from..j + 1]) == Instances(fs[from..j]) + (if IsInstance(fs[j]) then [fs[j]] else [])
  {
    assert fs[from..j + 1][..j - from] == fs[from..j];
  }

  /** The first-match characterisation determines `FirstWhere`. */
  lemma FirstWhereUnique(fs: seq<Field>, lead: Field -> bool, i: nat)
    requires i <= |fs| && forall j :: 0 <= j < i ==> !lead(fs[j])
    requires i < |fs| ==> lead(fs[i])
    ensures FirstWhere(fs, lead) == if i < |fs| then Some(i) else None
  {
  }

  lemma EntriesSnoc(shown: seq<Field>, f: Field, text: string -> string, named: bool)
    requires shown != []
    ensures Opened(Entries(shown + [f], text, named)) == Opened(Entries(shown, text, named)) + ", " + Entry(f, text, named)
  {
    assert (shown + [f])[..|shown|] == shown;
  }

  // ---------------------------------------------------------------------------
  // What the summary shows

  /** Base classes are never shown, and every shown field has a bit position. */
  lemma ShownAreInstances(fs: seq<Field>, lead: Field -> bool, f: Field)
    requires forall g :: lead(g) ==> IsInstance(g)
    requires f in Shown(fs, lead)
    ensures f in fs && !f.isBaseClass && f.bitpos.Some?
  {
    var i := FirstWhere(fs, lead).value;
    if f != fs[i] {
      InstancesMembers(fs[i + 1..], f);
    }
  }

  lemma {:induction false} InstancesMembers(fs: seq<Field>, f: Field)
    ensures f in Instances(fs) <==> f in fs && IsInstance(f)
    decreases |fs|
  {
    if fs != [] {
      var init := fs[..|fs| - 1];
      InstancesMembers(init, f);
      assert fs == init + [fs[|fs| - 1]];
    }
  }

  lemma {:induction false} InstancesAppend(a: seq<Field>, b: seq<Field>)
    ensures Instances(a + b) == Instances(a) + Instances(b)
    decreases |b|
  {
    if b == [] {
      assert a + b == a;
    } else {
      var init := b[..|b| - 1];
      assert (a + b)[..|a + b| - 1] == a + init;
      assert (a + b)[|a + b| - 1] == b[|b| - 1];
      InstancesAppend(a, init);
    }
  }

  /** Fields that are not instance fields contribute nothing. */
  lemma {:induction false} InstancesOfNone(fs: seq<Field>)
    requires forall j :: 0 <= j < |fs| ==> !IsInstance(fs[j])
    ensures Instances(fs) == []
    decreases |fs|
  {
    if fs != [] {
      InstancesOfNone(fs[..|fs| - 1]);
    }
  }

  /** With line 453's test replaced by the later fields' one, the summary shows every
      instance field, in declaration order. */
  lemma ShownAllInstances(fs: seq<Field>)
    ensures Shown(fs, IsInstance) == Instances(fs)
  {
    match FirstWhere(fs, IsInstance)
    case None =>
      InstancesOfNone(fs);
    case Some(i) =>
      assert fs == fs[..i] + [fs[i]] + fs[i + 1..];
      InstancesOfNone(fs[..i]);
      InstancesAppend(fs[..i] + [fs[i]], fs[i + 1..]);
      InstancesAppend(fs[..i], [fs[i]]);
      assert Instances([fs[i]]) == [fs[i]] by {
        assert [fs[i]][..0] == [];
      }
  }

  /** The summary with the first field chosen by the same test as the later ones. */
  function CorrectedSummary(typeName: string, fs: seq<Field>, text: string -> string, named: bool, showType: bool)
    : string
  {
    SummaryText(typeName, fs, text, named, showType, IsInstance)
  }

  /** The corrected summary lists exactly the instance fields: one entry for each,
      in declaration order, and `"{}"` when there is none. */
  lemma CorrectedSummaryShowsInstances(typeName: string, fs: seq<Field>, text: string -> string, named: bool)
    ensures CorrectedSummary(typeName, fs, text, named, false) == Braced(Entries(Instances(fs), text, named))
  {
    ShownAllInstances(fs);
  }

  /** The code as written agrees with the corrected summary when the first instance
      field does not sit at bit position 0. */
  lemma AsWrittenAgreesUnlessFirstAtZero(fs: seq<Field>)
    requires FirstWhere(fs, IsInstance).Some? ==> fs[FirstWhere(fs, IsInstance).value].bitpos != Some(0)
    ensures Shown(fs, AsWrittenLead) == Shown(fs, IsInstance)
  {
    var c := FirstWhere(fs, IsInstance);
    var i := if c.Some? then c.value else |fs|;
    assert forall j :: 0 <= j < i ==> !IsInstance(fs[j]);
    assert forall j :: 0 <= j < i ==> !AsWrittenLead(fs[j]);
    FirstWhereUnique(fs, AsWrittenLead, i);
    assert FirstWhere(fs, AsWrittenLead) == c;
  }

  lemma InstancesSingle(f: Field)
    ensures Instances([f]) == if IsInstance(f) then [f] else []
  {
    assert [f][..0] == [];
  }

  /** What the code as written loses: every instance field before the first one at a
      non-zero bit position, all of which sit at bit position 0. */
  lemma AsWrittenDropsLeadingZeroFields(fs: seq<Field>)
    ensures var a := FirstWhere(fs, AsWrittenLead);
            a.Some? ==> Instances(fs) == Instances(fs[..a.value]) + Shown(fs, AsWrittenLead)
    ensures var a := FirstWhere(fs, AsWrittenLead);
            forall f :: f in Instances(if a.Some? then fs[..a.value] else fs) ==> f.bitpos == Some(0)
    ensures FirstWhere(fs, AsWrittenLead).None? ==> Shown(fs, AsWrittenLead) == []
  {
    var a := FirstWhere(fs, AsWrittenLead);
    var pre := if a.Some? then fs[..a.value] else fs;
    forall f | f in Instances(pre) ensures f.bitpos == Some(0) {
      InstancesMembers(pre, f);
    }
    if a.Some? {
      var j := a.value;
      assert fs == fs[..j] + ([fs[j]] + fs[j + 1..]);
      InstancesAppend(fs[..j], [fs[j]] + fs[j + 1..]);
      InstancesAppend([fs[j]], fs[j + 1..]);
      InstancesSingle(fs[j]);
    }
  }

  /** A member shown as its own name. */
  function Verbatim(name: string): string {
    name
  }

  /** The fields of `ColorRGBA { r; g; b; a; }`, four bytes. */
  function ColorFields(): seq<Field> {
    [Field("r", false, Some(0)), Field("g", false, Some(8)), Field("b", false, Some(16)), Field("a", false, Some(24))]
  }

  lemma ColorShown()
    ensures Shown(ColorFields(), AsWrittenLead) == ColorFields()[1..]
    ensures Shown(ColorFields(), IsInstance) == ColorFields()
  {
    var fs := ColorFields();
    var r, g, b, a := fs[0], fs[1], fs[2], fs[3];
    FirstWhereUnique(fs, AsWrittenLead, 1);
    FirstWhereUnique(fs, IsInstance, 0);
    assert fs[2..] == [b, a] && fs[1..] == [g, b, a];
    assert [g, b, a][..2] == [g, b] && [g, b][..1] == [g] && [b, a][..1] == [b];
    InstancesSingle(g);
    InstancesSingle(b);
    assert Instances([b, a]) == [b, a];
    assert Instances([g, b]) == [g, b];
    assert Instances([g, b, a]) == [g, b, a];
    assert [r] + [g, b, a] == fs;
  }

  lemma ColorEntries()
    ensures Entries(ColorFields()[1..], Verbatim, false) == ["g", "b", "a"]
    ensures Entries(ColorFields(), Verbatim, false) == ["r", "g", "b", "a"]
  {
    var fs := ColorFields();
    var r, g, b, a := fs[0], fs[1], fs[2], fs[3];
    assert fs[1..] == [g, b, a];
    assert [g, b, a][..2] == [g, b] && [g, b][..1] == [g] && [g][..0] == [];
    assert fs[..3] == [r, g, b] && [r, g, b][..2] == [r, g] && [r, g][..1] == [r] && [r][..0] == [];
    assert Entries([r, g], Verbatim, false) == ["r", "g"];
    assert Entries([r, g, b], Verbatim, false) == ["r", "g", "b"];
  }

  lemma OpenedThree()
    ensures Opened(["g", "b", "a"]) == "{ g, b, a"
  {
    assert ["g", "b", "a"][..2] == ["g", "b"] && ["g", "b"][..1] == ["g"];
    assert Opened(["g"]) == "{ g";
    assert Opened(["g", "b"]) == "{ g, b";
  }

  lemma OpenedFour()
    ensures Opened(["r", "g", "b", "a"]) == "{ r, g, b, a"
  {
    assert ["r", "g", "b", "a"][..3] == ["r", "g", "b"] && ["r", "g", "b"][..2] == ["r", "g"] && ["r", "g"][..1] == ["r"];
    assert Opened(["r"]) == "{ r";
    assert Opened(["r", "g"]) == "{ r, g";
    assert Opened(["r", "g", "b"]) == "{ r, g, b";
  }

  /** `ColorRGBA`: the code as written leaves out `r`, the member at bit position 0;
      the corrected summary shows all four. */
  lemma SummaryDropsFieldAtOffsetZero()
    ensures SummaryText("ColorRGBA", ColorFields(), Verbatim, false, false, AsWrittenLead) == "{ g, b, a }"
    ensures CorrectedSummary("ColorRGBA", ColorFields(), Verbatim, false, false) == "{ r, g, b, a }"
  {
    ColorShown();
    ColorEntries();
    OpenedThree();
    OpenedFour();
  }
}
