/** Scoped convenience variables (gdb_printers.py, `GdbConvenienceVars`): set on
    construction, written back on exit. */
module ConvenienceVars {
  import opened Wrappers

  /** `gdb.set_convenience_variable(name, value)`: `None` removes the variable. */
  function Assign<V>(m: map<string, V>, name: string, value: Option<V>): (r: map<string, V>)
    ensures value.Some? ==> r == m[name := value.value]
    ensures value.None? ==> name !in r && forall k :: k != name ==> (k in r <==> k in m)
    ensures forall k :: k != name && k in m ==> k in r && r[k] == m[k]
  {
    match value
    case Some(v) => m[name := v]
    case None => m - {name}
  }

  /** `gdb.convenience_variable(name)`: `None` when the variable is not set. */
  function Lookup<V>(m: map<string, V>, name: string): Option<V> {
    if name in m then Some(m[name]) else None
  }

  function Names<V>(pairs: seq<(string, Option<V>)>): seq<string>
    ensures |Names(pairs)| == |pairs|
    ensures forall k :: 0 <= k < |pairs| ==> Names(pairs)[k] == pairs[k].0
  {
    if pairs == [] then [] else [pairs[0].0] + Names(pairs[1..])
  }

  ghost predicate Distinct(names: seq<string>) {
    forall i, j :: 0 <= i < j < |names| ==> names[i] != names[j]
  }

  /** The variables after setting every pair in order. */
  function SetAll<V>(m: map<string, V>, pairs: seq<(string, Option<V>)>): map<string, V>
    decreases |pairs|
  {
    if pairs == [] then m else SetAll(Assign(m, pairs[0].0, pairs[0].1), pairs[1..])
  }

  /** What the constructor records: each name with the value it had just before
      its own pair was set (so after the earlier pairs). */
  function Saved<V>(m: map<string, V>, pairs: seq<(string, Option<V>)>): (s: seq<(string, Option<V>)>)
    ensures Names(s) == Names(pairs)
    decreases |pairs|
  {
    if pairs == [] then []
    else [(pairs[0].0, Lookup(m, pairs[0].0))] + Saved(Assign(m, pairs[0].0, pairs[0].1), pairs[1..])
  }

  /** What `__exit__` does: write the recorded values back in recording order. */
  function RestoreForward<V>(m: map<string, V>, saved: seq<(string, Option<V>)>): map<string, V>
    decreases |saved|
  {
    if saved == [] then m else RestoreForward(Assign(m, saved[0].0, saved[0].1), saved[1..])
  }

  /** Write the recorded values back last-recorded first, undoing the sets in the
      reverse of the order they were made. */
  function RestoreBackward<V>(m: map<string, V>, saved: seq<(string, Option<V>)>): map<string, V> {
    if saved == [] then m else Assign(RestoreBackward(m, saved[1..]), saved[0].0, saved[0].1)
  }

  lemma AssignBack<V>(m: map<string, V>, name: string, value: Option<V>)
    ensures Assign(Assign(m, name, value), name, Lookup(m, name)) == m
  {
  }

  /** Restoring in reverse undoes the constructor for any list of pairs. */
  lemma {:induction false} RestoreBackwardUndoesSetAll<V>(m: map<string, V>, pairs: seq<(string, Option<V>)>)
    ensures RestoreBackward(SetAll(m, pairs), Saved(m, pairs)) == m
    decreases |pairs|
  {
    if pairs != [] {
      var m1 := Assign(m, pairs[0].0, pairs[0].1);
      RestoreBackwardUndoesSetAll(m1, pairs[1..]);
      AssignBack(m, pairs[0].0, pairs[0].1);
    }
  }

  lemma AssignCommute<V>(m: map<string, V>, a: string, x: Option<V>, b: string, y: Option<V>)
    requires a != b
    ensures Assign(Assign(m, a, x), b, y) == Assign(Assign(m, b, y), a, x)
  {
  }

  lemma {:induction false} ForwardCommutes<V>(m: map<string, V>, s: (string, Option<V>), saved: seq<(string, Option<V>)>)
    requires forall k :: 0 <= k < |saved| ==> saved[k].0 != s.0
    ensures RestoreForward(Assign(m, s.0, s.1), saved) == Assign(RestoreForward(m, saved), s.0, s.1)
    decreases |saved|
  {
    if saved != [] {
      AssignCommute(m, s.0, s.1, saved[0].0, saved[0].1);
      ForwardCommutes(Assign(m, saved[0].0, saved[0].1), s, saved[1..]);
    }
  }

  /** With distinct names the order of restoring does not matter. */
  lemma {:induction false} ForwardIsBackwardWhenDistinct<V>(m: map<string, V>, saved: seq<(string, Option<V>)>)
    requires Distinct(Names(saved))
    ensures RestoreForward(m, saved) == RestoreBackward(m, saved)
    decreases |saved|
  {
    if saved != [] {
      assert forall k :: 0 <= k < |saved[1..]| ==> saved[1..][k].0 != saved[0].0 by {
        forall k | 0 <= k < |saved[1..]| ensures saved[1..][k].0 != saved[0].0 {
          assert Names(saved)[0] != Names(saved)[k + 1];
        }
      }
      assert Distinct(Names(saved[1..])) by {
        forall i, j | 0 <= i < j < |saved[1..]| ensures Names(saved[1..])[i] != Names(saved[1..])[j] {
          assert Names(saved)[i + 1] != Names(saved)[j + 1];
        }
      }
      ForwardCommutes(m, saved[0], saved[1..]);
      ForwardIsBackwardWhenDistinct(m, saved[1..]);
    }
  }

  /** With distinct names, leaving the scope gives back exactly the variables
      there were before entering it. */
  lemma ExitRestoresDistinct<V>(m: map<string, V>, pairs: seq<(string, Option<V>)>)
    requires Distinct(Names(pairs))
    ensures RestoreForward(SetAll(m, pairs), Saved(m, pairs)) == m
  {
    ForwardIsBackwardWhenDistinct(SetAll(m, pairs), Saved(m, pairs));
    RestoreBackwardUndoesSetAll(m, pairs);
  }

  lemma DistinctTail<V>(pairs: seq<(string, Option<V>)>)
    requires pairs != [] && Distinct(Names(pairs))
    ensures Distinct(Names(pairs[1..]))
    ensures forall k :: 0 <= k < |pairs[1..]| ==> pairs[1..][k].0 != pairs[0].0
  {
    forall i, j | 0 <= i < j < |pairs[1..]| ensures Names(pairs[1..])[i] != Names(pairs[1..])[j] {
      assert Names(pairs)[i + 1] != Names(pairs)[j + 1];
    }
    forall k | 0 <= k < |pairs[1..]| ensures pairs[1..][k].0 != pairs[0].0 {
      assert Names(pairs)[0] != Names(pairs)[k + 1];
    }
  }

  /** With distinct names, each name is recorded with the value it had on entry. */
  lemma {:induction false} SavedIsEntryValue<V>(m: map<string, V>, pairs: seq<(string, Option<V>)>, k: nat)
    requires Distinct(Names(pairs)) && k < |pairs|
    ensures Saved(m, pairs)[k] == (pairs[k].0, Lookup(m, pairs[k].0))
    decreases |pairs|
  {
    if k > 0 {
      DistinctTail(pairs);
      var m1 := Assign(m, pairs[0].0, pairs[0].1);
      SavedIsEntryValue(m1, pairs[1..], k - 1);
      assert pairs[1..][k - 1] == pairs[k];
    }
  }

  /** Writing records with distinct names back in order leaves each name at its
      recorded value, whatever the store held before. */
  lemma {:induction false} ForwardRestoresEach<V>(after: map<string, V>, saved: seq<(string, Option<V>)>, k: nat)
    requires Distinct(Names(saved)) && k < |saved|
    ensures Lookup(RestoreForward(after, saved), saved[k].0) == saved[k].1
    decreases |saved|
  {
    DistinctTail(saved);
    var a1 := Assign(after, saved[0].0, saved[0].1);
    if k == 0 {
      UnlistedUntouched(a1, saved[1..], saved[0].0);
    } else {
      ForwardRestoresEach(a1, saved[1..], k - 1);
      assert saved[1..][k - 1] == saved[k];
    }
  }

  /** Leaving the scope restores every listed variable to its value before the
      scope was entered, whatever the block did to it in between (`++$pp_it`), and
      leaves every other variable as the block left it. */
  lemma ExitRestoresAfterAnyBlock<V>(m: map<string, V>, after: map<string, V>, pairs: seq<(string, Option<V>)>, name: string)
    requires Distinct(Names(pairs))
    ensures name in Names(pairs) ==> Lookup(RestoreForward(after, Saved(m, pairs)), name) == Lookup(m, name)
    ensures name !in Names(pairs) ==> Lookup(RestoreForward(after, Saved(m, pairs)), name) == Lookup(after, name)
  {
    var saved := Saved(m, pairs);
    if name in Names(pairs) {
      var k :| 0 <= k < |pairs| && Names(pairs)[k] == name;
      SavedIsEntryValue(m, pairs, k);
      assert Names(saved) == Names(pairs);
      ForwardRestoresEach(after, saved, k);
    } else {
      assert forall k :: 0 <= k < |saved| ==> saved[k].0 != name by {
        forall k | 0 <= k < |saved| ensures saved[k].0 != name {
          assert Names(saved)[k] == Names(pairs)[k];
        }
      }
      UnlistedUntouched(after, saved, name);
    }
  }

  /** Restoring in reverse sets every listed variable back to its value before the
      scope was entered, repeated names included, whatever the block did to the
      store in between; every other variable stays as the block left it. */
  lemma {:induction false} BackwardRestoresAfterAnyBlock<V>(m: map<string, V>, after: map<string, V>,
                                                            pairs: seq<(string, Option<V>)>, name: string)
    ensures name in Names(pairs) ==> Lookup(RestoreBackward(after, Saved(m, pairs)), name) == Lookup(m, name)
    ensures name !in Names(pairs) ==> Lookup(RestoreBackward(after, Saved(m, pairs)), name) == Lookup(after, name)
    decreases |pairs|
  {
    if pairs != [] {
      var m1 := Assign(m, pairs[0].0, pairs[0].1);
      var rest := pairs[1..];
      assert Saved(m, pairs) == [(pairs[0].0, Lookup(m, pairs[0].0))] + Saved(m1, rest);
      assert Names(pairs) == [pairs[0].0] + Names(rest);
      if name != pairs[0].0 {
        BackwardRestoresAfterAnyBlock(m1, after, rest, name);
        assert Lookup(m1, name) == Lookup(m, name);
      }
    }
  }

  /** The same name listed twice: the second record holds the first pair's value,
      and writing the records back in order leaves that value behind. */
  lemma RepeatedNameNotRestored()
    ensures var pairs: seq<(string, Option<int>)> := [("pp_it", Some(1)), ("pp_it", Some(2))];
            RestoreForward(SetAll(map[], pairs), Saved(map[], pairs)) == map["pp_it" := 1]
  {
    var pairs: seq<(string, Option<int>)> := [("pp_it", Some(1)), ("pp_it", Some(2))];
    var m0: map<string, int> := map[];
    var m1 := Assign(m0, "pp_it", Some(1));
    var m2 := Assign(m1, "pp_it", Some(2));
    assert SetAll(m1, pairs[1..]) == m2 by {
      assert pairs[1..][1..] == [];
    }
    assert SetAll(m0, pairs) == m2;
    assert Saved(m1, pairs[1..]) == [("pp_it", Some(1))] by {
      assert pairs[1..][1..] == [];
    }
    var saved := Saved(m0, pairs);
    assert saved == [("pp_it", None), ("pp_it", Some(1))];
    var r1 := Assign(m2, "pp_it", None);
    assert RestoreForward(r1, saved[1..]) == Assign(r1, "pp_it", Some(1)) by {
      assert saved[1..][1..] == [];
    }
    assert Assign(r1, "pp_it", Some(1)) == map["pp_it" := 1];
  }

  /** Names not listed are left alone by setting and by restoring. */
  lemma {:induction false} UnlistedUntouched<V>(m: map<string, V>, pairs: seq<(string, Option<V>)>, name: string)
    requires forall k :: 0 <= k < |pairs| ==> pairs[k].0 != name
    ensures Lookup(SetAll(m, pairs), name) == Lookup(m, name)
    ensures Lookup(RestoreForward(m, pairs), name) == Lookup(m, name)
    decreases |pairs|
  {
    if pairs != [] {
      UnlistedUntouched(Assign(m, pairs[0].0, pairs[0].1), pairs[1..], name);
    }
  }

  /** `name[0] == "$"` raises IndexError on an empty name and ValueError on `$...`. */
  datatype NameError = EmptyName | DollarPrefix(name: string)

  function CheckName(name: string): Option<NameError> {
    if name == [] then Some(EmptyName)
    else if name[0] == '$' then Some(DollarPrefix(name))
    else None
  }

  /** The host's convenience-variable store. */
  class Session<V> {
    var vars: map<string, V>

    constructor (initial: map<string, V>)
      ensures vars == initial
    {
      vars := initial;
    }

    method Get(name: string) returns (r: Option<V>)
      ensures r == Lookup(vars, name)
    {
      r := Lookup(vars, name);
    }

    method Set(name: string, value: Option<V>)
      modifies this
      ensures vars == Assign(old(vars), name, value)
    {
      vars := Assign(vars, name, value);
    }
  }

  class Scope<V> {
    var saved: seq<(string, Option<V>)>

    constructor Empty()
      ensures saved == []
    {
      saved := [];
    }

    /** `GdbConvenienceVars(*pairs)`. On a bad name the exception leaves the
        earlier pairs set and nothing will restore them. */
    static method Enter(session: Session<V>, pairs: seq<(string, Option<V>)>)
      returns (r: Result<Scope<V>, (nat, NameError)>)
      modifies session
      ensures r.Success? ==> fresh(r.value) && r.value.saved == Saved(old(session.vars), pairs)
      ensures r.Success? ==> session.vars == SetAll(old(session.vars), pairs)
      ensures r.Success? ==> forall k :: 0 <= k < |pairs| ==> CheckName(pairs[k].0).None?
      ensures r.Failure? ==> var k := r.error.0;
                             k < |pairs| && CheckName(pairs[k].0) == Some(r.error.1)
                             && (forall j :: 0 <= j < k ==> CheckName(pairs[j].0).None?)
                             && session.vars == SetAll(old(session.vars), pairs[..k])
    {
      ghost var m0 := session.vars;
      var saved: seq<(string, Option<V>)> := [];
      var k: nat := 0;
      while k < |pairs|
        invariant 0 <= k <= |pairs|
        invariant forall j :: 0 <= j < k ==> CheckName(pairs[j].0).None?
        invariant session.vars == SetAll(m0, pairs[..k])
        invariant saved + Saved(session.vars, pairs[k..]) == Saved(m0, pairs)
      {
        var name := pairs[k].0;
        var err := CheckName(name);
        if err.Some? {
          return Failure((k, err.value));
        }
        EnterStep(m0, session.vars, saved, pairs, k);
        var prev := session.Get(name);
        saved := saved + [(name, prev)];
        session.Set(name, pairs[k].1);
        k := k + 1;
      }
      assert pairs[..k] == pairs;
      var scope := new Scope.Empty();
      scope.saved := saved;
      return Success(scope);
    }

    /** `__exit__`: every recorded name gets its recorded value back, in order. */
    method Exit(session: Session<V>)
      modifies session
      ensures session.vars == RestoreForward(old(session.vars), saved)
    {
      var k := 0;
      while k < |saved|
        invariant 0 <= k <= |saved|
        invariant RestoreForward(session.vars, saved[k..]) == RestoreForward(old(session.vars), saved)
      {
        assert saved[k..][1..] == saved[k + 1..];
        session.Set(saved[k].0, saved[k].1);
        k := k + 1;
      }
    }
  }

  lemma SavedStep<V>(m: map<string, V>, pairs: seq<(string, Option<V>)>, k: nat)
    requires k < |pairs|
    ensures Saved(m, pairs[k..]) == [(pairs[k].0, Lookup(m, pairs[k].0))] + Saved(Assign(m, pairs[k].0, pairs[k].1), pairs[k + 1..])
  {
    assert pairs[k..][1..] == pairs[k + 1..];
  }

  lemma {:induction false} SetAllStep<V>(m: map<string, V>, pairs: seq<(string, Option<V>)>, k: nat)
    requires k < |pairs|
    ensures SetAll(m, pairs[..k + 1]) == Assign(SetAll(m, pairs[..k]), pairs[k].0, pairs[k].1)
    decreases k
  {
    if k > 0 {
      assert pairs[..k + 1][1..] == pairs[1..][..k];
      assert pairs[..k][1..] == pairs[1..][..k - 1];
      SetAllStep(Assign(m, pairs[0].0, pairs[0].1), pairs[1..], k - 1);
    }
  }

  /** One pair of the constructor's loop: setting it extends both the map and the
      record by exactly that pair. */
  lemma EnterStep<V>(m0: map<string, V>, vars: map<string, V>, saved: seq<(string, Option<V>)>,
                     pairs: seq<(string, Option<V>)>, k: nat)
    requires k < |pairs| && vars == SetAll(m0, pairs[..k])
    requires saved + Saved(vars, pairs[k..]) == Saved(m0, pairs)
    ensures Assign(vars, pairs[k].0, pairs[k].1) == SetAll(m0, pairs[..k + 1])
    ensures (saved + [(pairs[k].0, Lookup(vars, pairs[k].0))]) + Saved(Assign(vars, pairs[k].0, pairs[k].1), pairs[k + 1..])
            == Saved(m0, pairs)
  {
    SetAllStep(m0, pairs, k);
    SavedStep(vars, pairs, k);
  }
}
