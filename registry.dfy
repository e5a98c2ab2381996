/** The printer registry: an exact-name table and an ordered list of regular
    expressions (gdb_printers.py, `add_printer`, `add_re_printer`, `_match_printer`). */
module Registry {
  import opened Wrappers

  /** A compiled regular expression. The engine itself is not modelled:
      `matches(s)` stands for `re.compile(pattern).match(s)` succeeding. That match
      is anchored at the start of `s` only, so a pattern without `$` also matches
      every longer text that begins with what it matches. */
  datatype Regex = Regex(pattern: string, matches: string -> bool)

  datatype Entry<P> = Entry(regex: Regex, printer: P)

  /** The index of the first entry whose regex matches, in registration order. */
  function FirstMatch<P>(entries: seq<Entry<P>>, s: string): (r: Option<nat>)
    ensures r.Some? ==> r.value < |entries| && entries[r.value].regex.matches(s)
    ensures forall k :: 0 <= k < |entries| && (r.None? || k < r.value) ==> !entries[k].regex.matches(s)
  {
    if entries == [] then None
    else if entries[0].regex.matches(s) then Some(0)
    else match FirstMatch(entries[1..], s)
      case None => None
      case Some(k) => Some(k + 1)
  }

  /** `_match_printer`: the exact table first, then the first matching regex. */
  function Match<P>(exact: map<string, P>, entries: seq<Entry<P>>, s: string): (r: Option<P>)
    ensures s in exact ==> r == Some(exact[s])
    ensures s !in exact && r.None? ==> forall k :: 0 <= k < |entries| ==> !entries[k].regex.matches(s)
    ensures s !in exact && r.Some? ==>
      exists k :: 0 <= k < |entries| && entries[k].regex.matches(s) && r.value == entries[k].printer
               && forall j :: 0 <= j < k ==> !entries[j].regex.matches(s)
  {
    if s in exact then Some(exact[s])
    else match FirstMatch(entries, s)
      case None => None
      case Some(k) => Some(entries[k].printer)
  }

  /** A regex registered later never takes over a name that already resolves. */
  lemma {:induction false} LaterRegexDoesNotShadow<P>(entries: seq<Entry<P>>, e: Entry<P>, s: string)
    requires FirstMatch(entries, s).Some?
    ensures FirstMatch(entries + [e], s) == FirstMatch(entries, s)
  {
    if !entries[0].regex.matches(s) {
      assert (entries + [e])[1..] == entries[1..] + [e];
      LaterRegexDoesNotShadow(entries[1..], e, s);
    }
  }

  /** A regex registered later is consulted only for names nothing earlier matched. */
  lemma {:induction false} LaterRegexCatchesRest<P>(entries: seq<Entry<P>>, e: Entry<P>, s: string)
    requires FirstMatch(entries, s).None? && e.regex.matches(s)
    ensures FirstMatch(entries + [e], s) == Some(|entries|)
  {
    if entries != [] {
      assert (entries + [e])[1..] == entries[1..] + [e];
      LaterRegexCatchesRest(entries[1..], e, s);
    }
  }

  /** The process-wide registry: the module-level dict `_pretty_printers` and the
      list `_pretty_printers_re`. */
  class Registry<P> {
    var exact: map<string, P>
    var patterns: seq<Entry<P>>

    constructor ()
      ensures exact == map[] && patterns == []
    {
      exact := map[];
      patterns := [];
    }

    /** `add_printer`: a second registration under the same name replaces the first. */
    method AddPrinter(name: string, printer: P)
      modifies this
      ensures exact == old(exact)[name := printer]
      ensures patterns == old(patterns)
    {
      exact := exact[name := printer];
    }

    /** `add_re_printer`: appends, so earlier regexes keep their priority. */
    method AddRePrinter(regex: Regex, printer: P)
      modifies this
      ensures patterns == old(patterns) + [Entry(regex, printer)]
      ensures exact == old(exact)
    {
      patterns := patterns + [Entry(regex, printer)];
    }

    function MatchPrinter(s: string): Option<P>
      reads this
    {
      Match(exact, patterns, s)
    }
  }
}
