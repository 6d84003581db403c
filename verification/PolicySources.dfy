/** The entries a policy's templates see for its sources: the pool of each source, filtered. */
module PolicySources {
  import opened Options
  import opened Strings
  import opened GoValues
  import opened Objects
  import opened Policies
  import opened CelTemplate
  import opened SourcesRegistry

  /** regexp: whether an expression compiles, and whether it matches a text. */
  datatype Regexp = Regexp(compiles: string -> bool, matches: (string, string) -> bool)

  // ---- expressions inside filters ----

  function ResolvedText(s: string, eval: Evaluator): Option<string> {
    ReplaceAll(s, Matches(Cut(s)), eval)
  }

  predicate ResolvesAll(texts: set<string>, eval: Evaluator) {
    forall s :: s in texts ==> ResolvedText(s, eval).Some?
  }

  /** Every text that the recursive walk visits. */
  function TextsOfFilter(f: Option<TextFilter>): set<string> {
    if f.None? then {} else
    (set s | s in f.value.matchList) + (if f.value.matchRegex.Some? then {f.value.matchRegex.value.expression} else {})
  }

  function TextsOf(f: Filters): set<string> {
    TextsOfFilter(f.namespace) + TextsOfFilter(f.name)
    + (if f.metadata.Some? then f.metadata.value.labels.Values + f.metadata.value.annotations.Values else {})
  }

  function Resolve(s: string, eval: Evaluator): string {
    var r := ResolvedText(s, eval);
    if r.Some? then r.value else s
  }

  function ResolveFilter(f: Option<TextFilter>, eval: Evaluator): Option<TextFilter> {
    if f.None? then None else
    Some(TextFilter(seq(|f.value.matchList|, i requires 0 <= i < |f.value.matchList| => Resolve(f.value.matchList[i], eval)),
                    if f.value.matchRegex.None? then None
                    else Some(f.value.matchRegex.value.(expression := Resolve(f.value.matchRegex.value.expression, eval)))))
  }

  function ResolveMap(m: map<string, string>, eval: Evaluator): map<string, string> {
    map k | k in m :: Resolve(m[k], eval)
  }

  /** resolveInlineCelExpressionsRecursive on a copy of the filters; None is its error. */
  function ResolvedFilters(filters: Option<Filters>, eval: Evaluator): Option<Option<Filters>> {
    if filters.None? then Some(None)
    else if !ResolvesAll(TextsOf(filters.value), eval) then None
    else
      var f := filters.value;
      Some(Some(Filters(ResolveFilter(f.namespace, eval), ResolveFilter(f.name, eval),
                        if f.metadata.None? then None
                        else Some(MetadataFilter(ResolveMap(f.metadata.value.labels, eval),
                                                 ResolveMap(f.metadata.value.annotations, eval))))))
  }

  /** The expressions in a text, evaluated and replaced, give this text. */
  ghost predicate Becomes(s: string, t: string, eval: Evaluator) {
    ReplaceAll(s, Matches(Cut(s)), eval) == Some(t)
  }

  ghost predicate FilterBecomes(f: Option<TextFilter>, g: Option<TextFilter>, eval: Evaluator) {
    match (f, g)
    case (None, None) => true
    case (Some(TextFilter(list, regex)), Some(TextFilter(texts, expression))) =>
      && |texts| == |list| && (forall i :: 0 <= i < |list| ==> Becomes(list[i], texts[i], eval))
      && (regex.None? <==> expression.None?)
      && (regex.Some? && expression.Some? ==>
            && expression.value.negative == regex.value.negative
            && Becomes(regex.value.expression, expression.value.expression, eval))
    case _ => false
  }

  ghost predicate PairsBecome(m: map<string, string>, n: map<string, string>, eval: Evaluator) {
    n.Keys == m.Keys && forall k :: k in m && k in n ==> Becomes(m[k], n[k], eval)
  }

  /** Every text of the filters is replaced in its place, and nothing else changes. */
  ghost predicate FiltersBecome(f: Filters, g: Filters, eval: Evaluator) {
    && FilterBecomes(f.namespace, g.namespace, eval) && FilterBecomes(f.name, g.name, eval)
    && (f.metadata.None? <==> g.metadata.None?)
    && (f.metadata.Some? && g.metadata.Some? ==>
          && PairsBecome(f.metadata.value.labels, g.metadata.value.labels, eval)
          && PairsBecome(f.metadata.value.annotations, g.metadata.value.annotations, eval))
  }

  lemma FilterResolved(f: Option<TextFilter>, g: Option<TextFilter>, eval: Evaluator)
    ensures FilterBecomes(f, g, eval) <==> ResolvesAll(TextsOfFilter(f), eval) && g == ResolveFilter(f, eval)
  {
    if f.Some? {
      if FilterBecomes(f, g, eval) {
        FilterBecame(f, g, eval);
      } else if ResolvesAll(TextsOfFilter(f), eval) && g == ResolveFilter(f, eval) {
        forall i | 0 <= i < |f.value.matchList| ensures Becomes(f.value.matchList[i], g.value.matchList[i], eval) {
          assert f.value.matchList[i] in TextsOfFilter(f);
        }
      }
    }
  }

  lemma FilterBecame(f: Option<TextFilter>, g: Option<TextFilter>, eval: Evaluator)
    requires f.Some? && FilterBecomes(f, g, eval)
    ensures ResolvesAll(TextsOfFilter(f), eval) && g == ResolveFilter(f, eval)
  {
    forall s | s in TextsOfFilter(f) ensures ResolvedText(s, eval).Some? {
      if s in f.value.matchList {
        var i :| 0 <= i < |f.value.matchList| && f.value.matchList[i] == s;
        assert Becomes(s, g.value.matchList[i], eval);
      }
    }
    assert g.value.matchList == ResolveFilter(f, eval).value.matchList;
  }

  lemma PairsResolved(m: map<string, string>, n: map<string, string>, eval: Evaluator)
    ensures PairsBecome(m, n, eval) <==> ResolvesAll(m.Values, eval) && n == ResolveMap(m, eval)
  {
    if PairsBecome(m, n, eval) {
      forall s | s in m.Values ensures ResolvedText(s, eval).Some? {
        var k :| k in m && m[k] == s;
        assert Becomes(m[k], n[k], eval);
      }
    } else if ResolvesAll(m.Values, eval) && n == ResolveMap(m, eval) {
      forall k | k in m ensures Becomes(m[k], n[k], eval) {
        assert m[k] in m.Values;
      }
    }
  }

  /** Resolving filters gives exactly those with every text replaced in its place; without such, it fails. */
  lemma ResolvedExactly(f: Filters, g: Filters, eval: Evaluator)
    ensures ResolvedFilters(Some(f), eval) == Some(Some(g)) <==> FiltersBecome(f, g, eval)
    ensures ResolvedFilters(None, eval) == Some(None)
  {
    FilterResolved(f.namespace, g.namespace, eval);
    FilterResolved(f.name, g.name, eval);
    if f.metadata.Some? && g.metadata.Some? {
      PairsResolved(f.metadata.value.labels, g.metadata.value.labels, eval);
      PairsResolved(f.metadata.value.annotations, g.metadata.value.annotations, eval);
    }
    assert ResolvesAll(TextsOf(f), eval) <==>
      && ResolvesAll(TextsOfFilter(f.namespace), eval) && ResolvesAll(TextsOfFilter(f.name), eval)
      && (f.metadata.Some? ==> ResolvesAll(f.metadata.value.labels.Values, eval) && ResolvesAll(f.metadata.value.annotations.Values, eval));
  }

  // ---- matching ----

  /** A list decides alone when it is not empty; then the expression, perhaps negated; then anything goes. */
  predicate MatchesText(text: string, f: TextFilter, regexp: Regexp) {
    if f.matchList != [] then text in f.matchList
    else if f.matchRegex.Some? then regexp.matches(f.matchRegex.value.expression, text) != f.matchRegex.value.negative
    else true
  }

  function TextAt(m: Value, key: string): string
    requires IsMap(m)
  {
    if key in Fields(m) && Fields(m)[key].Str? then Fields(m)[key].s else ""
  }

  function MapAt(m: Value, key: string): map<string, Value>
    requires IsMap(m)
  {
    if key in Fields(m) && IsMap(Fields(m)[key]) then Fields(Fields(m)[key]) else map[]
  }

  predicate IsMapSubset(source: map<string, Value>, expected: map<string, string>) {
    forall k :: k in expected ==> k in source && source[k] == Str(expected[k])
  }

  predicate MatchesFilters(resource: Object, f: Filters, regexp: Regexp) {
    "metadata" in Fields(resource) && IsMap(Fields(resource)["metadata"]) &&
    var metadata := Fields(resource)["metadata"];
    && (f.namespace.Some? ==> MatchesText(TextAt(metadata, "namespace"), f.namespace.value, regexp))
    && (f.name.Some? ==> MatchesText(TextAt(metadata, "name"), f.name.value, regexp))
    && (f.metadata.Some? ==>
          && IsMapSubset(MapAt(metadata, "labels"), f.metadata.value.labels)
          && IsMapSubset(MapAt(metadata, "annotations"), f.metadata.value.annotations))
  }

  /** Both expressions are compiled before anything is filtered. */
  predicate Compiles(f: Option<TextFilter>, regexp: Regexp) {
    f.Some? && f.value.matchRegex.Some? ==> regexp.compiles(f.value.matchRegex.value.expression)
  }

  predicate Usable(filters: Option<Filters>, regexp: Regexp) {
    filters.Some? ==> Compiles(filters.value.namespace, regexp) && Compiles(filters.value.name, regexp)
  }

  predicate Passes(resource: Object, filters: Option<Filters>, regexp: Regexp) {
    filters.Some? ==> MatchesFilters(resource, filters.value, regexp)
  }

  /** The resources that pass, in order. */
  function Filtered(resources: Pool, filters: Option<Filters>, regexp: Regexp): Pool {
    if resources == [] then [] else
    var n := |resources| - 1;
    Filtered(resources[..n], filters, regexp) + (if Passes(resources[n], filters, regexp) then [resources[n]] else [])
  }

  // ---- which resources a filter selects, on their own fields ----

  /** The text under a key of the metadata; anything that is no text reads as the empty one. */
  ghost predicate Reads(metadata: Value, key: string, text: string)
    requires IsMap(metadata)
  {
    if key in Fields(metadata) && Fields(metadata)[key].Str? then Fields(metadata)[key] == Str(text) else text == ""
  }

  ghost predicate Admits(f: TextFilter, text: string, regexp: Regexp) {
    if f.matchList != [] then exists i :: 0 <= i < |f.matchList| && f.matchList[i] == text
    else match f.matchRegex
         case None => true
         case Some(Regex(negative, expression)) =>
           if negative then !regexp.matches(expression, text) else regexp.matches(expression, text)
  }

  ghost predicate HoldsPairs(metadata: Value, key: string, expected: map<string, string>)
    requires IsMap(metadata)
  {
    expected != map[] ==>
      && key in Fields(metadata) && Fields(metadata)[key].Obj?
      && forall k :: k in expected ==>
           k in Fields(metadata)[key].fields && Fields(metadata)[key].fields[k] == Str(expected[k])
  }

  ghost predicate Selected(resource: Object, f: Filters, regexp: Regexp) {
    && "metadata" in Fields(resource) && IsMap(Fields(resource)["metadata"])
    && var metadata := Fields(resource)["metadata"];
    && (f.namespace.Some? ==> forall text :: Reads(metadata, "namespace", text) ==> Admits(f.namespace.value, text, regexp))
    && (f.name.Some? ==> forall text :: Reads(metadata, "name", text) ==> Admits(f.name.value, text, regexp))
    && (f.metadata.Some? ==>
          && HoldsPairs(metadata, "labels", f.metadata.value.labels)
          && HoldsPairs(metadata, "annotations", f.metadata.value.annotations))
  }

  lemma AdmitsExactly(metadata: Value, key: string, f: TextFilter, regexp: Regexp)
    requires IsMap(metadata)
    ensures MatchesText(TextAt(metadata, key), f, regexp) <==>
            forall text :: Reads(metadata, key, text) ==> Admits(f, text, regexp)
  {
    assert Reads(metadata, key, TextAt(metadata, key));
    assert forall text :: Reads(metadata, key, text) ==> text == TextAt(metadata, key);
  }

  lemma HoldsPairsExactly(metadata: Value, key: string, expected: map<string, string>)
    requires IsMap(metadata)
    ensures IsMapSubset(MapAt(metadata, key), expected) <==> HoldsPairs(metadata, key, expected)
  {
    if expected != map[] {
      var k :| k in expected;
    }
  }

  lemma SelectedExactly(resource: Object, f: Filters, regexp: Regexp)
    ensures MatchesFilters(resource, f, regexp) <==> Selected(resource, f, regexp)
  {
    if "metadata" in Fields(resource) && IsMap(Fields(resource)["metadata"]) {
      var metadata := Fields(resource)["metadata"];
      if f.namespace.Some? {
        AdmitsExactly(metadata, "namespace", f.namespace.value, regexp);
      }
      if f.name.Some? {
        AdmitsExactly(metadata, "name", f.name.value, regexp);
      }
      if f.metadata.Some? {
        HoldsPairsExactly(metadata, "labels", f.metadata.value.labels);
        HoldsPairsExactly(metadata, "annotations", f.metadata.value.annotations);
      }
    }
  }

  /** Every expression that the filters give for a name or a namespace compiles. */
  ghost predicate ExpressionsCompile(f: Filters, regexp: Regexp) {
    && (f.namespace.Some? && f.namespace.value.matchRegex.Some? ==> regexp.compiles(f.namespace.value.matchRegex.value.expression))
    && (f.name.Some? && f.name.value.matchRegex.Some? ==> regexp.compiles(f.name.value.matchRegex.value.expression))
  }

  /** What filtering gives: without filters everything, else an error exactly when an expression does not compile, and
      otherwise exactly the resources that the filters select. */
  ghost predicate Selects(resources: Pool, filters: Option<Filters>, regexp: Regexp, r: Option<Pool>) {
    match filters
    case None => r == Some(resources)
    case Some(f) =>
      && (r.Some? <==> ExpressionsCompile(f, regexp))
      && (r.Some? ==> forall x: Object :: x in r.value <==> x in resources && Selected(x, f, regexp))
  }

  lemma FilteredBySelection(resources: Pool, filters: Option<Filters>, regexp: Regexp)
    ensures Selects(resources, filters, regexp, if Usable(filters, regexp) then Some(Filtered(resources, filters, regexp)) else None)
  {
    if filters.None? {
      AllPass(resources, regexp);
    } else {
      FilteredMembers(resources, filters, regexp);
      forall x: Object ensures Passes(x, filters, regexp) <==> Selected(x, filters.value, regexp) {
        SelectedExactly(x, filters.value, regexp);
      }
    }
  }

  /** filterResources; None is its error. */
  method FilterResources(resources: Pool, filters: Option<Filters>, regexp: Regexp) returns (r: Option<Pool>)
    ensures r == if Usable(filters, regexp) then Some(Filtered(resources, filters, regexp)) else None
    ensures Selects(resources, filters, regexp, r)
  {
    FilteredBySelection(resources, filters, regexp);
    if filters.None? {
      AllPass(resources, regexp);
      return Some(resources);
    }
    if !Compiles(filters.value.namespace, regexp) || !Compiles(filters.value.name, regexp) {
      return None;
    }
    var results: Pool := [];
    for i := 0 to |resources|
      invariant results == Filtered(resources[..i], filters, regexp)
    {
      assert resources[..i + 1][..i] == resources[..i];
      if MatchesFilters(resources[i], filters.value, regexp) {
        results := results + [resources[i]];
      }
    }
    assert resources[..|resources|] == resources;
    r := Some(results);
  }

  lemma {:induction false} AllPass(resources: Pool, regexp: Regexp)
    ensures Filtered(resources, None, regexp) == resources
  {
    if resources != [] {
      var n := |resources| - 1;
      AllPass(resources[..n], regexp);
      assert resources == resources[..n] + [resources[n]];
    }
  }

  // ---- FetchPolicySources ----

  /** What one source contributes: nothing is stored for it when no resource passes, an empty list when its
      filters fail. */
  datatype Entry = Stored(resources: Pool) | Unset | Emptied

  function EntryOf(pool: Pool, source: SourceGroup, eval: Evaluator, regexp: Regexp): Entry {
    var filters := ResolvedFilters(source.filters, eval);
    if filters.None? || !Usable(filters.value, regexp) then Emptied
    else
      var filtered := Filtered(pool, filters.value, regexp);
      if filtered == [] then Unset else Stored(filtered)
  }

  function PoolOf(informers: map<string, Pool>, source: SourceGroup): Pool {
    if SourceName(source) in informers then informers[SourceName(source)] else []
  }

  /** How an entry shows in the results and errors. */
  ghost predicate Recorded(entry: Entry, i: int, results: map<int, Pool>, errors: seq<int>) {
    match entry
    case Stored(resources) => i in results && results[i] == resources && i !in errors
    case Unset => i !in results && i !in errors
    case Emptied => i in results && results[i] == [] && i in errors
  }

  /** The entries of the first sources, and nothing else, are recorded. */
  ghost predicate RecordedAll(entries: seq<Entry>, results: map<int, Pool>, errors: seq<int>) {
    && (forall i :: i in results || i in errors ==> 0 <= i < |entries|)
    && (forall i :: 0 <= i < |entries| ==> Recorded(entries[i], i, results, errors))
  }

  lemma RecordedOneMore(entries: seq<Entry>, entry: Entry, results: map<int, Pool>, errors: seq<int>,
                        more: map<int, Pool>, failures: seq<int>)
    requires RecordedAll(entries, results, errors)
    requires failures == if entry.Emptied? then errors + [|entries|] else errors
    requires match entry
             case Emptied => more == results[|entries| := []]
             case Stored(resources) => more == results[|entries| := resources]
             case Unset => more == results
    ensures RecordedAll(entries + [entry], more, failures)
  {
    var i := |entries|;
    assert i !in results && i !in errors;
    forall j | 0 <= j < i ensures Recorded(entries[j], j, more, failures) {
      assert Recorded(entries[j], j, results, errors);
    }
  }

  /** What each source of the policy contributes. */
  ghost function EntriesOf(informers: map<string, Pool>, sources: seq<SourceGroup>, eval: Evaluator, regexp: Regexp): (r: seq<Entry>)
    ensures |r| == |sources|
    ensures forall i :: 0 <= i < |sources| ==> r[i] == EntryOf(PoolOf(informers, sources[i]), sources[i], eval, regexp)
  {
    seq(|sources|, i requires 0 <= i < |sources| => EntryOf(PoolOf(informers, sources[i]), sources[i], eval, regexp))
  }

  /** The results by source index, and the indices of the sources that failed. */
  method FetchPolicySources(registry: SourcesRegistry, policy: Policy, eval: Evaluator, regexp: Regexp)
    returns (results: map<int, Pool>, errors: seq<int>)
    ensures RecordedAll(EntriesOf(registry.informers, policy.sources, eval, regexp), results, errors)
  {
    results, errors := map[], [];
    ghost var entries := EntriesOf(registry.informers, policy.sources, eval, regexp);
    for i := 0 to |policy.sources|
      invariant RecordedAll(entries[..i], results, errors)
    {
      var entry := FetchSource(registry, policy.sources[i], eval, regexp);
      ghost var before, failed := results, errors;
      match entry {
        case Emptied => errors, results := errors + [i], results[i := []];
        case Stored(resources) => results := results[i := resources];
        case Unset =>
      }
      RecordedOneMore(entries[..i], entry, before, failed, results, errors);
      assert entries[..i + 1] == entries[..i] + [entry];
    }
    assert entries[..|policy.sources|] == entries;
  }

  /** The body of the loop, for one source. */
  method FetchSource(registry: SourcesRegistry, source: SourceGroup, eval: Evaluator, regexp: Regexp) returns (entry: Entry)
    ensures entry == EntryOf(PoolOf(registry.informers, source), source, eval, regexp)
  {
    var allResources := registry.GetResources(SourceName(source));
    var filters := ResolvedFilters(source.filters, eval);
    if filters.None? {
      return Emptied;
    }
    var filtered := FilterResources(allResources, filters.value, regexp);
    if filtered.None? {
      return Emptied;
    }
    entry := if filtered.value == [] then Unset else Stored(filtered.value);
  }

  /** The pool of the source's type, by its name. */
  ghost predicate IsPoolOf(informers: map<string, Pool>, source: SourceGroup, pool: Pool) {
    var name := source.group + "/" + source.version + "/" + source.resource;
    if name in informers then pool == informers[name] else pool == []
  }

  lemma PoolOfExactly(informers: map<string, Pool>, source: SourceGroup)
    ensures IsPoolOf(informers, source, PoolOf(informers, source))
  {
    var parts := [source.group, source.version, source.resource];
    assert parts[1..] == [source.version, source.resource] && parts[1..][1..] == [source.resource];
    assert Join(parts[1..], "/") == source.version + "/" + source.resource;
    assert source.group + "/" + (source.version + "/" + source.resource) == source.group + "/" + source.version + "/" + source.resource;
  }

  /** What a source contributes, on the fields of its filters and of the resources: when a text of the filters does not
      evaluate or an expression does not compile, an empty list and an error; else what the filters select. */
  lemma FetchedExactly(informers: map<string, Pool>, source: SourceGroup, pool: Pool, eval: Evaluator, regexp: Regexp)
    requires IsPoolOf(informers, source, pool)
    ensures var entry := EntryOf(PoolOf(informers, source), source, eval, regexp);
            match source.filters
            case None => entry == if pool == [] then Unset else Stored(pool)
            case Some(f) =>
              && ((forall g :: !FiltersBecome(f, g, eval)) ==> entry == Emptied)
              && forall g :: FiltersBecome(f, g, eval) ==> IsSelection(pool, g, regexp, entry)
  {
    PoolOfExactly(informers, source);
    var resolved := ResolvedFilters(source.filters, eval);
    if source.filters.None? {
      AllPass(pool, regexp);
    } else {
      forall g ensures resolved == Some(Some(g)) <==> FiltersBecome(source.filters.value, g, eval) {
        ResolvedExactly(source.filters.value, g, eval);
      }
      if resolved.Some? {
        FilteredBySelection(pool, resolved.value, regexp);
      }
    }
  }

  ghost predicate IsSelection(pool: Pool, f: Filters, regexp: Regexp, entry: Entry) {
    match entry
    case Emptied => !ExpressionsCompile(f, regexp)
    case Unset => ExpressionsCompile(f, regexp) && forall x: Object :: x in pool ==> !Selected(x, f, regexp)
    case Stored(resources) => ExpressionsCompile(f, regexp) && forall x: Object :: x in resources <==> x in pool && Selected(x, f, regexp)
  }

  // ---- what templates see ----

  lemma {:induction false} FilteredMembers(resources: Pool, filters: Option<Filters>, regexp: Regexp)
    ensures forall x: Object :: x in Filtered(resources, filters, regexp) <==> x in resources && Passes(x, filters, regexp)
    ensures Identified(resources) ==> Identified(Filtered(resources, filters, regexp))
  {
    if resources != [] {
      var n := |resources| - 1;
      FilteredMembers(resources[..n], filters, regexp);
      assert resources == resources[..n] + [resources[n]];
    }
  }

  /** The identities of the filtered pool are those of the pool that pass, in the order of the pool. */
  function Chosen(ids: seq<Identity>, wanted: set<Identity>): seq<Identity> {
    if ids == [] then [] else
    Chosen(ids[..|ids| - 1], wanted) + (if ids[|ids| - 1] in wanted then [ids[|ids| - 1]] else [])
  }

  lemma {:induction false} FilteredOrder(resources: Pool, filters: Option<Filters>, regexp: Regexp, wanted: set<Identity>)
    requires Identified(resources)
    requires forall i :: 0 <= i < |resources| ==> (IdentityOf(resources[i]) in wanted <==> Passes(resources[i], filters, regexp))
    ensures Identified(Filtered(resources, filters, regexp))
    ensures Identities(Filtered(resources, filters, regexp)) == Chosen(Identities(resources), wanted)
  {
    FilteredMembers(resources, filters, regexp);
    if resources != [] {
      var n := |resources| - 1;
      FilteredOrder(resources[..n], filters, regexp, wanted);
      assert Identities(resources)[..n] == Identities(resources[..n]);
    }
  }

  /** These resources are the wanted live objects, each once, in the order of ids. */
  ghost predicate IsLiveSelection(stored: Pool, ids: seq<Identity>, live: Live, wanted: set<Identity>) {
    && Identified(stored) && NoRepeats(Identities(stored))
    && Identities(stored) == Chosen(ids, wanted)
    && (forall id :: id in Identities(stored) <==> id in wanted)
    && (forall i :: 0 <= i < |stored| ==> IdentityOf(stored[i]) in live && live[IdentityOf(stored[i])] == stored[i])
  }

  lemma FilteredLive(pool: Pool, live: Live, filters: Option<Filters>, regexp: Regexp, wanted: set<Identity>)
    requires Agrees(pool, live)
    requires wanted == set id | id in live && Passes(live[id], filters, regexp)
    ensures IsLiveSelection(Filtered(pool, filters, regexp), Identities(pool), live, wanted)
  {
    var ids, stored := Identities(pool), Filtered(pool, filters, regexp);
    forall i | 0 <= i < |pool| ensures IdentityOf(pool[i]) in wanted <==> Passes(pool[i], filters, regexp) {
      assert ids[i] in ids && live[ids[i]] == pool[i];
    }
    FilteredOrder(pool, filters, regexp, wanted);
    ChosenMembers(ids, wanted);
    FilteredMembers(pool, filters, regexp);
    forall i | 0 <= i < |stored| ensures IdentityOf(stored[i]) in live && live[IdentityOf(stored[i])] == stored[i] {
      assert stored[i] in pool;
      var j :| 0 <= j < |pool| && pool[j] == stored[i];
      assert ids[j] in ids;
    }
  }

  /** With a pool that agrees with the live objects, a source whose filters resolve and compile stores exactly
      the live objects that satisfy them; nothing is stored when there is none. */
  lemma EntriesAreLiveMatches(pool: Pool, live: Live, source: SourceGroup, eval: Evaluator, regexp: Regexp, wanted: set<Identity>)
    requires Agrees(pool, live)
    requires ResolvedFilters(source.filters, eval).Some? && Usable(ResolvedFilters(source.filters, eval).value, regexp)
    requires wanted == set id | id in live && Passes(live[id], ResolvedFilters(source.filters, eval).value, regexp)
    ensures match EntryOf(pool, source, eval, regexp)
            case Stored(resources) => resources != [] && IsLiveSelection(resources, Identities(pool), live, wanted)
            case Unset => wanted == {}
            case Emptied => false
  {
    var filters := ResolvedFilters(source.filters, eval).value;
    FilteredLive(pool, live, filters, regexp, wanted);
    NothingChosen(Filtered(pool, filters, regexp), Identities(pool), live, wanted);
  }

  lemma NothingChosen(stored: Pool, ids: seq<Identity>, live: Live, wanted: set<Identity>)
    requires IsLiveSelection(stored, ids, live, wanted)
    ensures stored == [] ==> wanted == {}
  {
  }

  lemma {:induction false} ChosenMembers(ids: seq<Identity>, wanted: set<Identity>)
    requires NoRepeats(ids)
    ensures NoRepeats(Chosen(ids, wanted))
    ensures forall id :: id in Chosen(ids, wanted) <==> id in ids && id in wanted
  {
    if ids != [] {
      var n := |ids| - 1;
      ChosenMembers(ids[..n], wanted);
      assert ids == ids[..n] + [ids[n]];
    }
  }
}
