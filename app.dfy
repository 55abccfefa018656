/** The state logic of `src/App.tsx`: the checklist progress map with its
    toggle and reset, the overall progress percentage, and the plain search
    that fills `searchResults`. */
module App {
  import opened Strings
  import opened Docs
  import TierSection
  import NaiveTierSection
  import GuidedWorkflow

  // ---------------------------------------------------------------------
  // The progress map

  /** The map after `toggleChecklistItem(itemId)`: the key flips, an absent
      key reading as unchecked, and every other entry stays. */
  function Toggled(progress: Progress, itemId: string): (r: Progress)
    ensures itemId in r && IsChecked(r, itemId) == !IsChecked(progress, itemId)
    ensures forall k :: k != itemId ==> (k in r <==> k in progress)
    ensures forall k :: k != itemId && k in progress ==> r[k] == progress[k]
  {
    progress[itemId := !IsChecked(progress, itemId)]
  }

  /** Toggling a key twice gives every key its former reading back. */
  lemma ToggleTwice(progress: Progress, itemId: string)
    ensures forall k :: IsChecked(Toggled(Toggled(progress, itemId), itemId), k) == IsChecked(progress, k)
  {
  }

  /** The keys whose value is `true`: `Object.values(progress).filter(Boolean)`
      counts one value per key. */
  function CheckedKeys(progress: Progress): set<string> {
    set k | k in progress && progress[k]
  }

  function CompletedCount(progress: Progress): nat {
    |CheckedKeys(progress)|
  }

  /** A toggle checks or unchecks exactly one key. */
  lemma ToggleCount(progress: Progress, itemId: string)
    ensures CheckedKeys(Toggled(progress, itemId))
         == if IsChecked(progress, itemId) then CheckedKeys(progress) - {itemId}
            else CheckedKeys(progress) + {itemId}
    ensures CompletedCount(Toggled(progress, itemId))
         == if IsChecked(progress, itemId) then CompletedCount(progress) - 1
            else CompletedCount(progress) + 1
  {
    var r := Toggled(progress, itemId);
    if IsChecked(progress, itemId) {
      assert CheckedKeys(r) == CheckedKeys(progress) - {itemId};
    } else {
      assert CheckedKeys(r) == CheckedKeys(progress) + {itemId};
    }
  }

  // ---------------------------------------------------------------------
  // calculateProgress

  /** The checklist items of the whole document. */
  function TotalItems(doc: Document): nat {
    if |doc| == 0 then 0
    else TotalItems(doc[..|doc| - 1]) + SectionItemCount(doc[|doc| - 1].1)
  }

  /** Every progress key the document's views can toggle, section by
      section. */
  function DocKeys(doc: Document): seq<string> {
    if |doc| == 0 then []
    else DocKeys(doc[..|doc| - 1]) + SectionKeys(doc[|doc| - 1].0, doc[|doc| - 1].1)
  }

  lemma {:induction false} DocKeysCount(doc: Document)
    ensures |DocKeys(doc)| == TotalItems(doc)
  {
    if |doc| > 0 {
      DocKeysCount(doc[..|doc| - 1]);
      SectionKeysCount(doc[|doc| - 1].0, doc[|doc| - 1].1);
    }
  }

  /** A document key belongs to one of the sections. */
  lemma {:induction false} DocKeysSpec(doc: Document, x: string)
    ensures x in DocKeys(doc) <==> exists i :: 0 <= i < |doc| && x in SectionKeys(doc[i].0, doc[i].1)
  {
    if |doc| > 0 {
      var init := doc[..|doc| - 1];
      DocKeysSpec(init, x);
      assert forall i :: 0 <= i < |init| ==> init[i] == doc[i];
    }
  }

  /** `Math.round(completed / total * 100)`, or 0 without items, in exact
      arithmetic: halves round up. */
  function Percent(completed: nat, total: nat): nat {
    if total == 0 then 0 else (200 * completed + total) / (2 * total)
  }

  /** The percentage is the nearest integer to `100 * completed / total`,
      halves rounded up. */
  lemma PercentRounds(completed: nat, total: nat)
    requires total > 0
    ensures var p := Percent(completed, total);
      2 * p * total - total <= 200 * completed < 2 * p * total + total
  {
    var p := Percent(completed, total);
    var n := 200 * completed + total;
    var d := 2 * total;
    assert p == n / d;
    assert d * p <= n < d * p + d by {
      DivBounds(n, d);
    }
  }

  lemma DivBounds(n: nat, d: nat)
    requires d > 0
    ensures d * (n / d) <= n < d * (n / d) + d
  {
  }

  /** With at most as many completed as there are items the percentage is at
      most 100; all items done gives exactly 100. */
  lemma PercentAtMostHundred(completed: nat, total: nat)
    requires completed <= total
    ensures Percent(completed, total) <= 100
    ensures total > 0 && completed == total ==> Percent(completed, total) == 100
  {
    if total > 0 {
      var p := Percent(completed, total);
      PercentRounds(completed, total);
      assert (2 * p) * total <= 201 * total;
      CancelFactor(2 * p, 201, total);
      if completed == total {
        assert 199 * total < (2 * p) * total;
        CancelFactorStrict(199, 2 * p, total);
      }
    }
  }

  /** At least twice as many completed as total items is more than 100 per
      cent. */
  lemma PercentPastHundred(completed: nat, total: nat)
    requires 0 < total && 2 * total <= completed
    ensures Percent(completed, total) > 100
  {
    var p := Percent(completed, total);
    PercentRounds(completed, total);
    assert 399 * total < (2 * p) * total;
    CancelFactorStrict(399, 2 * p, total);
  }

  lemma CancelFactor(a: int, b: int, t: int)
    requires t > 0 && a * t <= b * t
    ensures a <= b
  {
  }

  lemma CancelFactorStrict(a: int, b: int, t: int)
    requires t > 0 && a * t < b * t
    ensures a < b
  {
  }

  /** The value `calculateProgress` returns. */
  function OverallProgress(doc: Document, progress: Progress): nat {
    Percent(CompletedCount(progress), TotalItems(doc))
  }

  /** When every checked key names an item of the document the progress is
      at most 100. */
  lemma ProgressInRange(doc: Document, progress: Progress)
    requires forall k :: k in CheckedKeys(progress) ==> k in DocKeys(doc)
    ensures OverallProgress(doc, progress) <= 100
  {
    var keys := DocKeys(doc);
    DocKeysCount(doc);
    SetOfSeqSize(keys);
    var all := set k | k in keys;
    assert CheckedKeys(progress) <= all;
    SubsetSize(CheckedKeys(progress), all);
    PercentAtMostHundred(CompletedCount(progress), TotalItems(doc));
  }

  /** `calculateProgress` counts every `true` entry whatever its key: once
      at least twice as many keys are checked as the document has items,
      the progress exceeds 100, and some checked key is not an item of the
      document. */
  lemma PercentOverflows(doc: Document, progress: Progress)
    requires 0 < TotalItems(doc) && 2 * TotalItems(doc) <= CompletedCount(progress)
    ensures OverallProgress(doc, progress) > 100
    ensures exists k :: k in CheckedKeys(progress) && k !in DocKeys(doc)
  {
    PercentPastHundred(CompletedCount(progress), TotalItems(doc));
    if forall k :: k in CheckedKeys(progress) ==> k in DocKeys(doc) {
      ProgressInRange(doc, progress);
      assert false;
    }
  }

  lemma {:induction false} SetOfSeqSize(s: seq<string>)
    ensures |set k | k in s| <= |s|
  {
    if |s| > 0 {
      var init := s[..|s| - 1];
      SetOfSeqSize(init);
      assert (set k | k in s) == (set k | k in init) + {s[|s| - 1]} by {
        assert s == init + [s[|s| - 1]];
      }
    }
  }

  lemma SubsetSize(a: set<string>, b: set<string>)
    requires a <= b
    ensures |a| <= |b|
  {
    assert b == a + (b - a);
  }

  /** Toggling a key of the document keeps every checked key a key of the
      document. */
  lemma ToggleKeepsDocKeys(doc: Document, progress: Progress, itemId: string)
    requires forall k :: k in CheckedKeys(progress) ==> k in DocKeys(doc)
    requires itemId in DocKeys(doc)
    ensures forall k :: k in CheckedKeys(Toggled(progress, itemId)) ==> k in DocKeys(doc)
  {
    ToggleCount(progress, itemId);
  }

  // ---------------------------------------------------------------------
  // Every checkbox the components render toggles a key of the document

  /** The key of an item of a section's own checklist is counted. */
  lemma OwnItemIsDocKey(doc: Document, i: nat, k: nat)
    requires i < |doc| && k < |doc[i].1.checklist|
    ensures ItemKey(doc[i].0, None, doc[i].1.checklist[k].id) in DocKeys(doc)
  {
    var x := ItemKey(doc[i].0, None, doc[i].1.checklist[k].id);
    SectionKeysSpec(doc[i].0, doc[i].1, x);
    DocKeysSpec(doc, x);
  }

  /** The key of an item of a subsection's checklist is counted. */
  lemma SubsectionItemIsDocKey(doc: Document, i: nat, j: nat, k: nat)
    requires i < |doc| && j < |doc[i].1.subsections| && k < |doc[i].1.subsections[j].1.checklist|
    ensures ItemKey(doc[i].0, Some(doc[i].1.subsections[j].0), doc[i].1.subsections[j].1.checklist[k].id) in DocKeys(doc)
  {
    var subs := doc[i].1.subsections;
    var x := ItemKey(doc[i].0, Some(subs[j].0), subs[j].1.checklist[k].id);
    assert NamesSubsectionItem(doc[i].0, subs, x);
    SectionKeysSpec(doc[i].0, doc[i].1, x);
    DocKeysSpec(doc, x);
  }

  /** The checkboxes of a view `TierSection` renders toggle keys that
      `calculateProgress` counts. */
  lemma ViewKeysAreDocKeys(doc: Document, sectionId: string, x: string)
    requires TierSection.Resolve(doc, sectionId).Render?
    requires x in TierSection.ChecklistKeys(TierSection.Resolve(doc, sectionId).view)
    ensures x in DocKeys(doc)
  {
    var v := TierSection.Resolve(doc, sectionId).view;
    var keys := TierSection.ChecklistKeys(v);
    var k :| 0 <= k < |keys| && keys[k] == x;
    match Lookup(doc, sectionId)
    case Some(section) =>
      var i :| 0 <= i < |doc| && doc[i] == (sectionId, section);
      OwnItemIsDocKey(doc, i, k);
    case None =>
      var parsed := TierSection.ParseSectionId(sectionId);
      var parent := Lookup(doc, parsed.parentId).value;
      var i :| 0 <= i < |doc| && doc[i] == (parsed.parentId, parent);
      if v.subsectionId.Some? {
        var sub := Lookup(parent.subsections, parsed.subsectionId.value).value;
        var j :| 0 <= j < |parent.subsections| && parent.subsections[j] == (parsed.subsectionId.value, sub);
        SubsectionItemIsDocKey(doc, i, j, k);
      } else {
        OwnItemIsDocKey(doc, i, k);
      }
  }

  /** The same for the view the older component renders. */
  lemma NaiveViewKeysAreDocKeys(doc: Document, sectionId: string, x: string)
    requires NaiveTierSection.NaiveResolve(doc, sectionId).Found?
    requires x in NaiveTierSection.NaiveChecklistKeys(NaiveTierSection.NaiveResolve(doc, sectionId).view)
    ensures x in DocKeys(doc)
  {
    var v := NaiveTierSection.NaiveResolve(doc, sectionId).view;
    var keys := NaiveTierSection.NaiveChecklistKeys(v);
    var k :| 0 <= k < |keys| && keys[k] == x;
    match Lookup(doc, sectionId)
    case Some(section) =>
      var i :| 0 <= i < |doc| && doc[i] == (sectionId, section);
      OwnItemIsDocKey(doc, i, k);
    case None =>
      var ids := Split(sectionId, '-');
      var parent := Lookup(doc, ids[0]).value;
      var i :| 0 <= i < |doc| && doc[i] == (ids[0], parent);
      if v.subsectionId.Some? {
        var sub := Lookup(parent.subsections, ids[1]).value;
        var j :| 0 <= j < |parent.subsections| && parent.subsections[j] == (ids[1], sub);
        SubsectionItemIsDocKey(doc, i, j, k);
      } else {
        OwnItemIsDocKey(doc, i, k);
      }
  }

  /** And for the checklist of a guided step. */
  lemma StepKeysAreDocKeys(doc: Document, step: GuidedWorkflow.Step, x: string)
    requires x in GuidedWorkflow.StepKeys(doc, step)
    ensures x in DocKeys(doc)
  {
    var sid := step.section.value;
    var section := Lookup(doc, sid).value;
    var keys := GuidedWorkflow.StepKeys(doc, step);
    var k :| 0 <= k < |keys| && keys[k] == x;
    var i :| 0 <= i < |doc| && doc[i] == (sid, section);
    OwnItemIsDocKey(doc, i, k);
  }

  /** The group sum of one section: its own checklist and its subsections'. */
  method CountSectionItems(section: Section) returns (count: nat)
    ensures count == SectionItemCount(section)
  {
    count := |section.checklist|;
    var subsections := section.subsections;
    for j := 0 to |subsections|
      invariant count == |section.checklist| + SubsectionItemCount(subsections[..j])
    {
      SubsectionCountStep(subsections, j);
      count := count + |subsections[j].1.checklist|;
    }
    assert subsections[..|subsections|] == subsections;
  }

  /** The `reduce` over the document. */
  method CountItems(doc: Document) returns (totalItems: nat)
    ensures totalItems == TotalItems(doc)
  {
    totalItems := 0;
    for i := 0 to |doc|
      invariant totalItems == TotalItems(doc[..i])
    {
      assert doc[..i + 1][..i] == doc[..i];
      var count := CountSectionItems(doc[i].1);
      totalItems := totalItems + count;
    }
    assert doc[..|doc|] == doc;
  }

  // ---------------------------------------------------------------------
  // handleSearch

  /** The whole query, lower-cased, is a substring of the lower-cased title
      or of the raw content. */
  predicate FieldsMatch(title: string, content: string, query: string) {
    Contains(Lower(title), Lower(query)) || Contains(Lower(content), Lower(query))
  }

  /** The `sid-subid` ids of the matching subsections, in order. */
  function SubsectionMatches(sectionId: string, subsections: seq<(string, Subsection)>, query: string): seq<string> {
    if |subsections| == 0 then []
    else
      var last := subsections[|subsections| - 1];
      SubsectionMatches(sectionId, subsections[..|subsections| - 1], query)
      + (if FieldsMatch(last.1.title, last.1.content, query) then [sectionId + "-" + last.0] else [])
  }

  /** A section's contribution: its own id if it matches, then its matching
      subsections. */
  function SectionMatches(sectionId: string, section: Section, query: string): seq<string> {
    (if FieldsMatch(section.title, section.content, query) then [sectionId] else [])
    + SubsectionMatches(sectionId, section.subsections, query)
  }

  /** The ids `handleSearch` collects for a non-blank query. */
  function MatchingIds(doc: Document, query: string): seq<string> {
    if |doc| == 0 then []
    else MatchingIds(doc[..|doc| - 1], query) + SectionMatches(doc[|doc| - 1].0, doc[|doc| - 1].1, query)
  }

  predicate SubsectionHit(sectionId: string, subsections: seq<(string, Subsection)>, query: string, x: string) {
    exists j :: 0 <= j < |subsections| && x == sectionId + "-" + subsections[j].0
      && FieldsMatch(subsections[j].1.title, subsections[j].1.content, query)
  }

  lemma {:induction false} SubsectionMatchesSpec(sectionId: string, subsections: seq<(string, Subsection)>, query: string, x: string)
    ensures x in SubsectionMatches(sectionId, subsections, query) <==> SubsectionHit(sectionId, subsections, query, x)
  {
    if |subsections| > 0 {
      var init := subsections[..|subsections| - 1];
      SubsectionMatchesSpec(sectionId, init, query, x);
      assert forall j :: 0 <= j < |init| ==> init[j] == subsections[j];
    }
  }

  /** The id `x` is a hit of one document entry: the section itself or one
      of its subsections. */
  predicate EntryHit(entry: (string, Section), query: string, x: string) {
    (x == entry.0 && FieldsMatch(entry.1.title, entry.1.content, query))
    || SubsectionHit(entry.0, entry.1.subsections, query, x)
  }

  lemma SectionMatchesSpec(entry: (string, Section), query: string, x: string)
    ensures x in SectionMatches(entry.0, entry.1, query) <==> EntryHit(entry, query, x)
  {
    SubsectionMatchesSpec(entry.0, entry.1.subsections, query, x);
  }

  /** The results are exactly the ids of the matching sections and of the
      matching subsections, written `sid-subid`. */
  lemma {:induction false} MatchingIdsSpec(doc: Document, query: string, x: string)
    ensures x in MatchingIds(doc, query) <==> exists i :: 0 <= i < |doc| && EntryHit(doc[i], query, x)
  {
    if |doc| > 0 {
      var n := |doc| - 1;
      var init := doc[..n];
      MatchingIdsSpec(init, query, x);
      SectionMatchesSpec(doc[n], query, x);
      assert forall i :: 0 <= i < |init| ==> init[i] == doc[i];
    }
  }

  /** The inner `forEach` over the subsections. */
  method CollectSubsections(sectionId: string, subsections: seq<(string, Subsection)>, query: string)
    returns (results: seq<string>)
    ensures results == SubsectionMatches(sectionId, subsections, query)
  {
    results := [];
    for j := 0 to |subsections|
      invariant results == SubsectionMatches(sectionId, subsections[..j], query)
    {
      assert subsections[..j + 1][..j] == subsections[..j];
      var (subsectionId, subsection) := subsections[j];
      if Contains(Lower(subsection.title), Lower(query)) || Contains(Lower(subsection.content), Lower(query)) {
        results := results + [sectionId + "-" + subsectionId];
      }
    }
    assert subsections[..|subsections|] == subsections;
  }

  /** The outer `forEach` over the sections. */
  method CollectMatches(doc: Document, query: string) returns (results: seq<string>)
    ensures results == MatchingIds(doc, query)
  {
    results := [];
    for i := 0 to |doc|
      invariant results == MatchingIds(doc[..i], query)
    {
      var found := CollectSection(doc[i].0, doc[i].1, query);
      results := results + found;
      MatchingStep(doc, query, i);
    }
    assert doc[..|doc|] == doc;
  }

  /** One iteration of the outer `forEach`: the section's id if it matches,
      then its matching subsections. */
  method CollectSection(sectionId: string, section: Section, query: string) returns (results: seq<string>)
    ensures results == SectionMatches(sectionId, section, query)
  {
    results := [];
    if Contains(Lower(section.title), Lower(query)) || Contains(Lower(section.content), Lower(query)) {
      results := results + [sectionId];
    }
    var found := CollectSubsections(sectionId, section.subsections, query);
    results := results + found;
  }

  lemma MatchingStep(doc: Document, query: string, i: nat)
    requires i < |doc|
    ensures MatchingIds(doc[..i + 1], query) == MatchingIds(doc[..i], query) + SectionMatches(doc[i].0, doc[i].1, query)
  {
    assert doc[..i + 1][..i] == doc[..i];
  }

  // ---------------------------------------------------------------------
  // The application state

  class AppState {
    const doc: Document
    var progress: Progress
    var isSearching: bool
    var searchResults: seq<string>

    /** Every checked key names an item of the document. */
    ghost predicate Tracked()
      reads this
    {
      forall k :: k in CheckedKeys(progress) ==> k in DocKeys(doc)
    }

    constructor(doc: Document, stored: Progress)
      ensures this.doc == doc && progress == stored
      ensures !isSearching && searchResults == []
    {
      this.doc := doc;
      progress := stored;
      isSearching := false;
      searchResults := [];
    }

    method ToggleChecklistItem(itemId: string)
      modifies this
      ensures progress == Toggled(old(progress), itemId)
      ensures isSearching == old(isSearching) && searchResults == old(searchResults)
      ensures old(Tracked()) && itemId in DocKeys(doc) ==> Tracked()
    {
      if Tracked() && itemId in DocKeys(doc) {
        ToggleKeepsDocKeys(doc, progress, itemId);
      }
      progress := progress[itemId := !IsChecked(progress, itemId)];
    }

    /** `resetProgress`, with the user's answer to the confirmation. */
    method ResetProgress(confirmed: bool)
      modifies this
      ensures progress == if confirmed then map[] else old(progress)
      ensures isSearching == old(isSearching) && searchResults == old(searchResults)
      ensures confirmed ==> Tracked() && CompletedCount(progress) == 0
    {
      if confirmed {
        progress := map[];
        assert CheckedKeys(progress) == {};
      }
    }

    method CalculateProgress() returns (percent: nat)
      ensures percent == OverallProgress(doc, progress)
      ensures Tracked() ==> percent <= 100
    {
      var totalItems := CountItems(doc);
      var completedItems := CompletedCount(progress);
      percent := if totalItems > 0 then (200 * completedItems + totalItems) / (2 * totalItems) else 0;
      if Tracked() {
        ProgressInRange(doc, progress);
      }
    }

    method HandleSearch(query: string)
      modifies this
      ensures Trim(query) == "" ==> !isSearching && searchResults == []
      ensures Trim(query) != "" ==> isSearching && searchResults == MatchingIds(doc, query)
      ensures progress == old(progress)
    {
      if Trim(query) == "" {
        isSearching := false;
        searchResults := [];
        return;
      }
      isSearching := true;
      var results := CollectMatches(doc, query);
      searchResults := results;
    }
  }
}
