/** The side navigation of `components/Navigation.tsx`: the per-section
    progress status shown next to each link, and the three tier lists. */
module Navigation {
  import opened Strings
  import opened Docs

  /** The values of `calculateSectionProgress`: `none`, `not-started`,
      `partial` and `complete`. */
  datatype Status = NoItems | NotStarted | Partial | Complete

  /** The icon `renderProgressIcon` draws. */
  datatype Icon = CheckCircle | Adjust | Circle

  /** The number of keys that are checked. */
  function CountChecked(progress: Progress, keys: seq<string>): (n: nat)
    ensures n <= |keys|
  {
    if |keys| == 0 then 0
    else CountChecked(progress, keys[..|keys| - 1]) + (if IsChecked(progress, keys[|keys| - 1]) then 1 else 0)
  }

  lemma {:induction false} CountCheckedAppend(progress: Progress, a: seq<string>, b: seq<string>)
    ensures CountChecked(progress, a + b) == CountChecked(progress, a) + CountChecked(progress, b)
    decreases |b|
  {
    if |b| == 0 {
      assert a + b == a;
    } else {
      assert (a + b)[..|a + b| - 1] == a + b[..|b| - 1];
      CountCheckedAppend(progress, a, b[..|b| - 1]);
    }
  }

  lemma CountCheckedStep(progress: Progress, keys: seq<string>, x: string)
    ensures CountChecked(progress, keys + [x]) == CountChecked(progress, keys) + (if IsChecked(progress, x) then 1 else 0)
  {
    assert (keys + [x])[..|keys|] == keys;
  }

  /** The count after one more item of a checklist. */
  lemma CountItemStep(progress: Progress, parentId: string, subsectionId: Option<string>, items: seq<ChecklistItem>, i: nat)
    requires i < |items|
    ensures var keys := ItemKeys(parentId, subsectionId, items);
      CountChecked(progress, keys[..i + 1])
      == CountChecked(progress, keys[..i]) + (if IsChecked(progress, ItemKey(parentId, subsectionId, items[i].id)) then 1 else 0)
  {
    var keys := ItemKeys(parentId, subsectionId, items);
    PrefixSnoc(keys, i);
    CountCheckedStep(progress, keys[..i], keys[i]);
  }

  /** No key is counted exactly when none is checked. */
  lemma {:induction false} CountCheckedZero(progress: Progress, keys: seq<string>)
    ensures CountChecked(progress, keys) == 0 <==> forall k :: 0 <= k < |keys| ==> !IsChecked(progress, keys[k])
  {
    if |keys| > 0 {
      var init := keys[..|keys| - 1];
      CountCheckedZero(progress, init);
      assert forall k :: 0 <= k < |init| ==> init[k] == keys[k];
    }
  }

  /** Every key is counted exactly when all are checked. */
  lemma {:induction false} CountCheckedFull(progress: Progress, keys: seq<string>)
    ensures CountChecked(progress, keys) == |keys| <==> forall k :: 0 <= k < |keys| ==> IsChecked(progress, keys[k])
  {
    if |keys| > 0 {
      var init := keys[..|keys| - 1];
      CountCheckedFull(progress, init);
      assert forall k :: 0 <= k < |init| ==> init[k] == keys[k];
    }
  }

  /** `completedItems`: the section's items whose progress key is checked. */
  function SectionCompleted(sectionId: string, section: Section, progress: Progress): nat {
    CountChecked(progress, SectionKeys(sectionId, section))
  }

  /** The final classification of `calculateSectionProgress`. */
  function Classify(totalItems: nat, completedItems: nat): Status {
    if totalItems == 0 then NoItems
    else if completedItems == 0 then NotStarted
    else if completedItems == totalItems then Complete
    else Partial
  }

  function SectionStatus(sectionId: string, section: Section, progress: Progress): Status {
    Classify(SectionItemCount(section), SectionCompleted(sectionId, section, progress))
  }

  /** The checked items of one checklist. */
  method CountCompleted(parentId: string, subsectionId: Option<string>, items: seq<ChecklistItem>, progress: Progress)
    returns (completedItems: nat)
    ensures completedItems == CountChecked(progress, ItemKeys(parentId, subsectionId, items))
  {
    ghost var keys := ItemKeys(parentId, subsectionId, items);
    completedItems := 0;
    for i := 0 to |items|
      invariant completedItems == CountChecked(progress, keys[..i])
    {
      var itemKey := ItemKey(parentId, subsectionId, items[i].id);
      CountItemStep(progress, parentId, subsectionId, items, i);
      if IsChecked(progress, itemKey) {
        completedItems := completedItems + 1;
      }
    }
    assert keys[..|items|] == keys;
  }

  /** The subsection loop of `calculateSectionProgress`: the subsections'
      items and the checked ones among them. */
  method CountSubsections(sectionId: string, subsections: seq<(string, Subsection)>, progress: Progress)
    returns (totalItems: nat, completedItems: nat)
    ensures totalItems == SubsectionItemCount(subsections)
    ensures completedItems == CountChecked(progress, SubsectionKeys(sectionId, subsections))
  {
    totalItems, completedItems := 0, 0;
    for j := 0 to |subsections|
      invariant totalItems == SubsectionItemCount(subsections[..j])
      invariant completedItems == CountChecked(progress, SubsectionKeys(sectionId, subsections[..j]))
    {
      var (subsectionId, subsection) := subsections[j];
      SubsectionStep(sectionId, subsections, j);
      SubsectionCountStep(subsections, j);
      totalItems := totalItems + |subsection.checklist|;
      var done := CountCompleted(sectionId, Some(subsectionId), subsection.checklist, progress);
      CountCheckedAppend(progress, SubsectionKeys(sectionId, subsections[..j]),
        ItemKeys(sectionId, Some(subsectionId), subsection.checklist));
      completedItems := completedItems + done;
    }
    assert subsections[..|subsections|] == subsections;
  }

  /** `calculateSectionProgress`; the section id must be a key of the
      document, since the section is dereferenced unguarded. */
  method CalculateSectionProgress(doc: Document, sectionId: string, progress: Progress) returns (status: Status)
    requires HasKey(doc, sectionId)
    ensures status == SectionStatus(sectionId, Lookup(doc, sectionId).value, progress)
  {
    var section := Lookup(doc, sectionId).value;
    var totalItems: nat := |section.checklist|;
    var completedItems := CountCompleted(sectionId, None, section.checklist, progress);
    var subTotal, subCompleted := CountSubsections(sectionId, section.subsections, progress);
    totalItems := totalItems + subTotal;
    completedItems := completedItems + subCompleted;
    assert completedItems == SectionCompleted(sectionId, section, progress) by {
      CountCheckedAppend(progress, ItemKeys(sectionId, None, section.checklist),
        SubsectionKeys(sectionId, section.subsections));
    }
    if totalItems == 0 {
      status := NoItems;
    } else if completedItems == 0 {
      status := NotStarted;
    } else if completedItems == totalItems {
      status := Complete;
    } else {
      status := Partial;
    }
  }

  /** `0 <= completed <= total`. */
  lemma SectionProgressBounds(sectionId: string, section: Section, progress: Progress)
    ensures SectionCompleted(sectionId, section, progress) <= SectionItemCount(section)
  {
    SectionKeysCount(sectionId, section);
  }

  /** The status in terms of the section's progress keys: `none` when it has
      none, `not-started` when none is checked, `complete` when all are, and
      `partial` when some are and some are not. */
  lemma StatusSpec(sectionId: string, section: Section, progress: Progress)
    ensures var keys := SectionKeys(sectionId, section);
      var status := SectionStatus(sectionId, section, progress);
      && (status == NoItems <==> |keys| == 0)
      && (status == NotStarted <==> |keys| > 0 && forall k :: 0 <= k < |keys| ==> !IsChecked(progress, keys[k]))
      && (status == Complete <==> |keys| > 0 && forall k :: 0 <= k < |keys| ==> IsChecked(progress, keys[k]))
      && (status == Partial <==>
            (exists k :: 0 <= k < |keys| && IsChecked(progress, keys[k]))
            && (exists k :: 0 <= k < |keys| && !IsChecked(progress, keys[k])))
  {
    var keys := SectionKeys(sectionId, section);
    SectionKeysCount(sectionId, section);
    CountCheckedZero(progress, keys);
    CountCheckedFull(progress, keys);
  }

  /** What `renderProgressIcon` draws for a status. */
  function ProgressIcon(status: Status): (icon: Option<Icon>)
    ensures icon.Some? <==> status != NoItems
  {
    match status
    case Complete => Some(CheckCircle)
    case Partial => Some(Adjust)
    case NotStarted => Some(Circle)
    case NoItems => None
  }

  /** The entries listed under "Tier n", in document order. */
  function TierList(doc: Document, n: int): seq<(string, Section)> {
    if |doc| == 0 then []
    else
      var last := doc[|doc| - 1];
      TierList(doc[..|doc| - 1], n) + (if last.1.tier == Some(n) then [last] else [])
  }

  /** A tier list holds exactly the entries whose tier is `n`. */
  lemma {:induction false} TierListMembers(doc: Document, n: int)
    ensures forall e :: e in TierList(doc, n) <==> e in doc && e.1.tier == Some(n)
  {
    if |doc| > 0 {
      TierListMembers(doc[..|doc| - 1], n);
      assert doc == doc[..|doc| - 1] + [doc[|doc| - 1]];
    }
  }

  /** Filtering keeps the document order: the list of a concatenation is the
      concatenation of the lists. */
  lemma {:induction false} TierListAppend(a: Document, b: Document, n: int)
    ensures TierList(a + b, n) == TierList(a, n) + TierList(b, n)
    decreases |b|
  {
    if |b| == 0 {
      assert a + b == a;
    } else {
      assert (a + b)[..|a + b| - 1] == a + b[..|b| - 1];
      TierListAppend(a, b[..|b| - 1], n);
    }
  }

  /** A section without a tier is in none of the lists. */
  lemma UntieredIsUnlisted(doc: Document, e: (string, Section))
    requires e.1.tier.None?
    ensures forall n :: e !in TierList(doc, n)
  {
    forall n ensures e !in TierList(doc, n) {
      TierListMembers(doc, n);
    }
  }
}
