/** The documentation data model: a document is an ordered list of
    (section identifier, section) entries, in the order `Object.entries`
    visits them; a section's subsections are ordered the same way. Optional
    arrays and maps of the source are empty sequences here, since every
    consumer treats an absent field like an empty one. */
module Docs {
  import opened Strings

  datatype ChecklistItem = ChecklistItem(id: string, title: string, description: string)

  datatype Example = Example(title: string, content: string)

  datatype Subsection = Subsection(
    title: string,
    content: string,
    checklist: seq<ChecklistItem>,
    examples: seq<Example>)

  datatype Section = Section(
    title: string,
    tier: Option<int>,
    content: string,
    checklist: seq<ChecklistItem>,
    examples: seq<Example>,
    subsections: seq<(string, Subsection)>)

  type Document = seq<(string, Section)>

  /** The progress map: composite item key to "checked". */
  type Progress = map<string, bool>

  /** Object keys are unique. */
  predicate DistinctKeys<V>(entries: seq<(string, V)>) {
    forall i, j :: 0 <= i < j < |entries| ==> entries[i].0 != entries[j].0
  }

  predicate HasKey<V>(entries: seq<(string, V)>, key: string) {
    exists i :: 0 <= i < |entries| && entries[i].0 == key
  }

  /** `obj[key]` on an object given by its entries. */
  function Lookup<V>(entries: seq<(string, V)>, key: string): (r: Option<V>)
    ensures r.Some? <==> HasKey(entries, key)
    ensures r.Some? ==> exists i :: 0 <= i < |entries| && entries[i] == (key, r.value)
  {
    if |entries| == 0 then None
    else if entries[0].0 == key then Some(entries[0].1)
    else
      var r := Lookup(entries[1..], key);
      assert r.Some? ==> exists i :: 0 <= i < |entries| - 1 && entries[1..][i] == (key, r.value);
      assert HasKey(entries[1..], key) ==> HasKey(entries, key) by {
        if HasKey(entries[1..], key) {
          var i :| 0 <= i < |entries| - 1 && entries[1..][i].0 == key;
          assert entries[i + 1].0 == key;
        }
      }
      assert HasKey(entries, key) ==> HasKey(entries[1..], key) by {
        if HasKey(entries, key) {
          var i :| 0 <= i < |entries| && entries[i].0 == key;
          assert i > 0 && entries[1..][i - 1].0 == key;
        }
      }
      r
  }

  /** With unique keys, the lookup of an entry's key finds that entry. */
  lemma {:induction false} LookupEntry<V>(entries: seq<(string, V)>, i: nat)
    requires DistinctKeys(entries) && i < |entries|
    ensures Lookup(entries, entries[i].0) == Some(entries[i].1)
  {
    if i > 0 {
      assert entries[0].0 != entries[i].0;
      assert DistinctKeys(entries[1..]) by {
        forall a, b | 0 <= a < b < |entries| - 1 ensures entries[1..][a].0 != entries[1..][b].0 {
          assert entries[a + 1].0 != entries[b + 1].0;
        }
      }
      assert entries[1..][i - 1] == entries[i];
      LookupEntry(entries[1..], i - 1);
    }
  }

  /** The composite progress key of a checklist item: `parent-item` for a
      section's own checklist, `parent-sub-item` for a subsection's. */
  function ItemKey(parentId: string, subsectionId: Option<string>, itemId: string): string {
    match subsectionId
    case None => parentId + "-" + itemId
    case Some(sub) => parentId + "-" + sub + "-" + itemId
  }

  /** The progress keys of a checklist, in checklist order. */
  function ItemKeys(parentId: string, subsectionId: Option<string>, items: seq<ChecklistItem>): (keys: seq<string>)
    ensures |keys| == |items|
    ensures forall k :: 0 <= k < |keys| ==> keys[k] == ItemKey(parentId, subsectionId, items[k].id)
  {
    seq(|items|, k requires 0 <= k < |items| => ItemKey(parentId, subsectionId, items[k].id))
  }

  /** The keys of the subsections' checklists, subsection by subsection. */
  function SubsectionKeys(sectionId: string, subsections: seq<(string, Subsection)>): seq<string> {
    if |subsections| == 0 then []
    else
      var last := subsections[|subsections| - 1];
      SubsectionKeys(sectionId, subsections[..|subsections| - 1])
      + ItemKeys(sectionId, Some(last.0), last.1.checklist)
  }

  /** Every progress key a section's view can toggle: its own checklist, then
      its subsections' checklists. */
  function SectionKeys(sectionId: string, section: Section): seq<string> {
    ItemKeys(sectionId, None, section.checklist) + SubsectionKeys(sectionId, section.subsections)
  }

  /** The number of checklist items of the subsections. */
  function SubsectionItemCount(subsections: seq<(string, Subsection)>): nat {
    if |subsections| == 0 then 0
    else SubsectionItemCount(subsections[..|subsections| - 1]) + |subsections[|subsections| - 1].1.checklist|
  }

  /** The number of checklist items of a section and its subsections. */
  function SectionItemCount(section: Section): nat {
    |section.checklist| + SubsectionItemCount(section.subsections)
  }

  /** The keys of one more subsection. */
  lemma SubsectionStep(sectionId: string, subsections: seq<(string, Subsection)>, j: nat)
    requires j < |subsections|
    ensures SubsectionKeys(sectionId, subsections[..j + 1])
         == SubsectionKeys(sectionId, subsections[..j])
            + ItemKeys(sectionId, Some(subsections[j].0), subsections[j].1.checklist)
  {
    assert subsections[..j + 1][..j] == subsections[..j];
  }

  /** The items of one more subsection. */
  lemma SubsectionCountStep(subsections: seq<(string, Subsection)>, j: nat)
    requires j < |subsections|
    ensures SubsectionItemCount(subsections[..j + 1])
         == SubsectionItemCount(subsections[..j]) + |subsections[j].1.checklist|
  {
    assert subsections[..j + 1][..j] == subsections[..j];
  }

  /** There is one key per item. */
  lemma {:induction false} SubsectionKeysCount(sectionId: string, subsections: seq<(string, Subsection)>)
    ensures |SubsectionKeys(sectionId, subsections)| == SubsectionItemCount(subsections)
  {
    if |subsections| > 0 {
      SubsectionKeysCount(sectionId, subsections[..|subsections| - 1]);
    }
  }

  lemma SectionKeysCount(sectionId: string, section: Section)
    ensures |SectionKeys(sectionId, section)| == SectionItemCount(section)
  {
    SubsectionKeysCount(sectionId, section.subsections);
  }

  /** A key names an item of a subsection. */
  predicate NamesSubsectionItem(sectionId: string, subsections: seq<(string, Subsection)>, x: string) {
    exists j, k :: 0 <= j < |subsections| && 0 <= k < |subsections[j].1.checklist|
      && x == ItemKey(sectionId, Some(subsections[j].0), subsections[j].1.checklist[k].id)
  }

  lemma {:induction false} SubsectionKeysSound(sectionId: string, subsections: seq<(string, Subsection)>, x: string)
    requires x in SubsectionKeys(sectionId, subsections)
    ensures NamesSubsectionItem(sectionId, subsections, x)
  {
    var n := |subsections| - 1;
    var init := subsections[..n];
    var last := subsections[n];
    var keys := ItemKeys(sectionId, Some(last.0), last.1.checklist);
    if x in keys {
      var k :| 0 <= k < |keys| && keys[k] == x;
      assert x == ItemKey(sectionId, Some(subsections[n].0), subsections[n].1.checklist[k].id);
    } else {
      SubsectionKeysSound(sectionId, init, x);
      var j, k :| 0 <= j < |init| && 0 <= k < |init[j].1.checklist|
        && x == ItemKey(sectionId, Some(init[j].0), init[j].1.checklist[k].id);
      assert init[j] == subsections[j];
    }
  }

  lemma {:induction false} SubsectionKeysComplete(sectionId: string, subsections: seq<(string, Subsection)>, j: nat, k: nat)
    requires j < |subsections| && k < |subsections[j].1.checklist|
    ensures ItemKey(sectionId, Some(subsections[j].0), subsections[j].1.checklist[k].id) in SubsectionKeys(sectionId, subsections)
  {
    var n := |subsections| - 1;
    var init := subsections[..n];
    if j < n {
      assert init[j] == subsections[j];
      SubsectionKeysComplete(sectionId, init, j, k);
    } else {
      var keys := ItemKeys(sectionId, Some(subsections[n].0), subsections[n].1.checklist);
      assert keys[k] == ItemKey(sectionId, Some(subsections[j].0), subsections[j].1.checklist[k].id);
    }
  }

  /** A key is a subsection key exactly when it names an item of one of the
      subsections. */
  lemma SubsectionKeysSpec(sectionId: string, subsections: seq<(string, Subsection)>, x: string)
    ensures x in SubsectionKeys(sectionId, subsections) <==> NamesSubsectionItem(sectionId, subsections, x)
  {
    if x in SubsectionKeys(sectionId, subsections) {
      SubsectionKeysSound(sectionId, subsections, x);
    }
    if NamesSubsectionItem(sectionId, subsections, x) {
      var j, k :| 0 <= j < |subsections| && 0 <= k < |subsections[j].1.checklist|
        && x == ItemKey(sectionId, Some(subsections[j].0), subsections[j].1.checklist[k].id);
      SubsectionKeysComplete(sectionId, subsections, j, k);
    }
  }

  /** A key is a section key exactly when it names an item of the section's
      own checklist (`sid-item`) or of one of its subsections
      (`sid-sub-item`). */
  lemma SectionKeysSpec(sectionId: string, section: Section, x: string)
    ensures x in SectionKeys(sectionId, section)
      <==> ((exists k :: 0 <= k < |section.checklist| && x == ItemKey(sectionId, None, section.checklist[k].id))
            || NamesSubsectionItem(sectionId, section.subsections, x))
  {
    SubsectionKeysSpec(sectionId, section.subsections, x);
    var own := ItemKeys(sectionId, None, section.checklist);
    if x in own {
      var k :| 0 <= k < |own| && own[k] == x;
    }
  }

  /** Absent keys read as unchecked (`!!progress[key]`). */
  function IsChecked(progress: Progress, key: string): bool {
    key in progress && progress[key]
  }
}
