/** The section view of `src/components/TierSection.tsx`: how an id is
    parsed, how it is resolved against the document (direct lookup, then an
    example, then a subsection, then the parent), and what the resolved
    view shows: checklist keys, the tier badge and the highlighted example. */
module TierSection {
  import opened Strings
  import opened Docs

  // =====================================================================
  // parseSectionId

  datatype ParsedId = ParsedId(
    parentId: string,
    subsectionId: Option<string>,
    isExample: bool,
    exampleIndex: Option<nat>)

  /** The length of the longest suffix of `s` made of decimal digits. */
  function DigitRun(s: string): (d: nat)
    ensures d <= |s|
    ensures forall k :: |s| - d <= k < |s| ==> IsDigit(s[k])
    ensures d < |s| ==> !IsDigit(s[|s| - d - 1])
  {
    if |s| == 0 || !IsDigit(s[|s| - 1]) then 0
    else
      var init := s[..|s| - 1];
      var d := DigitRun(init);
      assert forall k :: |s| - 1 - d <= k < |s| - 1 ==> s[k] == init[k];
      1 + d
  }

  predicate NoLineTerminator(s: string) {
    forall k :: 0 <= k < |s| ==> !IsLineTerminator(s[k])
  }

  /** `sid` has the shape `^(.+)-example-(\d+)$` with the groups `p` and
      `ds`: `.` matches any character but a line terminator, and `\d` the
      ASCII digits. */
  predicate IsExampleSplit(sid: string, p: string, ds: string) {
    sid == p + "-example-" + ds && |p| >= 1 && NoLineTerminator(p) && |ds| >= 1 && AllDigits(ds)
  }

  /** `sid.match(/^(.+)-example-(\d+)$/)`, as its two groups. The digits
      group is the whole run of trailing digits, since the character before
      it is `-`; the greedy `.+` then has no choice left. */
  function ExampleMatch(sid: string): Option<(string, string)> {
    var d := DigitRun(sid);
    var n := |sid| - d;
    if d > 0 && n >= 10 && sid[n - 9..n] == "-example-" && NoLineTerminator(sid[..n - 9])
    then Some((sid[..n - 9], sid[n..]))
    else None
  }

  /** `parseSectionId`: an example id, else the first two `-`-separated
      parts, else the whole id. */
  function ParseSectionId(sectionId: string): ParsedId {
    match ExampleMatch(sectionId)
    case Some((p, ds)) => ParsedId(p, None, true, Some(ParseDecimal(ds)))
    case None =>
      var parts := Split(sectionId, '-');
      if |parts| > 1 then ParsedId(parts[0], Some(parts[1]), false, None)
      else ParsedId(sectionId, None, false, None)
  }

  lemma {:induction false} DigitRunAfter(x: string, ds: string)
    requires AllDigits(ds) && |x| > 0 && !IsDigit(x[|x| - 1])
    ensures DigitRun(x + ds) == |ds|
    decreases |ds|
  {
    var s := x + ds;
    if |ds| == 0 {
      assert s == x;
    } else {
      assert s[..|s| - 1] == x + ds[..|ds| - 1];
      DigitRunAfter(x, ds[..|ds| - 1]);
    }
  }

  /** The groups of a match rebuild the id around `-example-`. */
  lemma ExampleMatchSound(sid: string)
    ensures ExampleMatch(sid).Some? ==> IsExampleSplit(sid, ExampleMatch(sid).value.0, ExampleMatch(sid).value.1)
  {
    if ExampleMatch(sid).Some? {
      var n := |sid| - DigitRun(sid);
      assert AllDigits(sid[n..]) by {
        assert forall k :: 0 <= k < |sid| - n ==> sid[n..][k] == sid[n + k];
      }
      assert sid == sid[..n - 9] + sid[n - 9..n] + sid[n..];
    }
  }

  /** Every id of the shape `p-example-ds` matches, with exactly those
      groups. */
  lemma ExampleMatchComplete(sid: string, p: string, ds: string)
    requires IsExampleSplit(sid, p, ds)
    ensures ExampleMatch(sid) == Some((p, ds))
  {
    var x := p + "-example-";
    assert sid == x + ds;
    DigitRunAfter(x, ds);
    var n := |sid| - |ds|;
    assert sid[..n] == x;
    assert x[n - 9..] == "-example-";
    assert sid[n - 9..n] == x[n - 9..];
    assert sid[..n - 9] == x[..n - 9] == p;
    assert sid[n..] == ds;
  }

  /** The example pattern matches exactly the ids of the shape
      `p-example-ds`, and its groups are that `p` and that `ds`; so the
      split, when there is one, is unique. */
  lemma ExampleMatchIff(sid: string, p: string, ds: string)
    ensures ExampleMatch(sid) == Some((p, ds)) <==> IsExampleSplit(sid, p, ds)
  {
    ExampleMatchSound(sid);
    if IsExampleSplit(sid, p, ds) {
      ExampleMatchComplete(sid, p, ds);
    }
  }

  /** A matching id has a `-` right after its first group and another one
      eight characters later. */
  lemma ExampleHyphens(sid: string)
    ensures ExampleMatch(sid).Some? ==>
      var q := ExampleMatch(sid).value.0;
      |q| + 9 < |sid| && sid[|q|] == '-' && sid[|q| + 8] == '-' && sid[|q| + 1] == 'e'
  {
    ExampleMatchSound(sid);
    if ExampleMatch(sid).Some? {
      var (q, ds) := ExampleMatch(sid).value;
      var x := q + "-example-";
      assert sid == x + ds;
      assert sid[|q|] == x[|q|] && sid[|q| + 8] == x[|q| + 8] && sid[|q| + 1] == x[|q| + 1];
    }
  }

  /** An id ending in `-` never has the example shape. */
  lemma TrailingHyphenIsNoExample(p: string)
    ensures ExampleMatch(p + "-").None?
  {
    assert DigitRun(p + "-") == 0;
  }

  /** Nor does an id with a single `-`. */
  lemma OneHyphenIsNoExample(a: string, b: string)
    requires '-' !in a && '-' !in b
    ensures ExampleMatch(a + "-" + b).None?
  {
    var id := a + "-" + b;
    ExampleHyphens(id);
    forall m | 0 <= m < |id| && m != |a| ensures id[m] != '-' {
      if m < |a| {
        assert id[m] == a[m];
      } else if m > |a| {
        assert id[m] == b[m - |a| - 1];
      }
    }
  }

  /** An example id parses to its prefix and the decimal value of its
      digits. */
  lemma ParseExampleId(p: string, ds: string)
    requires |p| >= 1 && NoLineTerminator(p) && |ds| >= 1 && AllDigits(ds)
    ensures ParseSectionId(p + "-example-" + ds) == ParsedId(p, None, true, Some(ParseDecimal(ds)))
  {
    ExampleMatchIff(p + "-example-" + ds, p, ds);
  }

  /** Any other id with a `-` parses to the text before its first `-` and
      the text between its first and second `-`; whatever follows is
      dropped. */
  lemma ParseHyphenatedId(sid: string)
    requires ExampleMatch(sid).None? && '-' in sid
    ensures var r := ParseSectionId(sid);
      && !r.isExample && r.exampleIndex.None? && r.subsectionId.Some?
      && '-' !in r.parentId && '-' !in r.subsectionId.value
      && exists rest :: (sid == r.parentId + "-" + r.subsectionId.value + rest && (rest == "" || rest[0] == '-'))
  {
    var rest := SplitShape(sid, '-');
    var parts := Split(sid, '-');
    assert '-' !in parts[0] && '-' !in parts[1];
    assert ParseSectionId(sid) == ParsedId(parts[0], Some(parts[1]), false, None);
  }

  /** An id without `-` parses to itself. */
  lemma ParsePlainId(sid: string)
    requires '-' !in sid
    ensures ParseSectionId(sid) == ParsedId(sid, None, false, None)
  {
    ExampleHyphens(sid);
    SplitFirst(sid, '-');
  }

  // =====================================================================
  // Resolution

  /** `section: any` of `renderSection`: a section or a subsection. */
  datatype Target = SectionTarget(section: Section) | SubsectionTarget(subsection: Subsection)
  {
    /** The checklist and examples, read off either kind. */
    function Checklist(): seq<ChecklistItem> {
      match this
      case SectionTarget(s) => s.checklist
      case SubsectionTarget(s) => s.checklist
    }

    function Examples(): seq<Example> {
      match this
      case SectionTarget(s) => s.examples
      case SubsectionTarget(s) => s.examples
    }

    /** Subsections have no tier. */
    function Tier(): Option<int> {
      match this
      case SectionTarget(s) => s.tier
      case SubsectionTarget(_) => None
    }
  }

  /** The arguments of a `renderSection` call. */
  datatype View = View(
    parentId: string,
    target: Target,
    subsectionId: Option<string>,
    isExample: bool,
    exampleIndex: Option<nat>)

  datatype Resolution = Render(view: View) | SectionNotFound | ExampleNotFound | SubsectionNotFound

  /** The component body before `renderSection`: direct lookup, then the
      parsed id. An empty subsection part is falsy and falls through to the
      parent. */
  function Resolve(doc: Document, sectionId: string): Resolution {
    match Lookup(doc, sectionId)
    case Some(section) => Render(View(sectionId, SectionTarget(section), None, false, None))
    case None =>
      var parsed := ParseSectionId(sectionId);
      match Lookup(doc, parsed.parentId)
      case None => SectionNotFound
      case Some(parent) =>
        if parsed.isExample && parsed.exampleIndex.Some? then
          if parsed.exampleIndex.value < |parent.examples|
          then Render(View(parsed.parentId, SectionTarget(parent), None, true, parsed.exampleIndex))
          else ExampleNotFound
        else if parsed.subsectionId.Some? && parsed.subsectionId.value != "" then
          match Lookup(parent.subsections, parsed.subsectionId.value)
          case None => SubsectionNotFound
          case Some(sub) => Render(View(parsed.parentId, SubsectionTarget(sub), parsed.subsectionId, false, None))
        else Render(View(parsed.parentId, SectionTarget(parent), None, false, None))
  }

  /** A key of the document resolves to its section, hyphens and
      `-example-` notwithstanding. */
  lemma DirectLookupWins(doc: Document, i: nat)
    requires DistinctKeys(doc) && i < |doc|
    ensures Resolve(doc, doc[i].0) == Render(View(doc[i].0, SectionTarget(doc[i].1), None, false, None))
  {
    LookupEntry(doc, i);
  }

  /** The three failures, each exactly when its lookup misses. */
  lemma ResolveFailures(doc: Document, sectionId: string)
    ensures var p := ParseSectionId(sectionId);
      && (Resolve(doc, sectionId) == SectionNotFound
          <==> !HasKey(doc, sectionId) && !HasKey(doc, p.parentId))
      && (Resolve(doc, sectionId) == ExampleNotFound
          <==> !HasKey(doc, sectionId) && HasKey(doc, p.parentId) && p.isExample
               && p.exampleIndex.value >= |Lookup(doc, p.parentId).value.examples|)
      && (Resolve(doc, sectionId) == SubsectionNotFound
          <==> !HasKey(doc, sectionId) && HasKey(doc, p.parentId) && !p.isExample
               && p.subsectionId.Some? && p.subsectionId.value != ""
               && !HasKey(Lookup(doc, p.parentId).value.subsections, p.subsectionId.value))
  {
  }

  /** An id `p-` or `p--…` that is no example id has an empty subsection
      part and shows the parent section `p`. */
  lemma EmptySubsectionShowsParent(doc: Document, p: string, rest: string)
    requires '-' !in p && (rest == "" || rest[0] == '-') && HasKey(doc, p)
    requires ExampleMatch(p + "-" + rest).None? && !HasKey(doc, p + "-" + rest)
    ensures Resolve(doc, p + "-" + rest)
      == Render(View(p, SectionTarget(Lookup(doc, p).value), None, false, None))
  {
    var sid := p + "-" + rest;
    assert sid[|p|] == '-';
    SplitFirst(sid, '-');
    SplitSecond(sid, '-');
    var i := CharIndex(sid, '-');
    assert i == |p| by {
      forall k | 0 <= k < |p| ensures sid[k] != '-' {
        assert sid[k] == p[k];
      }
    }
    assert sid[..i] == p;
    var tail := sid[i + 1..];
    assert tail == rest;
    assert CharIndex(tail, '-') == 0;
  }

  /** Hence `p-`, for a section `p` without `-` that is not itself a key
      `p-`, shows `p`. */
  lemma TrailingHyphenShowsParent(doc: Document, p: string)
    requires '-' !in p && HasKey(doc, p) && !HasKey(doc, p + "-")
    ensures Resolve(doc, p + "-") == Render(View(p, SectionTarget(Lookup(doc, p).value), None, false, None))
  {
    TrailingHyphenIsNoExample(p);
    assert p + "-" + "" == p + "-";
    EmptySubsectionShowsParent(doc, p, "");
  }

  // =====================================================================
  // What a view shows

  /** The checklist keys of a rendered view. */
  function ChecklistKeys(v: View): (keys: seq<string>)
    ensures |keys| == |v.target.Checklist()|
    ensures forall k :: 0 <= k < |keys| ==>
      keys[k] == ItemKey(v.parentId, v.subsectionId, v.target.Checklist()[k].id)
  {
    ItemKeys(v.parentId, v.subsectionId, v.target.Checklist())
  }

  /** Which examples carry the `highlighted-example` class. */
  function HighlightedExamples(v: View): seq<bool> {
    var examples := v.target.Examples();
    seq(|examples|, k requires 0 <= k < |examples| => v.isExample && v.exampleIndex == Some(k))
  }

  /** `getTierBadgeClass`. */
  function TierBadgeClass(tier: int): string {
    if tier == 1 then "tier1" else if tier == 2 then "tier2" else if tier == 3 then "tier3" else ""
  }

  /** The tier's name in the badge text. */
  function TierName(tier: int): string {
    if tier == 1 then "Foundations" else if tier == 2 then "Typical Components" else "Bleeding Edge"
  }

  datatype Badge = Badge(tier: int, cssClass: string, name: string)

  /** `section.tier && …`: a badge for a present, non-zero tier. */
  function BadgeFor(tier: Option<int>): (b: Option<Badge>)
    ensures b.Some? <==> tier.Some? && tier.value != 0
    ensures b.Some? ==> b.value == Badge(tier.value, TierBadgeClass(tier.value), TierName(tier.value))
  {
    match tier
    case None => None
    case Some(t) => if t == 0 then None else Some(Badge(t, TierBadgeClass(t), TierName(t)))
  }

  function TierBadge(v: View): Option<Badge> {
    BadgeFor(v.target.Tier())
  }

  /** Tier 1 is Foundations, 2 Typical Components and every other
      non-zero tier Bleeding Edge; tiers 1, 2 and 3 have the classes
      `tier1`, `tier2` and `tier3`, and no other tier has a class. */
  lemma TierBadgeSpec(tier: Option<int>)
    requires BadgeFor(tier).Some?
    ensures var b := BadgeFor(tier).value;
      && (b.name == "Foundations" <==> b.tier == 1)
      && (b.name == "Typical Components" <==> b.tier == 2)
      && (b.name == "Bleeding Edge" <==> b.tier != 1 && b.tier != 2)
      && b.tier == tier.value
      && (b.tier == 1 ==> b.cssClass == "tier1")
      && (b.tier == 2 ==> b.cssClass == "tier2")
      && (b.tier == 3 ==> b.cssClass == "tier3")
      && (b.cssClass == "" <==> b.tier !in {1, 2, 3})
  {
  }

  /** A rendered example view highlights exactly its example, which
      exists. */
  lemma ExampleViewHighlightsIt(doc: Document, sectionId: string)
    requires Resolve(doc, sectionId).Render? && Resolve(doc, sectionId).view.isExample
    ensures var v := Resolve(doc, sectionId).view;
      && v.exampleIndex.Some? && v.exampleIndex.value < |v.target.Examples()|
      && v.target.SectionTarget?
      && (forall k :: 0 <= k < |HighlightedExamples(v)| ==>
            (HighlightedExamples(v)[k] <==> k == v.exampleIndex.value))
  {
  }

  /** The id of an example in the search results opens that section with
      that example highlighted, unless it is itself a key of the document. */
  lemma ExampleIdResolves(doc: Document, i: nat, k: nat)
    requires DistinctKeys(doc) && i < |doc|
    requires |doc[i].0| >= 1 && NoLineTerminator(doc[i].0) && k < |doc[i].1.examples|
    requires !HasKey(doc, doc[i].0 + "-example-" + NatToString(k))
    ensures Resolve(doc, doc[i].0 + "-example-" + NatToString(k))
      == Render(View(doc[i].0, SectionTarget(doc[i].1), None, true, Some(k)))
  {
    ParseExampleId(doc[i].0, NatToString(k));
    ParsePrinted(k);
    LookupEntry(doc, i);
  }

  /** The id of a subsection in the search results opens that subsection
      when neither the section id nor the subsection id contains `-`. */
  lemma SubsectionIdResolves(doc: Document, i: nat, j: nat)
    requires DistinctKeys(doc) && i < |doc| && DistinctKeys(doc[i].1.subsections) && j < |doc[i].1.subsections|
    requires '-' !in doc[i].0 && '-' !in doc[i].1.subsections[j].0 && doc[i].1.subsections[j].0 != ""
    requires !HasKey(doc, doc[i].0 + "-" + doc[i].1.subsections[j].0)
    ensures var (sid, subid) := (doc[i].0, doc[i].1.subsections[j].0);
      Resolve(doc, sid + "-" + subid)
      == Render(View(sid, SubsectionTarget(doc[i].1.subsections[j].1), Some(subid), false, None))
  {
    var sid := doc[i].0;
    var subid := doc[i].1.subsections[j].0;
    var id := sid + "-" + subid;
    SplitJoin([sid, subid], '-');
    assert Join([sid, subid], '-') == id;
    OneHyphenIsNoExample(sid, subid);
    LookupEntry(doc, i);
    LookupEntry(doc[i].1.subsections, j);
  }

  /** A subsection of a section whose id contains `-` can never be
      reached through its search id `sid-subid` (unless that id has the
      example shape): the lookup goes to the text before the first `-`
      instead. */
  lemma HyphenatedSectionMissesSubsection(sid: string, subid: string)
    requires '-' in sid && ExampleMatch(sid + "-" + subid).None?
    ensures ParseSectionId(sid + "-" + subid).parentId != sid
  {
    var id := sid + "-" + subid;
    SplitFirst(id, '-');
    var c := CharIndex(id, '-');
    assert c < |sid| by {
      var m :| 0 <= m < |sid| && sid[m] == '-';
      assert id[m] == '-';
    }
    assert ParseSectionId(id).parentId == id[..c];
  }
}
