/** The section view of `components/TierSection.tsx`, the one the
    application renders: direct lookup, then the first two `-`-separated
    parts of the id as section and subsection. It has no example ids. */
module NaiveTierSection {
  import opened Strings
  import opened Docs
  import TierSection

  /** The arguments of its `renderSection` call. An empty subsection part is
      falsy in the item keys, so it is kept as `None`. */
  datatype NaiveView = NaiveView(parentId: string, target: TierSection.Target, subsectionId: Option<string>)

  datatype NaiveResolution = Found(view: NaiveView) | NotFound

  /** The component body before `renderSection`. */
  function NaiveResolve(doc: Document, sectionId: string): NaiveResolution {
    match Lookup(doc, sectionId)
    case Some(section) => Found(NaiveView(sectionId, TierSection.SectionTarget(section), None))
    case None =>
      var ids := Split(sectionId, '-');
      var parentId := ids[0];
      match Lookup(doc, parentId)
      case None => NotFound
      case Some(parent) =>
        if |ids| > 1 && ids[1] != "" then
          match Lookup(parent.subsections, ids[1])
          case None => NotFound
          case Some(sub) => Found(NaiveView(parentId, TierSection.SubsectionTarget(sub), Some(ids[1])))
        else Found(NaiveView(parentId, TierSection.SectionTarget(parent), None))
  }

  /** The same arguments as a `TierSection` view that is no example view. */
  function AsView(v: NaiveView): TierSection.View {
    TierSection.View(v.parentId, v.target, v.subsectionId, false, None)
  }

  /** The checklist keys of a found view, built as `TierSection` builds
      them. */
  function NaiveChecklistKeys(v: NaiveView): (keys: seq<string>)
    ensures |keys| == |v.target.Checklist()|
    ensures forall k :: 0 <= k < |keys| ==>
      keys[k] == ItemKey(v.parentId, v.subsectionId, v.target.Checklist()[k].id)
  {
    TierSection.ChecklistKeys(AsView(v))
  }

  /** The badge: only a section with a present, non-zero tier has one, and
      it is the badge `TierSection` shows for the same arguments. */
  function NaiveBadge(v: NaiveView): (b: Option<TierSection.Badge>)
    ensures b.Some? <==> v.target.SectionTarget? && v.target.section.tier.Some? && v.target.section.tier.value != 0
    ensures b == TierSection.TierBadge(AsView(v))
  {
    TierSection.BadgeFor(v.target.Tier())
  }

  /** A key of the document is found directly, hyphens notwithstanding. */
  lemma NaiveDirectLookupWins(doc: Document, i: nat)
    requires DistinctKeys(doc) && i < |doc|
    ensures NaiveResolve(doc, doc[i].0) == Found(NaiveView(doc[i].0, TierSection.SectionTarget(doc[i].1), None))
  {
    LookupEntry(doc, i);
  }

  /** Any id that is not a key is looked up through its first `-`-separated
      part, which has no `-`: so a section whose id has a `-` (such as
      `how-to-use`) is only ever reached by its exact id, and never as the
      parent of a subsection. */
  lemma NaiveParentHasNoHyphen(doc: Document, sectionId: string)
    requires !HasKey(doc, sectionId) && NaiveResolve(doc, sectionId).Found?
    ensures '-' !in NaiveResolve(doc, sectionId).view.parentId
    ensures NaiveResolve(doc, sectionId).view.parentId == Split(sectionId, '-')[0]
  {
  }

  /** The misses: the first part is not a key, or the second part is
      non-empty and not a subsection of it. */
  lemma NaiveNotFound(doc: Document, sectionId: string)
    ensures var ids := Split(sectionId, '-');
      NaiveResolve(doc, sectionId) == NotFound
      <==> !HasKey(doc, sectionId)
           && (!HasKey(doc, ids[0])
               || (|ids| > 1 && ids[1] != "" && !HasKey(Lookup(doc, ids[0]).value.subsections, ids[1])))
  {
  }

  /** The first two `-`-separated parts of an example-shaped id. */
  lemma ExampleIdParts(p: string, rest: string)
    requires '-' !in p
    ensures var ids := Split(p + "-example-" + rest, '-');
      |ids| > 1 && ids[0] == p && ids[1] == "example"
  {
    var e := "example";
    assert '-' !in e by {
      assert forall k :: 0 <= k < |e| ==> e[k] != '-';
    }
    assert "-example-" == ['-'] + e + ['-'];
    SplitAround(p, e, '-', rest);
  }

  /** There is no example addressing: `p-example-…` looks up a subsection
      named `example` of `p`. */
  lemma ExampleIdLooksUpSubsection(doc: Document, p: string, rest: string)
    requires '-' !in p && HasKey(doc, p) && !HasKey(doc, p + "-example-" + rest)
    ensures var parent := Lookup(doc, p).value;
      NaiveResolve(doc, p + "-example-" + rest)
      == match Lookup(parent.subsections, "example")
         case None => NotFound
         case Some(sub) => Found(NaiveView(p, TierSection.SubsectionTarget(sub), Some("example")))
  {
    ExampleIdParts(p, rest);
  }

  /** On ids that do not have the example shape the two components agree:
      the same view for the same lookups, and a miss exactly when the other
      reports its section or subsection as not found. */
  lemma ResolversAgree(doc: Document, sectionId: string)
    requires TierSection.ExampleMatch(sectionId).None?
    ensures match NaiveResolve(doc, sectionId)
      case Found(v) =>
        TierSection.Resolve(doc, sectionId) == TierSection.Render(AsView(v))
      case NotFound =>
        TierSection.Resolve(doc, sectionId) == TierSection.SectionNotFound
        || TierSection.Resolve(doc, sectionId) == TierSection.SubsectionNotFound
  {
    if '-' !in sectionId {
      TierSection.ParsePlainId(sectionId);
      SplitFirst(sectionId, '-');
      assert sectionId[..|sectionId|] == sectionId;
    }
  }
}
