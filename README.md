# Generative AI documentation checklist — a Dafny model

The application is a React browser for a documentation checklist about generative AI use in research. A document is an
ordered set of sections. Each section has a title, HTML content, an optional tier (1, 2 or 3), an optional checklist,
optional examples and optional subsections. Users do four things with it:

- search across sections, subsections and examples;
- open a section by a composite identifier (`sid`, `sid-subid` or `sid-example-N`);
- tick checklist items, whose state lives in a string-to-boolean progress map;
- walk through an eight-step guided workflow.

This project models the logic behind those actions. Everything is stated on values except the parts that mutate
state: the progress map, the search state and the workflow's step index live in classes.

| module | file | models |
|---|---|---|
| `Strings` | strings.dfy | Lower-casing, `trim`, `indexOf`/`includes`, `split`/`join`, decimal printing and parsing |
| `Docs` | docs.dfy | The data model of `types/index.ts`, object lookup by key, and checklist progress keys |
| `StableSort` | stable_sort.dfy | The stable descending sort behind `results.sort((a, b) => b.matchCount - a.matchCount)` |
| `SearchUtils` | search_utils.dfy | `extractTextFromHtml`, `findSnippet`, `countMatches`, `enhancedSearch`, `highlightSearchTerms` |
| `TierSection` | tier_section.dfy | `parseSectionId`, the resolution order and the rendered view of `src/components/TierSection.tsx` |
| `NaiveTierSection` | naive_tier_section.dfy | The `split('-')` resolver of `components/TierSection.tsx`, which is the one the application renders |
| `App` | app.dfy | Toggle, reset, overall progress and the application-level search of `src/App.tsx` |
| `Navigation` | navigation.dfy | The per-section status, the progress icon and the tier lists of `components/Navigation.tsx` |
| `GuidedWorkflow` | guided_workflow.dfy | The step list and the `currentStep` stepper of `src/components/GuidedWorkflow.tsx` |

The modelling choices:

- A document, and a section's subsections, are sequences of `(id, value)` pairs in `Object.entries` order.
  `Docs.Lookup` plays the part of `obj[key]`.
- An absent `checklist`, `examples` or `subsections` is modelled as empty, because every use in the code treats the two
  the same way.
- Loops in the code become `while` or `for` loops in Dafny, with invariants. Each loop is proved equal to a
  specification function, and the properties are proved about that function.
- Regular expressions are escaped in the code before use, so they always match literally. They are modelled as literal,
  case-insensitive, non-overlapping scans from left to right.

Three behaviours of the code are modelled as written:

- The code renders a miss as a "not found" view. It does not redirect to a landing section.
- An id such as `abc-` has an empty subsection part, and it renders the parent section.
- The application renders the naive resolver, which has no example addressing. Both resolvers are modelled, and
  `NaiveTierSection.ResolversAgree` relates them.

Two properties are the main results:

- The search result set is sound and complete. Every matching unit appears exactly once, sorted stably by match count.
- A hyphenated section id can never be the parent of a subsection lookup.

The overall percentage is not bounded by itself. It counts every true entry of the progress map, so stale keys can push
it past 100 (`App.PercentOverflows`). `App.ProgressInRange` states the condition that keeps it at most 100, and the
class methods preserve that condition. Every checkbox a section view or a guided step renders toggles a key that the
total counts (`App.ViewKeysAreDocKeys`, `App.NaiveViewKeysAreDocKeys`, `App.StepKeysAreDocKeys`).

## Model

| member | source | states |
|---|---|---|
| SearchUtils.ExtractTextFromHtml | src/utils/searchUtils.ts:20-26 | The flattening function: tags replaced by spaces, whitespace runs collapsed, then trimmed; its properties are the next five rows |
| SearchUtils.FlattenIsFlat | src/utils/searchUtils.ts:20-26 | The flattened text has no complete `<…>` tag, no two adjacent whitespace characters, only plain spaces and no leading or trailing whitespace |
| SearchUtils.FlattenIdempotent | src/utils/searchUtils.ts:20-26 | Flattening twice gives the same text as flattening once |
| SearchUtils.FlatIsFixpoint | src/utils/searchUtils.ts:20-26 | Text that is already flat is left unchanged by flattening |
| SearchUtils.StripTagsHasNoTag | src/utils/searchUtils.ts:23 | After tags are replaced by spaces, no `<` is followed anywhere later by a `>` |
| SearchUtils.CollapseSpacing | src/utils/searchUtils.ts:24 | After collapsing, every whitespace run is a single plain space |
| SearchUtils.Snippet | src/utils/searchUtils.ts:31-54 | The snippet function the method is proved equal to; `SnippetWithoutMatch`, `SnippetWithMatch` and `SnippetWindow` state what it returns |
| SearchUtils.FindSnippet | src/utils/searchUtils.ts:31-54 | The method with its two widening loops and its `+=` building computes the snippet function |
| SearchUtils.FindWindow | src/utils/searchUtils.ts:39-45 | The half-length window, clamped to the text and widened by both loops, is the window function's value |
| SearchUtils.WidenStart | src/utils/searchUtils.ts:44 | The loop stops at the nearest break at or before the start, or at 0 |
| SearchUtils.WidenEnd | src/utils/searchUtils.ts:45 | The loop stops at the nearest break at or after the end, or at the text's end |
| SearchUtils.FrameWindow | src/utils/searchUtils.ts:48-53 | The built string is the trimmed window, with `...` before it iff the start is cut off and after it iff the end is cut off |
| SearchUtils.SnippetWindow | src/utils/searchUtils.ts:39-45 | The window contains the match, and each edge is the text's edge or sits on `' '` or `'.'` |
| SearchUtils.SnippetWithoutMatch | src/utils/searchUtils.ts:36 | With no match, the snippet is the first min(length, \|text\|) characters followed by `...`, even for short text |
| SearchUtils.SnippetWithMatch | src/utils/searchUtils.ts:35-53 | With a match, the window contains the first occurrence and ends on breaks, no nearer break was skipped, and the ellipses appear exactly where text was cut off |
| SearchUtils.CountOcc | src/utils/searchUtils.ts:59-63 | The non-overlapping, left-to-right occurrence count; `MatchPositionsCount` proves it is the number of positions the scan finds |
| SearchUtils.CountMatches | src/utils/searchUtils.ts:59-63 | The count of case-insensitive occurrences of the term; `CountMatchesZeroIffAbsent` and `CountOccFits` bound it |
| SearchUtils.CountMatchesZeroIffAbsent | src/utils/searchUtils.ts:59-63 | For a non-empty term the count is 0 exactly when the term does not occur, ignoring case |
| SearchUtils.CountOccFits | src/utils/searchUtils.ts:59-63 | Non-overlapping occurrences fit in the text: count times term length is at most the text length |
| SearchUtils.QueryTerms | src/utils/searchUtils.ts:75 | The search terms of a query; `QueryTermsSpec`, `LongTermsAppend` and `LongTermsSingle` state which parts are kept and in what order |
| SearchUtils.QueryTermsSpec | src/utils/searchUtils.ts:75 | The terms are exactly the parts of the lower-cased query split on `' '` that have length at least 2; none contains a space |
| SearchUtils.LongTermsAppend | src/utils/searchUtils.ts:75 | The filter distributes over concatenation, so it keeps the parts in their order, duplicates included |
| SearchUtils.LongTermsSingle | src/utils/searchUtils.ts:75 | A single part is kept exactly when it is longer than one character |
| SearchUtils.ShortQueryFindsNothing | src/utils/searchUtils.ts:72-75 | A query whose parts are all at most one character long finds nothing |
| SearchUtils.Search | src/utils/searchUtils.ts:68-184 | The search function: `[]` for a blank query, otherwise the hits sorted by match count; `SearchSpec` and `HitsSoundComplete` state what it returns |
| SearchUtils.EnhancedSearch | src/utils/searchUtils.ts:68-184 | The nested loops are equal to the search function: `[]` for a blank query, otherwise the hits sorted by match count |
| SearchUtils.ExamineDocument | src/utils/searchUtils.ts:78-180 | The loop over sections collects the hits of all units in visiting order |
| SearchUtils.ExamineSection | src/utils/searchUtils.ts:78-179 | One section contributes its own hit, then its subsections' hits, then its examples' hits |
| SearchUtils.ExamineSubsections | src/utils/searchUtils.ts:110-143 | The subsection loop collects the hits of the subsection units, with ids `sid-subid` |
| SearchUtils.ExamineExamples | src/utils/searchUtils.ts:146-179 | The example loop collects the hits of the example units, with ids `sid-example-i` |
| SearchUtils.PickBestTerm | src/utils/searchUtils.ts:89-98 | The `bestTerm`/`maxMatches` loop computes the best-term function |
| SearchUtils.BestTerm | src/utils/searchUtils.ts:89-98 | The count is the largest body count of any term, and the term is the earliest one reaching it, or the first term when every count is 0 |
| SearchUtils.Examine | src/utils/searchUtils.ts:79-107 | One unit yields its hit exactly when it matches |
| SearchUtils.HitsSoundComplete | src/utils/searchUtils.ts:78-180 | There is one hit per matching unit: every matching unit's hit is present and every hit comes from a matching unit |
| SearchUtils.SearchSpec | src/utils/searchUtils.ts:72-183 | The results are exactly the matching units' hits, sorted by match count descending, with equal counts kept in discovery order |
| SearchUtils.HitSpec | src/utils/searchUtils.ts:89-106 | A hit carries the unit's id, tag, title and parent title, and its count and snippet come from the earliest term with the maximal count |
| SearchUtils.TitleOnlyHit | src/utils/searchUtils.ts:83-98 | A unit matched only by its title has count 0 and a snippet built for the first term |
| SearchUtils.EntryTags | src/utils/searchUtils.ts:100-176 | A unit is tagged `section` iff it has no parent title, and a parent title is always some section's title |
| StableSort.SortDescIsSorted | src/utils/searchUtils.ts:183 | The sort orders by key, descending |
| StableSort.SortDescIsPermutation | src/utils/searchUtils.ts:183 | The sort is a permutation of its input |
| StableSort.SortDescIsStable | src/utils/searchUtils.ts:183 | For every key, the elements with that key keep their relative order |
| SearchUtils.Highlighted | src/utils/searchUtils.ts:189-201 | The highlighting function, one `forEach` step per term; `HighlightNextTerm` states where each step puts its tags |
| SearchUtils.HighlightSearchTerms | src/utils/searchUtils.ts:189-201 | The loop applies the terms in order, each to the previous result, with an empty list leaving the text unchanged |
| SearchUtils.ShortTermsKeepText | src/utils/searchUtils.ts:194 | Terms of length at most 1 are skipped, so a list of them leaves the text unchanged |
| SearchUtils.HighlightOneTerm | src/utils/searchUtils.ts:194-196 | One term wraps exactly the occurrences the scan finds, adds 13 characters per occurrence, and removing the markup gives back the original text, casing included |
| SearchUtils.HighlightNextTerm | src/utils/searchUtils.ts:193-198 | Each term longer than one character wraps, in the previous result, exactly the occurrences the scan finds there |
| SearchUtils.MarkAll | src/utils/searchUtils.ts:195-196 | The `replace(/(term)/gi, '<mark>$1</mark>')` scan; `MarkAllEnclosesMatches` states where its tags go |
| SearchUtils.MarkAllEnclosesMatches | src/utils/searchUtils.ts:195-196 | The replacement is the text with `<mark>` and `</mark>` around each position the scan finds, in the text's own casing, and every other character copied |
| SearchUtils.MatchPositionsSound | src/utils/searchUtils.ts:195-196 | Every position found is an occurrence of the term, ignoring case, and the occurrences do not overlap |
| SearchUtils.MatchPositionsComplete | src/utils/searchUtils.ts:195-196 | Every occurrence is found or overlaps one that is found |
| SearchUtils.MatchPositionsCount | src/utils/searchUtils.ts:59-63 | The number of positions found is the occurrence count that `countMatches` reports |
| SearchUtils.MarkAllSkips | src/utils/searchUtils.ts:195-196 | Where the term does not start, ignoring case, one character is copied and the scan moves on by one |
| SearchUtils.MarkAllOpens | src/utils/searchUtils.ts:195-196 | An occurrence at the front is wrapped in its own casing and the scan resumes after it |
| SearchUtils.MarkAllNoopIffAbsent | src/utils/searchUtils.ts:195-196 | Wrapping leaves the text unchanged exactly when the term does not occur |
| SearchUtils.MarkAllUnmark | src/utils/searchUtils.ts:195-196 | For markup-free text, removing the inserted `<mark>`/`</mark>` gives back the text |
| SearchUtils.MarkupIsMatched | src/utils/searchUtils.ts:193-198 | An illustration of `HighlightNextTerm` on one input: a later term `mark` is wrapped inside an existing `<mark>` tag |
| TierSection.ExampleMatch | src/components/TierSection.tsx:27 | The match of `^(.+)-example-(\d+)$` with its two groups; `ExampleMatchIff` states exactly which ids match and with which groups |
| TierSection.ParseSectionId | src/components/TierSection.tsx:20-55 | The parser: example form first, then the first two `-`-segments, then the id itself; `ParseExampleId`, `ParseHyphenatedId` and `ParsePlainId` state each case |
| TierSection.ExampleMatchIff | src/components/TierSection.tsx:27 | An id matches `^(.+)-example-(\d+)$` with groups (p, ds) exactly when it is p + `-example-` + ds, with p non-empty and free of line terminators and ds a non-empty run of decimal digits |
| TierSection.ParseExampleId | src/components/TierSection.tsx:27-35 | An example-shaped id parses to its prefix as the parent, with the decimal value of the digits as the index |
| TierSection.ParseHyphenatedId | src/components/TierSection.tsx:38-46 | Any other hyphenated id parses to the text before the first `-` and the text between the first and second `-`; the rest is dropped |
| TierSection.ParsePlainId | src/components/TierSection.tsx:49-54 | A hyphen-free id parses to itself as the parent |
| TierSection.Resolve | src/components/TierSection.tsx:63-129 | The resolution order of the component body; the next four rows state its outcomes |
| TierSection.DirectLookupWins | src/components/TierSection.tsx:64-73 | A key of the document resolves directly to its section, whatever its shape |
| TierSection.ResolveFailures | src/components/TierSection.tsx:81-122 | The three misses happen exactly when the parent is missing, the example index has no entry, or the subsection key is missing |
| TierSection.EmptySubsectionShowsParent | src/components/TierSection.tsx:113-129 | A non-example id whose subsection part is empty renders the parent section |
| TierSection.TrailingHyphenShowsParent | src/components/TierSection.tsx:113-129 | `p-` renders section `p` |
| TierSection.HighlightedExamples | src/components/TierSection.tsx:189-193 | Which examples carry the `highlighted-example` class; `ExampleViewHighlightsIt` states which |
| TierSection.ExampleViewHighlightsIt | src/components/TierSection.tsx:189-193 | A rendered example view marks exactly its own example as highlighted, and that example exists |
| TierSection.ExampleIdResolves | src/components/TierSection.tsx:96-109 | The id `sid-example-k` that search emits resolves to section `sid` with example k highlighted |
| TierSection.SubsectionIdResolves | src/components/TierSection.tsx:113-125 | The id `sid-subid` that search emits resolves to that subsection, when neither part has a `-` |
| TierSection.HyphenatedSectionMissesSubsection | src/components/TierSection.tsx:38-46 | An id built from a hyphenated section id never parses to that section as its parent |
| TierSection.ChecklistKeys | src/components/TierSection.tsx:162-165 | The keys are `parent-sub-item.id` when a subsection is shown and `parent-item.id` otherwise |
| TierSection.BadgeFor | src/components/TierSection.tsx:217-220 | A badge is shown exactly for a present, non-zero tier |
| TierSection.TierBadgeClass | src/components/TierSection.tsx:139-146 | `getTierBadgeClass`; `TierBadgeSpec` states the class of every tier |
| TierSection.TierName | src/components/TierSection.tsx:218-219 | The tier name in the badge text; `TierBadgeSpec` states the name of every tier |
| TierSection.TierBadge | src/components/TierSection.tsx:217-220 | The badge of a view, from its target's tier; a subsection has none |
| TierSection.TierBadgeSpec | src/components/TierSection.tsx:139-146 | Tiers 1, 2 and 3 get the classes `tier1`, `tier2` and `tier3`, and any other tier an empty class; tier 1 is Foundations, tier 2 Typical Components and any other tier Bleeding Edge |
| Strings.JoinSplit | components/TierSection.tsx:33 | `split('-')` loses nothing: joining the parts with `-` gives the id back |
| NaiveTierSection.NaiveResolve | components/TierSection.tsx:20-70 | The `split('-')` resolution order; the next four rows state its outcomes |
| NaiveTierSection.NaiveDirectLookupWins | components/TierSection.tsx:20-30 | A key of the document resolves directly to its section |
| NaiveTierSection.NaiveParentHasNoHyphen | components/TierSection.tsx:33-35 | Any other id uses its first `-`-segment as the parent, which has no `-` |
| NaiveTierSection.NaiveNotFound | components/TierSection.tsx:40-68 | A miss happens exactly when the parent is missing, or when a non-empty second segment is not one of its subsections |
| NaiveTierSection.ExampleIdLooksUpSubsection | components/TierSection.tsx:33-54 | `p-example-…` looks up a subsection named `example` of `p`, so there is no example addressing |
| NaiveTierSection.NaiveChecklistKeys | components/TierSection.tsx:98-100 | The keys are `parent-sub-item.id` with a subsection and `parent-item.id` without |
| NaiveTierSection.NaiveBadge | components/TierSection.tsx:133-136 | A badge is shown exactly for a section with a present, non-zero tier, and it is the one the other component shows |
| NaiveTierSection.ResolversAgree | components/TierSection.tsx:20-70 | On ids without the example shape, both resolvers produce the same view, and each misses when the other does |
| Docs.Lookup | types/index.ts:30-32 | A lookup succeeds exactly for a key of the object and returns that key's value |
| Docs.LookupEntry | types/index.ts:30-32 | With distinct keys, each entry's key looks up that entry's value |
| Docs.SectionKeysSpec | types/index.ts:19-28 | A section's progress keys are exactly the keys of its own items and of its subsections' items |
| App.AppState.constructor | src/App.tsx:12-16 | The initial state: the stored progress map, searching off and no results |
| App.Toggled | src/App.tsx:53-58 | The key's checked state flips, with absent read as false, and every other key keeps its presence and value |
| App.ToggleTwice | src/App.tsx:53-58 | Toggling twice restores every key's checked state |
| App.CheckedKeys | src/App.tsx:82 | The keys whose value is `true`; `ToggleCount` states how a toggle changes them |
| App.CompletedCount | src/App.tsx:82 | `Object.values(progress).filter(Boolean).length`, one per checked key; `ToggleCount` states how a toggle moves it |
| App.ToggleCount | src/App.tsx:53-58 | A toggle removes or adds exactly that key to the checked set, so the completed count moves by one |
| App.AppState.ToggleChecklistItem | src/App.tsx:53-58 | The progress map becomes the toggled map, the search state is untouched, and tracking is kept for document keys |
| App.AppState.ResetProgress | src/App.tsx:60-64 | A confirmed reset empties the map and a declined one leaves it unchanged |
| App.AppState.CalculateProgress | src/App.tsx:66-84 | The result is the overall progress, and it is at most 100 while every checked key is a document key |
| App.TotalItems | src/App.tsx:67-80 | The item total, section by section; `DocKeysCount` relates it to the progress keys |
| App.CountItems | src/App.tsx:67-80 | The `reduce` loop sums the checklist lengths of all sections and subsections |
| App.CountSectionItems | src/App.tsx:68-78 | One section contributes its checklist length plus its subsections' checklist lengths |
| App.DocKeysCount | src/App.tsx:67-80 | The total equals the number of progress keys of the document, listed section by section |
| App.ViewKeysAreDocKeys | src/components/TierSection.tsx:162-172 | Every checkbox key of a view the component renders is a progress key of the document |
| App.NaiveViewKeysAreDocKeys | components/TierSection.tsx:97-107 | Every checkbox key of a view the naive component renders is a progress key of the document |
| App.StepKeysAreDocKeys | src/components/GuidedWorkflow.tsx:116-124 | Every checkbox key of a guided step is a progress key of the document |
| App.Percent | src/App.tsx:83 | The rounded percentage, 0 without items; the next three rows state its bounds |
| App.PercentRounds | src/App.tsx:83 | The percentage is the nearest integer to 100·completed/total, with halves rounded up |
| App.PercentAtMostHundred | src/App.tsx:83 | Completed at most total gives at most 100, and all completed gives exactly 100 |
| App.PercentPastHundred | src/App.tsx:83 | Completed at least twice the total gives more than 100 |
| App.OverallProgress | src/App.tsx:66-84 | The value `calculateProgress` returns: the checked count over the item total |
| App.PercentOverflows | src/App.tsx:82-83 | With at least twice as many checked keys as items, the progress exceeds 100, and some checked key is not a key of the document |
| App.ProgressInRange | src/App.tsx:66-84 | When every checked key names a document item, the progress is at most 100 |
| App.AppState.HandleSearch | src/App.tsx:18-51 | A blank query turns searching off and clears the results; any other query turns it on and stores the matching ids |
| App.CollectMatches | src/App.tsx:29-48 | The nested loops collect the matching ids section by section |
| App.CollectSection | src/App.tsx:30-47 | One section contributes its own id if it matches, then its matching subsections' ids |
| App.CollectSubsections | src/App.tsx:38-47 | The subsection loop collects `sid-subid` for each matching subsection, in order |
| Strings.ContainsIffOccurs | src/App.tsx:31-32 | `includes` holds exactly when the query occurs at some position of the text |
| App.MatchingIds | src/App.tsx:29-48 | The ids the application-level search collects, section by section; `MatchingIdsSpec` states which |
| App.MatchingIdsSpec | src/App.tsx:29-48 | An id is collected exactly when it names a section or subsection whose raw title or content contains the whole query, ignoring case |
| Navigation.CalculateSectionProgress | components/Navigation.tsx:18-51 | The counting loops and the classification compute the status of the section's progress keys |
| Navigation.CountCompleted | components/Navigation.tsx:26-30 | The loop counts the checklist items whose key is checked |
| Navigation.CountSubsections | components/Navigation.tsx:34-45 | The subsection loop sums the items and counts the checked `sid-subid-item.id` keys |
| Navigation.SectionProgressBounds | components/Navigation.tsx:23-45 | The completed count is at most the total |
| Navigation.Classify | components/Navigation.tsx:47-50 | The classification of a total and a completed count; `StatusSpec` states each case |
| Navigation.SectionStatus | components/Navigation.tsx:18-51 | The status of a section's progress keys, which the method computes |
| Navigation.StatusSpec | components/Navigation.tsx:47-50 | `none` iff there are no keys, `not-started` iff none is checked, `complete` iff all are checked, `partial` iff some are checked and some are not |
| Navigation.ProgressIcon | components/Navigation.tsx:53-64 | An icon is drawn exactly when the status is not `none` |
| Navigation.TierList | components/Navigation.tsx:105-107 | The sections of one tier in document order; the next three rows state its members and order |
| Navigation.TierListMembers | components/Navigation.tsx:105-107 | A tier list holds exactly the sections whose tier is that number |
| Navigation.TierListAppend | components/Navigation.tsx:132-134 | Filtering keeps document order |
| Navigation.UntieredIsUnlisted | components/Navigation.tsx:159-161 | A section without a tier is in no tier list |
| GuidedWorkflow.StepSections | src/components/GuidedWorkflow.tsx:23-90 | There are eight steps, and only the first and the last have no section |
| GuidedWorkflow.Workflow.constructor | src/components/GuidedWorkflow.tsx:20 | The workflow starts at step 0 |
| GuidedWorkflow.Workflow.HandleNext | src/components/GuidedWorkflow.tsx:95-101 | Before the last step it advances by one and stays; on the last step it exits and keeps the step |
| GuidedWorkflow.Workflow.HandlePrevious | src/components/GuidedWorkflow.tsx:103-107 | It goes back one step, except at step 0 where it does nothing |
| GuidedWorkflow.Workflow.HandleExploreSection | src/components/GuidedWorkflow.tsx:109-114 | It opens the current step's section and exits, and does nothing on the welcome and finish steps |
| GuidedWorkflow.Workflow.NextLabel | src/components/GuidedWorkflow.tsx:172 | The button reads `Finish` exactly on the last step and `Next` on every other step |
| GuidedWorkflow.StepKeys | src/components/GuidedWorkflow.tsx:116-124 | A step with a section uses the keys `section-item.id`, and a step without one has none |
| GuidedWorkflow.Workflow.CurrentKeys | src/components/GuidedWorkflow.tsx:116-124 | The current step's checklist keys: none without a section, and otherwise exactly the keys the section's view toggles |
| GuidedWorkflow.StepKeysMatchSectionView | src/components/GuidedWorkflow.tsx:124 | The guided keys are exactly the keys both section views use for that section, so they address the same progress entries |

## Left out

- JSX rendering, inner HTML, the CSS classes other than the tier badge, and `console.log`/`console.error`: these are
  presentation only.
- The scroll-to-example effect in src/components/TierSection.tsx:203-213 uses DOM calls and timers.
- Persistence through `useLocalStorage`: progress is an in-memory map, and the `App.AppState` constructor receives the
  stored map. The hook is not part of this model.
- `window.confirm` is a boolean argument of `App.AppState.ResetProgress`.
- The regular-expression engine: matching is a literal scan, which the escaping in the code justifies.
- Unicode case folding: `toLowerCase` is modelled as ASCII lower-casing, which preserves length.
- UTF-16 code units: a Dafny string is a sequence of Unicode scalar values, while JavaScript lengths and offsets count
  UTF-16 code units. For characters outside the Basic Multilingual Plane the two differ: the term-length filter (a
  one-character emoji has length 2 in JavaScript, so it stays a term there), the snippet offsets, the 150-character
  limit, `halfLength` and `substring` all count differently.
- Floating point: `Math.round((c / t) * 100)` is modelled as the integer `(200c + t) / (2t)`, which rounds halves up.
  Floating-point error at exact halves is not modelled.
- `parseInt` precision: the example index is an unbounded natural number.
- JavaScript prototype keys such as `constructor`: lookup sees only the object's own entries.
- Rendering the application-level search results through `result.split('-')` (src/App.tsx:136-169) is presentation.
- The files that only draw things: components/ChecklistItem.tsx, components/SearchBar.tsx,
  src/components/ExampleCard.tsx, src/components/SearchResults.tsx and src/index.tsx.
- The static content of data/documentationData.ts: lemmas quantify over every document instead.
- The existence check on the `how-to-use` link (components/Navigation.tsx:84-98) and the toggle of the guided mode
  (src/App.tsx:94) are one-line UI guards.
- The HTML text of the workflow steps: only their titles and sections are modelled.
- The `activeSection` state of the application: `GuidedWorkflow.Workflow.HandleExploreSection` returns the section to
  open, and `None` stands for no change.
- The search debounce in the search bar: it is a timer.
- Navigation.CalculateSectionProgress: requires the section id to be a document key, because the code dereferences the
  section unguarded and would throw on a missing one. Every call in the code passes a key taken from the document's entries.
- SearchUtils.CountMatches: counts `|text| + 1` for an empty term, as an empty global pattern does. The search never
  passes an empty term, since all terms have length at least 2.
