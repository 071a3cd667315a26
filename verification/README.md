# Badge gallery filter — a Dafny model

The badge gallery page of SkillSync, a skill-badge dashboard, shows a grid of badges with two
controls above it:
- a free-text search box;
- a category drop-down.

This project models the page's data logic:

- **The filter** (`filteredBadges`). A badge is shown when two tests pass. First, the
  lower-cased search term occurs in the lower-cased name or the lower-cased
  description. Second, the selected category is `"All"` or equals the badge's category.
  Shown badges keep their original order.
- **The category list** (`uniqueCategories`). The drop-down offers `"All"` first. After
  it come the badges' categories, with empty categories dropped and duplicates removed.
  Each category is listed in the order of its first appearance, which is the
  insertion order of the JavaScript `Set` the page spreads after `"All"`.
- **The sample data**. These are the eight hard-coded badges the page loads, with what
  the drop-down and the "Finance" filter make of them.

Modules:

- `Text` (`text.dfy`): `toLowerCase` as a character-wise case fold, and `includes` as a
  left-to-right substring search. The search is proved equal to the reference meaning
  "there is an offset where the needle sits".
- `Gallery` (`gallery.dfy`): the `Badge` record, the filter, the category list, and
  their properties.
- `GallerySamples` (`samples.dfy`): the sample badges, with concrete results for them.

Everything is a pure function over values. The filter is recomputed from the page's
state (badges, search term, selected category) inside `useMemo`. The category list is
computed once, while the badges load, from the sample list, and stored as state. No
result is updated in place.

## Model

| member | source | states |
|---|---|---|
| Text.LowerChar | src/app/gallery/page.tsx:131-132 | a capital A–Z becomes the small letter at the same place in the alphabet; every other character is unchanged; the result is never a capital |
| Text.Lower | src/app/gallery/page.tsx:131-132 | the folded string has the same length, and each character is the fold of the character at the same position |
| Text.LowerHasNoCapital | src/app/gallery/page.tsx:131-132 | the folded string holds no capital letter |
| Text.LowerCharSame | src/app/gallery/page.tsx:131-132 | two characters fold alike exactly when they are equal or the capital and small forms of one letter |
| Text.LowerSameIffSameUpToCase | src/app/gallery/page.tsx:131-132 | two strings fold to the same string exactly when they have the same length and differ only in the letter case of some positions (both directions) |
| Text.LowerIdempotent | src/app/gallery/page.tsx:131-132 | lower-casing an already lower-cased string changes nothing |
| Text.LowerConcat | src/app/gallery/page.tsx:131-132 | lower-casing distributes over concatenation |
| Text.OccursInShort | src/app/gallery/page.tsx:131-132 | in a haystack no longer than the needle, the needle occurs exactly when it is a prefix of the haystack |
| Text.OccursShift | src/app/gallery/page.tsx:131-132 | when the needle is not a prefix, it occurs in the haystack exactly when it occurs in the haystack without its first character |
| Text.Contains | src/app/gallery/page.tsx:131-132 | `includes` returns true exactly when the needle occurs at some offset of the haystack (both directions) |
| Text.ContainsEmpty | src/app/gallery/page.tsx:131-132 | every string includes the empty string, so an empty search box matches every badge |
| Gallery.MatchesSearch | src/app/gallery/page.tsx:131-132 | the search test passes exactly when the folded term occurs at some offset of the folded name or of the folded description |
| Gallery.EmptySearchMatches | src/app/gallery/page.tsx:131-132 | an empty search term matches every badge, since every string includes the empty string |
| Gallery.MatchesCategory | src/app/gallery/page.tsx:133 | with "All" selected every badge passes the category test; with any other selection exactly the badges of that category pass |
| Gallery.Matches | src/app/gallery/page.tsx:130-135 | a badge is kept exactly when it passes the search test (by occurrence) and the category test |
| Gallery.FilterBadges | src/app/gallery/page.tsx:129-136 | the filtered list is never longer than the badge list |
| Gallery.FilterMembers | src/app/gallery/page.tsx:129-136 | a badge is shown exactly when it is in the list and passes both the search and the category test |
| Gallery.FilterSearchSound | src/app/gallery/page.tsx:131-132 | every shown badge has the folded term as a substring, at some offset, of its folded name or folded description |
| Gallery.FilterCategorySound | src/app/gallery/page.tsx:133 | when a category other than "All" is selected, every shown badge has exactly that category |
| Gallery.FilterComplete | src/app/gallery/page.tsx:129-136 | a listed badge whose folded name or description contains the folded term, and whose category passes, is shown |
| Gallery.FilterIsSubsequence | src/app/gallery/page.tsx:129-136 | the shown badges appear in their original relative order |
| Gallery.FilterMultiplicity | src/app/gallery/page.tsx:129-136 | a matching badge is shown as many times as it is listed, and a non-matching one is never shown |
| Gallery.FilterAllMatching | src/app/gallery/page.tsx:129-136 | when every badge passes both tests, the whole list is shown unchanged |
| Gallery.FilterNoneMatching | src/app/gallery/page.tsx:129-136 | when no badge passes, nothing is shown |
| Gallery.FilterIdentity | src/app/gallery/page.tsx:129-136 | the page's initial state, an empty search and "All", shows every badge in order |
| Gallery.FilterCaseInsensitive | src/app/gallery/page.tsx:131-132 | two search terms with the same folded form show the same badges |
| Gallery.FilterIgnoresCase | src/app/gallery/page.tsx:131-132 | two search terms that differ only in letter case show the same badges |
| Gallery.FilterConcat | src/app/gallery/page.tsx:129-136 | filtering two lists joined is joining the two filtered lists |
| Gallery.FilterIdempotent | src/app/gallery/page.tsx:129-136 | filtering the shown badges again with the same controls changes nothing |
| Gallery.DistinctCategories | src/app/gallery/page.tsx:107 | the de-duplicated category list is never longer than the badge list |
| Gallery.DistinctCategoriesMembers | src/app/gallery/page.tsx:107 | a category is collected exactly when it is non-empty, not yet seen, and is some badge's category |
| Gallery.DistinctCategoriesDistinct | src/app/gallery/page.tsx:107 | the collected categories are pairwise distinct, and none of them was already seen |
| Gallery.UniqueCategories | src/app/gallery/page.tsx:107 | the drop-down list is never empty and starts with "All" |
| Gallery.CategoriesShape | src/app/gallery/page.tsx:107 | after "All" come pairwise distinct, non-empty categories, each belonging to some badge |
| Gallery.CategoriesCover | src/app/gallery/page.tsx:107 | every badge's non-empty category is offered after "All" |
| Gallery.FirstWith | src/app/gallery/page.tsx:107 | the index of the first badge with a category is below the list length exactly when some badge has that category, and no earlier badge has it |
| Gallery.DistinctCategoriesOrdered | src/app/gallery/page.tsx:107 | collected categories are in the order of their first appearance among the badges |
| Gallery.CategoriesOrdered | src/app/gallery/page.tsx:107 | the offered categories after "All" follow the order of first appearance (the insertion order of a JavaScript `Set`) |
| Gallery.OrderedListsSameHead | src/app/gallery/page.tsx:107 | two non-empty lists with the same elements, both ordered by first appearance, have the same head |
| Gallery.OrderedTail | src/app/gallery/page.tsx:107 | a list ordered by first appearance stays ordered once its head is dropped |
| Gallery.OrderedListsSameTail | src/app/gallery/page.tsx:107 | when two ordered lists with the same elements share their head, an element after the head of one is also after the head of the other |
| Gallery.OrderedListsEqual | src/app/gallery/page.tsx:107 | two lists with the same elements, both ordered by first appearance, are equal |
| Gallery.CategoriesUnique | src/app/gallery/page.tsx:107 | the drop-down list is "All" followed by the one list that holds exactly the non-empty categories, in first-appearance order |
| Gallery.CategoriesAllOnce | src/app/gallery/page.tsx:107 | "All" appears again after the first entry exactly when some badge's own category is "All" |
| Gallery.OfferedCategoryNonEmpty | src/app/gallery/page.tsx:107-136 | choosing any offered category other than "All" with an empty search box shows at least one badge |
| Gallery.UnofferedCategoryEmpty | src/app/gallery/page.tsx:107-136 | a category that is not offered, not "All" and not empty shows no badge, whatever the search term |
| GallerySamples.SampleBadges | src/app/gallery/page.tsx:31-104 | the page loads eight sample badges, each with a non-empty category |
| GallerySamples.Ids | src/app/gallery/page.tsx:31-104 | the id list has one entry per badge, in order |
| GallerySamples.SampleCategories | src/app/gallery/page.tsx:31-107 | for the eight sample badges, the drop-down offers All, Development, Security, Finance, Art, Governance, Architecture |
| GallerySamples.SampleFinanceFrom | src/app/gallery/page.tsx:31-136 | from any position on, selecting "Finance" with an empty search box shows whichever of badges 3 and 8 lie at or after it |
| GallerySamples.SampleFinance | src/app/gallery/page.tsx:31-136 | with an empty search box and "Finance" selected, the samples show badges 3 and 8, in that order |

## Left out

- `toLowerCase` is modelled as an ASCII case fold (A–Z to a–z). Unicode case mapping, including letters outside ASCII and mappings that change a string's length, is not modelled.
- Strings are sequences of Unicode characters, while JavaScript strings are sequences of UTF-16 code units. For well-formed strings, `includes` and the ASCII fold give the same answers either way; lone surrogate code units are not modelled.
- `fetchAllBadges` (page.tsx:26-120) is reduced to its result: the sample list and the category list derived from it. The `setTimeout` delay, the loading and error flags, and the `try`/`catch` logging are timing and I/O.
- `handleBadgeClick` and `closeModal` (page.tsx:138-146) only set React state that opens and closes the detail modal. They compute nothing from the badges.
- The page renders `categories` into `<option>` elements keyed by category (page.tsx:191-193). Rendering, and React's handling of the duplicate key that `CategoriesAllOnce` describes, are not modelled.
- The `BadgeInfo` type declaration (`src/types`) is not part of this model. The `Badge` fields follow the fields the sample badges use.
- The badge card, the badge modal with its share links, the navigation bar, the other pages, and the `src/utils/kwala.ts` service stub are outside the gallery's filtering logic.
- Concrete search results for the samples, such as which badges a search for "smart" shows, are not proved. The search behaviour is covered by the general lemmas `FilterMembers`, `FilterSearchSound`, `FilterComplete` and the contract of `Contains`. Only the empty-search case is evaluated on the samples.
