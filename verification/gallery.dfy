/**
 * The badge gallery's data logic: the search/category filter that decides
 * which badges are shown, and the list of categories offered in the
 * category drop-down.
 */
module Gallery {
  import opened Text

  /** One badge record (`BadgeInfo`). The gallery never changes a badge. */
  datatype Badge = Badge(
    id: string,
    name: string,
    description: string,
    image: string,
    date: string,
    category: string,
    level: string)

  /** The drop-down entry that switches the category test off. */
  const AllCategory: string := "All"

  // ---------------------------------------------------------------------
  // The filter
  // ---------------------------------------------------------------------

  /** The search test: the folded term occurs in the folded name or the folded description. */
  predicate MatchesSearch(b: Badge, term: string)
    ensures MatchesSearch(b, term) <==>
              Occurs(Lower(b.name), Lower(term)) || Occurs(Lower(b.description), Lower(term))
  {
    Contains(Lower(b.name), Lower(term)) || Contains(Lower(b.description), Lower(term))
  }

  /** The empty search term matches every badge. */
  lemma EmptySearchMatches(b: Badge)
    ensures MatchesSearch(b, "")
  {
    ContainsEmpty(Lower(b.name));
  }

  /** The category test: "All" is selected, or the badge's category is exactly the selected one. */
  predicate MatchesCategory(b: Badge, category: string)
    ensures category == AllCategory ==> MatchesCategory(b, category)
    ensures category != AllCategory ==> (MatchesCategory(b, category) <==> b.category == category)
  {
    category == AllCategory || b.category == category
  }

  /** A badge is shown when it passes both tests. */
  predicate Matches(b: Badge, term: string, category: string)
    ensures Matches(b, term, category) <==>
              (Occurs(Lower(b.name), Lower(term)) || Occurs(Lower(b.description), Lower(term))) &&
              (category == AllCategory || b.category == category)
  {
    MatchesSearch(b, term) && MatchesCategory(b, category)
  }

  /** `badges.filter(...)`: the badges that pass both tests, in their original order. */
  function FilterBadges(badges: seq<Badge>, term: string, category: string): (r: seq<Badge>)
    ensures |r| <= |badges|
  {
    if badges == [] then []
    else if Matches(badges[0], term, category) then [badges[0]] + FilterBadges(badges[1..], term, category)
    else FilterBadges(badges[1..], term, category)
  }

  /** Soundness and completeness: a badge is shown exactly when it is in the list and passes both tests. */
  lemma {:induction false} FilterMembers(badges: seq<Badge>, term: string, category: string)
    ensures forall b :: b in FilterBadges(badges, term, category) <==> b in badges && Matches(b, term, category)
  {
    if badges != [] {
      FilterMembers(badges[1..], term, category);
      assert forall b :: b in badges <==> b == badges[0] || b in badges[1..];
    }
  }

  /** Soundness of the search test, stated with the reference meaning of "substring". */
  lemma FilterSearchSound(badges: seq<Badge>, term: string, category: string, b: Badge)
    requires b in FilterBadges(badges, term, category)
    ensures Occurs(Lower(b.name), Lower(term)) || Occurs(Lower(b.description), Lower(term))
  {
    FilterMembers(badges, term, category);
  }

  /** Soundness of the category test. */
  lemma FilterCategorySound(badges: seq<Badge>, term: string, category: string, b: Badge)
    requires b in FilterBadges(badges, term, category)
    requires category != AllCategory
    ensures b.category == category
  {
    FilterMembers(badges, term, category);
  }

  /** Completeness, stated with the reference meaning of "substring". */
  lemma FilterComplete(badges: seq<Badge>, term: string, category: string, b: Badge)
    requires b in badges
    requires Occurs(Lower(b.name), Lower(term)) || Occurs(Lower(b.description), Lower(term))
    requires category == AllCategory || b.category == category
    ensures b in FilterBadges(badges, term, category)
  {
    FilterMembers(badges, term, category);
  }

  /** `xs` can be obtained from `ys` by deleting elements (relative order kept). */
  ghost predicate IsSubsequence<T>(xs: seq<T>, ys: seq<T>)
    decreases |ys|
  {
    if xs == [] then true
    else if ys == [] then false
    else (xs[0] == ys[0] && IsSubsequence(xs[1..], ys[1..])) || IsSubsequence(xs, ys[1..])
  }

  /** The filter keeps the relative order of the badges it shows. */
  lemma {:induction false} FilterIsSubsequence(badges: seq<Badge>, term: string, category: string)
    ensures IsSubsequence(FilterBadges(badges, term, category), badges)
  {
    if badges != [] {
      FilterIsSubsequence(badges[1..], term, category);
    }
  }

  /** Each badge is shown exactly as often as it occurs in the input when it matches, and never otherwise. */
  lemma {:induction false} FilterMultiplicity(badges: seq<Badge>, term: string, category: string, b: Badge)
    ensures multiset(FilterBadges(badges, term, category))[b]
         == if Matches(b, term, category) then multiset(badges)[b] else 0
  {
    if badges != [] {
      FilterMultiplicity(badges[1..], term, category, b);
      assert badges == [badges[0]] + badges[1..];
    }
  }

  /** When every badge passes both tests the filter returns the list unchanged. */
  lemma {:induction false} FilterAllMatching(badges: seq<Badge>, term: string, category: string)
    requires forall i :: 0 <= i < |badges| ==> Matches(badges[i], term, category)
    ensures FilterBadges(badges, term, category) == badges
  {
    if badges != [] {
      FilterAllMatching(badges[1..], term, category);
    }
  }

  /** When no badge passes both tests the filter shows nothing. */
  lemma {:induction false} FilterNoneMatching(badges: seq<Badge>, term: string, category: string)
    requires forall i :: 0 <= i < |badges| ==> !Matches(badges[i], term, category)
    ensures FilterBadges(badges, term, category) == []
  {
    if badges != [] {
      FilterNoneMatching(badges[1..], term, category);
    }
  }

  /** No search term and "All" selected: every badge is shown, in order. */
  lemma FilterIdentity(badges: seq<Badge>)
    ensures FilterBadges(badges, "", AllCategory) == badges
  {
    forall i | 0 <= i < |badges| ensures Matches(badges[i], "", AllCategory) {
      EmptySearchMatches(badges[i]);
    }
    FilterAllMatching(badges, "", AllCategory);
  }

  /** Two search terms with the same folded form show the same badges. */
  lemma {:induction false} FilterCaseInsensitive(badges: seq<Badge>, term1: string, term2: string, category: string)
    requires Lower(term1) == Lower(term2)
    ensures FilterBadges(badges, term1, category) == FilterBadges(badges, term2, category)
  {
    if badges != [] {
      FilterCaseInsensitive(badges[1..], term1, term2, category);
    }
  }

  /** Two search terms that differ only in letter case show the same badges. */
  lemma FilterIgnoresCase(badges: seq<Badge>, term1: string, term2: string, category: string)
    requires SameUpToCase(term1, term2)
    ensures FilterBadges(badges, term1, category) == FilterBadges(badges, term2, category)
  {
    LowerSameIffSameUpToCase(term1, term2);
    FilterCaseInsensitive(badges, term1, term2, category);
  }

  /** The filter works badge by badge: filtering a concatenation concatenates the results. */
  lemma {:induction false} FilterConcat(xs: seq<Badge>, ys: seq<Badge>, term: string, category: string)
    ensures FilterBadges(xs + ys, term, category) == FilterBadges(xs, term, category) + FilterBadges(ys, term, category)
  {
    if xs != [] {
      assert (xs + ys)[0] == xs[0];
      assert (xs + ys)[1..] == xs[1..] + ys;
      FilterConcat(xs[1..], ys, term, category);
      if Matches(xs[0], term, category) {
        calc {
          FilterBadges(xs + ys, term, category);
          [xs[0]] + FilterBadges(xs[1..] + ys, term, category);
          [xs[0]] + (FilterBadges(xs[1..], term, category) + FilterBadges(ys, term, category));
          ([xs[0]] + FilterBadges(xs[1..], term, category)) + FilterBadges(ys, term, category);
        }
      }
    } else {
      assert xs + ys == ys;
    }
  }

  /** Filtering the filtered list again changes nothing. */
  lemma FilterIdempotent(badges: seq<Badge>, term: string, category: string)
    ensures FilterBadges(FilterBadges(badges, term, category), term, category) == FilterBadges(badges, term, category)
  {
    var r := FilterBadges(badges, term, category);
    FilterMembers(badges, term, category);
    assert forall i :: 0 <= i < |r| ==> r[i] in r;
    FilterAllMatching(r, term, category);
  }

  // ---------------------------------------------------------------------
  // The category drop-down
  // ---------------------------------------------------------------------

  /** Some badge has category `c`. */
  ghost predicate HasCategory(badges: seq<Badge>, c: string) {
    exists k :: 0 <= k < |badges| && badges[k].category == c
  }

  /**
   * `new Set(badges.map(b => b.category).filter(Boolean))`, in one pass: the
   * categories of `badges` that are non-empty and not yet in `seen`, each
   * once, in order of first appearance. `seen` holds what the Set already has.
   */
  function DistinctCategories(badges: seq<Badge>, seen: set<string>): (r: seq<string>)
    ensures |r| <= |badges|
  {
    if badges == [] then []
    else if badges[0].category == "" || badges[0].category in seen then DistinctCategories(badges[1..], seen)
    else [badges[0].category] + DistinctCategories(badges[1..], seen + {badges[0].category})
  }

  /** A category is collected exactly when it is non-empty, not seen before, and the category of some badge. */
  lemma {:induction false} DistinctCategoriesMembers(badges: seq<Badge>, seen: set<string>)
    ensures forall c :: c in DistinctCategories(badges, seen) <==> c != "" && c !in seen && HasCategory(badges, c)
  {
    if badges != [] {
      var c0 := badges[0].category;
      if c0 == "" || c0 in seen {
        DistinctCategoriesMembers(badges[1..], seen);
      } else {
        DistinctCategoriesMembers(badges[1..], seen + {c0});
      }
      forall c ensures HasCategory(badges, c) <==> c == c0 || HasCategory(badges[1..], c) {
        if HasCategory(badges, c) && c != c0 {
          var k :| 0 <= k < |badges| && badges[k].category == c;
          assert badges[1..][k - 1].category == c;
        }
        if HasCategory(badges[1..], c) {
          var k :| 0 <= k < |badges[1..]| && badges[1..][k].category == c;
          assert badges[k + 1].category == c;
        }
      }
    }
  }

  /** No category is collected twice, and none already seen. */
  lemma {:induction false} DistinctCategoriesDistinct(badges: seq<Badge>, seen: set<string>)
    ensures forall i, j :: 0 <= i < j < |DistinctCategories(badges, seen)| ==>
              DistinctCategories(badges, seen)[i] != DistinctCategories(badges, seen)[j]
    ensures forall i :: 0 <= i < |DistinctCategories(badges, seen)| ==> DistinctCategories(badges, seen)[i] !in seen
  {
    if badges != [] {
      var c0 := badges[0].category;
      if c0 == "" || c0 in seen {
        DistinctCategoriesDistinct(badges[1..], seen);
      } else {
        var rest := DistinctCategories(badges[1..], seen + {c0});
        DistinctCategoriesDistinct(badges[1..], seen + {c0});
        DistinctCategoriesMembers(badges[1..], seen + {c0});
        assert forall j :: 0 <= j < |rest| ==> rest[j] in rest;
      }
    }
  }

  /** `['All', ...new Set(...)]`: the options of the category drop-down. */
  function UniqueCategories(badges: seq<Badge>): (r: seq<string>)
    ensures |r| >= 1 && r[0] == AllCategory
  {
    [AllCategory] + DistinctCategories(badges, {})
  }

  /** Shape: after "All" come pairwise distinct, non-empty categories, each of some badge. */
  lemma CategoriesShape(badges: seq<Badge>)
    ensures UniqueCategories(badges)[0] == AllCategory
    ensures forall i, j :: 1 <= i < j < |UniqueCategories(badges)| ==> UniqueCategories(badges)[i] != UniqueCategories(badges)[j]
    ensures forall i :: 1 <= i < |UniqueCategories(badges)| ==>
              UniqueCategories(badges)[i] != "" && HasCategory(badges, UniqueCategories(badges)[i])
  {
    DistinctCategoriesDistinct(badges, {});
    DistinctCategoriesMembers(badges, {});
    var rest := DistinctCategories(badges, {});
    assert UniqueCategories(badges)[1..] == rest;
    forall i | 1 <= i < |UniqueCategories(badges)|
      ensures UniqueCategories(badges)[i] != "" && HasCategory(badges, UniqueCategories(badges)[i])
    {
      assert UniqueCategories(badges)[i] == rest[i - 1] && rest[i - 1] in rest;
    }
  }

  /** Coverage: every non-empty category of a badge is offered. */
  lemma CategoriesCover(badges: seq<Badge>, b: Badge)
    requires b in badges && b.category != ""
    ensures b.category in UniqueCategories(badges)[1..]
  {
    DistinctCategoriesMembers(badges, {});
    assert UniqueCategories(badges)[1..] == DistinctCategories(badges, {});
  }

  /** Position of the first badge whose category is `c`, or `|badges|` when there is none. */
  function FirstWith(badges: seq<Badge>, c: string): (k: nat)
    ensures k <= |badges|
    ensures k < |badges| <==> HasCategory(badges, c)
    ensures k < |badges| ==> badges[k].category == c
    ensures forall j :: 0 <= j < k ==> badges[j].category != c
  {
    if badges == [] then 0
    else if badges[0].category == c then 0
    else 1 + FirstWith(badges[1..], c)
  }

  /** DistinctCategories lists categories in order of their first badge. */
  lemma {:induction false} DistinctCategoriesOrdered(badges: seq<Badge>, seen: set<string>, i: nat, j: nat)
    requires i < j < |DistinctCategories(badges, seen)|
    ensures FirstWith(badges, DistinctCategories(badges, seen)[i]) < FirstWith(badges, DistinctCategories(badges, seen)[j])
  {
    var r := DistinctCategories(badges, seen);
    var c0 := badges[0].category;
    var tail := badges[1..];
    if c0 == "" || c0 in seen {
      assert r == DistinctCategories(tail, seen);
      assert r[i] != c0 && r[j] != c0 by {
        DistinctCategoriesMembers(tail, seen);
        assert r[i] in r && r[j] in r;
      }
      DistinctCategoriesOrdered(tail, seen, i, j);
    } else {
      var rest := DistinctCategories(tail, seen + {c0});
      assert r == [c0] + rest;
      assert r[j] == rest[j - 1] && r[j] != c0 by {
        DistinctCategoriesMembers(tail, seen + {c0});
        assert rest[j - 1] in rest;
      }
      if i > 0 {
        assert r[i] == rest[i - 1] && r[i] != c0 by {
          DistinctCategoriesMembers(tail, seen + {c0});
          assert rest[i - 1] in rest;
        }
        DistinctCategoriesOrdered(tail, seen + {c0}, i - 1, j - 1);
      }
    }
  }

  /** Order: the offered categories appear in order of first appearance in the badge list. */
  lemma CategoriesOrdered(badges: seq<Badge>, i: nat, j: nat)
    requires 1 <= i < j < |UniqueCategories(badges)|
    ensures UniqueCategories(badges)[i] != "" && UniqueCategories(badges)[j] != ""
    ensures FirstWith(badges, UniqueCategories(badges)[i]) < FirstWith(badges, UniqueCategories(badges)[j])
  {
    DistinctCategoriesMembers(badges, {});
    var rest := DistinctCategories(badges, {});
    assert UniqueCategories(badges)[i] == rest[i - 1];
    assert UniqueCategories(badges)[j] == rest[j - 1];
    DistinctCategoriesOrdered(badges, {}, i - 1, j - 1);
  }

  /** `s` is ordered strictly by first appearance in `badges`. */
  ghost predicate OrderedByFirst(badges: seq<Badge>, s: seq<string>) {
    forall i, j :: 0 <= i < j < |s| ==> FirstWith(badges, s[i]) < FirstWith(badges, s[j])
  }

  /** Two lists of the same categories, both ordered by first appearance, start alike. */
  lemma OrderedListsSameHead(badges: seq<Badge>, s: seq<string>, t: seq<string>)
    requires OrderedByFirst(badges, s) && OrderedByFirst(badges, t)
    requires forall c :: c in s <==> c in t
    requires s != []
    ensures t != [] && s[0] == t[0]
  {
    assert s[0] in t;
    var k :| 0 <= k < |t| && t[k] == s[0];
    assert t[0] in s;
    var m :| 0 <= m < |s| && s[m] == t[0];
    assert FirstWith(badges, t[0]) <= FirstWith(badges, t[k]);
    assert FirstWith(badges, s[0]) <= FirstWith(badges, s[m]);
  }

  /** After a common head, the tails hold the same categories. */
  lemma OrderedListsSameTail(badges: seq<Badge>, s: seq<string>, t: seq<string>, c: string)
    requires OrderedByFirst(badges, s) && OrderedByFirst(badges, t)
    requires forall c :: c in s <==> c in t
    requires s != [] && t != [] && s[0] == t[0]
    requires c in s[1..]
    ensures c in t[1..]
  {
    var i :| 0 <= i < |s[1..]| && s[1..][i] == c;
    assert FirstWith(badges, s[0]) < FirstWith(badges, s[i + 1]);
    assert c in s;
    var i2 :| 0 <= i2 < |t| && t[i2] == c;
    assert t[1..][i2 - 1] == c;
  }

  /** Dropping the head of an ordered list leaves it ordered. */
  lemma OrderedTail(badges: seq<Badge>, s: seq<string>)
    requires s != [] && OrderedByFirst(badges, s)
    ensures OrderedByFirst(badges, s[1..])
  {
    forall i, j | 0 <= i < j < |s[1..]| ensures FirstWith(badges, s[1..][i]) < FirstWith(badges, s[1..][j]) {
      assert s[1..][i] == s[i + 1] && s[1..][j] == s[j + 1];
    }
  }

  /** Two category lists ordered strictly by first appearance and holding the same categories are equal. */
  lemma {:induction false} OrderedListsEqual(badges: seq<Badge>, s: seq<string>, t: seq<string>)
    requires OrderedByFirst(badges, s) && OrderedByFirst(badges, t)
    requires forall c :: c in s <==> c in t
    ensures s == t
    decreases |s|
  {
    if s == [] {
      assert forall i :: 0 <= i < |t| ==> t[i] in t;
    } else {
      OrderedListsSameHead(badges, s, t);
      forall c ensures c in s[1..] <==> c in t[1..] {
        if c in s[1..] {
          OrderedListsSameTail(badges, s, t, c);
        }
        if c in t[1..] {
          OrderedListsSameTail(badges, t, s, c);
        }
      }
      OrderedTail(badges, s);
      OrderedTail(badges, t);
      OrderedListsEqual(badges, s[1..], t[1..]);
      assert s == [s[0]] + s[1..] && t == [t[0]] + t[1..];
    }
  }

  /**
   * The three properties pin the list down: any list of exactly the non-empty
   * badge categories, ordered strictly by first appearance, is the one offered
   * after "All".
   */
  lemma CategoriesUnique(badges: seq<Badge>, s: seq<string>)
    requires forall c :: c in s <==> c != "" && HasCategory(badges, c)
    requires OrderedByFirst(badges, s)
    ensures UniqueCategories(badges) == [AllCategory] + s
  {
    DistinctCategoriesMembers(badges, {});
    var rest := DistinctCategories(badges, {});
    forall i, j | 0 <= i < j < |rest| ensures FirstWith(badges, rest[i]) < FirstWith(badges, rest[j]) {
      DistinctCategoriesOrdered(badges, {}, i, j);
    }
    OrderedListsEqual(badges, s, rest);
  }

  /** "All" is offered once unless some badge's own category is the literal "All". */
  lemma CategoriesAllOnce(badges: seq<Badge>)
    ensures AllCategory in UniqueCategories(badges)[1..] <==> HasCategory(badges, AllCategory)
  {
    DistinctCategoriesMembers(badges, {});
    assert UniqueCategories(badges)[1..] == DistinctCategories(badges, {});
  }

  /** Every offered category other than "All" shows at least one badge when the search box is empty. */
  lemma OfferedCategoryNonEmpty(badges: seq<Badge>, c: string)
    requires c in UniqueCategories(badges)[1..]
    ensures FilterBadges(badges, "", c) != []
  {
    DistinctCategoriesMembers(badges, {});
    FilterMembers(badges, "", c);
    assert UniqueCategories(badges)[1..] == DistinctCategories(badges, {});
    var k :| 0 <= k < |badges| && badges[k].category == c;
    EmptySearchMatches(badges[k]);
    assert Matches(badges[k], "", c);
    assert badges[k] in FilterBadges(badges, "", c);
  }

  /** A category that is neither offered, nor "All", nor empty shows no badge whatever the search term. */
  lemma UnofferedCategoryEmpty(badges: seq<Badge>, term: string, c: string)
    requires c != AllCategory && c != "" && c !in UniqueCategories(badges)
    ensures FilterBadges(badges, term, c) == []
  {
    DistinctCategoriesMembers(badges, {});
    assert c !in DistinctCategories(badges, {}) by {
      assert forall x :: x in DistinctCategories(badges, {}) ==> x in UniqueCategories(badges);
    }
    assert !HasCategory(badges, c);
    FilterNoneMatching(badges, term, c);
  }
}
