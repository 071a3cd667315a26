/**
 * The eight sample badges the gallery page loads, and what the filter and
 * the category drop-down make of them.
 */
module GallerySamples {
  import opened Text
  import opened Gallery

  function SampleBadges(): (r: seq<Badge>)
    ensures |r| == 8
    ensures forall i :: 0 <= i < |r| ==> r[i].category != ""
  {
    [
      Badge("1", "Web3 Developer", "Verified skills in blockchain development and smart contracts",
            "", "2023-06-15", "Development", "Intermediate"),
      Badge("2", "Smart Contract Auditor", "Expert in reviewing and securing smart contracts",
            "", "2023-07-22", "Security", "Advanced"),
      Badge("3", "DeFi Specialist", "Mastery in decentralized finance protocols and mechanisms",
            "", "2023-08-05", "Finance", "Expert"),
      Badge("4", "NFT Creator", "Skilled in creating and deploying NFT collections",
            "", "2023-09-12", "Art", "Intermediate"),
      Badge("5", "DAO Governor", "Active participant in decentralized autonomous organizations",
            "", "2023-10-18", "Governance", "Advanced"),
      Badge("6", "Blockchain Architect", "Designed scalable blockchain solutions and infrastructures",
            "", "2023-11-30", "Architecture", "Expert"),
      Badge("7", "Solidity Developer", "Proficient in writing secure Solidity smart contracts",
            "", "2023-12-05", "Development", "Intermediate"),
      Badge("8", "Tokenomics Expert", "Specialist in designing token economic models",
            "", "2023-12-18", "Finance", "Advanced")
    ]
  }

  /** The ids of a list of badges, in order. */
  function Ids(badges: seq<Badge>): (r: seq<string>)
    ensures |r| == |badges|
    ensures forall i :: 0 <= i < |badges| ==> r[i] == badges[i].id
  {
    if badges == [] then [] else [badges[0].id] + Ids(badges[1..])
  }

  // The categories already collected after the first k sample badges.
  const Seen1: set<string> := {"Development"}
  const Seen2: set<string> := Seen1 + {"Security"}
  const Seen3: set<string> := Seen2 + {"Finance"}
  const Seen4: set<string> := Seen3 + {"Art"}
  const Seen5: set<string> := Seen4 + {"Governance"}
  const Seen6: set<string> := Seen5 + {"Architecture"}

  lemma SampleCategoriesFrom5()
    ensures DistinctCategories(SampleBadges()[5..], Seen5) == ["Architecture"]
  {
    var s := SampleBadges();
    assert s[5..] == [s[5], s[6], s[7]];
    assert s[5].category == "Architecture" && "Architecture" !in Seen5;
    assert s[6].category in Seen6 && s[7].category in Seen6;
    assert DistinctCategories([s[7]], Seen6) == [];
    assert [s[6], s[7]][1..] == [s[7]];
    assert DistinctCategories([s[6], s[7]], Seen6) == [];
    assert [s[5], s[6], s[7]][1..] == [s[6], s[7]];
  }

  lemma SampleCategoriesFrom4()
    ensures DistinctCategories(SampleBadges()[4..], Seen4) == ["Governance", "Architecture"]
  {
    var s := SampleBadges();
    SampleCategoriesFrom5();
    assert s[4..][1..] == s[5..];
    assert s[4].category == "Governance" && "Governance" !in Seen4 && Seen4 + {"Governance"} == Seen5;
  }

  lemma SampleCategoriesFrom3()
    ensures DistinctCategories(SampleBadges()[3..], Seen3) == ["Art", "Governance", "Architecture"]
  {
    var s := SampleBadges();
    SampleCategoriesFrom4();
    assert s[3..][1..] == s[4..];
    assert s[3].category == "Art" && "Art" !in Seen3 && Seen3 + {"Art"} == Seen4;
  }

  lemma SampleCategoriesFrom2()
    ensures DistinctCategories(SampleBadges()[2..], Seen2) == ["Finance", "Art", "Governance", "Architecture"]
  {
    var s := SampleBadges();
    SampleCategoriesFrom3();
    assert s[2..][1..] == s[3..];
    assert s[2].category == "Finance" && "Finance" !in Seen2 && Seen2 + {"Finance"} == Seen3;
  }

  lemma SampleCategoriesFrom1()
    ensures DistinctCategories(SampleBadges()[1..], Seen1) == ["Security", "Finance", "Art", "Governance", "Architecture"]
  {
    var s := SampleBadges();
    SampleCategoriesFrom2();
    assert s[1..][1..] == s[2..];
    assert s[1].category == "Security" && "Security" !in Seen1 && Seen1 + {"Security"} == Seen2;
  }

  /** The drop-down offers "All" and then the six categories in the order they first appear. */
  lemma SampleCategories()
    ensures UniqueCategories(SampleBadges())
         == ["All", "Development", "Security", "Finance", "Art", "Governance", "Architecture"]
  {
    var s := SampleBadges();
    SampleCategoriesFrom1();
    assert s[0].category == "Development" && {} + {"Development"} == Seen1;
  }

  /** From badge `k` on, selecting "Finance" with an empty search box shows those of badges 3 and 8 not yet passed. */
  lemma {:induction false} SampleFinanceFrom(k: nat)
    requires k <= |SampleBadges()|
    ensures Ids(FilterBadges(SampleBadges()[k..], "", "Finance"))
         == if k <= 2 then ["3", "8"] else if k <= 7 then ["8"] else []
    decreases |SampleBadges()| - k
  {
    var s := SampleBadges();
    if k < |s| {
      SampleFinanceFrom(k + 1);
      assert s[k..][1..] == s[k + 1..];
      EmptySearchMatches(s[k]);
      assert s[k].category == "Finance" <==> k == 2 || k == 7;
    } else {
      assert s[k..] == [];
    }
  }

  /** Selecting "Finance" with an empty search box shows badges 3 and 8. */
  lemma SampleFinance()
    ensures Ids(FilterBadges(SampleBadges(), "", "Finance")) == ["3", "8"]
  {
    SampleFinanceFrom(0);
    assert SampleBadges()[0..] == SampleBadges();
  }

}
