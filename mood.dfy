/** `getKeywordsFromMood`: the two mood sliders pick one of four descriptions,
    and the knowledge base supplies the keywords filed under it. */
module Mood {
  datatype Option<T> = None | Some(value: T)

  /** One entry of `iri_colors`: its property name (`group1`, ...), its
      `description` and its `keywords`, each of the last two possibly absent. */
  datatype Group = Group(name: string, description: Option<string>, keywords: Option<seq<string>>)

  /** The loaded knowledge base, as far as the resolver reads it: the
      `iri_colors` object, possibly absent, as its entries in property order. */
  datatype KnowledgeBase = KnowledgeBase(iriColors: Option<seq<Group>>)

  /** The keywords used when the knowledge base offers none. */
  const DefaultKeywords: seq<string> := ["귀여운", "경쾌한"]

  const SoftStatic := "Soft + Static"
  const SoftDynamic := "Soft + Dynamic"
  const HardStatic := "Hard + Static"
  const HardDynamic := "Hard + Dynamic"

  /** The description for a mood: "Soft" exactly when `soft > 50`, "Static"
      exactly when `staticMood > 50`, so a slider at 50 falls to Hard or
      Dynamic. */
  function MoodDescription(soft: int, staticMood: int): (description: string)
    ensures description in [SoftStatic, SoftDynamic, HardStatic, HardDynamic]
    ensures description[..4] == "Soft" <==> soft > 50
    ensures description[|description| - 6..] == "Static" <==> staticMood > 50
  {
    assert SoftStatic[..4] == SoftDynamic[..4] == "Soft" && HardStatic[..4] == HardDynamic[..4] == "Hard";
    assert SoftStatic[7..] == HardStatic[7..] == "Static" && SoftDynamic[8..] == HardDynamic[8..] == "ynamic";
    var isSoft := soft > 50;
    var isStatic := staticMood > 50;
    if isSoft && isStatic then SoftStatic
    else if isSoft && !isStatic then SoftDynamic
    else if !isSoft && isStatic then HardStatic
    else HardDynamic
  }

  /** Two moods get the same description exactly when they fall on the same
      side of 50 on both sliders. */
  lemma SameDescriptionIffSameSides(soft1: int, static1: int, soft2: int, static2: int)
    ensures MoodDescription(soft1, static1) == MoodDescription(soft2, static2)
      <==> (soft1 > 50 <==> soft2 > 50) && (static1 > 50 <==> static2 > 50)
  {
    var d1, d2 := MoodDescription(soft1, static1), MoodDescription(soft2, static2);
    if d1 == d2 {
      assert d1[..4] == d2[..4] && d1[|d1| - 6..] == d2[|d2| - 6..];
    }
  }

  /** The sliders' starting position, 50 and 50, reads as "Hard + Dynamic". */
  lemma NeutralMood()
    ensures MoodDescription(50, 50) == HardDynamic
  {
    assert MoodDescription(50, 50)[..4] != "Soft";
  }

  /** The index of the first group that `matches`, or `|groups|` if none
      does: the `Array.find` scan. */
  function FirstIndex(groups: seq<Group>, matches: Group -> bool): (i: nat)
    ensures i <= |groups|
    ensures i < |groups| ==> matches(groups[i])
    ensures forall j :: 0 <= j < i ==> !matches(groups[j])
  {
    if groups == [] then 0
    else if matches(groups[0]) then 0
    else 1 + FirstIndex(groups[1..], matches)
  }

  /** `Object.values(knowledgeBase.iri_colors || {})`. */
  function Groups(kb: KnowledgeBase): seq<Group>
  {
    if kb.iriColors.Some? then kb.iriColors.value else []
  }

  /** `knowledgeBase.iri_colors?.group1?.keywords || DefaultKeywords`: any
      keyword list, even an empty one, is present and wins. */
  function FallbackKeywords(kb: KnowledgeBase): (keywords: seq<string>)
    ensures keywords == DefaultKeywords
      || exists i :: 0 <= i < |Groups(kb)| && Groups(kb)[i].name == "group1" && Groups(kb)[i].keywords == Some(keywords)
  {
    var groups := Groups(kb);
    var k := FirstIndex(groups, (g: Group) => g.name == "group1");
    if k < |groups| && groups[k].keywords.Some? then groups[k].keywords.value else DefaultKeywords
  }

  /** The fallback is the keyword list of the entry named `group1` whenever
      it has one, empty or not, and the default pair when `iri_colors`, its
      `group1` entry or that entry's `keywords` is missing. */
  lemma FallbackChoice(kb: KnowledgeBase, i: nat)
    requires i < |Groups(kb)| && Groups(kb)[i].name == "group1"
    requires forall j :: 0 <= j < i ==> Groups(kb)[j].name != "group1"
    ensures Groups(kb)[i].keywords.Some? ==> FallbackKeywords(kb) == Groups(kb)[i].keywords.value
    ensures Groups(kb)[i].keywords.None? ==> FallbackKeywords(kb) == DefaultKeywords
  {
    var k := FirstIndex(Groups(kb), (g: Group) => g.name == "group1");
    assert k == i;
  }

  lemma FallbackWithoutGroup1(kb: KnowledgeBase)
    requires forall j :: 0 <= j < |Groups(kb)| ==> Groups(kb)[j].name != "group1"
    ensures FallbackKeywords(kb) == DefaultKeywords
  {
    var k := FirstIndex(Groups(kb), (g: Group) => g.name == "group1");
    assert k == |Groups(kb)|;
  }

  /** `getKeywordsFromMood(soft, staticMood)`. `None` is the `undefined` the
      source returns when the matching group has no `keywords`. */
  function GetKeywordsFromMood(kb: KnowledgeBase, soft: int, staticMood: int): (keywords: Option<seq<string>>)
    ensures var groups, description := Groups(kb), MoodDescription(soft, staticMood);
      forall i :: 0 <= i < |groups| && groups[i].description == Some(description)
        && (forall j :: 0 <= j < i ==> groups[j].description != Some(description))
        ==> keywords == groups[i].keywords
    ensures var groups, description := Groups(kb), MoodDescription(soft, staticMood);
      (forall i :: 0 <= i < |groups| ==> groups[i].description != Some(description))
        ==> keywords == Some(FallbackKeywords(kb))
    ensures keywords == None ==> exists i :: 0 <= i < |Groups(kb)| && Groups(kb)[i].keywords == None
  {
    var description := MoodDescription(soft, staticMood);
    var groups := Groups(kb);
    var found := FirstIndex(groups, (g: Group) => g.description == Some(description));
    if found < |groups| then groups[found].keywords
    else Some(FallbackKeywords(kb))
  }

  /** Without `iri_colors` the resolver does not fail: it gives the default
      pair for every mood. */
  lemma MissingGroups(kb: KnowledgeBase, soft: int, staticMood: int)
    requires kb.iriColors == None
    ensures GetKeywordsFromMood(kb, soft, staticMood) == Some(DefaultKeywords)
  {
  }

  /** When no group carries the mood's description, group1's list is used even
      when it is empty. */
  lemma EmptyGroup1Counts(soft: int, staticMood: int)
    ensures var kb := KnowledgeBase(Some([Group("group1", None, Some([]))]));
      GetKeywordsFromMood(kb, soft, staticMood) == Some([])
  {
  }

  /** The earlier of two groups with the same description wins. */
  lemma FirstMatchWins(soft: int, staticMood: int, first: seq<string>, second: seq<string>)
    ensures var d := MoodDescription(soft, staticMood);
      var kb := KnowledgeBase(Some([Group("group1", Some(d), Some(first)), Group("group2", Some(d), Some(second))]));
      GetKeywordsFromMood(kb, soft, staticMood) == Some(first)
  {
  }
}
