/** Which handler answers a lower-cased message: an ordered cascade of substring tests, first match wins. */
module Classifier {
  import opened Text

  datatype Intent = DistributionCenter | OrderStatus | TopProducts | Inventory | Fallback

  function Classify(message: string): (intent: Intent)
    ensures intent == DistributionCenter <==> Contains(message, "distribution")
    ensures intent == OrderStatus <==>
      !Contains(message, "distribution") && Contains(message, "order") && Contains(message, "status")
    ensures intent == TopProducts <==>
      && !Contains(message, "distribution")
      && !(Contains(message, "order") && Contains(message, "status"))
      && Contains(message, "top") && Contains(message, "product")
    ensures intent == Inventory <==>
      && !Contains(message, "distribution")
      && !(Contains(message, "order") && Contains(message, "status"))
      && !(Contains(message, "top") && Contains(message, "product"))
      && (Contains(message, "stock") || Contains(message, "available") || Contains(message, "inventory"))
  {
    DistributionCenterImpliesDistribution(message);
    if Contains(message, "distribution center") || Contains(message, "distribution") then DistributionCenter
    else if Contains(message, "order") && Contains(message, "status") then OrderStatus
    else if Contains(message, "top") && Contains(message, "product") then TopProducts
    else if Contains(message, "stock") || Contains(message, "available") || Contains(message, "inventory") then Inventory
    else Fallback
  }

  /** The first test's "distribution center" disjunct adds nothing: such a message also contains "distribution". */
  lemma DistributionCenterImpliesDistribution(message: string)
    ensures Contains(message, "distribution center") ==> Contains(message, "distribution")
  {
    if Contains(message, "distribution center") {
      ContainsInfix(message, "distribution center", 0, 12);
      assert "distribution center"[0..12] == "distribution";
    }
  }

  /** Only a message that none of the four tests accepts gets the fallback reply. */
  lemma FallbackExactly(message: string)
    ensures Classify(message) == Fallback <==>
      && !Contains(message, "distribution")
      && !(Contains(message, "order") && Contains(message, "status"))
      && !(Contains(message, "top") && Contains(message, "product"))
      && !Contains(message, "stock") && !Contains(message, "available") && !Contains(message, "inventory")
  {
  }

  /** Case does not matter to the classifier: a keyword typed in any letter case is found once the message is lower-cased. */
  lemma KeywordAnyCase(raw: string, typed: string, keyword: string)
    requires Contains(raw, typed) && ToLower(typed) == keyword
    ensures Contains(ToLower(raw), keyword)
  {
    ContainsToLower(raw, typed);
  }
}
