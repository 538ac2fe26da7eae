/** The distribution-center branch: the first center whose lower-cased name or id occurs in the message. */
module Distribution {
  import opened Wrappers
  import opened Text
  import opened Records
  import Seqs

  /**
   * `message.includes(dc.name?.toLowerCase()) || message.includes(dc.id?.toLowerCase())`.
   * A missing field makes `includes` look for the text "undefined", which is
   * `Str(None)` and already lower case.
   */
  predicate CenterMatches(message: string, dc: DistributionCenter) {
    Contains(message, ToLower(Str(dc.name))) || Contains(message, ToLower(Str(dc.id)))
  }

  function MatchesMessage(message: string): DistributionCenter -> bool {
    (dc: DistributionCenter) => CenterMatches(message, dc)
  }

  const NotFoundReply := "\U{274C} I couldn't find a matching distribution center."

  function CenterDetails(dc: DistributionCenter): string {
    "\U{1F3E2} Distribution Center Details:\n\n\U{1F4CD} Name: " + Str(dc.name)
      + "\n\U{1F194} ID: " + Str(dc.id)
      + "\n\U{1F310} Location: (" + Str(dc.latitude) + ", " + Str(dc.longitude) + ")"
  }

  /** The reply of the distribution-center branch. */
  function DistributionReply(message: string, centers: seq<DistributionCenter>): string {
    match Seqs.Find(MatchesMessage(message), centers)
    case Some(dc) => CenterDetails(dc)
    case None => NotFoundReply
  }

  /** The first matching center in table order answers, whatever later centers also match. */
  lemma FirstMatchAnswers(message: string, centers: seq<DistributionCenter>, i: nat)
    requires i < |centers| && CenterMatches(message, centers[i])
    requires forall j :: 0 <= j < i ==> !CenterMatches(message, centers[j])
    ensures DistributionReply(message, centers) == CenterDetails(centers[i])
  {
    var p := MatchesMessage(message);
    var r := Seqs.FindIndex(p, centers);
    assert p(centers[i]);
  }

  /** When no center matches, the not-found reply is given. */
  lemma NoMatchNotFound(message: string, centers: seq<DistributionCenter>)
    requires forall j :: 0 <= j < |centers| ==> !CenterMatches(message, centers[j])
    ensures DistributionReply(message, centers) == NotFoundReply
  {
    var p := MatchesMessage(message);
    assert forall j :: 0 <= j < |centers| ==> !p(centers[j]);
  }

  /** The details name the center, its id and its coordinates verbatim. */
  lemma DetailsShowFields(dc: DistributionCenter)
    ensures Contains(CenterDetails(dc), Str(dc.name))
    ensures Contains(CenterDetails(dc), Str(dc.id))
    ensures Contains(CenterDetails(dc), Str(dc.latitude))
    ensures Contains(CenterDetails(dc), Str(dc.longitude))
  {
    var d := CenterDetails(dc);
    var a := "\U{1F3E2} Distribution Center Details:\n\n\U{1F4CD} Name: ";
    var b := a + Str(dc.name) + "\n\U{1F194} ID: ";
    var c := b + Str(dc.id) + "\n\U{1F310} Location: (";
    var e := c + Str(dc.latitude) + ", ";
    assert OccursAt(d, Str(dc.name), |a|);
    assert OccursAt(d, Str(dc.id), |b|);
    assert OccursAt(d, Str(dc.latitude), |c|);
    assert OccursAt(d, Str(dc.longitude), |e|);
    ContainsIff(d, Str(dc.name));
    ContainsIff(d, Str(dc.id));
    ContainsIff(d, Str(dc.latitude));
    ContainsIff(d, Str(dc.longitude));
  }

  /** A center with an empty name or id matches every message, since `includes("")` is always true. */
  lemma EmptyFieldMatchesAll(message: string, dc: DistributionCenter)
    requires dc.name == Some("") || dc.id == Some("")
    ensures CenterMatches(message, dc)
  {
    ContainsEmpty(message);
    assert ToLower("") == "";
  }

  /** A center whose name is typed in the message, in any letter case, matches it. */
  lemma NameInAnyCaseMatches(raw: string, typed: string, dc: DistributionCenter)
    requires dc.name.Some? && Contains(raw, typed) && ToLower(typed) == ToLower(dc.name.value)
    ensures CenterMatches(ToLower(raw), dc)
  {
    ContainsToLower(raw, typed);
  }
}
