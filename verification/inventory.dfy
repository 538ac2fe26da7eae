/**
 * The inventory branch: the inventory rows whose lower-cased name or brand,
 * or whose raw product id, occurs in the message, grouped by product id and
 * listed as numbered blocks.
 */
module Inventory {
  import opened Wrappers
  import opened Text
  import opened Numbers
  import opened Records
  import Seqs
  import JsObject

  /**
   * `message.includes(item.product_name?.toLowerCase()) ||
   *  message.includes(item.product_brand?.toLowerCase()) ||
   *  message.includes(item.product_id)`: the id is not lower-cased.
   */
  predicate ItemMatches(message: string, item: InventoryItem) {
    || Contains(message, ToLower(Str(item.productName)))
    || Contains(message, ToLower(Str(item.productBrand)))
    || Contains(message, Str(item.productId))
  }

  function MatchesMessage(message: string): InventoryItem -> bool {
    (item: InventoryItem) => ItemMatches(message, item)
  }

  /** `found`: the matching rows, in table order. */
  function Found(message: string, items: seq<InventoryItem>): seq<InventoryItem> {
    Seqs.Filter(MatchesMessage(message), items)
  }

  /** `found` holds every matching row as often as the table does, and no other row. */
  lemma FoundSpec(message: string, items: seq<InventoryItem>, x: InventoryItem)
    ensures multiset(Found(message, items))[x] == if ItemMatches(message, x) then multiset(items)[x] else 0
    ensures x in Found(message, items) <==> x in items && ItemMatches(message, x)
  {
    Seqs.FilterCount(MatchesMessage(message), items, x);
    Seqs.FilterMember(MatchesMessage(message), items, x);
  }

  /** `found` keeps table order: the rows found in a table split in two are those found in each part. */
  lemma FoundKeepsOrder(message: string, a: seq<InventoryItem>, b: seq<InventoryItem>)
    ensures Found(message, a + b) == Found(message, a) + Found(message, b)
  {
    Seqs.FilterConcat(MatchesMessage(message), a, b);
  }

  /**
   * The message is lower case, the id is compared as it is: an id holding an
   * upper-case letter never matches through the id test.
   */
  lemma UpperCaseIdNeverMatches(raw: string, item: InventoryItem, u: nat)
    requires item.productId.Some? && u < |item.productId.value| && IsUpper(item.productId.value[u])
    ensures !Contains(ToLower(raw), Str(item.productId))
  {
    LowerNeverContainsUpper(raw, item.productId.value, u);
  }

  /** The same row matches through its name when the message types that name in any letter case. */
  lemma NameInAnyCaseMatches(raw: string, typed: string, item: InventoryItem)
    requires item.productName.Some? && Contains(raw, typed) && ToLower(typed) == ToLower(item.productName.value)
    ensures ItemMatches(ToLower(raw), item)
  {
    ContainsToLower(raw, typed);
  }

  /** A row with an empty name or brand matches every message, since `includes("")` is always true. */
  lemma EmptyFieldMatchesAll(message: string, item: InventoryItem)
    requires item.productName == Some("") || item.productBrand == Some("")
    ensures ItemMatches(message, item)
  {
    ContainsEmpty(message);
    assert ToLower("") == "";
  }

  /** One entry of `grouped`: the name and brand of the first row with its id, and a row count. */
  datatype Group = Group(name: Option<string>, brand: Option<string>, count: nat)

  /** `item.product_id` as a property key of `grouped`. */
  function GroupKey(item: InventoryItem): string {
    Str(item.productId)
  }

  /** The keys of the rows, in table order. */
  function GroupKeys(found: seq<InventoryItem>): (keys: seq<string>)
    ensures |keys| == |found|
    ensures forall i :: 0 <= i < |found| ==> keys[i] == GroupKey(found[i])
  {
    if found == [] then [] else GroupKeys(found[..|found| - 1]) + [GroupKey(found[|found| - 1])]
  }

  lemma GroupKeysStep(found: seq<InventoryItem>, i: nat)
    requires i < |found|
    ensures GroupKeys(found[..i + 1]) == GroupKeys(found[..i]) + [GroupKey(found[i])]
  {
    assert found[..i + 1][..i] == found[..i];
  }

  /** `grouped` once the `forEach` has visited `found`. */
  function Grouped(found: seq<InventoryItem>): JsObject.Dict<Group> {
    if found == [] then JsObject.Empty()
    else
      var grouped := Grouped(found[..|found| - 1]);
      var item := found[|found| - 1];
      var k := GroupKey(item);
      var g := if k in grouped.vals then grouped.vals[k] else Group(item.productName, item.productBrand, 0);
      grouped.Put(k, g.(count := g.count + 1))
  }

  /** One more row adds one to the count of its id, creating the group from that row when it is new. */
  lemma GroupedStep(found: seq<InventoryItem>, i: nat)
    requires i < |found|
    ensures var grouped := Grouped(found[..i]);
      var item := found[i];
      var k := GroupKey(item);
      var g := if k in grouped.vals then grouped.vals[k] else Group(item.productName, item.productBrand, 0);
      Grouped(found[..i + 1]) == grouped.Put(k, g.(count := g.count + 1))
  {
    assert found[..i + 1][..i] == found[..i];
  }

  /** `grouped` has a group for exactly the ids of the rows found. */
  lemma {:induction false} GroupedKeys(found: seq<InventoryItem>, k: string)
    ensures k in Grouped(found).vals <==> k in GroupKeys(found)
  {
    if found != [] {
      var n := |found| - 1;
      GroupedKeys(found[..n], k);
      assert GroupKeys(found) == GroupKeys(found[..n]) + [GroupKey(found[n])];
    }
  }

  /** The count of a group is the number of rows found with its id. */
  lemma {:induction false} GroupedCount(found: seq<InventoryItem>, k: string)
    requires k in GroupKeys(found)
    ensures k in Grouped(found).vals && Grouped(found).vals[k].count == multiset(GroupKeys(found))[k]
  {
    var n := |found| - 1;
    var prefix := found[..n];
    var kn := GroupKey(found[n]);
    GroupedKeys(found, k);
    GroupedKeys(prefix, k);
    assert GroupKeys(found) == GroupKeys(prefix) + [kn];
    assert multiset(GroupKeys(found)) == multiset(GroupKeys(prefix)) + multiset{kn};
    if k in GroupKeys(prefix) {
      GroupedCount(prefix, k);
    }
  }

  /** The name and brand of a group are those of the first row found with its id. */
  lemma {:induction false} GroupedFirst(found: seq<InventoryItem>, k: string)
    requires k in GroupKeys(found)
    ensures k in Grouped(found).vals
    ensures var first := found[Seqs.IndexOf(GroupKeys(found), k)];
      && Grouped(found).vals[k].name == first.productName
      && Grouped(found).vals[k].brand == first.productBrand
  {
    var n := |found| - 1;
    var prefix := found[..n];
    var keys := GroupKeys(found);
    GroupedKeys(found, k);
    GroupedKeys(prefix, k);
    assert keys == GroupKeys(prefix) + [GroupKey(found[n])];
    if k in GroupKeys(prefix) {
      GroupedFirst(prefix, k);
      Seqs.IndexOfPrefix(keys, n, k);
      assert keys[..n] == GroupKeys(prefix);
    } else {
      assert keys[n] == k;
    }
  }

  /** `grouped`'s keys were created in the order the ids first appear in `found`. */
  lemma {:induction false} GroupedOrder(found: seq<InventoryItem>)
    ensures Grouped(found).created == Seqs.Distinct(GroupKeys(found))
  {
    if found != [] {
      var n := |found| - 1;
      var k := GroupKey(found[n]);
      GroupedOrder(found[..n]);
      GroupKeysStep(found, n);
      assert found[..n + 1] == found;
      GroupedKeys(found[..n], k);
      Seqs.DistinctMember(GroupKeys(found[..n]), k);
    }
  }

  /** `grouped` is a well-formed dictionary: one created key per group. */
  lemma GroupedValid(found: seq<InventoryItem>)
    ensures Grouped(found).Valid()
  {
    GroupedOrder(found);
    forall k ensures k in Grouped(found).vals <==> k in Grouped(found).created {
      GroupedKeys(found, k);
      Seqs.DistinctMember(GroupKeys(found), k);
    }
  }

  /** The sum of the counts of the groups under `keys` (a key without a group adds nothing). */
  function SumCounts(groups: map<string, Group>, keys: seq<string>): nat {
    if keys == [] then 0
    else
      var k := keys[|keys| - 1];
      SumCounts(groups, keys[..|keys| - 1]) + if k in groups then groups[k].count else 0
  }

  /** Changing a group that is not listed leaves the sum alone. */
  lemma {:induction false} SumCountsFrame(groups: map<string, Group>, keys: seq<string>, k: string, g: Group)
    requires k !in keys
    ensures SumCounts(groups[k := g], keys) == SumCounts(groups, keys)
  {
    if keys != [] {
      SumCountsFrame(groups, keys[..|keys| - 1], k, g);
    }
  }

  /** Changing a group listed once changes the sum by the change of its count. */
  lemma {:induction false} SumCountsUpdate(groups: map<string, Group>, keys: seq<string>, k: string, g: Group)
    requires Seqs.NoDup(keys) && k in keys && k in groups
    ensures SumCounts(groups[k := g], keys) == SumCounts(groups, keys) - groups[k].count + g.count
  {
    var n := |keys| - 1;
    var prefix := keys[..n];
    if keys[n] == k {
      assert k !in prefix;
      SumCountsFrame(groups, prefix, k, g);
    } else {
      assert k in prefix;
      SumCountsUpdate(groups, prefix, k, g);
    }
  }

  /** Storing a group replaces the count it had (none when new) in the sum over the created keys. */
  lemma PutSumCounts(grouped: JsObject.Dict<Group>, k: string, g: Group)
    requires grouped.Valid()
    ensures var after := grouped.Put(k, g);
      SumCounts(after.vals, after.created)
        == SumCounts(grouped.vals, grouped.created) - (if k in grouped.vals then grouped.vals[k].count else 0) + g.count
  {
    if k in grouped.vals {
      SumCountsUpdate(grouped.vals, grouped.created, k, g);
    } else {
      var keys := grouped.created + [k];
      assert keys[..|keys| - 1] == grouped.created;
      SumCountsFrame(grouped.vals, grouped.created, k, g);
    }
  }

  /** Every row found is counted exactly once: the counts add up to `found.length`. */
  lemma {:induction false} CountsAddUp(found: seq<InventoryItem>)
    ensures Grouped(found).Valid()
    ensures SumCounts(Grouped(found).vals, Grouped(found).created) == |found|
  {
    GroupedValid(found);
    if found != [] {
      var n := |found| - 1;
      var prefix := Grouped(found[..n]);
      var item := found[n];
      var k := GroupKey(item);
      var g := if k in prefix.vals then prefix.vals[k] else Group(item.productName, item.productBrand, 0);
      assert Grouped(found) == prefix.Put(k, g.(count := g.count + 1));
      CountsAddUp(found[..n]);
      PutSumCounts(prefix, k, g.(count := g.count + 1));
    }
  }

  /**
   * `if (!grouped[id]) grouped[id] = {...count: 0}; grouped[id].count += 1;`
   * adds one to the group of the id, creating it first when it is missing.
   */
  lemma CreateThenCount(grouped: JsObject.Dict<Group>, k: string, created: Group)
    ensures var d := if k !in grouped.vals then grouped.Put(k, created) else grouped;
      var g := if k in grouped.vals then grouped.vals[k] else created;
      d.Put(k, d.vals[k].(count := d.vals[k].count + 1)) == grouped.Put(k, g.(count := g.count + 1))
  {
    grouped.PutTwice(k, created, created.(count := created.count + 1));
  }

  /**
   * The `forEach` that fills `grouped`: the first row with an id creates its
   * group with that row's name and brand and a count of 0, then every row
   * adds one to the count of its id.
   */
  method GroupByProduct(found: seq<InventoryItem>) returns (grouped: JsObject.Dict<Group>)
    ensures grouped == Grouped(found)
    ensures grouped.Valid()
    ensures grouped.created == Seqs.Distinct(GroupKeys(found))
  {
    grouped := JsObject.Empty();
    for i := 0 to |found|
      invariant grouped == Grouped(found[..i])
    {
      var item := found[i];
      var productId := GroupKey(item);
      ghost var first := if productId in grouped.vals then grouped.vals[productId] else Group(item.productName, item.productBrand, 0);
      ghost var counted := grouped.Put(productId, first.(count := first.count + 1));
      CreateThenCount(grouped, productId, Group(item.productName, item.productBrand, 0));
      if productId !in grouped.vals {
        grouped := grouped.Put(productId, Group(item.productName, item.productBrand, 0));
      }
      var g := grouped.vals[productId];
      grouped := grouped.Put(productId, g.(count := g.count + 1));
      assert grouped == counted;
      GroupedStep(found, i);
    }
    assert found[..|found|] == found;
    GroupedValid(found);
    GroupedOrder(found);
  }

  /** `val.product_brand?.trim() || 'Unknown'`. */
  function BrandShown(brand: Option<string>): string {
    match brand
    case None => "Unknown"
    case Some(b) => if Trim(b) == "" then "Unknown" else Trim(b)
  }

  /**
   * The brand shown is the brand without surrounding white space, or
   * "Unknown" when it is missing or blank.
   */
  lemma BrandShownSpec(brand: Option<string>)
    ensures brand.None? ==> BrandShown(brand) == "Unknown"
    ensures brand.Some? && (forall i :: 0 <= i < |brand.value| ==> IsJsSpace(brand.value[i])) ==>
      BrandShown(brand) == "Unknown"
    ensures brand.Some? && (exists i :: 0 <= i < |brand.value| && !IsJsSpace(brand.value[i])) ==>
      && (exists i, j :: 0 <= i <= j <= |brand.value| && BrandShown(brand) == brand.value[i..j]
            && SpacesOutside(brand.value, i, j))
      && BrandShown(brand) != ""
      && !IsJsSpace(BrandShown(brand)[0])
      && !IsJsSpace(BrandShown(brand)[|BrandShown(brand)| - 1])
  {
    if brand.Some? {
      TrimSpec(brand.value);
    }
  }

  const InventoryHeader := "\U{1F4E6} Matching Inventory Items:\n\n"

  const NotFoundReply := "\U{274C} " + "Sorry, I couldn't find that product in the inventory."

  /** One block: its number, then the group's details. */
  function RenderGroup(number: nat, g: Group): string {
    NatToString(number) + ". " + GroupDetails(g)
  }

  /** The product name, the brand shown and the count. */
  function GroupDetails(g: Group): string {
    "\U{1F6CD}\U{FE0F} Product: " + Str(g.name)
      + "\n   \U{1F3F7}\U{FE0F} Brand: " + BrandShown(g.brand)
      + "\n   \U{1F4E6} Available: " + NatToString(g.count)
  }

  /** `Object.entries(grouped).map(([_, val], i) => ...)`: the blocks numbered from 1. */
  function GroupBlocks(entries: seq<(string, Group)>): (blocks: seq<string>)
    ensures |blocks| == |entries|
  {
    seq(|entries|, i requires 0 <= i < |entries| => RenderGroup(i + 1, entries[i].1))
  }

  /** The reply once the groups are known. */
  function GroupsReply(grouped: JsObject.Dict<Group>): string
    requires grouped.Valid()
  {
    InventoryHeader + Join(GroupBlocks(grouped.Entries()), "\n\n")
  }

  /** The reply of the inventory branch. */
  function InventoryReply(message: string, items: seq<InventoryItem>): string {
    var found := Found(message, items);
    if found == [] then NotFoundReply
    else
      GroupedValid(found);
      GroupsReply(Grouped(found))
  }

  /** A reply that starts with the header is never the not-found reply. */
  lemma HeaderIsNotNotFound(rest: string)
    ensures InventoryHeader + rest != NotFoundReply
  {
    assert (InventoryHeader + rest)[0] == InventoryHeader[0] == '\U{1F4E6}';
    assert NotFoundReply[0] == "\U{274C} "[0] == '\U{274C}';
  }

  /** The not-found reply is given exactly when no row matches. */
  lemma NotFoundIff(message: string, items: seq<InventoryItem>)
    ensures InventoryReply(message, items) == NotFoundReply <==> Found(message, items) == []
  {
    var found := Found(message, items);
    if found != [] {
      GroupedValid(found);
      var grouped := Grouped(found);
      assert InventoryReply(message, items) == GroupsReply(grouped);
      HeaderIsNotNotFound(Join(GroupBlocks(grouped.Entries()), "\n\n"));
    }
  }

  /**
   * When rows match, the reply lists the groups of `grouped`, one block per
   * distinct id of the rows found.
   */
  lemma FoundReply(message: string, items: seq<InventoryItem>)
    requires Found(message, items) != []
    ensures Grouped(Found(message, items)).Valid()
    ensures InventoryReply(message, items) == GroupsReply(Grouped(Found(message, items)))
    ensures |Grouped(Found(message, items)).EntryKeys()| == |Seqs.Distinct(GroupKeys(Found(message, items)))|
  {
    var found := Found(message, items);
    GroupedValid(found);
    GroupedOrder(found);
    var grouped := Grouped(found);
    JsObject.OwnKeysSpec(grouped.created);
    assert |multiset(grouped.EntryKeys())| == |multiset(grouped.created)|;
  }

  /** Block `i` is numbered `i + 1` and shows the group of the `i`-th key `Object.entries` visits. */
  lemma BlockNumbered(grouped: JsObject.Dict<Group>, i: nat)
    requires grouped.Valid() && i < |grouped.EntryKeys()|
    ensures var blocks := GroupBlocks(grouped.Entries());
      && blocks[i] == RenderGroup(i + 1, grouped.vals[grouped.EntryKeys()[i]])
      && StartsWith(blocks[i], NatToString(i + 1) + ". ")
  {
    var blocks := GroupBlocks(grouped.Entries());
    var prefix := NatToString(i + 1) + ". ";
    var details := GroupDetails(grouped.Entries()[i].1);
    assert blocks[i] == prefix + details;
    assert (prefix + details)[..|prefix|] == prefix;
  }

  /** The reply is the header, then the blocks in order, each after the blocks before it. */
  lemma BlockPlaced(grouped: JsObject.Dict<Group>, i: nat)
    requires grouped.Valid() && i < |grouped.EntryKeys()|
    ensures var blocks := GroupBlocks(grouped.Entries());
      && StartsWith(GroupsReply(grouped), InventoryHeader)
      && OccursAt(GroupsReply(grouped), blocks[i], |InventoryHeader| + JoinOffset(blocks, "\n\n", i))
  {
    HeaderThenJoin(InventoryHeader + Join(GroupBlocks(grouped.Entries()), "\n\n"), InventoryHeader, GroupBlocks(grouped.Entries()), "\n\n", i);
  }
}
