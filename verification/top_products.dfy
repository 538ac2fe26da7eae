/**
 * The top-products branch: total the quantities sold per product id over
 * all order items, sort the totals in descending order (stable), keep five.
 */
module TopProducts {
  import opened Wrappers
  import opened Text
  import opened Numbers
  import opened Records
  import Seqs
  import Sorting
  import JsObject

  /** `item.product_id` as a property key of `salesMap`. */
  function SalesKey(item: OrderItem): string {
    Str(item.productId)
  }

  /** `parseInt(item.quantity, 10)`; a missing quantity reads "undefined", which is NaN (`None`). */
  function Quantity(item: OrderItem): Option<int> {
    ParseInt(Str(item.quantity))
  }

  /** Every quantity parses as an integer. */
  predicate QuantitiesParse(items: seq<OrderItem>) {
    forall i :: 0 <= i < |items| ==> Quantity(items[i]).Some?
  }

  /** The keys of the items, in table order. */
  function SalesKeys(items: seq<OrderItem>): (keys: seq<string>)
    ensures |keys| == |items|
    ensures forall i :: 0 <= i < |items| ==> keys[i] == SalesKey(items[i])
  {
    if items == [] then [] else SalesKeys(items[..|items| - 1]) + [SalesKey(items[|items| - 1])]
  }

  /** The sum of the quantities of the items whose product id is `productId`. */
  function TotalSold(items: seq<OrderItem>, productId: string): int
    requires QuantitiesParse(items)
  {
    if items == [] then 0
    else
      var last := items[|items| - 1];
      TotalSold(items[..|items| - 1], productId) + (if SalesKey(last) == productId then Quantity(last).value else 0)
  }

  lemma {:induction false} TotalSoldAbsent(items: seq<OrderItem>, productId: string)
    requires QuantitiesParse(items) && productId !in SalesKeys(items)
    ensures TotalSold(items, productId) == 0
  {
    if items != [] {
      var n := |items| - 1;
      assert SalesKeys(items)[n] == SalesKey(items[n]);
      assert SalesKeys(items[..n]) == SalesKeys(items)[..n];
      TotalSoldAbsent(items[..n], productId);
    }
  }

  lemma KeysStep(items: seq<OrderItem>, i: nat)
    requires i < |items|
    ensures SalesKeys(items[..i + 1]) == SalesKeys(items[..i]) + [SalesKey(items[i])]
  {
    assert items[..i + 1][..i] == items[..i];
  }

  /** `salesMap` once the `forEach` has visited `items`. */
  function SalesMap(items: seq<OrderItem>): JsObject.Dict<int>
    requires QuantitiesParse(items)
  {
    if items == [] then JsObject.Empty()
    else
      var sales := SalesMap(items[..|items| - 1]);
      var last := items[|items| - 1];
      var k := SalesKey(last);
      sales.Put(k, (if k in sales.vals then sales.vals[k] else 0) + Quantity(last).value)
  }

  /** One more item updates the entry of its product id, and nothing else. */
  lemma SalesMapStep(items: seq<OrderItem>, i: nat)
    requires QuantitiesParse(items) && i < |items|
    ensures QuantitiesParse(items[..i]) && QuantitiesParse(items[..i + 1])
    ensures var sales := SalesMap(items[..i]);
      var k := SalesKey(items[i]);
      SalesMap(items[..i + 1]) == sales.Put(k, (if k in sales.vals then sales.vals[k] else 0) + Quantity(items[i]).value)
  {
    assert items[..i + 1][..i] == items[..i];
  }

  /** `salesMap` has a key for exactly the product ids of the items, holding the sum of their quantities. */
  lemma {:induction false} SalesMapTotals(items: seq<OrderItem>, k: string)
    requires QuantitiesParse(items)
    ensures k in SalesMap(items).vals <==> k in SalesKeys(items)
    ensures k in SalesMap(items).vals ==> SalesMap(items).vals[k] == TotalSold(items, k)
  {
    if items != [] {
      var n := |items| - 1;
      assert QuantitiesParse(items[..n]);
      SalesMapTotals(items[..n], k);
      assert SalesKeys(items) == SalesKeys(items[..n]) + [SalesKey(items[n])];
      if k !in SalesMap(items[..n]).vals {
        TotalSoldAbsent(items[..n], k);
      }
    }
  }

  /** `salesMap`'s keys were created in the order the product ids first appear. */
  lemma {:induction false} SalesMapOrder(items: seq<OrderItem>)
    requires QuantitiesParse(items)
    ensures SalesMap(items).created == Seqs.Distinct(SalesKeys(items))
  {
    if items != [] {
      var n := |items| - 1;
      var k := SalesKey(items[n]);
      assert QuantitiesParse(items[..n]);
      SalesMapOrder(items[..n]);
      KeysStep(items, n);
      assert items[..n + 1] == items;
      SalesMapTotals(items[..n], k);
      Seqs.DistinctMember(SalesKeys(items[..n]), k);
    }
  }

  /** `salesMap` is a well-formed dictionary: one created key per value. */
  lemma SalesMapValid(items: seq<OrderItem>)
    requires QuantitiesParse(items)
    ensures SalesMap(items).Valid()
  {
    SalesMapOrder(items);
    forall k ensures k in SalesMap(items).vals <==> k in SalesMap(items).created {
      SalesMapTotals(items, k);
      Seqs.DistinctMember(SalesKeys(items), k);
    }
  }

  /**
   * `if (!salesMap[id]) salesMap[id] = 0; salesMap[id] += qty;` adds the
   * quantity to the current total, a missing total counting as 0.
   */
  lemma ZeroThenAdd(sales: JsObject.Dict<int>, k: string, qty: int)
    ensures var d := if k !in sales.vals || sales.vals[k] == 0 then sales.Put(k, 0) else sales;
      d.Put(k, d.vals[k] + qty) == sales.Put(k, (if k in sales.vals then sales.vals[k] else 0) + qty)
  {
    sales.PutTwice(k, 0, qty);
  }

  /**
   * The `forEach` that fills `salesMap`: a key is created, at 0, the first
   * time its product id is seen (and reset to 0 while its total is 0, which
   * changes nothing), then the quantity is added.
   */
  method BuildSalesMap(items: seq<OrderItem>) returns (sales: JsObject.Dict<int>)
    requires QuantitiesParse(items)
    ensures sales == SalesMap(items)
    ensures sales.Valid()
    ensures sales.created == Seqs.Distinct(SalesKeys(items))
  {
    sales := JsObject.Empty();
    for i := 0 to |items|
      invariant sales == SalesMap(items[..i])
    {
      var productId := SalesKey(items[i]);
      var qty := Quantity(items[i]).value;
      ghost var total := sales.Put(productId, (if productId in sales.vals then sales.vals[productId] else 0) + qty);
      ZeroThenAdd(sales, productId, qty);
      if productId !in sales.vals || sales.vals[productId] == 0 {
        sales := sales.Put(productId, 0);
      }
      sales := sales.Put(productId, sales.vals[productId] + qty);
      assert sales == total;
      SalesMapStep(items, i);
    }
    assert items[..|items|] == items;
    SalesMapValid(items);
    SalesMapOrder(items);
  }
  /** One product's line in the reply; the id is kept to state what the line is about. */
  datatype Sale = Sale(productId: string, name: string, totalSold: int)

  function ProductWithId(productId: string): Product -> bool {
    (p: Product) => p.id == Some(productId)
  }

  /** `products.find(p => p.id === productId)?.name || 'Unknown'`. */
  function ProductName(products: seq<Product>, productId: string): string {
    match Seqs.Find(ProductWithId(productId), products)
    case Some(p) => OrDefault(p.name, "Unknown")
    case None => "Unknown"
  }

  /** The product ids in the order `Object.entries(salesMap)` visits them. */
  function EntryKeys(items: seq<OrderItem>): seq<string> {
    JsObject.OwnKeys(Seqs.Distinct(SalesKeys(items)))
  }

  /** `Object.entries(salesMap).map(...)`: one sale per distinct product id. */
  function SalesEntries(items: seq<OrderItem>, products: seq<Product>): (entries: seq<Sale>)
    requires QuantitiesParse(items)
    ensures |entries| == |EntryKeys(items)|
  {
    var keys := EntryKeys(items);
    seq(|keys|, i requires 0 <= i < |keys| => Sale(keys[i], ProductName(products, keys[i]), TotalSold(items, keys[i])))
  }

  /** The sort key for the comparator `(a, b) => b.totalSold - a.totalSold`. */
  function Descending(s: Sale): int {
    -s.totalSold
  }

  /** `.sort((a, b) => b.totalSold - a.totalSold).slice(0, 5)`. */
  function TopSales(items: seq<OrderItem>, products: seq<Product>): seq<Sale>
    requires QuantitiesParse(items)
  {
    var sorted := Sorting.SortBy(Descending, SalesEntries(items, products));
    sorted[..if |sorted| < 5 then |sorted| else 5]
  }

  /** `Object.entries(salesMap)` visits each product id of the items exactly once. */
  lemma EntryKeysSpec(items: seq<OrderItem>, k: string)
    ensures k in EntryKeys(items) <==> k in SalesKeys(items)
    ensures |EntryKeys(items)| == |Seqs.Distinct(SalesKeys(items))|
    ensures Seqs.NoDup(EntryKeys(items))
  {
    var created := Seqs.Distinct(SalesKeys(items));
    JsObject.OwnKeysSpec(created);
    assert k in EntryKeys(items) <==> k in multiset(JsObject.OwnKeys(created));
    Seqs.DistinctMember(SalesKeys(items), k);
    assert |multiset(EntryKeys(items))| == |multiset(created)|;
    Seqs.NoDupPermutation(created, EntryKeys(items));
  }

  /** The list has five products, or every product when fewer were ordered. */
  lemma TopSalesLength(items: seq<OrderItem>, products: seq<Product>)
    requires QuantitiesParse(items)
    ensures var n := |Seqs.Distinct(SalesKeys(items))|;
      |TopSales(items, products)| == if n < 5 then n else 5
  {
    EntryKeysSpec(items, "");
    Sorting.SortByPermutation(Descending, SalesEntries(items, products));
  }

  /** Each listed product was ordered, with its name and the sum of its quantities. */
  lemma TopSalesEntry(items: seq<OrderItem>, products: seq<Product>, i: nat)
    requires QuantitiesParse(items) && i < |TopSales(items, products)|
    ensures var s := TopSales(items, products)[i];
      && s.productId in SalesKeys(items)
      && s.totalSold == TotalSold(items, s.productId)
      && s.name == ProductName(products, s.productId)
  {
    var entries := SalesEntries(items, products);
    var sorted := Sorting.SortBy(Descending, entries);
    Sorting.SortByPermutation(Descending, entries);
    var s := sorted[i];
    assert s in multiset(entries);
    assert s in entries;
    var j :| 0 <= j < |entries| && entries[j] == s;
    EntryKeysSpec(items, s.productId);
  }

  /** The list is ordered from the most sold to the least sold. */
  lemma TopSalesOrdered(items: seq<OrderItem>, products: seq<Product>, i: nat, j: nat)
    requires QuantitiesParse(items) && i < j < |TopSales(items, products)|
    ensures TopSales(items, products)[i].totalSold >= TopSales(items, products)[j].totalSold
  {
    var sorted := Sorting.SortBy(Descending, SalesEntries(items, products));
    Sorting.SortBySorted(Descending, SalesEntries(items, products));
    Sorting.SortedAt(Descending, sorted, i, j);
  }

  /** No product is listed twice. */
  lemma TopSalesDistinct(items: seq<OrderItem>, products: seq<Product>, i: nat, j: nat)
    requires QuantitiesParse(items) && i < j < |TopSales(items, products)|
    ensures TopSales(items, products)[i].productId != TopSales(items, products)[j].productId
  {
    var entries := SalesEntries(items, products);
    var sorted := Sorting.SortBy(Descending, entries);
    EntryKeysSpec(items, "");
    assert Seqs.NoDup(entries) by {
      forall a, b | 0 <= a < b < |entries| ensures entries[a] != entries[b] {
        assert entries[a].productId == EntryKeys(items)[a];
        assert entries[b].productId == EntryKeys(items)[b];
      }
    }
    Sorting.SortByPermutation(Descending, entries);
    Seqs.NoDupPermutation(entries, sorted);
    TopSalesEntry(items, products, i);
    TopSalesEntry(items, products, j);
    assert sorted[i] != sorted[j];
  }

  /** Every product ordered has its sale somewhere in the sorted entries. */
  lemma RankOf(items: seq<OrderItem>, products: seq<Product>, k: string) returns (p: nat)
    requires QuantitiesParse(items) && k in SalesKeys(items)
    ensures var sorted := Sorting.SortBy(Descending, SalesEntries(items, products));
      p < |sorted| && sorted[p].productId == k && sorted[p].totalSold == TotalSold(items, k)
  {
    var entries := SalesEntries(items, products);
    var sorted := Sorting.SortBy(Descending, entries);
    EntryKeysSpec(items, k);
    var j := Seqs.IndexOf(EntryKeys(items), k);
    var e := entries[j];
    assert e.productId == k && e.totalSold == TotalSold(items, k);
    Sorting.SortByPermutation(Descending, entries);
    assert e in multiset(entries);
    assert e in sorted;
    p := Seqs.IndexOf(sorted, e);
  }

  /**
   * Every product ordered is listed, or the list is full and the product
   * sold no more than the fifth one listed.
   */
  lemma TopSalesOmitted(items: seq<OrderItem>, products: seq<Product>, k: string)
    requires QuantitiesParse(items) && k in SalesKeys(items)
    ensures var top := TopSales(items, products);
      || (exists i :: 0 <= i < |top| && top[i].productId == k)
      || (|top| == 5 && TotalSold(items, k) <= top[4].totalSold)
  {
    var entries := SalesEntries(items, products);
    var sorted := Sorting.SortBy(Descending, entries);
    var p := RankOf(items, products, k);
    var top := TopSales(items, products);
    if p < 5 {
      assert top[p] == sorted[p];
    } else {
      Sorting.SortBySorted(Descending, entries);
      Sorting.SortedAt(Descending, sorted, 4, p);
      assert |top| == 5 && top[4] == sorted[4];
    }
  }

  /**
   * The sort is stable: products sold equally often stay in the order
   * `Object.entries(salesMap)` visits them, and the list keeps the first of them.
   */
  lemma TopSalesTies(items: seq<OrderItem>, products: seq<Product>, t: int)
    requires QuantitiesParse(items)
    ensures Seqs.Filter(Sorting.KeyIs(Descending, t), TopSales(items, products))
      <= Seqs.Filter(Sorting.KeyIs(Descending, t), SalesEntries(items, products))
  {
    var entries := SalesEntries(items, products);
    var sorted := Sorting.SortBy(Descending, entries);
    var top := TopSales(items, products);
    assert sorted == top + sorted[|top|..];
    Seqs.FilterConcat(Sorting.KeyIs(Descending, t), top, sorted[|top|..]);
    Sorting.SortByStable(Descending, entries, t);
  }

  /** Every key `Object.entries(salesMap)` visits holds the total of its product id. */
  lemma EntryKeyTotal(items: seq<OrderItem>, k: string)
    requires QuantitiesParse(items) && k in EntryKeys(items)
    ensures k in SalesMap(items).vals && SalesMap(items).vals[k] == TotalSold(items, k)
  {
    var created := Seqs.Distinct(SalesKeys(items));
    JsObject.OwnKeysSpec(created);
    assert k in multiset(JsObject.OwnKeys(created));
    Seqs.DistinctMember(SalesKeys(items), k);
    SalesMapTotals(items, k);
  }

  /** The top-products computation as the handler runs it: the loop, then entries, sort and slice. */
  method ComputeTopSales(items: seq<OrderItem>, products: seq<Product>) returns (top: seq<Sale>)
    requires QuantitiesParse(items)
    ensures top == TopSales(items, products)
  {
    var sales := BuildSalesMap(items);
    var pairs := sales.Entries();
    assert sales.EntryKeys() == EntryKeys(items);
    var entries := seq(|pairs|, i requires 0 <= i < |pairs| => Sale(pairs[i].0, ProductName(products, pairs[i].0), pairs[i].1));
    forall i | 0 <= i < |entries| ensures entries[i] == SalesEntries(items, products)[i] {
      EntryKeyTotal(items, pairs[i].0);
    }
    assert entries == SalesEntries(items, products);
    var sorted := Sorting.SortBy(Descending, entries);
    top := sorted[..if |sorted| < 5 then |sorted| else 5];
  }

  /** Each line names a product and how many were sold. */
  function RenderSale(s: Sale): string {
    "\U{2022} " + s.name + ": " + IntToString(s.totalSold) + " sold"
  }

  const TopHeader := "\U{1F3C6} Top 5 Best-Selling Products:\n"

  function SaleLines(top: seq<Sale>): (lines: seq<string>)
    ensures |lines| == |top|
  {
    seq(|top|, i requires 0 <= i < |top| => RenderSale(top[i]))
  }

  /** The reply of the top-products branch. */
  function TopProductsReply(top: seq<Sale>): string {
    TopHeader + Join(SaleLines(top), "\n")
  }

  /** The reply shows the header, then the line of each listed product, in ranking order. */
  lemma TopReplyLayout(top: seq<Sale>, i: nat)
    requires i < |top|
    ensures StartsWith(TopProductsReply(top), TopHeader)
    ensures OccursAt(TopProductsReply(top), RenderSale(top[i]), |TopHeader| + JoinOffset(SaleLines(top), "\n", i))
  {
    HeaderThenJoin(TopProductsReply(top), TopHeader, SaleLines(top), "\n", i);
  }
}
