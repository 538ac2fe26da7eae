/** The order-status branch: extract an order id, list the order's items with their lifecycle fields. */
module OrderStatus {
  import opened Wrappers
  import opened Text
  import opened Numbers
  import opened Records
  import Seqs

  /** The first position at or after `from` that holds a digit, or `|s|`. */
  function NextDigit(s: string, from: nat): (r: nat)
    requires from <= |s|
    ensures from <= r <= |s|
    ensures forall k :: from <= k < r ==> !IsDigit(s[k])
    ensures r < |s| ==> IsDigit(s[r])
    decreases |s| - from
  {
    if from == |s| || IsDigit(s[from]) then from else NextDigit(s, from + 1)
  }

  /** The end of the run of digits that starts at `from`. */
  function RunEnd(s: string, from: nat): (r: nat)
    requires from <= |s|
    ensures from <= r <= |s|
    ensures forall k :: from <= k < r ==> IsDigit(s[k])
    ensures r < |s| ==> !IsDigit(s[r])
    decreases |s| - from
  {
    if from == |s| || !IsDigit(s[from]) then from else RunEnd(s, from + 1)
  }

  /**
   * `message.match(/\d+/)`: the span `[start, end)` of the first maximal run
   * of ASCII digits, or `None` when the message has no digit.
   */
  function FirstDigitRun(message: string): (span: Option<(nat, nat)>)
    ensures span.None? <==> forall k :: 0 <= k < |message| ==> !IsDigit(message[k])
    ensures span.Some? ==>
      && span.value.0 < span.value.1 <= |message|
      && AllDigits(message[span.value.0..span.value.1])
      && (forall k :: 0 <= k < span.value.0 ==> !IsDigit(message[k]))
      && (span.value.1 < |message| ==> !IsDigit(message[span.value.1]))
  {
    var start := NextDigit(message, 0);
    if start == |message| then None else Some((start, RunEnd(message, start)))
  }

  /** The order id a message names: the text of its first digit run. */
  function ExtractOrderId(message: string): Option<string> {
    match FirstDigitRun(message)
    case None => None
    case Some((start, end)) => Some(message[start..end])
  }

  /** The extracted id is a non-empty run of digits found in the message, with no digit before it or right after it. */
  lemma OrderIdSpec(message: string)
    ensures ExtractOrderId(message).None? <==> forall k :: 0 <= k < |message| ==> !IsDigit(message[k])
    ensures ExtractOrderId(message).Some? ==>
      var id := ExtractOrderId(message).value;
      && id != [] && AllDigits(id) && Contains(message, id)
      && exists start ::
        && OccursAt(message, id, start)
        && (forall k :: 0 <= k < start ==> !IsDigit(message[k]))
        && (start + |id| < |message| ==> !IsDigit(message[start + |id|]))
  {
    if FirstDigitRun(message).Some? {
      var (start, end) := FirstDigitRun(message).value;
      var id := message[start..end];
      assert OccursAt(message, id, start);
      ContainsIff(message, id);
    }
  }

  function OrderIs(id: string): OrderItem -> bool {
    (item: OrderItem) => item.orderId == Some(id)
  }

  /** `orderItems.filter(item => item.order_id === orderId)`: exact string equality, no numeric coercion. */
  function ItemsOfOrder(orderItems: seq<OrderItem>, id: string): seq<OrderItem> {
    Seqs.Filter(OrderIs(id), orderItems)
  }

  /**
   * The matched items are exactly the rows whose order id is the requested
   * one, each as often as in the table, and in table order.
   */
  lemma ItemsOfOrderSpec(a: seq<OrderItem>, b: seq<OrderItem>, id: string, x: OrderItem)
    ensures multiset(ItemsOfOrder(a, id))[x] == if x.orderId == Some(id) then multiset(a)[x] else 0
    ensures ItemsOfOrder(a + b, id) == ItemsOfOrder(a, id) + ItemsOfOrder(b, id)
  {
    Seqs.FilterCount(OrderIs(id), a, x);
    Seqs.FilterConcat(OrderIs(id), a, b);
  }

  function ProductIs(productId: Option<string>): Product -> bool {
    (p: Product) => p.id == productId
  }

  /** `products[j]` is the first product whose id is `productId`. */
  predicate FirstProductWithId(products: seq<Product>, productId: Option<string>, j: int) {
    && 0 <= j < |products| && products[j].id == productId
    && forall k :: 0 <= k < j ==> products[k].id != productId
  }

  /** What one item's block shows. */
  datatype ItemView = ItemView(product: string, status: string, shipped: string, delivered: string, returned: string)

  /**
   * One item joined to its product (`p.id === item.product_id`), with the
   * lifecycle fields; a missing product name or field shows its default.
   */
  function Describe(products: seq<Product>, item: OrderItem): ItemView {
    var product := Seqs.Find(ProductIs(item.productId), products);
    var name := match product
      case Some(p) => OrDefault(p.name, "Unknown Product")
      case None => "Unknown Product";
    ItemView(
      name,
      OrDefault(item.status, "Unknown"),
      OrDefault(item.shippedAt, "Not shipped"),
      OrDefault(item.deliveredAt, "Not delivered"),
      OrDefault(item.returnedAt, "Not returned"))
  }

  /** The product found for an item is the first one whose id equals the item's product id. */
  lemma FindsFirstProduct(products: seq<Product>, item: OrderItem, j: int)
    requires FirstProductWithId(products, item.productId, j)
    ensures Seqs.FindIndex(ProductIs(item.productId), products) == Some(j)
  {
    var p := ProductIs(item.productId);
    var r := Seqs.FindIndex(p, products);
    assert p(products[j]);
    if r.Some? && r.value < j {
      assert false;
    }
  }

  /** No product is found for an item whose product id no product carries. */
  lemma FindsNoProduct(products: seq<Product>, item: OrderItem)
    requires forall j :: 0 <= j < |products| ==> products[j].id != item.productId
    ensures Seqs.FindIndex(ProductIs(item.productId), products) == None
  {
    var p := ProductIs(item.productId);
    var r := Seqs.FindIndex(p, products);
    if r.Some? {
      assert false;
    }
  }

  /**
   * The block of an item shows the name of the first product whose id equals
   * the item's product id (two missing ids are equal), "Unknown Product" when
   * there is none or its name is missing or empty, and each lifecycle field,
   * replaced by its default when missing or empty.
   */
  lemma DescribeSpec(products: seq<Product>, item: OrderItem)
    ensures var v := Describe(products, item);
      && ((forall j :: 0 <= j < |products| ==> products[j].id != item.productId) ==> v.product == "Unknown Product")
      && (forall j :: FirstProductWithId(products, item.productId, j) ==>
            v.product == OrDefault(products[j].name, "Unknown Product"))
      && v.status == OrDefault(item.status, "Unknown")
      && v.shipped == OrDefault(item.shippedAt, "Not shipped")
      && v.delivered == OrDefault(item.deliveredAt, "Not delivered")
      && v.returned == OrDefault(item.returnedAt, "Not returned")
  {
    if forall j :: 0 <= j < |products| ==> products[j].id != item.productId {
      FindsNoProduct(products, item);
    }
    forall j | FirstProductWithId(products, item.productId, j)
      ensures Describe(products, item).product == OrDefault(products[j].name, "Unknown Product")
    {
      FindsFirstProduct(products, item, j);
    }
  }

  function RenderItem(v: ItemView): string {
    "\U{2022} \U{1F6CD}\U{FE0F} Product: " + v.product
      + "\n  \U{1F4E6} Status: " + v.status
      + "\n  \U{1F69A} Shipped At: " + v.shipped
      + "\n  \U{1F4EC} Delivered At: " + v.delivered
      + "\n  \U{1F504} Returned At: " + v.returned
  }

  function Blocks(products: seq<Product>, matched: seq<OrderItem>): (blocks: seq<string>)
    ensures |blocks| == |matched|
  {
    seq(|matched|, i requires 0 <= i < |matched| => RenderItem(Describe(products, matched[i])))
  }

  const PromptReply := "\U{2757} Please provide a valid order ID to check status."

  function NotFoundReply(id: string): string {
    "\U{274C} No order found with ID " + id + "."
  }

  function Header(id: string): string {
    "\U{1F4E6} Order Status for Order ID " + id + ":\n\n"
  }

  /** The reply of the order-status branch. */
  function OrderStatusReply(message: string, products: seq<Product>, orderItems: seq<OrderItem>): string {
    match ExtractOrderId(message)
    case None => PromptReply
    case Some(id) =>
      var matched := ItemsOfOrder(orderItems, id);
      if matched == [] then NotFoundReply(id)
      else Header(id) + Join(Blocks(products, matched), "\n\n")
  }

  /** A message without a digit gets the prompt, and no lookup happens. */
  lemma NoDigitPrompts(message: string, products: seq<Product>, orderItems: seq<OrderItem>)
    requires forall k :: 0 <= k < |message| ==> !IsDigit(message[k])
    ensures OrderStatusReply(message, products, orderItems) == PromptReply
  {
  }

  /** An id no row carries gets the not-found reply naming that id. */
  lemma UnknownOrderNotFound(message: string, products: seq<Product>, orderItems: seq<OrderItem>, id: string)
    requires ExtractOrderId(message) == Some(id)
    requires forall j :: 0 <= j < |orderItems| ==> orderItems[j].orderId != Some(id)
    ensures OrderStatusReply(message, products, orderItems) == NotFoundReply(id)
  {
    var matched := ItemsOfOrder(orderItems, id);
    if matched != [] {
      ItemsOfOrderSpec(orderItems, [], id, matched[0]);
      assert false;
    }
  }

  /** Block `i` of a found order's reply shows matched item `i`, after the header and the blocks before it. */
  lemma HeaderThenBlocks(products: seq<Product>, matched: seq<OrderItem>, id: string, i: nat)
    requires i < |matched|
    ensures StartsWith(Header(id) + Join(Blocks(products, matched), "\n\n"), Header(id))
    ensures OccursAt(Header(id) + Join(Blocks(products, matched), "\n\n"), RenderItem(Describe(products, matched[i])),
                     |Header(id)| + JoinOffset(Blocks(products, matched), "\n\n", i))
  {
    var shown := Header(id) + Join(Blocks(products, matched), "\n\n");
    HeaderThenJoin(shown, Header(id), Blocks(products, matched), "\n\n", i);
  }

  /**
   * The layout of the reply to a message naming a found order: it is one
   * header naming the id, then the blocks of the matched items joined by
   * blank lines; block `i` shows matched item `i`, so the blocks follow table order.
   */
  lemma FoundOrderLayout(message: string, products: seq<Product>, orderItems: seq<OrderItem>, id: string, i: nat)
    requires ExtractOrderId(message) == Some(id) && i < |ItemsOfOrder(orderItems, id)|
    ensures var shown := Header(id) + Join(Blocks(products, ItemsOfOrder(orderItems, id)), "\n\n");
      && OrderStatusReply(message, products, orderItems) == shown
      && StartsWith(shown, Header(id))
      && OccursAt(shown, RenderItem(Describe(products, ItemsOfOrder(orderItems, id)[i])),
                  |Header(id)| + JoinOffset(Blocks(products, ItemsOfOrder(orderItems, id)), "\n\n", i))
  {
    HeaderThenBlocks(products, ItemsOfOrder(orderItems, id), id, i);
  }
}
