/**
 * The `POST /chat` handler: lower-case the message, then let the first
 * branch whose keywords it contains answer from the four tables.
 */
module Chat {
  import opened Text
  import opened Records
  import Classifier
  import Distribution
  import OrderStatus
  import TopProducts
  import Inventory

  const FallbackReply :=
    "\U{2753} Sorry, I didn't understand that. You can ask about 'top products', 'order status', or 'product stock'."

  /**
   * The reply to a lower-cased message. The top-products branch needs every
   * quantity to parse: a NaN total would leave the order of the sort to the engine.
   */
  function Respond(message: string, db: Tables): string
    requires Classifier.Classify(message) == Classifier.TopProducts ==> TopProducts.QuantitiesParse(db.orderItems)
  {
    match Classifier.Classify(message)
    case DistributionCenter => Distribution.DistributionReply(message, db.distributionCenters)
    case OrderStatus => OrderStatus.OrderStatusReply(message, db.products, db.orderItems)
    case TopProducts => TopProducts.TopProductsReply(TopProducts.TopSales(db.orderItems, db.products))
    case Inventory => Inventory.InventoryReply(message, db.inventoryItems)
    case Fallback => FallbackReply
  }

  /** The handler body: the cascade of tests, running the two `forEach` loops where their branch is taken. */
  method HandleChat(raw: string, db: Tables) returns (reply: string)
    requires Classifier.Classify(ToLower(raw)) == Classifier.TopProducts ==> TopProducts.QuantitiesParse(db.orderItems)
    ensures reply == Respond(ToLower(raw), db)
  {
    var message := ToLower(raw);
    Classifier.DistributionCenterImpliesDistribution(message);
    if Contains(message, "distribution center") || Contains(message, "distribution") {
      reply := Distribution.DistributionReply(message, db.distributionCenters);
    } else if Contains(message, "order") && Contains(message, "status") {
      reply := OrderStatus.OrderStatusReply(message, db.products, db.orderItems);
    } else if Contains(message, "top") && Contains(message, "product") {
      var top := TopProducts.ComputeTopSales(db.orderItems, db.products);
      reply := TopProducts.TopProductsReply(top);
    } else if Contains(message, "stock") || Contains(message, "available") || Contains(message, "inventory") {
      var found := Inventory.Found(message, db.inventoryItems);
      if |found| > 0 {
        var grouped := Inventory.GroupByProduct(found);
        reply := Inventory.GroupsReply(grouped);
      } else {
        reply := Inventory.NotFoundReply;
      }
    } else {
      reply := FallbackReply;
    }
  }
}
