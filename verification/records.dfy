/**
 * The four tables the chat handler reads. Every row is a CSV record whose
 * columns become string fields; a field the row lacks is `None`
 * (JavaScript's `undefined`).
 */
module Records {
  import opened Wrappers

  datatype Product = Product(id: Option<string>, name: Option<string>)

  datatype OrderItem = OrderItem(
    orderId: Option<string>,
    productId: Option<string>,
    quantity: Option<string>,
    status: Option<string>,
    shippedAt: Option<string>,
    deliveredAt: Option<string>,
    returnedAt: Option<string>)

  datatype InventoryItem = InventoryItem(
    productId: Option<string>,
    productName: Option<string>,
    productBrand: Option<string>)

  datatype DistributionCenter = DistributionCenter(
    id: Option<string>,
    name: Option<string>,
    latitude: Option<string>,
    longitude: Option<string>)

  /** The in-memory data store, read-only while a request is handled. */
  datatype Tables = Tables(
    products: seq<Product>,
    orderItems: seq<OrderItem>,
    inventoryItems: seq<InventoryItem>,
    distributionCenters: seq<DistributionCenter>)

  /**
   * A field converted to a string, as `${x}`, `String(x)` and a property key
   * `obj[x]` convert it: a missing field becomes "undefined".
   */
  function Str(field: Option<string>): string {
    match field
    case Some(s) => s
    case None => "undefined"
  }

  /** `field || fallback`: a missing field and the empty string are both falsy. */
  function OrDefault(field: Option<string>, fallback: string): (r: string)
    ensures r == fallback || (field == Some(r) && r != "")
    ensures (field == None || field == Some("")) ==> r == fallback
    ensures field.Some? && field.value != "" ==> r == field.value
  {
    match field
    case Some(s) => if s != "" then s else fallback
    case None => fallback
  }
}
