# E-commerce chatbot: the `POST /chat` dispatcher

This project models the body of the chatbot backend's `POST /chat` handler in
`ecommerce-chatbot/backend/index.js`. The handler lower-cases the incoming
message and runs an ordered cascade of substring tests. The first test that
passes picks the branch that answers, using four in-memory tables:

- **distribution center**: the first center whose lower-cased name or id
  occurs in the message, or a not-found reply;
- **order status**: the first run of digits in the message is the order id.
  Every order item with exactly that id is joined to its product and shown
  with its lifecycle fields. A missing id gets a prompt and an unknown id
  gets a not-found reply;
- **top products**: a `forEach` loop totals `parseInt(quantity)` per product
  id into a plain object. `Object.entries` lists the totals, which are sorted
  in descending order (stable) and cut to five;
- **inventory**: the rows whose lower-cased name or brand, or whose raw
  product id, occur in the message. A second `forEach` loop groups them by
  product id, counting rows and keeping the first row's name and brand. The
  groups are listed as numbered blocks, or a not-found reply is given;
- otherwise a fixed fallback reply.

The JavaScript semantics that decide the replies are modelled literally:

- **Missing fields.** A CSV row may lack a field (`Option` `None`, standing
  for `undefined`). `includes(undefined)` searches for the text "undefined",
  `${undefined}` renders "undefined" and `obj[undefined]` uses the key
  "undefined" (`Records.Str`).
- **Defaults.** `x || d` falls back on both a missing field and the empty
  string (`Records.OrDefault`).
- **Empty fields.** `includes("")` is always true, so a row with an empty
  name matches every message.
- **Key order.** `Object.entries` visits a plain object's keys in the order
  of ECMA-262's OrdinaryOwnPropertyKeys (section 10.1.11.1). Keys that are
  array indices (canonical numerals below 2^32 - 1) come first, in ascending
  numeric order. The other keys follow in creation order (`JsObject.OwnKeys`).
  A plain reading of the handler suggests "first appearance" order. For
  numeric product ids the code lists them in ascending id order instead, and
  the model follows the code.
- **Sorting.** `Array.prototype.sort` is stable (ECMAScript 2019 and later).
  It is modelled as a stable insertion sort by `-totalSold`
  (`Sorting.SortBy`).

Modules, one file each:

- `Wrappers`, `Text` (substring search, ASCII lower-casing, `trim`, `join`) and
  `Numbers` (printing integers, `parseInt`);
- `Seqs` (filter, find, distinct), `Sorting` and `JsObject` (a plain object
  used as a dictionary, with `Object.entries` order);
- `Records` (the four tables), `Classifier` (the cascade) and `Distribution`;
- `OrderStatus`, `TopProducts`, `Inventory`, and `Chat` (the handler).

The two `forEach` loops are imperative methods with loop invariants:
`TopProducts.BuildSalesMap` and `Inventory.GroupByProduct`. Each is proved
equal to a recursive specification function (`TopProducts.SalesMap`,
`Inventory.Grouped`), and the lemmas state what that function means.
`Chat.HandleChat` runs the cascade as written and is proved equal to
`Chat.Respond`, the reply as a function of the message and the tables.

## Model

| member | source | states |
|---|---|---|
| Classifier.Classify | ecommerce-chatbot/backend/index.js:61-137 | The branch taken is the first test the message passes. The distribution branch is taken iff the message contains "distribution". Order status is taken iff that fails and both "order" and "status" occur. Top products is taken iff both earlier tests fail and "top" and "product" occur. Inventory is taken iff all three fail and "stock", "available" or "inventory" occurs. |
| Classifier.DistributionCenterImpliesDistribution | ecommerce-chatbot/backend/index.js:61 | A message containing "distribution center" also contains "distribution", so the first disjunct of the first test adds nothing. |
| Classifier.FallbackExactly | ecommerce-chatbot/backend/index.js:171-172 | The fallback is chosen iff none of the four tests passes. |
| Classifier.KeywordAnyCase | ecommerce-chatbot/backend/index.js:58 | A keyword typed in any letter case is found in the lower-cased message. |
| Text.ContainsIff | ecommerce-chatbot/backend/index.js:61 | `includes` is true iff the needle occurs at some position of the text. |
| Text.ContainsEmpty | ecommerce-chatbot/backend/index.js:63 | Every text includes the empty string. |
| Text.ContainsToLower | ecommerce-chatbot/backend/index.js:58 | A text that contains a needle still contains it once both are lower-cased. |
| Text.LowerNeverContainsUpper | ecommerce-chatbot/backend/index.js:141 | A lower-cased text never contains a needle that holds an upper-case letter. |
| Text.TrimSlice | ecommerce-chatbot/backend/index.js:160 | `trim` returns a contiguous slice of its input, and every character it removes before or after that slice is white space. |
| Text.TrimEdges | ecommerce-chatbot/backend/index.js:160 | A non-empty `trim` result neither starts nor ends with white space. |
| Text.TrimBlank | ecommerce-chatbot/backend/index.js:160 | `trim` returns the empty string exactly when the input is all white space. |
| Text.TrimSpec | ecommerce-chatbot/backend/index.js:160 | `trim` returns a slice of its input with only white space before and after it. The slice neither starts nor ends with white space, and it is empty iff the input is all white space. |
| Text.JoinPartAt | ecommerce-chatbot/backend/index.js:104 | In `parts.join(sep)`, part `i` occurs at the sum of the lengths of the earlier parts and separators. |
| Text.JoinSepAt | ecommerce-chatbot/backend/index.js:104 | The separator follows every part but the last. |
| Text.HeaderThenJoin | ecommerce-chatbot/backend/index.js:106 | A reply made of a header and then a join starts with the header. Part `i` sits after the header at its offset in the join. |
| Numbers.NatToStringRoundTrip | ecommerce-chatbot/backend/index.js:132 | Reading back the decimal text JavaScript prints for a count gives the count. |
| Numbers.CanonicalRoundTrip | ecommerce-chatbot/backend/index.js:121 | Printing the value of a canonical numeral gives the numeral back, so distinct numeric keys have distinct values. |
| Numbers.ParseIntRoundTrip | ecommerce-chatbot/backend/index.js:116 | `parseInt(s, 10)` reads every printed integer back, negative ones included. |
| Numbers.ParseIntNaN | ecommerce-chatbot/backend/index.js:116 | A text without digits, such as "undefined" for a missing quantity, parses to NaN. |
| Records.OrDefault | ecommerce-chatbot/backend/index.js:97-101 | `x \|\| d` is `d` for a missing or empty field, and the field itself for a present non-empty one. |
| Seqs.FilterCount | ecommerce-chatbot/backend/index.js:89 | `filter` keeps every row that passes the test, as often as it occurs, and drops every other row. |
| Seqs.FilterConcat | ecommerce-chatbot/backend/index.js:138 | `filter` keeps table order: filtering a concatenation concatenates the filtered parts. |
| Seqs.FindIndex | ecommerce-chatbot/backend/index.js:62 | `find` returns the first element that passes the test, or none when no element does. |
| Seqs.DistinctMember | ecommerce-chatbot/backend/index.js:117 | The keys created by the loop are exactly the keys of the items. |
| Seqs.DistinctFirstAppearance | ecommerce-chatbot/backend/index.js:114-119 | Created keys are in the order of their first appearance among the items. |
| Sorting.SortByPermutation | ecommerce-chatbot/backend/index.js:129 | Sorting only rearranges: same multiset, same length. |
| Sorting.SortBySorted | ecommerce-chatbot/backend/index.js:129 | The sorted sequence is ascending by the key. |
| Sorting.InsertSorted | ecommerce-chatbot/backend/index.js:129 | Inserting into a sorted sequence keeps it sorted. |
| Sorting.SortByStable | ecommerce-chatbot/backend/index.js:129 | Elements with equal keys keep their relative order (a stable sort). |
| JsObject.OwnKeysSpec | ecommerce-chatbot/backend/index.js:121 | `Object.entries` visits every created key exactly once. Array indices come first, ascending; the other keys follow in creation order. |
| JsObject.OwnKeysStrict | ecommerce-chatbot/backend/index.js:121 | Distinct array-index keys are visited in strictly ascending numeric order. |
| JsObject.IndexValueInjective | ecommerce-chatbot/backend/index.js:121 | Two array-index keys with the same numeric value are the same key. |
| JsObject.Dict.PutValid | ecommerce-chatbot/backend/index.js:117-118 | Assigning a property keeps the keys and the creation order in step, without duplicates. |
| JsObject.Dict.PutTwice | ecommerce-chatbot/backend/index.js:117-118 | A second assignment to the same key overrides the first and keeps the key's place. |
| JsObject.Dict.Entries | ecommerce-chatbot/backend/index.js:121 | `Object.entries` pairs each key, in visiting order, with the value it holds. |
| Distribution.FirstMatchAnswers | ecommerce-chatbot/backend/index.js:62-69 | The first center in table order whose name or id occurs in the message answers, whatever later centers also match. |
| Distribution.NoMatchNotFound | ecommerce-chatbot/backend/index.js:70-73 | When no center matches, the not-found reply is given. |
| Distribution.DetailsShowFields | ecommerce-chatbot/backend/index.js:68 | The details show the center's name, id, latitude and longitude verbatim. |
| Distribution.EmptyFieldMatchesAll | ecommerce-chatbot/backend/index.js:63 | A center with an empty name or id matches every message. |
| Distribution.NameInAnyCaseMatches | ecommerce-chatbot/backend/index.js:58-63 | A center whose name occurs in the message, in any letter case, matches it. |
| OrderStatus.NextDigit | ecommerce-chatbot/backend/index.js:82 | Finds the first digit at or after a position: every character skipped is not a digit. |
| OrderStatus.RunEnd | ecommerce-chatbot/backend/index.js:82 | Finds the end of a digit run: every character in the run is a digit and the one after it is not. |
| OrderStatus.FirstDigitRun | ecommerce-chatbot/backend/index.js:82-83 | `/\d+/` fails iff the message has no digit. Otherwise the match is a non-empty, maximal run of digits with no digit before it. |
| OrderStatus.OrderIdSpec | ecommerce-chatbot/backend/index.js:82-83 | The order id is absent iff the message has no digit. Otherwise it is a non-empty digit string that occurs in the message with no digit before it and none right after it. |
| OrderStatus.NoDigitPrompts | ecommerce-chatbot/backend/index.js:85-87 | A message without a digit gets the prompt for an order id. |
| OrderStatus.ItemsOfOrderSpec | ecommerce-chatbot/backend/index.js:89 | The matched items are exactly the rows whose order id equals the extracted id, compared as strings, kept in table order. |
| OrderStatus.UnknownOrderNotFound | ecommerce-chatbot/backend/index.js:91-93 | An id that no row carries gets the not-found reply naming that id. |
| OrderStatus.FindsFirstProduct | ecommerce-chatbot/backend/index.js:96 | `products.find` returns the first product whose id equals the item's product id. |
| OrderStatus.FindsNoProduct | ecommerce-chatbot/backend/index.js:96 | `products.find` returns nothing when no product carries the item's product id. |
| OrderStatus.DescribeSpec | ecommerce-chatbot/backend/index.js:96-101 | An item shows the name of the first product with an equal id, or "Unknown Product" when there is none or the name is missing or empty. Each lifecycle field shows its value, or its default when missing or empty. |
| OrderStatus.FoundOrderLayout | ecommerce-chatbot/backend/index.js:95-106 | The reply to a message naming a found order is the header naming the id, then the item blocks joined by blank lines. It starts with the header. Block `i` describes matched item `i` and sits at its offset after the header, so the blocks follow table order. |
| TopProducts.SalesKeys | ecommerce-chatbot/backend/index.js:115 | One property key per order item, in table order. |
| TopProducts.TotalSoldAbsent | ecommerce-chatbot/backend/index.js:114-119 | A product id that no item carries has a total of 0. |
| TopProducts.SalesMapTotals | ecommerce-chatbot/backend/index.js:112-119 | After the loop, `salesMap` has a key iff some item has that product id. The value is the sum of those items' quantities. |
| TopProducts.SalesMapOrder | ecommerce-chatbot/backend/index.js:112-119 | The keys of `salesMap` are created in the order the product ids first appear. |
| TopProducts.SalesMapValid | ecommerce-chatbot/backend/index.js:112-119 | `salesMap` is a well-formed object: one created key per value, no duplicates. |
| TopProducts.ZeroThenAdd | ecommerce-chatbot/backend/index.js:117-118 | Resetting a falsy total to 0 and then adding the quantity adds it to the current total, a missing total counting as 0. |
| TopProducts.BuildSalesMap | ecommerce-chatbot/backend/index.js:112-119 | The loop computes `salesMap` as specified, well formed, with keys in first-appearance order. |
| TopProducts.EntryKeysSpec | ecommerce-chatbot/backend/index.js:121 | `Object.entries(salesMap)` visits each product id of the items exactly once. |
| TopProducts.EntryKeyTotal | ecommerce-chatbot/backend/index.js:121-126 | Every key `Object.entries` visits holds the total of its product id. |
| TopProducts.TopSalesLength | ecommerce-chatbot/backend/index.js:121-130 | The list has five products, or all the distinct products when there are fewer. |
| TopProducts.TopSalesEntry | ecommerce-chatbot/backend/index.js:121-128 | Each listed product was ordered and carries the sum of its quantities. Its name is that of the first product with its id, or "Unknown". |
| TopProducts.TopSalesOrdered | ecommerce-chatbot/backend/index.js:129 | The list runs from the most sold product to the least sold. |
| TopProducts.TopSalesDistinct | ecommerce-chatbot/backend/index.js:121-130 | No product id is listed twice. |
| TopProducts.RankOf | ecommerce-chatbot/backend/index.js:121-129 | Every ordered product has its entry, with its total, somewhere in the sorted list. |
| TopProducts.TopSalesOmitted | ecommerce-chatbot/backend/index.js:129-130 | Every ordered product is listed, or the list is full and that product sold no more than the fifth listed. |
| TopProducts.TopSalesTies | ecommerce-chatbot/backend/index.js:129-130 | Products with equal totals keep the order in which `Object.entries` visits them. The list keeps a prefix of them. |
| TopProducts.ComputeTopSales | ecommerce-chatbot/backend/index.js:112-130 | Running the loop, `Object.entries`, the sort and the slice gives the specified top-five list. |
| TopProducts.TopReplyLayout | ecommerce-chatbot/backend/index.js:132-133 | The reply starts with the header. Listed product `i`'s line sits at its offset after the header, in ranking order. |
| Inventory.FoundSpec | ecommerce-chatbot/backend/index.js:138-142 | `found` holds every matching row as often as the table does, and no other row. A row matches iff its lower-cased name or brand, or its raw id, occurs in the message. |
| Inventory.FoundKeepsOrder | ecommerce-chatbot/backend/index.js:138-142 | `found` keeps table order. |
| Inventory.UpperCaseIdNeverMatches | ecommerce-chatbot/backend/index.js:141 | An id holding an upper-case letter never matches through the id test, because the message is lower case. |
| Inventory.NameInAnyCaseMatches | ecommerce-chatbot/backend/index.js:138-139 | A row whose name occurs in the message, in any letter case, matches it. |
| Inventory.EmptyFieldMatchesAll | ecommerce-chatbot/backend/index.js:139-140 | A row with an empty name or brand matches every message. |
| Inventory.GroupKeys | ecommerce-chatbot/backend/index.js:149 | One property key per found row, in row order. |
| Inventory.GroupedKeys | ecommerce-chatbot/backend/index.js:146-157 | `grouped` has a group iff some found row has that product id. |
| Inventory.GroupedCount | ecommerce-chatbot/backend/index.js:148-157 | A group's count is the number of found rows with its id. |
| Inventory.GroupedFirst | ecommerce-chatbot/backend/index.js:149-155 | A group's name and brand are those of the first found row with its id. |
| Inventory.GroupedOrder | ecommerce-chatbot/backend/index.js:146-157 | The keys of `grouped` are created in the order the ids first appear in `found`. |
| Inventory.GroupedValid | ecommerce-chatbot/backend/index.js:146-157 | `grouped` is a well-formed object: one created key per group. |
| Inventory.SumCountsUpdate | ecommerce-chatbot/backend/index.js:156 | Changing the count of a listed group changes the sum of counts by the same amount. |
| Inventory.PutSumCounts | ecommerce-chatbot/backend/index.js:149-156 | Storing a group replaces its old count in the sum of counts, a new group counting as 0 before. |
| Inventory.CountsAddUp | ecommerce-chatbot/backend/index.js:148-157 | Every found row is counted exactly once: the counts add up to `found.length`. |
| Inventory.CreateThenCount | ecommerce-chatbot/backend/index.js:149-156 | Creating a missing group with a count of 0 and then adding one gives the current group with one more row. |
| Inventory.GroupByProduct | ecommerce-chatbot/backend/index.js:146-157 | The loop computes `grouped` as specified, well formed, with keys in first-appearance order. |
| Inventory.BrandShownSpec | ecommerce-chatbot/backend/index.js:160 | The brand shown is "Unknown" when missing or blank. Otherwise it is a slice of the brand with only white space removed around it, and it neither starts nor ends with white space. |
| Inventory.HeaderIsNotNotFound | ecommerce-chatbot/backend/index.js:164-167 | A reply that starts with the inventory header is never the not-found reply. |
| Inventory.NotFoundIff | ecommerce-chatbot/backend/index.js:144-168 | The not-found reply is given iff no row matches. |
| Inventory.FoundReply | ecommerce-chatbot/backend/index.js:144-164 | When rows match, the reply lists the groups of `grouped`, one block per distinct product id found. |
| Inventory.BlockNumbered | ecommerce-chatbot/backend/index.js:159-161 | Block `i` starts with its number `i + 1` and shows the group under the `i`-th key `Object.entries` visits. |
| Inventory.BlockPlaced | ecommerce-chatbot/backend/index.js:159-164 | The reply starts with the header, and block `i` sits at its offset after it. |
| Chat.HandleChat | ecommerce-chatbot/backend/index.js:57-172 | Running the handler's cascade, with both loops, gives the reply `Chat.Respond` specifies for the lower-cased message. |

## Left out

- Express routing, CORS, JSON body parsing, the `res.json` envelope and
  `app.listen` are left out. The model returns the reply text.
- Loading the CSV files at start-up is left out: the tables are given as
  parameters. The orders and users tables are not read by the handler and
  are not modelled.
- A request without a `message` field makes the handler throw on
  `toLowerCase`. The model takes the message as a string.
- TopProducts.ComputeTopSales: requires every quantity to parse as an
  integer. A NaN quantity makes its product's running total NaN. The next
  item of that product resets the total to 0, dropping the earlier
  quantities. A total still NaN at the end makes the comparator
  inconsistent, and the order of the sort is then left to the engine. None
  of this is modelled.
- Chat.HandleChat: requires every quantity to parse when the message is
  classified as a top-products question, for the same reason.
- Text.ToLower: lower-cases ASCII letters only. JavaScript's `toLowerCase`
  also maps non-ASCII letters, which Unicode case mapping would be needed to
  model.
- Numbers.IntToString: prints every integer in plain decimal.
  JavaScript switches to exponent notation from 1e21 and loses precision
  beyond 2^53, which totals of realistic quantities never reach.
- Numbers.ParseInt: reads an unbounded decimal prefix exactly. JavaScript
  rounds a prefix beyond 2^53 to the nearest double, which is not modelled.
- Property keys that name members of `Object.prototype` (`__proto__`,
  `toString`, ...) are treated as ordinary keys. In JavaScript
  `salesMap["toString"]` is truthy before any assignment, so the reset to 0
  would be skipped.
- The root route `GET /` and the static reply it sends are not part of this
  model.
