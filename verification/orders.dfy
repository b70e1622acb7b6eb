/**
 Flattening of one Shopify order into the row the dashboard shows.

 A raw order is the JSON object Shopify returns; every field the backend reads
 with `order.get(key, default)` is an `Option` here, `None` standing for a
 missing key. Floating-point fields are opaque: `float()` of a numeric field is
 carried through as the field's own text, and the shipping cost, a sum of
 floats, as the sequence of its summands.
 */
module Orders {
  import opened Optional
  import opened PyStrings

  /** A numeric JSON field as `float()` sees it: a value it converts (kept as
      text), or one it rejects with an exception. */
  datatype Amount = Numeric(text: string) | NonNumeric

  /** A line item: its `title`, and the `str()` text of its `quantity`. */
  datatype LineItem = LineItem(title: Option<string>, quantity: Option<string>)

  datatype Customer = Customer(
    firstName: Option<string>,
    lastName: Option<string>,
    email: Option<string>,
    phone: Option<string>)

  /** The `customer` key: missing (read as `{}`), JSON `null` (read as `None`,
      on which `.get` raises), or an object. */
  datatype CustomerField = NoCustomer | NullCustomer | Present(customer: Customer)

  /** One element of the `orders` array of a Shopify response. The `id` is
      held as its `str()` text; `shippingPrices` holds the `price` of every
      element of `shipping_lines`. */
  datatype RawOrder = RawOrder(
    id: Option<string>,
    name: Option<string>,
    createdAt: Option<string>,
    financialStatus: Option<string>,
    currency: Option<string>,
    customer: CustomerField,
    lineItems: seq<LineItem>,
    shippingPrices: seq<Option<Amount>>,
    totalPrice: Option<Amount>,
    lineItemsPrice: Option<Amount>)

  /** The flattened row, one field per key of the dictionary the backend builds:
      'ID Замовлення Shopify', 'Номер Замовлення', 'Дата Замовлення',
      'Статус Замовлення Shopify', 'Ім'я Клієнта', 'Email Клієнта',
      'Телефон Клієнта', 'Загальна Сума', 'Валюта', 'URL Замовлення Shopify',
      'Товари Замовлення (Назва)', 'Товари Замовлення (Кількість)',
      'Статус Виготовлення', 'Вартість Товарів', 'Вартість Доставки' and
      'Чистий Прибуток', in that order. */
  datatype Order = Order(
    shopifyId: string,
    number: string,
    date: string,
    shopifyStatus: string,
    customerName: string,
    email: string,
    phone: string,
    total: string,
    currency: string,
    adminUrl: string,
    productTitles: string,
    productQuantities: string,
    productionStatus: string,
    goodsCost: string,
    shippingCost: seq<string>,
    netProfit: string)

  /** Every new row starts in production stage "new". */
  const NewStatus: string := "Нове"

  /** `float(order.get(key, 0))`: `None` when `float()` raises. A missing key
      reads as the integer 0. */
  function ToFloat(a: Option<Amount>): Option<string>
  {
    match a
    case None => Some("0")
    case Some(Numeric(t)) => Some(t)
    case Some(NonNumeric) => None
  }

  /** The summands of the shipping cost, or `None` when one of them is not numeric. */
  function ShippingTerms(prices: seq<Option<Amount>>): Option<seq<string>>
  {
    if |prices| == 0 then Some([])
    else
      match (ToFloat(prices[0]), ShippingTerms(prices[1..]))
      case (Some(t), Some(ts)) => Some([t] + ts)
      case _ => None
  }

  /** The titles of the line items, `''` for a missing one, in line-item order. */
  function Titles(items: seq<LineItem>): seq<string>
  {
    seq(|items|, i requires 0 <= i < |items| => items[i].title.GetOr(""))
  }

  /** The quantities of the line items, `''` for a missing one, in line-item order. */
  function Quantities(items: seq<LineItem>): seq<string>
  {
    seq(|items|, i requires 0 <= i < |items| => items[i].quantity.GetOr(""))
  }

  /** `f"{first} {last}".strip()`. */
  function FullName(first: string, last: string): string
  {
    Strip(first + " " + last, Whitespace)
  }

  /** The order's page in the Shopify admin. */
  function AdminUrl(store: string, id: string): string
  {
    "https://" + store + ".myshopify.com/admin/orders/" + id
  }

  /** An order flattens unless its customer is JSON `null` or `float()`
      rejects one of its amounts. */
  predicate Flattens(o: RawOrder)
  {
    && !o.customer.NullCustomer?
    && ToFloat(o.totalPrice).Some?
    && ToFloat(o.lineItemsPrice).Some?
    && ShippingTerms(o.shippingPrices).Some?
  }

  /** `order.get('customer', {})`: a missing customer reads as one without fields. */
  function CustomerOf(o: RawOrder): Customer
  {
    match o.customer
    case Present(c) => c
    case _ => Customer(None, None, None, None)
  }

  /** The row built for one order, or `None` when building it raises. */
  function Flatten(o: RawOrder, store: string): (r: Option<Order>)
    ensures r.Some? <==> Flattens(o)
    ensures r.Some? ==>
      && r.value.productionStatus == NewStatus
      && r.value.netProfit == ""
      && r.value.date == o.createdAt.GetOr("")
      && r.value.shopifyId == o.id.GetOr("")
      && r.value.adminUrl == AdminUrl(store, r.value.shopifyId)
  {
    var c := CustomerOf(o);
    match (ToFloat(o.totalPrice), ToFloat(o.lineItemsPrice), ShippingTerms(o.shippingPrices))
    case (Some(total), Some(goods), Some(shipping)) =>
      if o.customer.NullCustomer? then None
      else
        var id := o.id.GetOr("");
        Some(Order(
          shopifyId := id,
          number := o.name.GetOr(""),
          date := o.createdAt.GetOr(""),
          shopifyStatus := o.financialStatus.GetOr(""),
          customerName := FullName(c.firstName.GetOr(""), c.lastName.GetOr("")),
          email := c.email.GetOr(""),
          phone := c.phone.GetOr(""),
          total := total,
          currency := o.currency.GetOr(""),
          adminUrl := AdminUrl(store, id),
          productTitles := Join(Titles(o.lineItems), "; "),
          productQuantities := Join(Quantities(o.lineItems), "; "),
          productionStatus := NewStatus,
          goodsCost := goods,
          shippingCost := shipping,
          netProfit := ""))
    case _ => None
  }

  /** The rows of a whole page, all or nothing: one order that fails to flatten
      fails the page. */
  function FlattenAll(raw: seq<RawOrder>, store: string): Option<seq<Order>>
  {
    if |raw| == 0 then Some([])
    else
      match (Flatten(raw[0], store), FlattenAll(raw[1..], store))
      case (Some(o), Some(os)) => Some([o] + os)
      case _ => None
  }

  /** A page flattens exactly when each of its orders does, and then row `i`
      is the row of order `i`. */
  lemma {:induction false} FlattenAllMeaning(raw: seq<RawOrder>, store: string)
    ensures FlattenAll(raw, store).Some? <==> forall i :: 0 <= i < |raw| ==> Flattens(raw[i])
    ensures FlattenAll(raw, store).Some? ==>
      && |FlattenAll(raw, store).value| == |raw|
      && forall i :: 0 <= i < |raw| ==> FlattenAll(raw, store).value[i] == Flatten(raw[i], store).value
    decreases |raw|
  {
    if |raw| > 0 {
      FlattenAllMeaning(raw[1..], store);
      assert forall i :: 1 <= i < |raw| ==> raw[i] == raw[1..][i - 1];
    }
  }

  /** The shipping summands are exactly the prices, a missing price counting as 0. */
  lemma {:induction false} ShippingTermsMeaning(prices: seq<Option<Amount>>)
    ensures ShippingTerms(prices).Some? <==> forall i :: 0 <= i < |prices| ==> prices[i] != Some(NonNumeric)
    ensures ShippingTerms(prices).Some? ==>
      && |ShippingTerms(prices).value| == |prices|
      && forall i :: 0 <= i < |prices| ==> ShippingTerms(prices).value[i] == ToFloat(prices[i]).value
    decreases |prices|
  {
    if |prices| > 0 {
      ShippingTermsMeaning(prices[1..]);
      assert forall i :: 1 <= i < |prices| ==> prices[i] == prices[1..][i - 1];
    }
  }

  /** With no line items both product columns are empty. */
  lemma NoItemsNoProducts(o: RawOrder, store: string)
    requires Flattens(o) && |o.lineItems| == 0
    ensures Flatten(o, store).value.productTitles == ""
    ensures Flatten(o, store).value.productQuantities == ""
  {
  }

  /** The product columns list the line items in order: cutting them at `;`
      gives one piece per line item, each after the first preceded by the
      space of the `"; "` separator. (Titles that themselves hold a `;` make
      the column ambiguous, so the property is stated for those that do not.) */
  lemma ProductColumns(o: RawOrder, store: string)
    requires Flattens(o) && |o.lineItems| > 0
    requires forall i :: 0 <= i < |o.lineItems| ==> ';' !in o.lineItems[i].title.GetOr("")
    requires forall i :: 0 <= i < |o.lineItems| ==> ';' !in o.lineItems[i].quantity.GetOr("")
    ensures var titles := Split(Flatten(o, store).value.productTitles, ';');
      && |titles| == |o.lineItems|
      && titles[0] == o.lineItems[0].title.GetOr("")
      && forall i :: 0 < i < |titles| ==> titles[i] == " " + o.lineItems[i].title.GetOr("")
    ensures var quantities := Split(Flatten(o, store).value.productQuantities, ';');
      && |quantities| == |o.lineItems|
      && quantities[0] == o.lineItems[0].quantity.GetOr("")
      && forall i :: 0 < i < |quantities| ==> quantities[i] == " " + o.lineItems[i].quantity.GetOr("")
  {
    assert [';'] + " " == "; ";
    SplitJoinWith(Titles(o.lineItems), ';', " ");
    SplitJoinWith(Quantities(o.lineItems), ';', " ");
  }

  /** The customer name of a row never starts or ends with whitespace. */
  lemma FullNameTrimmed(o: RawOrder, store: string)
    requires Flattens(o)
    ensures Trimmed(Flatten(o, store).value.customerName)
  {
    var c := CustomerOf(o);
    StripIsTrim(c.firstName.GetOr("") + " " + c.lastName.GetOr(""), Whitespace);
  }

  /** When both parts are present and already trimmed, the customer name is
      first name, one space, last name. */
  lemma FullNameBoth(first: string, last: string)
    requires Trimmed(first) && Trimmed(last) && first != "" && last != ""
    ensures FullName(first, last) == first + " " + last
  {
    assert first + " " + last == "" + (first + " " + last) + "";
    StripFrame("", first + " " + last, "", Whitespace);
  }

  /** With one part empty, the customer name is the other part trimmed. */
  lemma FullNameOnePart(first: string, last: string)
    ensures first == "" ==> FullName(first, last) == Strip(last, Whitespace)
    ensures last == "" ==> FullName(first, last) == Strip(first, Whitespace)
  {
    if first == "" {
      assert first + " " + last == " " + last;
      StripLeftFrame(" ", last, Whitespace);
    }
    if last == "" {
      assert first + " " + last == first + " ";
      StripTrailingSpace(first);
    }
  }

  /** `s` has no whitespace at either end. */
  predicate Trimmed(s: string)
  {
    |s| > 0 ==> s[0] !in Whitespace && s[|s| - 1] !in Whitespace
  }

  /** A trailing space changes nothing once both ends are stripped. */
  lemma StripTrailingSpace(s: string)
    ensures Strip(s + " ", Whitespace) == Strip(s, Whitespace)
  {
    var l := StripLeft(s, Whitespace);
    StripLeftConcat(s, " ", Whitespace);
    if l != "" {
      StripRightFrameOnly(l, " ", Whitespace);
    }
  }
}
