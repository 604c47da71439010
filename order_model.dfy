/**
 * The order document (models/order.js): required fields, the phone pattern, the numeric
 * minimums, the status enum with its default, and the status-label table.
 */
module OrderModel {
  import opened Wrappers
  import opened Text

  /** Document identity (an ObjectId in the database). */
  type Id = nat

  datatype OrderStatus = Pending | Confirmed | Shipped | Delivered | Cancelled

  function StatusName(st: OrderStatus): string {
    match st
    case Pending => "pending"
    case Confirmed => "confirmed"
    case Shipped => "shipped"
    case Delivered => "delivered"
    case Cancelled => "cancelled"
  }

  const StatusNames: seq<string> := ["pending", "confirmed", "shipped", "delivered", "cancelled"]

  /** The enum check on a status string. */
  function ParseStatus(s: string): (r: Option<OrderStatus>)
    ensures r.Some? <==> s in StatusNames
    ensures r.Some? ==> StatusName(r.value) == s
  {
    if s == "pending" then Some(Pending)
    else if s == "confirmed" then Some(Confirmed)
    else if s == "shipped" then Some(Shipped)
    else if s == "delivered" then Some(Delivered)
    else if s == "cancelled" then Some(Cancelled)
    else None
  }

  lemma ParseStatusName(st: OrderStatus)
    ensures ParseStatus(StatusName(st)) == Some(st)
  {
  }

  /** The fixed display text of each status. */
  function Label(st: OrderStatus): string {
    match st
    case Pending => "Chờ xác nhận"
    case Confirmed => "Đã xác nhận"
    case Shipped => "Đang vận chuyển"
    case Delivered => "Đã giao"
    case Cancelled => "Đã hủy"
  }

  /** `getStatusLabel`: the label of a known status, the raw status string otherwise. */
  function StatusLabel(status: string): string {
    match ParseStatus(status)
    case Some(st) => Label(st)
    case None => status
  }

  /**
   * Each of the five statuses has its own label, different from every status name;
   * any other string is returned unchanged.
   */
  lemma StatusLabelTable(status: string)
    ensures status in StatusNames ==> StatusLabel(status) !in StatusNames
    ensures status !in StatusNames ==> StatusLabel(status) == status
    ensures forall a, b :: Label(a) == Label(b) ==> a == b
    ensures forall st :: StatusLabel(StatusName(st)) == Label(st)
  {
  }

  datatype Order = Order(
    productId: Id,
    productName: string,
    boxCount: int,
    totalPrice: int,
    fullName: string,
    phone: string,
    address: string,
    note: Option<string>,
    status: OrderStatus)

  /** `match: /^\d{10,11}$/`: exactly 10 or 11 ASCII digits. */
  predicate PhoneOk(s: string) {
    AllDigits(s) && 10 <= |s| <= 11
  }

  /** Every validator of the schema holds of the document (the five-value enum is the type). */
  predicate ValidOrder(o: Order) {
    && o.productName != []
    && o.boxCount >= 1
    && o.totalPrice >= 0
    && o.fullName != []
    && PhoneOk(o.phone)
    && o.address != []
  }

  /** `new Order({...})`: string setters trim, and the status takes its default, pending. */
  function NewOrder(productId: Id, productName: string, boxCount: int, totalPrice: int,
                    fullName: string, phone: string, address: string, note: Option<string>): (o: Order)
    ensures o.status == Pending
    ensures ValidOrder(o) <==> && Trim(productName) != [] && boxCount >= 1 && totalPrice >= 0
                               && Trim(fullName) != [] && PhoneOk(Trim(phone)) && Trim(address) != []
  {
    Order(productId, Trim(productName), boxCount, totalPrice, Trim(fullName), Trim(phone), Trim(address),
          match note case Some(n) => Some(Trim(n)) case None => None,
          Pending)
  }

  /** A phone that already matches the pattern is unchanged by trimming. */
  lemma DigitsAreTrimmed(s: string)
    requires PhoneOk(s)
    ensures Trim(s) == s
  {
    assert !IsJsSpace(s[0]) && !IsJsSpace(s[|s| - 1]);
  }
}
