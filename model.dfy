/**
 * The entity records of the petstore (`src/model.rs`): categories, tags,
 * pets, orders, users and the inventory summary, and the two status
 * enumerations with their textual forms.
 */
module Model {
  import opened Wrappers

  const U64_MAX: int := 0xFFFF_FFFF_FFFF_FFFF
  const U32_MAX: int := 0xFFFF_FFFF

  /** Rust's `u64`: identifiers and order quantities. */
  type U64 = x: int | 0 <= x <= U64_MAX

  /** Rust's `u32`: the inventory counters. */
  type U32 = x: int | 0 <= x <= U32_MAX

  datatype Category = Category(id: Option<U64>, name: string)

  datatype Tag = Tag(id: Option<U64>, name: string)

  datatype Inventory = Inventory(available: U32, pending: U32, adopted: U32)

  datatype OrderStatus = Placed | Approved | Delivered

  datatype Order = Order(
    id: Option<U64>,
    petId: Option<U64>,
    quantity: Option<U64>,
    shipDate: Option<string>,
    status: Option<OrderStatus>,
    complete: Option<bool>)

  datatype Status = Available | Pending | Adopted

  datatype Pet = Pet(
    id: Option<U64>,
    name: string,
    photoUrls: seq<string>,
    category: Option<Category>,
    tags: Option<seq<Tag>>,
    status: Option<Status>)

  datatype User = User(
    id: Option<U64>,
    username: string,
    firstName: Option<string>,
    lastName: Option<string>,
    email: Option<string>,
    password: string,
    phone: Option<string>)

  /** `Display` for `OrderStatus`: its lower-case name. */
  function DisplayOrderStatus(o: OrderStatus): (s: string)
  {
    match o
    case Placed => "placed"
    case Approved => "approved"
    case Delivered => "delivered"
  }

  /**
   * `FromStr` for `OrderStatus`: exactly the three lower-case names are
   * accepted; any other text is rejected and carried back in the error.
   */
  function ParseOrderStatus(s: string): (r: Result<OrderStatus, string>)
    ensures r.Ok? <==> s == "placed" || s == "approved" || s == "delivered"
    ensures r.Ok? ==> DisplayOrderStatus(r.value) == s
    ensures r.Err? ==> r.error == s && forall o :: DisplayOrderStatus(o) != s
  {
    if s == "placed" then Ok(Placed)
    else if s == "approved" then Ok(Approved)
    else if s == "delivered" then Ok(Delivered)
    else Err(s)
  }

  /** `Display` for `Status`: its lower-case name. */
  function DisplayStatus(st: Status): (s: string)
  {
    match st
    case Available => "available"
    case Pending => "pending"
    case Adopted => "adopted"
  }

  /**
   * `FromStr` for `Status`: exactly the three lower-case names are
   * accepted; any other text is rejected and carried back in the error.
   */
  function ParseStatus(s: string): (r: Result<Status, string>)
    ensures r.Ok? <==> s == "available" || s == "pending" || s == "adopted"
    ensures r.Ok? ==> DisplayStatus(r.value) == s
    ensures r.Err? ==> r.error == s && forall st :: DisplayStatus(st) != s
  {
    if s == "available" then Ok(Available)
    else if s == "pending" then Ok(Pending)
    else if s == "adopted" then Ok(Adopted)
    else Err(s)
  }

  /** Parsing what `Display` printed gives back the same order status. */
  lemma OrderStatusRoundTrip(o: OrderStatus)
    ensures ParseOrderStatus(DisplayOrderStatus(o)) == Ok(o)
  {
  }

  /** Parsing what `Display` printed gives back the same status. */
  lemma StatusRoundTrip(st: Status)
    ensures ParseStatus(DisplayStatus(st)) == Ok(st)
  {
  }

  /** The three status names are distinct, so `Display` loses nothing. */
  lemma DisplayStatusInjective(a: Status, b: Status)
    ensures DisplayStatus(a) == DisplayStatus(b) ==> a == b
  {
    StatusRoundTrip(a);
    StatusRoundTrip(b);
  }

  /** The three order-status names are distinct, so `Display` loses nothing. */
  lemma DisplayOrderStatusInjective(a: OrderStatus, b: OrderStatus)
    ensures DisplayOrderStatus(a) == DisplayOrderStatus(b) ==> a == b
  {
    OrderStatusRoundTrip(a);
    OrderStatusRoundTrip(b);
  }
}
