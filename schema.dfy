/** The three tables of the order database and the constraints their
    schema declares: records, the order-status domain, the pizza-size
    domain and the integrity conditions that hold between the tables.
    Prices are integer cents; timestamps are ticks of a logical clock. */
module Schema {
  import opened Common

  datatype Customer = Customer(
    name: string,
    email: string,
    phone: string,
    address: string,
    createdAt: int)

  datatype Pizza = Pizza(
    name: string,
    description: string,
    price: int,
    size: string,
    createdAt: int)

  /** The five values the `status` column admits; `Pending` is its default. */
  datatype Status = Pending | Preparing | OutForDelivery | Delivered | Cancelled

  datatype Order = Order(
    customerId: int,
    pizzaId: int,
    quantity: int,
    totalPrice: int,
    status: Status,
    orderDate: int,
    createdAt: int)

  /** The text stored in the `status` column for each state. */
  function StatusText(s: Status): (text: string) {
    match s
    case Pending => "Pending"
    case Preparing => "Preparing"
    case OutForDelivery => "Out for Delivery"
    case Delivered => "Delivered"
    case Cancelled => "Cancelled"
  }

  const StatusTexts: seq<string> := ["Pending", "Preparing", "Out for Delivery", "Delivered", "Cancelled"]

  /** Reads a status column value back; only the five listed texts are statuses. */
  function ParseStatus(t: string): (r: Option<Status>)
    ensures r.Some? <==> t in StatusTexts
    ensures r.Some? ==> StatusText(r.value) == t
  {
    if t == "Pending" then Some(Pending)
    else if t == "Preparing" then Some(Preparing)
    else if t == "Out for Delivery" then Some(OutForDelivery)
    else if t == "Delivered" then Some(Delivered)
    else if t == "Cancelled" then Some(Cancelled)
    else None
  }

  /** Every status is read back as itself from the text stored for it. */
  lemma StatusRoundTrip(s: Status)
    ensures ParseStatus(StatusText(s)) == Some(s)
  {
  }

  /** The sizes the catalog sells: small, medium and large. */
  const Sizes: seq<string> := ["\U{5C0F}", "\U{4E2D}", "\U{5927}"]

  predicate ValidSize(s: string) {
    s in Sizes
  }

  /** `email TEXT NOT NULL UNIQUE`. */
  ghost predicate EmailsUnique(customers: map<int, Customer>) {
    forall a, b :: a in customers && b in customers && a != b ==> customers[a].email != customers[b].email
  }

  /** `price REAL NOT NULL CHECK(price > 0)`. */
  ghost predicate PricesPositive(pizzas: map<int, Pizza>) {
    forall id :: id in pizzas ==> pizzas[id].price > 0
  }

  /** `quantity ... CHECK(quantity > 0)` and `total_price ... CHECK(total_price > 0)`. */
  ghost predicate OrderAmountsPositive(orders: map<int, Order>) {
    forall id :: id in orders ==> orders[id].quantity > 0 && orders[id].totalPrice > 0
  }

  /** The two foreign keys of an order, enforced with cascading deletes. */
  ghost predicate ReferencesResolve(customers: map<int, Customer>, pizzas: map<int, Pizza>, orders: map<int, Order>) {
    forall id :: id in orders ==> orders[id].customerId in customers && orders[id].pizzaId in pizzas
  }

  /** Every schema constraint at once. */
  ghost predicate Consistent(customers: map<int, Customer>, pizzas: map<int, Pizza>, orders: map<int, Order>) {
    && EmailsUnique(customers)
    && PricesPositive(pizzas)
    && OrderAmountsPositive(orders)
    && ReferencesResolve(customers, pizzas, orders)
  }

  /** AUTOINCREMENT keys: all positive and all below the next key to be issued. */
  ghost predicate KeysBelow<V>(table: map<int, V>, next: int) {
    1 <= next && forall id :: id in table ==> 1 <= id < next
  }
}
