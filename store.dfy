/** The order database as one object: the three tables, their AUTOINCREMENT
    counters and the clock that stamps new rows, with every handler that
    writes to it. Each handler runs as one atomic step and returns the
    outcome its HTTP response would carry. */
module OrderStore {
  import opened Common
  import opened Schema
  import opened Listing
  import opened CustomerRules
  import opened PizzaRules
  import opened OrderRules

  /** Every pizza in the catalog has one of the three sizes. The schema does
      not check this; every handler that writes a pizza does. */
  ghost predicate SizesValid(pizzas: map<int, Pizza>) {
    forall id :: id in pizzas ==> ValidSize(pizzas[id].size)
  }

  /** The nine pizzas the first start-up puts on an empty menu, stamped `now`. */
  function SampleMenu(now: int): (menu: seq<Pizza>)
    ensures |menu| == 9
    ensures forall k :: 0 <= k < |menu| ==> menu[k].price > 0 && ValidSize(menu[k].size) && menu[k].createdAt == now
  {
    [ Pizza("\U{739B}\U{683C}\U{4E3D}\U{7279}",
            "\U{7ECF}\U{5178}\U{739B}\U{683C}\U{4E3D}\U{7279}\U{62AB}\U{8428}\U{FF0C}\U{914D}\U{65B0}\U{9C9C}\U{756A}\U{8304}\U{3001}\U{9A6C}\U{82CF}\U{91CC}\U{62C9}\U{5976}\U{916A}\U{548C}\U{7F57}\U{52D2}",
            1299, "\U{4E2D}", now),
      Pizza("\U{610F}\U{5927}\U{5229}\U{8FA3}\U{9999}\U{80A0}",
            "\U{9999}\U{8FA3}\U{610F}\U{5927}\U{5229}\U{8FA3}\U{9999}\U{80A0}\U{914D}\U{9A6C}\U{82CF}\U{91CC}\U{62C9}\U{5976}\U{916A}",
            1499, "\U{4E2D}", now),
      Pizza("\U{56DB}\U{5B63}\U{62AB}\U{8428}",
            "\U{56DB}\U{79CD}\U{53E3}\U{5473}\U{7EC4}\U{5408}\U{FF1A}\U{8611}\U{83C7}\U{3001}\U{706B}\U{817F}\U{3001}\U{671D}\U{9C9C}\U{84DF}\U{548C}\U{6A44}\U{6984}",
            1699, "\U{4E2D}", now),
      Pizza("\U{6D77}\U{9C9C}\U{62AB}\U{8428}",
            "\U{65B0}\U{9C9C}\U{6D77}\U{9C9C}\U{642D}\U{914D}\U{7279}\U{5236}\U{9171}\U{6599}",
            1899, "\U{4E2D}", now),
      Pizza("\U{7D20}\U{98DF}\U{62AB}\U{8428}",
            "\U{591A}\U{79CD}\U{65B0}\U{9C9C}\U{852C}\U{83DC}\U{642D}\U{914D}",
            1399, "\U{4E2D}", now),
      Pizza("\U{739B}\U{683C}\U{4E3D}\U{7279}",
            "\U{7ECF}\U{5178}\U{739B}\U{683C}\U{4E3D}\U{7279}\U{62AB}\U{8428}",
            999, "\U{5C0F}", now),
      Pizza("\U{610F}\U{5927}\U{5229}\U{8FA3}\U{9999}\U{80A0}",
            "\U{9999}\U{8FA3}\U{610F}\U{5927}\U{5229}\U{8FA3}\U{9999}\U{80A0}",
            1199, "\U{5C0F}", now),
      Pizza("\U{739B}\U{683C}\U{4E3D}\U{7279}",
            "\U{7ECF}\U{5178}\U{739B}\U{683C}\U{4E3D}\U{7279}\U{62AB}\U{8428}",
            1599, "\U{5927}", now),
      Pizza("\U{610F}\U{5927}\U{5229}\U{8FA3}\U{9999}\U{80A0}",
            "\U{9999}\U{8FA3}\U{610F}\U{5927}\U{5229}\U{8FA3}\U{9999}\U{80A0}",
            1799, "\U{5927}", now) ]
  }

  /** `items` stored under consecutive keys from `first` on, in the order
      they are inserted. */
  function Numbered(first: int, items: seq<Pizza>): (table: map<int, Pizza>)
    ensures forall id :: id in table <==> first <= id < first + |items|
    ensures forall k :: 0 <= k < |items| ==> table[first + k] == items[k]
  {
    if items == [] then map[]
    else
      var last := |items| - 1;
      assert forall k :: 0 <= k < last ==> items[..last][k] == items[k];
      Numbered(first, items[..last])[first + last := items[last]]
  }

  /** A menu of valid items stored from a positive key on satisfies the
      catalog's constraints, with the counter just past its last key. */
  lemma NumberedMenuValid(first: int, menu: seq<Pizza>)
    requires first >= 1
    requires forall k :: 0 <= k < |menu| ==> menu[k].price > 0 && ValidSize(menu[k].size)
    ensures PricesPositive(Numbered(first, menu)) && SizesValid(Numbered(first, menu))
    ensures KeysBelow(Numbered(first, menu), first + |menu|)
  {
    var table := Numbered(first, menu);
    forall id | id in table ensures table[id].price > 0 && ValidSize(table[id].size) {
      assert table[first + (id - first)] == menu[id - first];
    }
  }

  class Store {
    var customers: map<int, Customer>
    var pizzas: map<int, Pizza>
    var orders: map<int, Order>
    var nextCustomerId: int
    var nextPizzaId: int
    var nextOrderId: int
    /** The time `CURRENT_TIMESTAMP` reads. */
    var clock: int

    /** The schema constraints, the AUTOINCREMENT counters ahead of every
        key they issued, and the sizes the handlers admit. The counters only
        grow (no method ensures a smaller one), so a key is never issued
        twice, even after its row is deleted. */
    ghost predicate Valid()
      reads this
    {
      && Consistent(customers, pizzas, orders)
      && KeysBelow(customers, nextCustomerId)
      && KeysBelow(pizzas, nextPizzaId)
      && KeysBelow(orders, nextOrderId)
      && SizesValid(pizzas)
    }

    /** Freshly created tables: empty, every counter at its first key. */
    constructor(now: int)
      ensures Valid()
      ensures customers == map[] && pizzas == map[] && orders == map[]
      ensures nextCustomerId == 1 && nextPizzaId == 1 && nextOrderId == 1
      ensures clock == now
    {
      customers, pizzas, orders := map[], map[], map[];
      nextCustomerId, nextPizzaId, nextOrderId := 1, 1, 1;
      clock := now;
    }

    /** Time passes; no table changes. */
    method Tick(later: int)
      requires later >= clock
      modifies this
      ensures clock == later
      ensures customers == old(customers) && pizzas == old(pizzas) && orders == old(orders)
      ensures nextCustomerId == old(nextCustomerId) && nextPizzaId == old(nextPizzaId)
      ensures nextOrderId == old(nextOrderId)
      ensures Valid() <==> old(Valid())
    {
      clock := later;
    }

    /** `createOrder`: the validation chain, then one new `Pending` order
        whose total is fixed from the pizza's current price. */
    method CreateOrder(customerId: Option<int>, pizzaId: Option<int>, quantity: Option<int>)
      returns (r: Outcome<OrderRow>)
      requires Valid()
      modifies this
      ensures Valid()
      ensures var failure := OrderRequestError(old(customers), old(pizzas), customerId, pizzaId, quantity);
        failure.Some? ==> r == Fail(failure.value) && unchanged(this)
      ensures OrderRequestError(old(customers), old(pizzas), customerId, pizzaId, quantity).None? ==>
        var id := old(nextOrderId);
        var o := Order(customerId.value, pizzaId.value, quantity.value,
                       TotalPrice(old(pizzas)[pizzaId.value].price, quantity.value), Pending, old(clock), old(clock));
        && id !in old(orders)
        && (forall k :: k in old(orders) ==> k < id)
        && orders == old(orders)[id := o]
        && nextOrderId == id + 1
        && customers == old(customers) && pizzas == old(pizzas)
        && nextCustomerId == old(nextCustomerId) && nextPizzaId == old(nextPizzaId) && clock == old(clock)
        && r == Created(OrderRow(id, o, customers[o.customerId], pizzas[o.pizzaId]))
    {
      var failure := OrderRequestError(customers, pizzas, customerId, pizzaId, quantity);
      if failure.Some? {
        return Fail(failure.value);
      }
      var unitPrice := pizzas[pizzaId.value].price;
      var total := TotalPrice(unitPrice, quantity.value);
      TotalPricePositive(unitPrice, quantity.value);
      var o := Order(customerId.value, pizzaId.value, quantity.value, total, Pending, clock, clock);
      var id := nextOrderId;
      orders := orders[id := o];
      nextOrderId := nextOrderId + 1;
      r := Created(OrderRow(id, o, customers[o.customerId], pizzas[o.pizzaId]));
    }

    /** `updateOrderStatus`: the requested status is checked before the order
        is looked up; then only that order's status changes. */
    method UpdateOrderStatus(id: int, status: Option<string>) returns (r: Outcome<OrderRow>)
      requires Valid()
      modifies this
      ensures Valid()
      ensures RequestedStatus(status).Fail? ==> r == Fail(RequestedStatus(status).failure) && unchanged(this)
      ensures RequestedStatus(status).Ok? && id !in old(orders) ==> r == Fail(NotFound(OrderEntity)) && unchanged(this)
      ensures RequestedStatus(status).Ok? && id in old(orders) ==>
        var o := old(orders)[id].(status := RequestedStatus(status).value);
        && orders == old(orders)[id := o]
        && customers == old(customers) && pizzas == old(pizzas)
        && nextCustomerId == old(nextCustomerId) && nextPizzaId == old(nextPizzaId)
        && nextOrderId == old(nextOrderId) && clock == old(clock)
        && r == Ok(OrderRow(id, o, customers[o.customerId], pizzas[o.pizzaId]))
    {
      var requested := RequestedStatus(status);
      if requested.Fail? {
        return Fail(requested.failure);
      }
      if id !in orders {
        return Fail(NotFound(OrderEntity));
      }
      var o := orders[id].(status := requested.value);
      orders := orders[id := o];
      r := Ok(OrderRow(id, o, customers[o.customerId], pizzas[o.pizzaId]));
    }

    /** `deleteOrder`: 404, or exactly that order removed. */
    method DeleteOrder(id: int) returns (r: Outcome<()>)
      requires Valid()
      modifies this
      ensures Valid()
      ensures id !in old(orders) ==> r == Fail(NotFound(OrderEntity)) && unchanged(this)
      ensures id in old(orders) ==>
        && r == Ok(())
        && orders == old(orders) - {id}
        && customers == old(customers) && pizzas == old(pizzas)
        && nextCustomerId == old(nextCustomerId) && nextPizzaId == old(nextPizzaId)
        && nextOrderId == old(nextOrderId) && clock == old(clock)
    {
      if id !in orders {
        return Fail(NotFound(OrderEntity));
      }
      orders := orders - {id};
      r := Ok(());
    }

    /** `createPizza`: the catalog checks, then a new pizza under a fresh key. */
    method CreatePizza(name: Option<string>, description: Option<string>, price: Option<int>, size: Option<string>)
      returns (r: Outcome<Row<Pizza>>)
      requires Valid()
      modifies this
      ensures Valid()
      ensures PizzaInputError(name, price, size).Some? ==>
        r == Fail(PizzaInputError(name, price, size).value) && unchanged(this)
      ensures PizzaInputError(name, price, size).None? ==>
        var id := old(nextPizzaId);
        var p := Pizza(name.value, StoredDescription(description), price.value, size.value, old(clock));
        && id !in old(pizzas)
        && (forall k :: k in old(pizzas) ==> k < id)
        && pizzas == old(pizzas)[id := p]
        && nextPizzaId == id + 1
        && customers == old(customers) && orders == old(orders)
        && nextCustomerId == old(nextCustomerId) && nextOrderId == old(nextOrderId) && clock == old(clock)
        && r == Created(Row(id, p))
    {
      var failure := PizzaInputError(name, price, size);
      if failure.Some? {
        return Fail(failure.value);
      }
      var p := Pizza(name.value, StoredDescription(description), price.value, size.value, clock);
      var id := nextPizzaId;
      pizzas := pizzas[id := p];
      nextPizzaId := nextPizzaId + 1;
      r := Created(Row(id, p));
    }

    /** `updatePizza`: the catalog checks, then 404, then the four fields
        replaced; the creation time and every order's stored total stay. */
    method UpdatePizza(id: int, name: Option<string>, description: Option<string>, price: Option<int>, size: Option<string>)
      returns (r: Outcome<Row<Pizza>>)
      requires Valid()
      modifies this
      ensures Valid()
      ensures PizzaInputError(name, price, size).Some? ==>
        r == Fail(PizzaInputError(name, price, size).value) && unchanged(this)
      ensures PizzaInputError(name, price, size).None? && id !in old(pizzas) ==>
        r == Fail(NotFound(PizzaEntity)) && unchanged(this)
      ensures PizzaInputError(name, price, size).None? && id in old(pizzas) ==>
        var p := Pizza(name.value, StoredDescription(description), price.value, size.value, old(pizzas)[id].createdAt);
        && pizzas == old(pizzas)[id := p]
        && customers == old(customers) && orders == old(orders)
        && nextCustomerId == old(nextCustomerId) && nextPizzaId == old(nextPizzaId)
        && nextOrderId == old(nextOrderId) && clock == old(clock)
        && r == Ok(Row(id, p))
    {
      var failure := PizzaInputError(name, price, size);
      if failure.Some? {
        return Fail(failure.value);
      }
      if id !in pizzas {
        return Fail(NotFound(PizzaEntity));
      }
      var p := Pizza(name.value, StoredDescription(description), price.value, size.value, pizzas[id].createdAt);
      pizzas := pizzas[id := p];
      r := Ok(Row(id, p));
    }

    /** `deletePizza`: 409 while any order uses the pizza, checked before
        the pizza is looked up; then 404, or the pizza removed. No order is
        cascaded away, since none refers to it. */
    method DeletePizza(id: int) returns (r: Outcome<()>)
      requires Valid()
      modifies this
      ensures Valid()
      ensures InUseCount(old(orders), id) > 0 ==> r == Fail(Conflict) && unchanged(this)
      ensures InUseCount(old(orders), id) == 0 && id !in old(pizzas) ==>
        r == Fail(NotFound(PizzaEntity)) && unchanged(this)
      ensures InUseCount(old(orders), id) == 0 && id in old(pizzas) ==>
        && r == Ok(())
        && pizzas == old(pizzas) - {id}
        && customers == old(customers) && orders == old(orders)
        && nextCustomerId == old(nextCustomerId) && nextPizzaId == old(nextPizzaId)
        && nextOrderId == old(nextOrderId) && clock == old(clock)
    {
      if InUseCount(orders, id) > 0 {
        return Fail(Conflict);
      }
      if id !in pizzas {
        return Fail(NotFound(PizzaEntity));
      }
      pizzas := pizzas - {id};
      r := Ok(());
    }

    /** `createCustomer`: the field and e-mail checks, then 409 if the
        e-mail is taken, else a new customer under a fresh key. */
    method CreateCustomer(name: Option<string>, email: Option<string>, phone: Option<string>, address: Option<string>)
      returns (r: Outcome<Row<Customer>>)
      requires Valid()
      modifies this
      ensures Valid()
      ensures CustomerInputError(name, email, phone, address).Some? ==>
        r == Fail(CustomerInputError(name, email, phone, address).value) && unchanged(this)
      ensures CustomerInputError(name, email, phone, address).None? && EmailInUse(old(customers), email.value) ==>
        r == Fail(Conflict) && unchanged(this)
      ensures CustomerInputError(name, email, phone, address).None? && !EmailInUse(old(customers), email.value) ==>
        var id := old(nextCustomerId);
        var c := Customer(name.value, email.value, phone.value, address.value, old(clock));
        && id !in old(customers)
        && (forall k :: k in old(customers) ==> k < id)
        && customers == old(customers)[id := c]
        && nextCustomerId == id + 1
        && pizzas == old(pizzas) && orders == old(orders)
        && nextPizzaId == old(nextPizzaId) && nextOrderId == old(nextOrderId) && clock == old(clock)
        && r == Created(Row(id, c))
    {
      var failure := CustomerInputError(name, email, phone, address);
      if failure.Some? {
        return Fail(failure.value);
      }
      if EmailInUse(customers, email.value) {
        return Fail(Conflict);
      }
      var c := Customer(name.value, email.value, phone.value, address.value, clock);
      var id := nextCustomerId;
      assert customers - {id} == customers;
      FreshEmailKeepsUnique(customers, id, c);
      customers := customers[id := c];
      nextCustomerId := nextCustomerId + 1;
      r := Created(Row(id, c));
    }

    /** `updateCustomer`: the field and e-mail checks, then 404, then 409 if
        another customer holds the e-mail (its own is no conflict), else the
        four fields replaced and the creation time kept. */
    method UpdateCustomer(id: int, name: Option<string>, email: Option<string>, phone: Option<string>, address: Option<string>)
      returns (r: Outcome<Row<Customer>>)
      requires Valid()
      modifies this
      ensures Valid()
      ensures CustomerInputError(name, email, phone, address).Some? ==>
        r == Fail(CustomerInputError(name, email, phone, address).value) && unchanged(this)
      ensures CustomerInputError(name, email, phone, address).None? && id !in old(customers) ==>
        r == Fail(NotFound(CustomerEntity)) && unchanged(this)
      ensures (CustomerInputError(name, email, phone, address).None? && id in old(customers)
        && EmailInUse(old(customers) - {id}, email.value)) ==>
        r == Fail(Conflict) && unchanged(this)
      ensures (CustomerInputError(name, email, phone, address).None? && id in old(customers)
        && !EmailInUse(old(customers) - {id}, email.value)) ==>
        var c := Customer(name.value, email.value, phone.value, address.value, old(customers)[id].createdAt);
        && customers == old(customers)[id := c]
        && pizzas == old(pizzas) && orders == old(orders)
        && nextCustomerId == old(nextCustomerId) && nextPizzaId == old(nextPizzaId)
        && nextOrderId == old(nextOrderId) && clock == old(clock)
        && r == Ok(Row(id, c))
    {
      var failure := CustomerInputError(name, email, phone, address);
      if failure.Some? {
        return Fail(failure.value);
      }
      if id !in customers {
        return Fail(NotFound(CustomerEntity));
      }
      if EmailInUse(customers - {id}, email.value) {
        return Fail(Conflict);
      }
      var c := Customer(name.value, email.value, phone.value, address.value, customers[id].createdAt);
      FreshEmailKeepsUnique(customers, id, c);
      customers := customers[id := c];
      r := Ok(Row(id, c));
    }

    /** `deleteCustomer`: 404, or the customer removed together with every
        order that refers to it (`ON DELETE CASCADE`). */
    method DeleteCustomer(id: int) returns (r: Outcome<()>)
      requires Valid()
      modifies this
      ensures Valid()
      ensures id !in old(customers) ==> r == Fail(NotFound(CustomerEntity)) && unchanged(this)
      ensures id in old(customers) ==>
        && r == Ok(())
        && customers == old(customers) - {id}
        && orders == WithoutCustomer(old(orders), id)
        && pizzas == old(pizzas)
        && nextCustomerId == old(nextCustomerId) && nextPizzaId == old(nextPizzaId)
        && nextOrderId == old(nextOrderId) && clock == old(clock)
    {
      if id !in customers {
        return Fail(NotFound(CustomerEntity));
      }
      customers := customers - {id};
      orders := WithoutCustomer(orders, id);
      r := Ok(());
    }

    /** The `forEach` over the prepared insert: each item in turn under
        the next key. Used only on an empty menu, which under `Valid()`
        means no order exists either. */
    method InsertAll(menu: seq<Pizza>)
      requires Valid()
      requires pizzas == map[]
      requires forall k :: 0 <= k < |menu| ==> menu[k].price > 0 && ValidSize(menu[k].size)
      modifies this
      ensures Valid()
      ensures pizzas == Numbered(old(nextPizzaId), menu)
      ensures nextPizzaId == old(nextPizzaId) + |menu|
      ensures customers == old(customers) && orders == old(orders)
      ensures nextCustomerId == old(nextCustomerId) && nextOrderId == old(nextOrderId) && clock == old(clock)
    {
      var first := nextPizzaId;
      assert pizzas == Numbered(first, []);
      assert orders == map[];
      var i := 0;
      while i < |menu|
        invariant 0 <= i <= |menu|
        invariant pizzas == Numbered(first, menu[..i])
        invariant nextPizzaId == first + i
        invariant customers == old(customers) && orders == map[]
        invariant nextCustomerId == old(nextCustomerId) && nextOrderId == old(nextOrderId) && clock == old(clock)
      {
        assert menu[..i + 1][..i] == menu[..i];
        assert Numbered(first, menu[..i + 1]) == pizzas[first + i := menu[i]];
        pizzas := pizzas[nextPizzaId := menu[i]];
        nextPizzaId := nextPizzaId + 1;
        i := i + 1;
      }
      assert menu[..i] == menu;
      NumberedMenuValid(first, menu);
    }

    /** `insertSampleData`: on an empty menu, the nine sample pizzas one
        after another under consecutive fresh keys; otherwise nothing. */
    method SeedSampleData()
      requires Valid()
      modifies this
      ensures Valid()
      ensures |old(pizzas)| != 0 ==> unchanged(this)
      ensures |old(pizzas)| == 0 ==>
        && pizzas == Numbered(old(nextPizzaId), SampleMenu(old(clock)))
        && nextPizzaId == old(nextPizzaId) + 9
        && customers == old(customers) && orders == old(orders)
        && nextCustomerId == old(nextCustomerId) && nextOrderId == old(nextOrderId) && clock == old(clock)
    {
      if |pizzas| != 0 {
        return;
      }
      InsertAll(SampleMenu(clock));
    }
  }

  /** A first day of business: a medium pizza goes on the menu at
      `price`, a customer signs up with `email` and orders three of it, the
      order is delivered, and a second sign-up with the same e-mail is
      turned away. */
  method FirstDay(email: string, price: int)
    returns (placed: Outcome<OrderRow>, delivered: Outcome<OrderRow>, again: Outcome<Row<Customer>>)
    requires IsValidEmail(email) && price > 0
    ensures placed.Created? && placed.StatusCode() == 201
    ensures placed.value.order.totalPrice == 3 * price && placed.value.order.status == Pending
    ensures delivered.Ok? && delivered.value.id == placed.value.id
    ensures delivered.value.order == placed.value.order.(status := Delivered)
    ensures again == Fail(Conflict) && again.StatusCode() == 409
  {
    var store := new Store(0);
    var medium := "\U{4E2D}";
    assert PizzaInputError(Some("Margherita"), Some(price), Some(medium)) == None;
    var listed := store.CreatePizza(Some("Margherita"), None, Some(price), Some(medium));
    assert listed.value.id == 1 && store.pizzas == map[1 := listed.value.value];
    assert CustomerInputError(Some("Li"), Some(email), Some("555-0100"), Some("1 Main St")) == None;
    var signedUp := store.CreateCustomer(Some("Li"), Some(email), Some("555-0100"), Some("1 Main St"));
    assert signedUp.value.id == 1 && store.customers == map[1 := signedUp.value.value];
    assert OrderRequestError(store.customers, store.pizzas, Some(1), Some(1), Some(3)) == None;
    placed := store.CreateOrder(Some(1), Some(1), Some(3));
    assert placed.value.order.totalPrice == TotalPrice(price, 3) == 3 * price;
    assert RequestedStatus(Some("Delivered")) == Ok(Delivered);
    delivered := store.UpdateOrderStatus(placed.value.id, Some("Delivered"));
    assert store.customers[1].email == email;
    again := store.CreateCustomer(Some("Li"), Some(email), Some("555-0199"), Some("2 Main St"));
  }
}
