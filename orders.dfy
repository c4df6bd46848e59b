/** The rules of the order handlers that do not change the store: the
    validation chain of order creation, the status check, the price
    computation and the three joined reads. */
module OrderRules {
  import opened Common
  import opened Schema
  import opened Listing

  /** The creation chain up to the insert, each step short-circuiting:
      fields present and truthy (a quantity of 0 is missing), quantity
      positive, pizza found, customer found. */
  function OrderRequestError(
    customers: map<int, Customer>, pizzas: map<int, Pizza>,
    customerId: Option<int>, pizzaId: Option<int>, quantity: Option<int>): (r: Option<Failure>)
    ensures r.None? <==>
      && TruthyInt(customerId) && TruthyInt(pizzaId) && TruthyInt(quantity)
      && quantity.value > 0 && pizzaId.value in pizzas && customerId.value in customers
    // A missing field is reported before anything is looked up.
    ensures !(TruthyInt(customerId) && TruthyInt(pizzaId) && TruthyInt(quantity))
      ==> r == Some(BadRequest(MissingFields))
    // A negative quantity is rejected whether or not the pizza and the customer exist.
    ensures TruthyInt(customerId) && TruthyInt(pizzaId) && quantity.Some? && quantity.value < 0
      ==> r == Some(BadRequest(NotPositive))
    // The pizza is looked up before the customer.
    ensures TruthyInt(customerId) && TruthyInt(pizzaId) && quantity.Some? && quantity.value > 0
      && pizzaId.value !in pizzas
      ==> r == Some(NotFound(PizzaEntity))
    ensures r == Some(NotFound(CustomerEntity)) <==>
      && TruthyInt(customerId) && TruthyInt(pizzaId) && quantity.Some? && quantity.value > 0
      && pizzaId.value in pizzas && customerId.value !in customers
  {
    if !(TruthyInt(customerId) && TruthyInt(pizzaId) && TruthyInt(quantity)) then Some(BadRequest(MissingFields))
    else if quantity.value <= 0 then Some(BadRequest(NotPositive))
    else if pizzaId.value !in pizzas then Some(NotFound(PizzaEntity))
    else if customerId.value !in customers then Some(NotFound(CustomerEntity))
    else None
  }

  /** The total fixed on an order at creation: unit price in cents times quantity. */
  function TotalPrice(unitPrice: int, quantity: int): (total: int)
  {
    unitPrice * quantity
  }

  /** A positive unit price times a positive quantity is at least the unit
      price, so the stored total meets `total_price > 0`. */
  lemma TotalPricePositive(unitPrice: int, quantity: int)
    requires unitPrice > 0 && quantity > 0
    ensures TotalPrice(unitPrice, quantity) >= unitPrice > 0
  {
    assert unitPrice * quantity == unitPrice * (quantity - 1) + unitPrice;
    assert unitPrice * (quantity - 1) >= 0;
  }

  /** The status check of the update handler: present and truthy, then one
      of the five values. */
  function RequestedStatus(status: Option<string>): (r: Outcome<Status>)
    ensures !TruthyText(status) ==> r == Fail(BadRequest(MissingFields))
    ensures TruthyText(status) && status.value !in StatusTexts ==> r == Fail(BadRequest(BadStatus))
    ensures r.Ok? <==> status.Some? && status.value in StatusTexts
    ensures r.Ok? ==> StatusText(r.value) == status.value
    ensures !r.Created?
  {
    if !TruthyText(status) then Fail(BadRequest(MissingFields))
    else match ParseStatus(status.value)
      case None => Fail(BadRequest(BadStatus))
      case Some(s) => Ok(s)
  }

  /** Every one of the five statuses is accepted, from whatever state the
      order is in: the status test looks only at the requested value. */
  lemma EveryStatusAccepted(s: Status)
    ensures RequestedStatus(Some(StatusText(s))) == Ok(s)
  {
    StatusRoundTrip(s);
  }

  /** An order joined with its customer and its pizza. */
  datatype OrderRow = OrderRow(id: int, order: Order, customer: Customer, pizza: Pizza)

  predicate Joinable(customers: map<int, Customer>, pizzas: map<int, Pizza>, o: Order) {
    o.customerId in customers && o.pizzaId in pizzas
  }

  function JoinRow(customers: map<int, Customer>, pizzas: map<int, Pizza>, row: Row<Order>): (x: OrderRow)
    requires Joinable(customers, pizzas, row.value)
  {
    OrderRow(row.id, row.value, customers[row.value.customerId], pizzas[row.value.pizzaId])
  }

  /** `x` is the joined view of an order of the table. */
  ghost predicate IsOrderView(customers: map<int, Customer>, pizzas: map<int, Pizza>, orders: map<int, Order>, x: OrderRow) {
    && x.id in orders && x.order == orders[x.id]
    && Joinable(customers, pizzas, x.order)
    && x.customer == customers[x.order.customerId]
    && x.pizza == pizzas[x.order.pizzaId]
  }

  /** The inner join of order rows with both catalog tables. */
  function Join(customers: map<int, Customer>, pizzas: map<int, Pizza>, rows: seq<Row<Order>>): (r: seq<OrderRow>)
    ensures forall x :: x in r ==>
      Row(x.id, x.order) in rows && Joinable(customers, pizzas, x.order)
      && x.customer == customers[x.order.customerId] && x.pizza == pizzas[x.order.pizzaId]
    ensures forall row :: row in rows && Joinable(customers, pizzas, row.value) ==> JoinRow(customers, pizzas, row) in r
    ensures |r| <= |rows|
  {
    if rows == [] then []
    else
      var rest := Join(customers, pizzas, rows[1..]);
      assert forall row :: row in rows ==> row == rows[0] || row in rows[1..];
      if Joinable(customers, pizzas, rows[0].value) then [JoinRow(customers, pizzas, rows[0])] + rest
      else rest
  }

  /** When every row resolves, the join drops none of them. */
  lemma {:induction false} JoinKeepsEveryRow(customers: map<int, Customer>, pizzas: map<int, Pizza>, rows: seq<Row<Order>>)
    requires forall row :: row in rows ==> Joinable(customers, pizzas, row.value)
    ensures |Join(customers, pizzas, rows)| == |rows|
  {
    if rows != [] {
      assert rows[0] in rows;
      assert forall row :: row in rows[1..] ==> row in rows;
      JoinKeepsEveryRow(customers, pizzas, rows[1..]);
    }
  }

  /** Order ids strictly increasing along a list of joined rows. */
  predicate ViewsAscending(r: seq<OrderRow>) {
    forall i, j :: 0 <= i < j < |r| ==> r[i].id < r[j].id
  }

  /** The join keeps the rows it joins in the order it reads them. */
  lemma {:induction false} JoinKeepsAscending(customers: map<int, Customer>, pizzas: map<int, Pizza>, rows: seq<Row<Order>>)
    requires KeysAscending(rows)
    ensures ViewsAscending(Join(customers, pizzas, rows))
  {
    if rows != [] {
      var row, rest := rows[0], rows[1..];
      JoinKeepsAscending(customers, pizzas, rest);
      var tail := Join(customers, pizzas, rest);
      forall y | y in tail ensures row.id < y.id {
        var k :| 0 <= k < |rest| && rest[k] == Row(y.id, y.order);
        assert rows[k + 1].id == y.id;
      }
      if Joinable(customers, pizzas, row.value) {
        ConsViewsAscending(JoinRow(customers, pizzas, row), tail);
      }
    }
  }

  /** A joined row in front of a list whose order ids all exceed its own. */
  lemma ConsViewsAscending(x: OrderRow, tail: seq<OrderRow>)
    requires ViewsAscending(tail)
    requires forall y :: y in tail ==> x.id < y.id
    ensures ViewsAscending([x] + tail)
  {
    var r := [x] + tail;
    forall i, j | 0 <= i < j < |r| ensures r[i].id < r[j].id {
      assert r[j] == tail[j - 1];
      if i > 0 {
        assert r[i] == tail[i - 1];
      }
    }
  }

  /** `ORDER BY o.order_date DESC`. */
  predicate NewerOrderFirst(a: OrderRow, b: OrderRow) {
    a.order.orderDate >= b.order.orderDate
  }

  lemma NewestOrderFirst(rows: seq<OrderRow>, r: seq<OrderRow>)
    requires r == SortBy(rows, NewerOrderFirst)
    ensures forall i, j :: 0 <= i < j < |r| ==> r[i].order.orderDate >= r[j].order.orderDate
  {
    assert Total(NewerOrderFirst) && Transitive(NewerOrderFirst);
    SortByOrdered(rows, NewerOrderFirst);
  }

  lemma AscendingDistinct(r: seq<OrderRow>)
    requires ViewsAscending(r)
    ensures Distinct(r)
  {
  }

  /** The joined rows of the whole table are exactly its views. */
  lemma JoinOfTable(customers: map<int, Customer>, pizzas: map<int, Pizza>, orders: map<int, Order>)
    ensures forall x :: x in Join(customers, pizzas, RowsOf(orders)) <==> IsOrderView(customers, pizzas, orders, x)
  {
    var joined := Join(customers, pizzas, RowsOf(orders));
    forall x | IsOrderView(customers, pizzas, orders, x) ensures x in joined {
      assert x == JoinRow(customers, pizzas, Row(x.id, x.order));
    }
  }

  /** The joined rows of one customer's orders are exactly the views of those orders. */
  lemma JoinOfPlaced(customers: map<int, Customer>, pizzas: map<int, Pizza>, orders: map<int, Order>, customerId: int)
    ensures forall x :: x in Join(customers, pizzas, Filter(RowsOf(orders), PlacedBy(customerId))) <==>
      IsOrderView(customers, pizzas, orders, x) && x.order.customerId == customerId
  {
    var placed := Filter(RowsOf(orders), PlacedBy(customerId));
    var joined := Join(customers, pizzas, placed);
    forall x | IsOrderView(customers, pizzas, orders, x) && x.order.customerId == customerId
      ensures x in joined
    {
      assert Row(x.id, x.order) in placed;
      assert x == JoinRow(customers, pizzas, Row(x.id, x.order));
    }
  }

  /** Sorting joined rows read in key order from the table: most recent
      first, and no order twice. */
  lemma SortedViews(customers: map<int, Customer>, pizzas: map<int, Pizza>, orders: map<int, Order>,
                    rows: seq<Row<Order>>, r: seq<OrderRow>)
    requires KeysAscending(rows)
    requires forall row :: row in rows ==> row.id in orders && row.value == orders[row.id]
    requires r == SortBy(Join(customers, pizzas, rows), NewerOrderFirst)
    ensures forall i, j :: 0 <= i < j < |r| ==> r[i].order.orderDate >= r[j].order.orderDate
    ensures forall i, j :: 0 <= i < j < |r| ==> r[i].id != r[j].id
  {
    var joined := Join(customers, pizzas, rows);
    NewestOrderFirst(joined, r);
    JoinKeepsAscending(customers, pizzas, rows);
    AscendingDistinct(joined);
    SortByDistinct(joined, NewerOrderFirst);
    forall x | x in r ensures IsOrderView(customers, pizzas, orders, x) {
      assert x in joined;
      assert Row(x.id, x.order) in rows;
    }
    UniqueViews(customers, pizzas, orders, r);
  }

  /** The order list: the joined view of every order, each once, most recent first. */
  function AllOrders(customers: map<int, Customer>, pizzas: map<int, Pizza>, orders: map<int, Order>): (r: seq<OrderRow>)
    ensures forall x :: x in r <==> IsOrderView(customers, pizzas, orders, x)
    ensures forall i, j :: 0 <= i < j < |r| ==> r[i].order.orderDate >= r[j].order.orderDate
    ensures forall i, j :: 0 <= i < j < |r| ==> r[i].id != r[j].id
  {
    var rows := RowsOf(orders);
    var r := SortBy(Join(customers, pizzas, rows), NewerOrderFirst);
    JoinOfTable(customers, pizzas, orders);
    SortedViews(customers, pizzas, orders, rows, r);
    r
  }

  /** Two views of the same order are the same view. */
  lemma UniqueViews(customers: map<int, Customer>, pizzas: map<int, Pizza>, orders: map<int, Order>, r: seq<OrderRow>)
    requires Distinct(r)
    requires forall x :: x in r ==> IsOrderView(customers, pizzas, orders, x)
    ensures forall i, j :: 0 <= i < j < |r| ==> r[i].id != r[j].id
  {
    forall i, j | 0 <= i < j < |r|
      ensures r[i].id != r[j].id
    {
      assert r[i] in r && r[j] in r;
    }
  }

  /** When the foreign keys hold, the list holds every order of the table:
      its count is the number of rows. */
  lemma AllOrdersListsEveryOrder(customers: map<int, Customer>, pizzas: map<int, Pizza>, orders: map<int, Order>)
    requires ReferencesResolve(customers, pizzas, orders)
    ensures |AllOrders(customers, pizzas, orders)| == |orders|
    ensures forall id :: id in orders ==>
      exists x :: x in AllOrders(customers, pizzas, orders) && x.id == id
  {
    var rows := RowsOf(orders);
    assert forall row :: row in rows ==> Joinable(customers, pizzas, row.value);
    JoinKeepsEveryRow(customers, pizzas, rows);
    var joined := Join(customers, pizzas, rows);
    assert |SortBy(joined, NewerOrderFirst)| == |joined|;
    forall id | id in orders
      ensures exists x :: x in AllOrders(customers, pizzas, orders) && x.id == id
    {
      var x := JoinRow(customers, pizzas, Row(id, orders[id]));
      assert IsOrderView(customers, pizzas, orders, x);
    }
  }

  /** A single order with its customer and pizza, or 404. */
  function OrderById(customers: map<int, Customer>, pizzas: map<int, Pizza>, orders: map<int, Order>, id: int): (r: Outcome<OrderRow>)
    ensures r.Ok? <==> id in orders && Joinable(customers, pizzas, orders[id])
    ensures r.Ok? ==> r.value.id == id && IsOrderView(customers, pizzas, orders, r.value)
    ensures r.Fail? ==> r.failure == NotFound(OrderEntity)
    ensures !r.Created?
  {
    if id in orders && Joinable(customers, pizzas, orders[id]) then Ok(JoinRow(customers, pizzas, Row(id, orders[id])))
    else Fail(NotFound(OrderEntity))
  }

  /** `WHERE o.customer_id = ?` on order rows. */
  function PlacedBy(customerId: int): (keep: Row<Order> -> bool) {
    (row: Row<Order>) => row.value.customerId == customerId
  }

  /** The rows `ON DELETE CASCADE` leaves when a customer is deleted. */
  function NotPlacedBy(customerId: int): (keep: Row<Order> -> bool) {
    (row: Row<Order>) => row.value.customerId != customerId
  }

  /** A condition on order rows, asked of joined rows. */
  function ViewsWhere(keep: Row<Order> -> bool): (select: OrderRow -> bool) {
    (x: OrderRow) => keep(Row(x.id, x.order))
  }

  /** The orders of one customer, most recent first; 404 when the customer
      does not exist, before the orders are read. */
  function OrdersByCustomer(customers: map<int, Customer>, pizzas: map<int, Pizza>, orders: map<int, Order>, customerId: int)
    : (r: Outcome<seq<OrderRow>>)
    ensures r.Fail? <==> customerId !in customers
    ensures r.Fail? ==> r.failure == NotFound(CustomerEntity)
    ensures !r.Created?
    ensures r.Ok? ==> forall x :: x in r.value <==>
      IsOrderView(customers, pizzas, orders, x) && x.order.customerId == customerId
    ensures r.Ok? ==> forall i, j :: 0 <= i < j < |r.value| ==> r.value[i].order.orderDate >= r.value[j].order.orderDate
    ensures r.Ok? ==> forall i, j :: 0 <= i < j < |r.value| ==> r.value[i].id != r.value[j].id
  {
    if customerId !in customers then Fail(NotFound(CustomerEntity))
    else
      var placed := Filter(RowsOf(orders), PlacedBy(customerId));
      var r := SortBy(Join(customers, pizzas, placed), NewerOrderFirst);
      FilterKeepsAscending(RowsOf(orders), PlacedBy(customerId));
      JoinOfPlaced(customers, pizzas, orders, customerId);
      SortedViews(customers, pizzas, orders, placed, r);
      Ok(r)
  }

  /** One step of `Join`, written as a concatenation. */
  lemma JoinCons(customers: map<int, Customer>, pizzas: map<int, Pizza>, row: Row<Order>, rest: seq<Row<Order>>)
    ensures Join(customers, pizzas, [row] + rest) ==
      (if Joinable(customers, pizzas, row.value) then [JoinRow(customers, pizzas, row)] else [])
      + Join(customers, pizzas, rest)
  {
    var rows := [row] + rest;
    assert rows[0] == row && rows[1..] == rest;
  }

  /** The inductive step of `JoinFilter`: one more row in front. */
  lemma JoinFilterStep(customers: map<int, Customer>, pizzas: map<int, Pizza>, row: Row<Order>, rest: seq<Row<Order>>,
                       keep: Row<Order> -> bool)
    requires Filter(Join(customers, pizzas, rest), ViewsWhere(keep)) == Join(customers, pizzas, Filter(rest, keep))
    ensures Filter(Join(customers, pizzas, [row] + rest), ViewsWhere(keep))
         == Join(customers, pizzas, Filter([row] + rest, keep))
  {
    var kept := Filter(rest, keep);
    var tail := Join(customers, pizzas, kept);
    JoinCons(customers, pizzas, row, rest);
    FilterCons(row, rest, keep);
    if keep(row) {
      JoinCons(customers, pizzas, row, kept);
      assert Filter([row] + rest, keep) == [row] + kept;
    } else {
      assert Filter([row] + rest, keep) == kept;
    }
    if Joinable(customers, pizzas, row.value) {
      var x := JoinRow(customers, pizzas, row);
      FilterCons(x, Join(customers, pizzas, rest), ViewsWhere(keep));
      assert ViewsWhere(keep)(x) == keep(row);
    } else {
      assert Join(customers, pizzas, [row] + rest) == Join(customers, pizzas, rest);
    }
  }

  /** Selecting order rows commutes with the join. */
  lemma {:induction false} JoinFilter(customers: map<int, Customer>, pizzas: map<int, Pizza>, rows: seq<Row<Order>>,
                                      keep: Row<Order> -> bool)
    ensures Filter(Join(customers, pizzas, rows), ViewsWhere(keep)) == Join(customers, pizzas, Filter(rows, keep))
  {
    if rows != [] {
      JoinFilter(customers, pizzas, rows[1..], keep);
      JoinFilterStep(customers, pizzas, rows[0], rows[1..], keep);
      assert rows == [rows[0]] + rows[1..];
    }
  }

  /** A customer's order list is the full order list with everyone else's
      orders left out: same rows, same order. */
  lemma OrdersByCustomerFiltersAllOrders(customers: map<int, Customer>, pizzas: map<int, Pizza>, orders: map<int, Order>, customerId: int)
    requires customerId in customers
    ensures OrdersByCustomer(customers, pizzas, orders, customerId)
         == Ok(Filter(AllOrders(customers, pizzas, orders), ViewsWhere(PlacedBy(customerId))))
  {
    var rows := RowsOf(orders);
    assert Total(NewerOrderFirst) && Transitive(NewerOrderFirst);
    FilterSortBy(Join(customers, pizzas, rows), NewerOrderFirst, ViewsWhere(PlacedBy(customerId)));
    JoinFilter(customers, pizzas, rows, PlacedBy(customerId));
  }

  /** What `ON DELETE CASCADE` leaves of the orders table when a customer
      is deleted. */
  function WithoutCustomer(orders: map<int, Order>, customerId: int): (rest: map<int, Order>)
    ensures forall id :: id in rest <==> id in orders && orders[id].customerId != customerId
    ensures forall id :: id in rest ==> rest[id] == orders[id]
  {
    map id | id in orders && orders[id].customerId != customerId :: orders[id]
  }

  /** Rows that do not refer to a customer join the same without it. */
  lemma {:induction false} JoinWithoutCustomer(customers: map<int, Customer>, pizzas: map<int, Pizza>,
                                               rows: seq<Row<Order>>, customerId: int)
    requires forall row :: row in rows ==> row.value.customerId != customerId
    ensures Join(customers - {customerId}, pizzas, rows) == Join(customers, pizzas, rows)
  {
    if rows != [] {
      assert rows[0] in rows;
      assert forall row :: row in rows[1..] ==> row in rows;
      JoinWithoutCustomer(customers, pizzas, rows[1..], customerId);
    }
  }

  /** Deleting a customer takes exactly that customer's orders off the
      order list and leaves the others in the same order. */
  lemma CascadeLeavesOtherOrders(customers: map<int, Customer>, pizzas: map<int, Pizza>, orders: map<int, Order>,
                                 customerId: int)
    ensures AllOrders(customers - {customerId}, pizzas, WithoutCustomer(orders, customerId))
         == Filter(AllOrders(customers, pizzas, orders), ViewsWhere(NotPlacedBy(customerId)))
  {
    var keep := NotPlacedBy(customerId);
    var rows := RowsOf(orders);
    RowsOfPart(orders, WithoutCustomer(orders, customerId), keep);
    JoinWithoutCustomer(customers, pizzas, Filter(rows, keep), customerId);
    JoinFilter(customers, pizzas, rows, keep);
    assert Total(NewerOrderFirst) && Transitive(NewerOrderFirst);
    FilterSortBy(Join(customers, pizzas, rows), NewerOrderFirst, ViewsWhere(keep));
  }

  /** Deleting an order takes exactly that order off the order list. */
  lemma DeletedOrderLeavesList(customers: map<int, Customer>, pizzas: map<int, Pizza>, orders: map<int, Order>, id: int)
    ensures AllOrders(customers, pizzas, orders - {id})
         == Filter(AllOrders(customers, pizzas, orders), ViewsWhere(KeyOtherThan(id)))
  {
    var keep := KeyOtherThan(id);
    var rows := RowsOf(orders);
    RowsOfPart(orders, orders - {id}, keep);
    JoinFilter(customers, pizzas, rows, keep);
    assert Total(NewerOrderFirst) && Transitive(NewerOrderFirst);
    FilterSortBy(Join(customers, pizzas, rows), NewerOrderFirst, ViewsWhere(keep));
  }
}
