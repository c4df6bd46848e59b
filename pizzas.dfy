/** The rules of the pizza handlers that do not change the store: input
    validation, the stored description, the in-use count that guards
    deletion, and the two reads. */
module PizzaRules {
  import opened Common
  import opened Schema
  import opened Listing

  /** The checks create and update both run, in order: fields present and
      truthy (a price of 0 is missing, not non-positive), price positive,
      size one of the three sizes. */
  function PizzaInputError(name: Option<string>, price: Option<int>, size: Option<string>): (r: Option<Failure>)
    ensures r.None? <==>
      TruthyText(name) && TruthyInt(price) && TruthyText(size) && price.value > 0 && ValidSize(size.value)
    ensures r == Some(BadRequest(MissingFields)) <==> !(TruthyText(name) && TruthyInt(price) && TruthyText(size))
    ensures r == Some(BadRequest(NotPositive)) <==>
      TruthyText(name) && TruthyText(size) && price.Some? && price.value < 0
    ensures r == Some(BadRequest(BadSize)) <==>
      TruthyText(name) && TruthyInt(price) && TruthyText(size) && price.value > 0 && !ValidSize(size.value)
  {
    if !(TruthyText(name) && TruthyInt(price) && TruthyText(size)) then Some(BadRequest(MissingFields))
    else if price.value <= 0 then Some(BadRequest(NotPositive))
    else if !ValidSize(size.value) then Some(BadRequest(BadSize))
    else None
  }

  /** `description || ''`: a missing description is stored as the empty text. */
  function StoredDescription(description: Option<string>): (d: string)
    ensures description.Some? ==> d == description.value
    ensures description.None? ==> d == ""
  {
    if TruthyText(description) then description.value else ""
  }

  predicate UsesPizza(pizzaId: int, row: Row<Order>) {
    row.value.pizzaId == pizzaId
  }

  /** `SELECT COUNT(*) FROM orders WHERE pizza_id = ?`. */
  function InUseCount(orders: map<int, Order>, pizzaId: int): (n: nat)
    ensures n > 0 <==> exists id :: id in orders && orders[id].pizzaId == pizzaId
    ensures n <= |orders|
  {
    var used := Filter(RowsOf(orders), row => UsesPizza(pizzaId, row));
    assert (exists id :: id in orders && orders[id].pizzaId == pizzaId) ==> used != [] by {
      if exists id :: id in orders && orders[id].pizzaId == pizzaId {
        var id :| id in orders && orders[id].pizzaId == pizzaId;
        assert Row(id, orders[id]) in used;
      }
    }
    assert used != [] ==> used[0] in used;
    |used|
  }

  /** SQLite's BINARY collation on text: code-point order, which is also
      the byte order of the UTF-8 encoding. */
  predicate TextBefore(a: string, b: string) {
    if a == [] then true
    else if b == [] then false
    else if a[0] != b[0] then a[0] < b[0]
    else TextBefore(a[1..], b[1..])
  }

  lemma {:induction false} TextBeforeTotal(a: string, b: string)
    ensures TextBefore(a, b) || TextBefore(b, a)
  {
    if a != [] && b != [] && a[0] == b[0] {
      TextBeforeTotal(a[1..], b[1..]);
    }
  }

  lemma {:induction false} TextBeforeAntisymmetric(a: string, b: string)
    requires TextBefore(a, b) && TextBefore(b, a)
    ensures a == b
  {
    if a != [] && b != [] {
      TextBeforeAntisymmetric(a[1..], b[1..]);
      assert a == [a[0]] + a[1..] && b == [b[0]] + b[1..];
    }
  }

  lemma {:induction false} TextBeforeTransitive(a: string, b: string, c: string)
    requires TextBefore(a, b) && TextBefore(b, c)
    ensures TextBefore(a, c)
  {
    if a != [] && b != [] && c != [] && a[0] == b[0] == c[0] {
      TextBeforeTransitive(a[1..], b[1..], c[1..]);
    }
  }

  /** `ORDER BY name, size`. */
  predicate PizzaBefore(p: Row<Pizza>, q: Row<Pizza>) {
    if p.value.name == q.value.name then TextBefore(p.value.size, q.value.size)
    else TextBefore(p.value.name, q.value.name)
  }

  lemma PizzaBeforeIsPreorder()
    ensures Total(PizzaBefore) && Transitive(PizzaBefore)
  {
    forall p, q ensures PizzaBefore(p, q) || PizzaBefore(q, p) {
      TextBeforeTotal(p.value.name, q.value.name);
      TextBeforeTotal(p.value.size, q.value.size);
    }
    forall p, q, r | PizzaBefore(p, q) && PizzaBefore(q, r)
      ensures PizzaBefore(p, r)
    {
      var a, b, c := p.value, q.value, r.value;
      if a.name == b.name == c.name {
        TextBeforeTransitive(a.size, b.size, c.size);
      } else if a.name != b.name && b.name != c.name {
        TextBeforeTransitive(a.name, b.name, c.name);
        if a.name == c.name {
          TextBeforeAntisymmetric(a.name, b.name);
        }
      }
    }
  }

  lemma ByNameThenSize(rows: seq<Row<Pizza>>, r: seq<Row<Pizza>>)
    requires r == SortBy(rows, PizzaBefore)
    ensures forall i, j :: 0 <= i < j < |r| ==> PizzaBefore(r[i], r[j])
  {
    PizzaBeforeIsPreorder();
    SortByOrdered(rows, PizzaBefore);
  }

  /** The menu: every pizza exactly once, by name and then by size. */
  function AllPizzas(pizzas: map<int, Pizza>): (r: seq<Row<Pizza>>)
    ensures forall row :: row in r <==> row.id in pizzas && row.value == pizzas[row.id]
    ensures forall i, j :: 0 <= i < j < |r| ==> PizzaBefore(r[i], r[j])
    ensures forall i, j :: 0 <= i < j < |r| ==> r[i].id != r[j].id
    ensures |r| == |pizzas|
  {
    var rows := RowsOf(pizzas);
    var r := SortBy(rows, PizzaBefore);
    ByNameThenSize(rows, r);
    SortByDistinct(rows, PizzaBefore);
    DistinctKeys(r, pizzas);
    r
  }

  /** A single pizza, or 404. */
  function PizzaById(pizzas: map<int, Pizza>, id: int): (r: Outcome<Row<Pizza>>)
    ensures r.Ok? <==> id in pizzas
    ensures r.Ok? ==> r.value.id == id && r.value.value == pizzas[id]
    ensures r.Fail? ==> r.failure == NotFound(PizzaEntity)
    ensures !r.Created?
  {
    if id in pizzas then Ok(Row(id, pizzas[id])) else Fail(NotFound(PizzaEntity))
  }

  /** After a pizza is deleted the menu is the old menu without that
      pizza, everything else in the same order. */
  lemma DeletedPizzaLeavesMenu(pizzas: map<int, Pizza>, id: int)
    ensures AllPizzas(pizzas - {id}) == Filter(AllPizzas(pizzas), KeyOtherThan(id))
  {
    RowsOfPart(pizzas, pizzas - {id}, KeyOtherThan(id));
    PizzaBeforeIsPreorder();
    FilterSortBy(RowsOf(pizzas), PizzaBefore, KeyOtherThan(id));
  }
}
