/** The rules of the customer handlers that do not change the store:
    required fields, the e-mail shape, e-mail conflicts and the two reads. */
module CustomerRules {
  import opened Common
  import opened Schema
  import opened Listing

  /** JavaScript's `\s` class: the ASCII blanks, NBSP, the Unicode space
      separators, the line and paragraph separators and the BOM. */
  predicate IsSpace(c: char) {
    || c == ' ' || c == '\t' || c == '\n' || c == '\r' || c == '\U{000B}' || c == '\U{000C}'
    || c == '\U{00A0}' || c == '\U{1680}' || ('\U{2000}' <= c <= '\U{200A}')
    || c == '\U{2028}' || c == '\U{2029}' || c == '\U{202F}' || c == '\U{205F}'
    || c == '\U{3000}' || c == '\U{FEFF}'
  }

  /** A character of the class `[^\s@]`. */
  predicate Plain(c: char) {
    !IsSpace(c) && c != '@'
  }

  /** The pattern `^[^\s@]+@[^\s@]+\.[^\s@]+$` matched with its `@` at
      position `at` and its literal `.` at position `dot`. */
  ghost predicate MatchesAt(s: string, at: int, dot: int) {
    && 0 < at && at + 1 < dot && dot + 1 < |s|
    && s[at] == '@' && s[dot] == '.'
    && forall k :: 0 <= k < |s| && k != at ==> Plain(s[k])
  }

  ghost predicate MatchesEmailPattern(s: string) {
    exists at, dot :: MatchesAt(s, at, dot)
  }

  /** Position of the first `@`, or `|s|` if there is none. */
  function FirstAt(s: string): (i: nat)
    ensures i <= |s|
    ensures i < |s| ==> s[i] == '@'
    ensures forall k :: 0 <= k < i ==> s[k] != '@'
  {
    if s == [] then 0
    else if s[0] == '@' then 0
    else 1 + FirstAt(s[1..])
  }

  predicate AllPlain(s: string) {
    forall k :: 0 <= k < |s| ==> Plain(s[k])
  }

  /** A `.` that is neither the first nor the last character. */
  predicate HasInnerDot(d: string) {
    exists k :: 0 < k < |d| - 1 && d[k] == '.'
  }

  /** The e-mail check both customer writes apply: a non-empty local part
      and a domain, split at the only `@`, neither holding a blank, and the
      domain holding a `.` strictly inside it. */
  predicate IsValidEmail(s: string) {
    var at := FirstAt(s);
    0 < at < |s| && AllPlain(s[..at]) && AllPlain(s[at + 1..]) && HasInnerDot(s[at + 1..])
  }

  /** The e-mail test accepts exactly the strings the regular expression matches,
      and an accepted address holds exactly one `@`. */
  lemma EmailCheckMatchesPattern(s: string)
    ensures IsValidEmail(s) <==> MatchesEmailPattern(s)
    ensures IsValidEmail(s) ==> multiset(s)['@'] == 1
  {
    var at := FirstAt(s);
    if IsValidEmail(s) {
      var d := s[at + 1..];
      var k :| 0 < k < |d| - 1 && d[k] == '.';
      assert s[at + 1 + k] == d[k];
      forall j | 0 <= j < |s| && j != at
        ensures Plain(s[j])
      {
        if j < at {
          assert s[j] == s[..at][j];
        } else {
          assert s[j] == d[j - at - 1];
        }
      }
      assert MatchesAt(s, at, at + 1 + k);
      assert s == s[..at] + [s[at]] + d;
      assert '@' !in multiset(s[..at]) by {
        forall j | 0 <= j < at ensures s[..at][j] != '@' {
          assert Plain(s[..at][j]);
        }
      }
      assert '@' !in multiset(d) by {
        forall j | 0 <= j < |d| ensures d[j] != '@' {
          assert Plain(d[j]);
        }
      }
    }
    if MatchesEmailPattern(s) {
      var a, dot :| MatchesAt(s, a, dot);
      assert at <= a && s[at] == '@';
      assert at == a;
      var d := s[at + 1..];
      assert d[dot - at - 1] == s[dot];
      assert HasInnerDot(d);
      forall j | 0 <= j < at ensures Plain(s[..at][j]) {
        assert s[..at][j] == s[j];
      }
      forall j | 0 <= j < |d| ensures Plain(d[j]) {
        assert d[j] == s[at + 1 + j];
      }
    }
  }

  /** The first check of both customer writes: all four fields present and
      non-empty, then the e-mail shape. */
  function CustomerInputError(name: Option<string>, email: Option<string>, phone: Option<string>, address: Option<string>): (r: Option<Failure>)
    ensures r.None? <==>
      TruthyText(name) && TruthyText(email) && TruthyText(phone) && TruthyText(address) && IsValidEmail(email.value)
    ensures r == Some(BadRequest(MissingFields)) <==>
      !(TruthyText(name) && TruthyText(email) && TruthyText(phone) && TruthyText(address))
    ensures r.Some? ==> r.value in {BadRequest(MissingFields), BadRequest(BadEmail)}
  {
    if !(TruthyText(name) && TruthyText(email) && TruthyText(phone) && TruthyText(address)) then
      Some(BadRequest(MissingFields))
    else if !IsValidEmail(email.value) then
      Some(BadRequest(BadEmail))
    else
      None
  }

  /** Whether some row of `customers` already holds `email`; the update
      handler asks this of the table without the row being updated. */
  predicate EmailInUse(customers: map<int, Customer>, email: string) {
    exists id :: id in customers && customers[id].email == email
  }

  /** Adding a customer whose e-mail no other row holds keeps e-mails unique. */
  lemma {:induction false} FreshEmailKeepsUnique(customers: map<int, Customer>, id: int, c: Customer)
    requires EmailsUnique(customers)
    requires !EmailInUse(customers - {id}, c.email)
    ensures EmailsUnique(customers[id := c])
  {
    var updated := customers[id := c];
    forall a, b | a in updated && b in updated && a != b
      ensures updated[a].email != updated[b].email
    {
      if a == id {
        assert b in customers - {id};
      } else if b == id {
        assert a in customers - {id};
      }
    }
  }

  /** `ORDER BY created_at DESC`. */
  predicate NewerCustomerFirst(a: Row<Customer>, b: Row<Customer>) {
    a.value.createdAt >= b.value.createdAt
  }

  lemma NewerCustomerFirstIsPreorder()
    ensures Total(NewerCustomerFirst) && Transitive(NewerCustomerFirst)
  {
  }

  lemma NewestFirst(rows: seq<Row<Customer>>, r: seq<Row<Customer>>)
    requires r == SortBy(rows, NewerCustomerFirst)
    ensures forall i, j :: 0 <= i < j < |r| ==> r[i].value.createdAt >= r[j].value.createdAt
  {
    NewerCustomerFirstIsPreorder();
    SortByOrdered(rows, NewerCustomerFirst);
  }

  /** The customer list: every row exactly once, newest first. */
  function AllCustomers(customers: map<int, Customer>): (r: seq<Row<Customer>>)
    ensures forall row :: row in r <==> row.id in customers && row.value == customers[row.id]
    ensures forall i, j :: 0 <= i < j < |r| ==> r[i].value.createdAt >= r[j].value.createdAt
    ensures forall i, j :: 0 <= i < j < |r| ==> r[i].id != r[j].id
    ensures |r| == |customers|
  {
    var rows := RowsOf(customers);
    var r := SortBy(rows, NewerCustomerFirst);
    NewestFirst(rows, r);
    SortByDistinct(rows, NewerCustomerFirst);
    DistinctKeys(r, customers);
    r
  }

  /** A single customer, or 404. */
  function CustomerById(customers: map<int, Customer>, id: int): (r: Outcome<Row<Customer>>)
    ensures r.Ok? <==> id in customers
    ensures r.Ok? ==> r.value.id == id && r.value.value == customers[id]
    ensures r.Fail? ==> r.failure == NotFound(CustomerEntity)
    ensures !r.Created?
  {
    if id in customers then Ok(Row(id, customers[id])) else Fail(NotFound(CustomerEntity))
  }

  /** After a customer is deleted the list is the old list without that
      customer, everyone else in the same order. */
  lemma DeletedCustomerLeavesList(customers: map<int, Customer>, id: int)
    ensures AllCustomers(customers - {id}) == Filter(AllCustomers(customers), KeyOtherThan(id))
  {
    RowsOfPart(customers, customers - {id}, KeyOtherThan(id));
    NewerCustomerFirstIsPreorder();
    FilterSortBy(RowsOf(customers), NewerCustomerFirst, KeyOtherThan(id));
  }
}
