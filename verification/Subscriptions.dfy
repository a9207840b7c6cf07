/**
 * The local mirror of Stripe subscriptions: a table with one row per subscription id,
 * written by verified webhook deliveries only, and the user-to-customer map beside it.
 */
module Subscriptions {
  import opened Outcomes

  /** What a delivered subscription object says, with absent fields already defaulted. */
  datatype Fields = Fields(itemId: string, priceId: string, status: string,
    cancelAtPeriodEnd: bool, periodEnd: Option<int>)

  datatype Row = Row(id: nat, userId: int, fields: Fields, createdAt: int, updatedAt: int)

  /** A subscription object of an event; `id` and `customer` may be missing, `status` and the rest too. */
  datatype Payload = Payload(
    id: Option<string>,
    customer: Option<string>,
    itemId: Option<string>,
    priceId: Option<string>,
    status: Option<string>,
    cancelAtPeriodEnd: Option<bool>,
    periodEnd: Option<int>
  )

  datatype WebhookEvent =
    | SubscriptionCreated
    | SubscriptionUpdated
    | SubscriptionDeleted
    | InvoicePaymentFailed
    | Unhandled(kind: string)

  /** Errors the caller sees as Stripe's, as a bad signature, or as internal ones. */
  datatype CashierError =
    | InvalidSignature
    | MissingId
    | MissingCustomer
    | StripeUnreachable
    | StripeHasNoId
    | Internal(cause: Cause)

  datatype Cause = NoSecret | NotJson | LookupFailed | WriteFailed | UniqueViolation

  /** What goes wrong with one delivery: before it is read, at the customer lookup, or at the upsert. */
  datatype DeliveryFault = NoFault | SecretIsUnset | SignatureIsWrong | BodyIsNotJson | LookupFails | UpsertFails

  /** What goes wrong while a customer is created. */
  datatype CustomerFault = AllWell | ReadFails | StripeFails | InsertFails

  /**
   * Both tables. `customers` is keyed by user and both its columns are unique; `rows`
   * is keyed by Stripe subscription id; `nextId` is above every row id handed out.
   */
  datatype Mirror = Mirror(customers: map<int, string>, rows: map<string, Row>, nextId: nat)

  function GetOr<T>(value: Option<T>, default: T): T {
    if value.Some? then value.value else default
  }

  function FieldsOf(p: Payload): Fields {
    Fields(GetOr(p.itemId, ""), GetOr(p.priceId, ""), GetOr(p.status, "unknown"),
           GetOr(p.cancelAtPeriodEnd, false), p.periodEnd)
  }

  /** The customer row that pairs the user with the Stripe customer. */
  predicate IsUserOf(customers: map<int, string>, user: int, customer: string) {
    user in customers && customers[user] == customer
  }

  ghost predicate CustomersAreUnique(customers: map<int, string>) {
    forall u, v :: u in customers && v in customers && customers[u] == customers[v] ==> u == v
  }

  /** The user a Stripe customer belongs to; the column is unique, so there is at most one. */
  function UserOf(customers: map<int, string>, customer: string): Option<int>
    requires CustomersAreUnique(customers)
  {
    if exists user :: user in customers && IsUserOf(customers, user, customer) then
      var user :| user in customers && IsUserOf(customers, user, customer);
      Some(user)
    else None
  }

  // ----- the writers -----

  /** Insert, or on a known subscription id overwrite everything but user, row id and creation time. */
  function Upsert(m: Mirror, subscription: string, user: int, fields: Fields, now: int): Mirror {
    if subscription in m.rows then
      m.(rows := m.rows[subscription := m.rows[subscription].(fields := fields, updatedAt := now)])
    else
      m.(rows := m.rows[subscription := Row(m.nextId, user, fields, now, now)], nextId := m.nextId + 1)
  }

  /** `skipped` is the number of row ids the database passes over, as it may on a conflicting insert. */
  function UpsertFromStripeObject(m: Mirror, p: Payload, now: int, skipped: nat, fault: DeliveryFault)
    : (Mirror, Option<CashierError>)
    requires CustomersAreUnique(m.customers)
  {
    if p.id.None? then (m, Some(MissingId))
    else if p.customer.None? then (m, Some(MissingCustomer))
    else if fault.LookupFails? then (m, Some(Internal(LookupFailed)))
    else
      match UserOf(m.customers, p.customer.value)
      case None => (m, None)
      case Some(user) =>
        if fault.UpsertFails? then (m, Some(Internal(WriteFailed)))
        else (Upsert(m.(nextId := m.nextId + skipped), p.id.value, user, FieldsOf(p), now), None)
  }

  predicate IsSubscriptionEvent(kind: string) {
    kind == "customer.subscription.created" || kind == "customer.subscription.updated" ||
    kind == "customer.subscription.deleted"
  }

  function EventOf(kind: string): WebhookEvent {
    if kind == "customer.subscription.created" then SubscriptionCreated
    else if kind == "customer.subscription.updated" then SubscriptionUpdated
    else if kind == "customer.subscription.deleted" then SubscriptionDeleted
    else if kind == "invoice.payment_failed" then InvoicePaymentFailed
    else Unhandled(kind)
  }

  /** A delivery is looked at only once the secret is known, the signature right and the body JSON. */
  function Refused(fault: DeliveryFault): Option<CashierError> {
    match fault
    case SecretIsUnset => Some(Internal(NoSecret))
    case SignatureIsWrong => Some(InvalidSignature)
    case BodyIsNotJson => Some(Internal(NotJson))
    case _ => None
  }

  function HandleWebhook(m: Mirror, kind: string, p: Payload, now: int, skipped: nat, fault: DeliveryFault)
    : (Mirror, Result<WebhookEvent, CashierError>)
    requires CustomersAreUnique(m.customers)
  {
    if Refused(fault).Some? then (m, Err(Refused(fault).value))
    else if !IsSubscriptionEvent(kind) then (m, Ok(EventOf(kind)))
    else
      var (m', error) := UpsertFromStripeObject(m, p, now, skipped, fault);
      (m', if error.Some? then Err(error.value) else Ok(EventOf(kind)))
  }

  /** `answered` is the customer id Stripe returns when one has to be created. */
  function CreateCustomer(m: Mirror, user: int, answered: Option<string>, fault: CustomerFault)
    : (Mirror, Result<string, CashierError>)
  {
    if fault.ReadFails? then (m, Err(Internal(LookupFailed)))
    else if user in m.customers then (m, Ok(m.customers[user]))
    else if fault.StripeFails? then (m, Err(StripeUnreachable))
    else if answered.None? then (m, Err(StripeHasNoId))
    else if fault.InsertFails? then (m, Err(Internal(WriteFailed)))
    else if answered.value in m.customers.Values then (m, Err(Internal(UniqueViolation)))
    else (m.(customers := m.customers[user := answered.value]), Ok(answered.value))
  }

  // ----- the readers -----

  /** Row `r` is the user's row with the highest id. */
  ghost predicate IsNewest(m: Mirror, user: int, subscription: string) {
    subscription in m.rows && m.rows[subscription].userId == user &&
    forall other :: other in m.rows && m.rows[other].userId == user ==> m.rows[other].id <= m.rows[subscription].id
  }

  // ----- as it runs -----

  class Cashier {
    var customers: map<int, string>
    var rows: map<string, Row>
    var nextId: nat

    function Snapshot(): Mirror
      reads this
    {
      Mirror(customers, rows, nextId)
    }

    constructor ()
      ensures Snapshot() == Mirror(map[], map[], 1)
    {
      customers, rows, nextId := map[], map[], 1;
    }

    method DoHandleWebhook(kind: string, p: Payload, now: int, skipped: nat, fault: DeliveryFault)
      returns (r: Result<WebhookEvent, CashierError>)
      requires CustomersAreUnique(customers)
      modifies this`rows, this`nextId
      ensures (Snapshot(), r) == HandleWebhook(old(Snapshot()), kind, p, now, skipped, fault)
    {
      if fault.SecretIsUnset? { return Err(Internal(NoSecret)); }
      if fault.SignatureIsWrong? { return Err(InvalidSignature); }
      if fault.BodyIsNotJson? { return Err(Internal(NotJson)); }
      if IsSubscriptionEvent(kind) {
        var error := DoUpsert(p, now, skipped, fault);
        if error.Some? { return Err(error.value); }
      }
      r := Ok(EventOf(kind));
    }

    method DoUpsert(p: Payload, now: int, skipped: nat, fault: DeliveryFault) returns (error: Option<CashierError>)
      requires CustomersAreUnique(customers)
      modifies this`rows, this`nextId
      ensures (Snapshot(), error) == UpsertFromStripeObject(old(Snapshot()), p, now, skipped, fault)
    {
      if p.id.None? { return Some(MissingId); }
      if p.customer.None? { return Some(MissingCustomer); }
      if fault.LookupFails? { return Some(Internal(LookupFailed)); }
      var subscription := p.id.value;
      var found := UserOf(customers, p.customer.value);
      if found.None? { return None; }
      if fault.UpsertFails? { return Some(Internal(WriteFailed)); }
      nextId := nextId + skipped;
      if subscription in rows {
        rows := rows[subscription := rows[subscription].(fields := FieldsOf(p), updatedAt := now)];
      } else {
        rows := rows[subscription := Row(nextId, found.value, FieldsOf(p), now, now)];
        nextId := nextId + 1;
      }
      error := None;
    }

    method DoCreateCustomer(user: int, answered: Option<string>, fault: CustomerFault)
      returns (r: Result<string, CashierError>)
      requires CustomersAreUnique(customers)
      modifies this`customers
      ensures (Snapshot(), r) == CreateCustomer(old(Snapshot()), user, answered, fault)
      ensures CustomersAreUnique(customers)
    {
      CustomersStayUnique(Snapshot(), user, answered, fault);
      if fault.ReadFails? { return Err(Internal(LookupFailed)); }
      if user in customers { return Ok(customers[user]); }
      if fault.StripeFails? { return Err(StripeUnreachable); }
      if answered.None? { return Err(StripeHasNoId); }
      if fault.InsertFails? { return Err(Internal(WriteFailed)); }
      if answered.value in customers.Values { return Err(Internal(UniqueViolation)); }
      customers := customers[user := answered.value];
      r := Ok(answered.value);
    }

    /** The user's most recent subscription, walking the rows in no particular order. */
    method SubscriptionFor(user: int) returns (found: Option<string>)
      ensures found.Some? ==> IsNewest(Snapshot(), user, found.value)
      ensures found.None? ==> forall s :: s in rows ==> rows[s].userId != user
    {
      found := None;
      var keys := rows.Keys;
      while keys != {}
        invariant keys <= rows.Keys
        invariant found.Some? ==> found.value in rows.Keys - keys && rows[found.value].userId == user
        invariant found.Some? ==>
                  forall s :: s in rows.Keys - keys && rows[s].userId == user ==> rows[s].id <= rows[found.value].id
        invariant found.None? ==> forall s :: s in rows.Keys - keys ==> rows[s].userId != user
      {
        var s :| s in keys;
        if rows[s].userId == user && (found.None? || rows[s].id > rows[found.value].id) {
          found := Some(s);
        }
        keys := keys - {s};
      }
    }

    /** Whether that subscription is active or on trial. */
    method Subscribed(user: int) returns (yes: bool)
      ensures yes ==> exists s :: IsNewest(Snapshot(), user, s) && GrantsAccess(rows[s].fields.status) &&
                                  (rows[s].fields.status == "active" || rows[s].fields.status == "trialing")
      ensures !yes ==> forall s :: IsNewest(Snapshot(), user, s) && RowIdsAreDistinct(Snapshot()) ==>
                       !GrantsAccess(rows[s].fields.status) &&
                       rows[s].fields.status != "active" && rows[s].fields.status != "trialing"
    {
      var found := SubscriptionFor(user);
      yes := found.Some? && GrantsAccess(rows[found.value].fields.status);
      if !yes && found.Some? {
        forall s | IsNewest(Snapshot(), user, s) && RowIdsAreDistinct(Snapshot()) ensures s == found.value {
        }
      }
    }
  }

  predicate GrantsAccess(status: string) {
    status == "active" || status == "trialing"
  }

  ghost predicate RowIdsAreDistinct(m: Mirror) {
    forall s, t :: s in m.rows && t in m.rows && m.rows[s].id == m.rows[t].id ==> s == t
  }

  // ----- what every run keeps -----

  datatype Step =
    | Deliver(kind: string, payload: Payload, now: int, skipped: nat, fault: DeliveryFault)
    | NewCustomer(user: int, answered: Option<string>, trouble: CustomerFault)

  function Next(m: Mirror, step: Step): Mirror
    requires CustomersAreUnique(m.customers)
  {
    match step
    case Deliver(kind, p, now, skipped, fault) => HandleWebhook(m, kind, p, now, skipped, fault).0
    case NewCustomer(user, answered, trouble) => CreateCustomer(m, user, answered, trouble).0
  }

  ghost predicate Inv(m: Mirror) {
    CustomersAreUnique(m.customers) && RowIdsAreDistinct(m) && forall s :: s in m.rows ==> m.rows[s].id < m.nextId
  }

  lemma CustomersStayUnique(m: Mirror, user: int, answered: Option<string>, fault: CustomerFault)
    requires CustomersAreUnique(m.customers)
    ensures CustomersAreUnique(CreateCustomer(m, user, answered, fault).0.customers)
  {
    if user !in m.customers && answered.Some? && answered.value !in m.customers.Values {
      forall u | u in m.customers ensures m.customers[u] != answered.value {
        assert m.customers[u] in m.customers.Values;
      }
    }
  }

  lemma StepKeepsInv(m: Mirror, step: Step)
    requires Inv(m)
    ensures Inv(Next(m, step))
  {
    if step.NewCustomer? {
      CustomersStayUnique(m, step.user, step.answered, step.trouble);
    }
  }

  /** The mirror before step `i` of a run, and after the last for `i == |steps|`. */
  ghost function At(m: Mirror, steps: seq<Step>, i: nat): (m': Mirror)
    requires Inv(m) && i <= |steps|
    ensures Inv(m')
  {
    if i == 0 then m
    else
      StepKeepsInv(At(m, steps, i - 1), steps[i - 1]);
      Next(At(m, steps, i - 1), steps[i - 1])
  }

  // ----- one delivery, spelled out -----

  /** The user whose customer row holds the Stripe customer. */
  ghost predicate BelongsTo(m: Mirror, customer: string, user: int) {
    user in m.customers && m.customers[user] == customer
  }

  ghost predicate IsKnown(m: Mirror, customer: string) {
    exists user :: BelongsTo(m, customer, user)
  }

  lemma UserOfIsExact(m: Mirror, customer: string)
    requires CustomersAreUnique(m.customers)
    ensures UserOf(m.customers, customer).Some? <==> IsKnown(m, customer)
    ensures UserOf(m.customers, customer).Some? ==> BelongsTo(m, customer, UserOf(m.customers, customer).value)
  {
    if user :| BelongsTo(m, customer, user) {
      assert user in m.customers && IsUserOf(m.customers, user, customer);
    }
    if UserOf(m.customers, customer).Some? {
      assert BelongsTo(m, customer, UserOf(m.customers, customer).value);
    }
  }

  lemma TakenIsKnown(m: Mirror, customer: string)
    ensures customer in m.customers.Values <==> IsKnown(m, customer)
  {
    if customer in m.customers.Values {
      ValueHasKey(m.customers, customer);
      var user :| user in m.customers && m.customers[user] == customer;
      assert BelongsTo(m, customer, user);
    }
  }

  lemma ValueHasKey(customers: map<int, string>, customer: string)
    requires customer in customers.Values
    ensures exists user :: user in customers && customers[user] == customer
  {
    if forall user :: user in customers ==> customers[user] != customer {
      assert false;
    }
  }

  /** The one row of `s` now says what the payload says; a new one is the user's, with a fresh id and both times now. */
  ghost predicate RowIsUpdated(m: Mirror, m': Mirror, s: string, user: int, p: Payload, now: int, skipped: nat) {
    s in m'.rows && Mirrors(m'.rows[s].fields, p) && m'.rows[s].updatedAt == now &&
    (if s in m.rows then
       m'.rows[s].id == m.rows[s].id && m'.rows[s].userId == m.rows[s].userId &&
       m'.rows[s].createdAt == m.rows[s].createdAt
     else
       m'.rows[s].id == m.nextId + skipped && m'.rows[s].userId == user && m'.rows[s].createdAt == now) &&
    m'.customers == m.customers &&
    forall t :: t != s ==> (t in m'.rows <==> t in m.rows) && (t in m.rows ==> m'.rows[t] == m.rows[t])
  }

  /** The three kinds of event that reach the mirror, and what each is answered with. */
  predicate ReachesMirror(kind: string, answer: WebhookEvent) {
    (kind == "customer.subscription.created" && answer == SubscriptionCreated) ||
    (kind == "customer.subscription.updated" && answer == SubscriptionUpdated) ||
    (kind == "customer.subscription.deleted" && answer == SubscriptionDeleted)
  }

  /** Created, updated or deleted: a delivery for a known customer updates the row and is answered by its event. */
  lemma SubscriptionEventsReachTheMirror(m: Mirror, kind: string, answer: WebhookEvent, p: Payload, now: int,
                                         skipped: nat, user: int)
    requires CustomersAreUnique(m.customers) && ReachesMirror(kind, answer)
    requires p.id.Some? && p.customer.Some? && BelongsTo(m, p.customer.value, user)
    ensures var (m', r) := HandleWebhook(m, kind, p, now, skipped, NoFault);
            r == Ok(answer) && RowIsUpdated(m, m', p.id.value, user, p, now, skipped)
  {
    FieldsMirror(p);
    UserOfIsExact(m, p.customer.value);
  }

  /** No other kind changes anything: a failed payment is reported as such, the rest as unhandled. */
  lemma OtherEventsChangeNothing(m: Mirror, kind: string, p: Payload, now: int, skipped: nat)
    requires CustomersAreUnique(m.customers) && forall answer :: !ReachesMirror(kind, answer)
    ensures HandleWebhook(m, kind, p, now, skipped, NoFault) ==
            (m, Ok(if kind == "invoice.payment_failed" then InvoicePaymentFailed else Unhandled(kind)))
  {
    assert !ReachesMirror(kind, SubscriptionCreated) && !ReachesMirror(kind, SubscriptionUpdated);
    assert !ReachesMirror(kind, SubscriptionDeleted);
  }

  /** What goes wrong is answered with its own error, in the order in which it is met. */
  lemma ErrorsAreExact(m: Mirror, kind: string, answer: WebhookEvent, p: Payload, now: int, skipped: nat,
                       fault: DeliveryFault)
    requires CustomersAreUnique(m.customers)
    ensures var r := HandleWebhook(m, kind, p, now, skipped, fault).1;
            (fault == SecretIsUnset ==> r == Err(Internal(NoSecret))) &&
            (fault == SignatureIsWrong ==> r == Err(InvalidSignature)) &&
            (fault == BodyIsNotJson ==> r == Err(Internal(NotJson))) &&
            (fault in {NoFault, LookupFails, UpsertFails} && ReachesMirror(kind, answer) ==>
               r == if p.id.None? then Err(MissingId)
                    else if p.customer.None? then Err(MissingCustomer)
                    else if fault == LookupFails then Err(Internal(LookupFailed))
                    else if fault == UpsertFails && IsKnown(m, p.customer.value) then Err(Internal(WriteFailed))
                    else Ok(answer))
  {
    if p.customer.Some? {
      UserOfIsExact(m, p.customer.value);
    }
  }

  /** A user without a customer gets the one Stripe answers with, unless another has it; errors store nothing. */
  lemma CreateCustomerIsExact(m: Mirror, user: int, answered: Option<string>, fault: CustomerFault)
    ensures var (m', r) := CreateCustomer(m, user, answered, fault);
            m'.rows == m.rows && m'.nextId == m.nextId &&
            if fault == ReadFails then r == Err(Internal(LookupFailed)) && m' == m
            else if user in m.customers then r == Ok(m.customers[user]) && m' == m
            else if fault == StripeFails then r == Err(StripeUnreachable) && m' == m
            else if answered == None then r == Err(StripeHasNoId) && m' == m
            else if fault == InsertFails then r == Err(Internal(WriteFailed)) && m' == m
            else if IsKnown(m, answered.value) then
              r == Err(Internal(UniqueViolation)) && m' == m
            else r == Ok(answered.value) && m'.customers == m.customers[user := answered.value]
  {
    if answered.Some? {
      TakenIsKnown(m, answered.value);
    }
  }

  /** The step delivers, without a fault, a subscription event for `s` whose customer is known at that moment. */
  predicate Accepts(m: Mirror, step: Step, s: string)
    requires CustomersAreUnique(m.customers)
  {
    step.Deliver? && step.fault.NoFault? && IsSubscriptionEvent(step.kind) &&
    step.payload.id == Some(s) && step.payload.customer.Some? &&
    UserOf(m.customers, step.payload.customer.value).Some?
  }

  /** Step `i` of the run is such a delivery. */
  ghost predicate Accepted(m: Mirror, steps: seq<Step>, i: nat, s: string)
    requires Inv(m)
  {
    i < |steps| && Accepts(At(m, steps, i), steps[i], s)
  }

  /** Delivery `i` is the first accepted one for `s` among the first `n` steps. */
  ghost predicate FirstAccepted(m: Mirror, steps: seq<Step>, n: nat, i: nat, s: string)
    requires Inv(m)
  {
    i < n && Accepted(m, steps, i, s) && forall j: nat :: j < i ==> !Accepted(m, steps, j, s)
  }

  ghost predicate LastAccepted(m: Mirror, steps: seq<Step>, n: nat, i: nat, s: string)
    requires Inv(m)
  {
    i < n && Accepted(m, steps, i, s) && forall j: nat :: i < j < n ==> !Accepted(m, steps, j, s)
  }

  /** The fields say what the payload says, and the documented default where it is silent. */
  predicate Mirrors(fields: Fields, p: Payload) {
    (match p.status case Some(status) => fields.status == status case None => fields.status == "unknown") &&
    (match p.itemId case Some(item) => fields.itemId == item case None => fields.itemId == "") &&
    (match p.priceId case Some(price) => fields.priceId == price case None => fields.priceId == "") &&
    fields.cancelAtPeriodEnd == (p.cancelAtPeriodEnd == Some(true)) && fields.periodEnd == p.periodEnd
  }

  lemma FieldsMirror(p: Payload)
    ensures Mirrors(FieldsOf(p), p)
  {
  }

  /** An accepted delivery is one of the three kinds for a customer that some user has. */
  lemma AcceptedIsExact(m: Mirror, step: Step, s: string)
    requires CustomersAreUnique(m.customers)
    ensures Accepts(m, step, s) <==>
            step.Deliver? && step.fault == NoFault && step.payload.id == Some(s) && step.payload.customer != None &&
            (step.kind == "customer.subscription.created" || step.kind == "customer.subscription.updated" ||
             step.kind == "customer.subscription.deleted") &&
            IsKnown(m, step.payload.customer.value)
  {
    if step.Deliver? && step.payload.customer.Some? {
      UserOfIsExact(m, step.payload.customer.value);
    }
  }

  /** The row that deliveries `first` and `last` make. */
  ghost predicate IsRowOf(m: Mirror, steps: seq<Step>, first: nat, last: nat, s: string, row: Row)
    requires Inv(m) && Accepted(m, steps, first, s) && Accepted(m, steps, last, s)
  {
    Some(row.userId) == UserOf(At(m, steps, first).customers, steps[first].payload.customer.value) &&
    row.createdAt == steps[first].now &&
    row.id == At(m, steps, first).nextId + steps[first].skipped &&
    Mirrors(row.fields, steps[last].payload) &&
    row.updatedAt == steps[last].now
  }

  /** The row an accepted delivery leaves. */
  function RowAfter(m: Mirror, step: Step, s: string): Row
    requires CustomersAreUnique(m.customers) && Accepts(m, step, s)
  {
    var fields := FieldsOf(step.payload);
    if s in m.rows then m.rows[s].(fields := fields, updatedAt := step.now)
    else Row(m.nextId + step.skipped,
             UserOf(m.customers, step.payload.customer.value).value, fields, step.now, step.now)
  }

  /** A step writes the row of the subscription it delivers, if it is accepted, and no other. */
  lemma NextOnRow(m: Mirror, step: Step, s: string)
    requires Inv(m)
    ensures Accepts(m, step, s) ==> s in Next(m, step).rows && Next(m, step).rows[s] == RowAfter(m, step, s)
    ensures !Accepts(m, step, s) ==> (s in Next(m, step).rows <==> s in m.rows)
    ensures !Accepts(m, step, s) && s in m.rows ==> Next(m, step).rows[s] == m.rows[s]
  {
  }

  /** One of the first `n` steps was an accepted delivery for `s`. */
  ghost predicate EverAccepted(m: Mirror, steps: seq<Step>, n: nat, s: string)
    requires Inv(m)
  {
    exists i: nat :: i < n && Accepted(m, steps, i, s)
  }

  lemma EverAcceptedStep(m: Mirror, steps: seq<Step>, n: nat, s: string)
    requires Inv(m)
    ensures EverAccepted(m, steps, n + 1, s) <==> EverAccepted(m, steps, n, s) || Accepted(m, steps, n, s)
  {
    hide Accepted;
    if i: nat :| i < n + 1 && Accepted(m, steps, i, s) {
      assert i == n || EverAccepted(m, steps, n, s);
    }
  }

  /** A row exists for exactly the subscriptions that had an accepted delivery. */
  lemma {:induction false} RowsAreTheAccepted(m: Mirror, steps: seq<Step>, n: nat, s: string)
    requires Inv(m) && m.rows == map[] && n <= |steps|
    ensures s in At(m, steps, n).rows <==> EverAccepted(m, steps, n, s)
    decreases n
  {
    hide Accepts, Next;
    if n == 0 {
      assert At(m, steps, 0) == m;
    } else {
      RowsAreTheAccepted(m, steps, n - 1, s);
      RowsStep(m, steps, n - 1, s);
    }
  }

  lemma RowsStep(m: Mirror, steps: seq<Step>, n: nat, s: string)
    requires Inv(m) && n < |steps|
    requires s in At(m, steps, n).rows <==> EverAccepted(m, steps, n, s)
    ensures s in At(m, steps, n + 1).rows <==> EverAccepted(m, steps, n + 1, s)
  {
    hide EverAccepted, Next, Accepts;
    NextOnRow(At(m, steps, n), steps[n], s);
    EverAcceptedStep(m, steps, n, s);
  }

  /**
   * The mirror is a fold over the deliveries: starting from an empty table, a row holds
   * the last accepted delivery's fields and time, and the first one's user, row id and
   * creation time.
   */
  lemma {:induction false} MirrorIsTheFold(m: Mirror, steps: seq<Step>, n: nat, s: string, first: nat, last: nat)
    requires Inv(m) && m.rows == map[] && n <= |steps|
    requires FirstAccepted(m, steps, n, first, s) && LastAccepted(m, steps, n, last, s)
    ensures s in At(m, steps, n).rows && IsRowOf(m, steps, first, last, s, At(m, steps, n).rows[s])
    decreases n
  {
    hide Next, Mirrors, FieldsOf;
    NextOnRow(At(m, steps, n - 1), steps[n - 1], s);
    FieldsMirror(if steps[n - 1].Deliver? then steps[n - 1].payload else steps[last].payload);
    assert At(m, steps, n) == Next(At(m, steps, n - 1), steps[n - 1]);
    if last < n - 1 {
      assert !Accepted(m, steps, n - 1, s);
      MirrorIsTheFold(m, steps, n - 1, s, first, last);
    } else if first < n - 1 {
      var previous := LastBefore(m, steps, n - 1, first, s);
      MirrorIsTheFold(m, steps, n - 1, s, first, previous);
    } else {
      RowsAreTheAccepted(m, steps, n - 1, s);
    }
  }

  lemma {:induction false} LastBefore(m: Mirror, steps: seq<Step>, n: nat, i: nat, s: string) returns (last: nat)
    requires Inv(m) && i < n && Accepted(m, steps, i, s)
    ensures LastAccepted(m, steps, n, last, s)
    decreases n - i
  {
    if j: nat :| i < j < n && Accepted(m, steps, j, s) {
      last := LastBefore(m, steps, n, j, s);
    } else {
      last := i;
    }
  }

  lemma NextIdGrows(m: Mirror, step: Step)
    requires Inv(m)
    ensures m.nextId <= Next(m, step).nextId
  {
  }

  lemma {:induction false} NextIdGrowsAlong(m: Mirror, steps: seq<Step>, i: nat, j: nat)
    requires Inv(m) && i <= j <= |steps|
    ensures At(m, steps, i).nextId <= At(m, steps, j).nextId
    decreases j
  {
    hide Next;
    if i < j {
      NextIdGrowsAlong(m, steps, i, j - 1);
      NextIdGrows(At(m, steps, j - 1), steps[j - 1]);
    }
  }

  /**
   * The subscription whose first event came later has the higher row id, so the row that
   * decides `subscribed` is the user's subscription that was mirrored last, however the
   * events of the earlier ones arrive afterwards.
   */
  lemma LaterSubscriptionsAreNewer(m: Mirror, steps: seq<Step>, n: nat, s: string, firstS: nat, lastS: nat,
                                   t: string, firstT: nat, lastT: nat)
    requires Inv(m) && m.rows == map[] && n <= |steps|
    requires FirstAccepted(m, steps, n, firstS, s) && LastAccepted(m, steps, n, lastS, s)
    requires FirstAccepted(m, steps, n, firstT, t) && LastAccepted(m, steps, n, lastT, t)
    requires firstS < firstT
    ensures s in At(m, steps, n).rows && t in At(m, steps, n).rows &&
            At(m, steps, n).rows[s].id < At(m, steps, n).rows[t].id
  {
    hide Next, CustomersAreUnique, RowIdsAreDistinct, Mirrors, UserOf, IsUserOf;
    MirrorIsTheFold(m, steps, n, s, firstS, lastS);
    MirrorIsTheFold(m, steps, n, t, firstT, lastT);
    MirrorIsTheFold(m, steps, firstS + 1, s, firstS, firstS);
    NextIdGrowsAlong(m, steps, firstS + 1, firstT);
    var appeared := At(m, steps, firstS + 1);
    assert Inv(appeared) && appeared.rows[s].id < appeared.nextId;
  }

  /** Delivering the event that was last accepted for a subscription again changes only its time. */
  lemma ReplayChangesOnlyTheTime(m: Mirror, kind: string, p: Payload, now: int, skipped: nat, later: int, skipped': nat)
    requires Inv(m) && IsSubscriptionEvent(kind) && p.id.Some? && p.customer.Some?
    requires UserOf(m.customers, p.customer.value).Some?
    ensures var once := HandleWebhook(m, kind, p, now, skipped, NoFault).0;
            var twice := HandleWebhook(once, kind, p, later, skipped', NoFault).0;
            twice.customers == once.customers &&
            twice.rows == once.rows[p.id.value := once.rows[p.id.value].(updatedAt := later)]
  {
  }

  /** A delivery that is answered with an error has changed nothing, so Stripe's retry starts over. */
  lemma FailedDeliveriesChangeNothing(m: Mirror, kind: string, p: Payload, now: int, skipped: nat, fault: DeliveryFault)
    requires Inv(m)
    ensures var (m', r) := HandleWebhook(m, kind, p, now, skipped, fault);
            (r.Err? ==> m' == m) &&
            (fault.NoFault? ==> (r.Err? <==> IsSubscriptionEvent(kind) && (p.id.None? || p.customer.None?)))
  {
  }

  /** An event for a customer this application does not know changes nothing and is no error. */
  lemma UnknownCustomersAreIgnored(m: Mirror, kind: string, p: Payload, now: int, skipped: nat, fault: DeliveryFault)
    requires fault.NoFault? || fault.UpsertFails?
    requires Inv(m) && IsSubscriptionEvent(kind) && p.id.Some? && p.customer.Some?
    ensures var unknown := forall user :: !IsUserOf(m.customers, user, p.customer.value);
            var (m', r) := HandleWebhook(m, kind, p, now, skipped, fault);
            (unknown ==> (m', r) == (m, Ok(EventOf(kind)))) &&
            (p.id.value in m'.rows <==> p.id.value in m.rows || (!unknown && fault.NoFault?))
  {
    if user :| IsUserOf(m.customers, user, p.customer.value) {
      assert user in m.customers && IsUserOf(m.customers, user, p.customer.value);
    }
  }

  lemma NextKeepsCustomers(m: Mirror, step: Step, user: int)
    requires Inv(m) && user in m.customers
    ensures user in Next(m, step).customers && Next(m, step).customers[user] == m.customers[user]
  {
  }

  /** Once a user has a Stripe customer it stays the same one, whatever is delivered or asked for later. */
  lemma {:induction false} CustomersAreForever(m: Mirror, steps: seq<Step>, i: nat, j: nat, user: int)
    requires Inv(m) && i <= j <= |steps| && user in At(m, steps, i).customers
    ensures user in At(m, steps, j).customers && At(m, steps, j).customers[user] == At(m, steps, i).customers[user]
    decreases j
  {
    hide Next;
    if i < j {
      CustomersAreForever(m, steps, i, j - 1, user);
      NextKeepsCustomers(At(m, steps, j - 1), steps[j - 1], user);
    }
  }
}
