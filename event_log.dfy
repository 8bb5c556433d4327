/**
 * The `event_logs` record: what a producer hands to the store (the input
 * shape of `logEvent`) and what the store keeps (the entity, with the
 * store-assigned `id` and `timestamp`).
 */
module EventLogEntity {
  import opened Wrappers

  /** Timestamps are milliseconds on one clock. */
  type Millis = int

  /** The outcome of the operation an event records; the input type admits exactly these three. */
  datatype Status = Success | Error | Pending

  /** A JSON value as a producer passes it in the payload field. */
  datatype Json =
    | JNull
    | JBool(b: bool)
    | JNumber(n: int)
    | JString(s: string)
    | JArray(items: seq<Json>)
    | JObject(members: seq<(string, Json)>)

  /** JavaScript truthiness of a JSON value: `null`, `false`, `0` and `""` are falsy. */
  predicate Truthy(j: Json)
  {
    match j
    case JNull => false
    case JBool(b) => b
    case JNumber(n) => n != 0
    case JString(s) => s != ""
    case _ => true
  }

  /**
   * `amount` is a decimal with precision 10 and scale 2: held here in cents,
   * it has at most 10 digits.
   */
  const AmountBound: int := 10_000_000_000

  predicate AmountFits(amount: Option<int>)
  {
    amount.None? || -AmountBound < amount.value < AmountBound
  }

  /** What a producer passes to `logEvent`: every column but `id` and `timestamp`. */
  datatype EventInput = EventInput(
    eventType: string,
    source: string,
    sourceEvent: Option<string>,
    bitrixContactId: Option<string>,
    bitrixDealId: Option<string>,
    bitrixActivityId: Option<string>,
    customerName: Option<string>,
    customerPhone: Option<string>,
    customerEmail: Option<string>,
    productName: Option<string>,
    amount: Option<int>,
    currency: Option<string>,
    transactionId: Option<string>,
    status: Status,
    errorMessage: Option<string>,
    payload: Option<Json>,
    ipAddress: Option<string>,
    processingTimeMs: Option<int>)

  /**
   * One row of `event_logs`. `eventType`, `source` and `status` are the
   * non-nullable columns; every `Option` field is a nullable one. `amount`
   * is in cents, `payload` is serialized JSON text.
   */
  datatype EventLog = EventLog(
    id: nat,
    timestamp: Millis,
    eventType: string,
    source: string,
    sourceEvent: Option<string>,
    bitrixContactId: Option<string>,
    bitrixDealId: Option<string>,
    bitrixActivityId: Option<string>,
    customerName: Option<string>,
    customerPhone: Option<string>,
    customerEmail: Option<string>,
    productName: Option<string>,
    amount: Option<int>,
    currency: Option<string>,
    transactionId: Option<string>,
    status: Status,
    errorMessage: Option<string>,
    payload: Option<string>,
    ipAddress: Option<string>,
    processingTimeMs: Option<int>)

  /**
   * The payload column for an input payload: serialized when the payload is
   * present and truthy, NULL otherwise (a falsy payload is not stored).
   */
  function StoredPayload(p: Option<Json>, serialize: Json -> string): (r: Option<string>)
    ensures r.Some? <==> p.Some? && Truthy(p.value)
    ensures r.Some? ==> r.value == serialize(p.value)
  {
    if p.Some? && Truthy(p.value) then Some(serialize(p.value)) else None
  }

  /** The row the store builds from an input, given the id and creation time it assigns. */
  function Create(d: EventInput, id: nat, at: Millis, serialize: Json -> string): (e: EventLog)
    ensures e.id == id && e.timestamp == at
    ensures e.payload == StoredPayload(d.payload, serialize)
    ensures ToInput(e, _ => None).(payload := d.payload) == d
  {
    EventLog(id, at, d.eventType, d.source, d.sourceEvent, d.bitrixContactId, d.bitrixDealId,
      d.bitrixActivityId, d.customerName, d.customerPhone, d.customerEmail, d.productName,
      d.amount, d.currency, d.transactionId, d.status, d.errorMessage,
      StoredPayload(d.payload, serialize), d.ipAddress, d.processingTimeMs)
  }

  /** Reads a row back as an input, parsing its payload text with `parse`. */
  function ToInput(e: EventLog, parse: string -> Option<Json>): (d: EventInput)
    ensures d.payload.Some? ==> e.payload.Some? && parse(e.payload.value) == d.payload
  {
    EventInput(e.eventType, e.source, e.sourceEvent, e.bitrixContactId, e.bitrixDealId,
      e.bitrixActivityId, e.customerName, e.customerPhone, e.customerEmail, e.productName,
      e.amount, e.currency, e.transactionId, e.status, e.errorMessage,
      if e.payload.Some? then parse(e.payload.value) else None,
      e.ipAddress, e.processingTimeMs)
  }

  /**
   * Round trip: with a parser that inverts the serializer, reading back the
   * stored row gives the input again exactly when its payload is absent or
   * truthy; a falsy payload comes back absent.
   */
  lemma RoundTrip(d: EventInput, id: nat, at: Millis, serialize: Json -> string, parse: string -> Option<Json>)
    requires d.payload.Some? ==> parse(serialize(d.payload.value)) == d.payload
    ensures ToInput(Create(d, id, at, serialize), parse) == d <==> d.payload.None? || Truthy(d.payload.value)
    ensures d.payload.Some? && !Truthy(d.payload.value) ==> ToInput(Create(d, id, at, serialize), parse).payload == None
  {
  }
}
