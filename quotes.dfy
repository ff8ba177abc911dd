/**
 * The quote submission payload: required-field validation, the 14 values handed to
 * the INSERT statement, and the stored quote record.
 */
module Quotes {
  import opened Wrappers

  /**
   * A request body as the handler sees it: field name to value. A key that is absent
   * is `undefined` in the source; only string values are modelled.
   */
  type Payload = map<string, string>

  /** `payload[field]` is truthy: present and not the empty string. */
  predicate Present(p: Payload, field: string) {
    field in p && p[field] != []
  }

  /** `payload[field] || ""`. */
  function FieldOr(p: Payload, field: string): (v: string)
    ensures Present(p, field) ==> v == p[field]
    ensures !Present(p, field) ==> v == []
  {
    if field in p then p[field] else []
  }

  /** The required fields, in the order the handler checks them. */
  const RequiredFields: seq<string> :=
    ["eventName", "eventDate", "eventPlace", "contactName", "contactPhone", "contactEmail"]

  /** The columns of the INSERT statement, in the order the 14 values are bound to them. */
  const Columns: seq<string> :=
    ["eventName", "eventDate", "eventPlace", "eventDuration", "ledType", "ledSize",
     "ledContent", "power", "extra", "contactName", "contactCompany", "contactPhone",
     "contactEmail", "createdAt"]

  /** The columns whose value falls back to `""` when the payload leaves them out. */
  const OptionalFields: seq<string> :=
    ["eventDuration", "ledType", "ledSize", "ledContent", "power", "extra", "contactCompany"]

  /** The first of `fields` the payload lacks, scanning left to right. */
  function FirstMissing(p: Payload, fields: seq<string>): (r: Option<string>)
    ensures r.None? <==> forall k :: 0 <= k < |fields| ==> Present(p, fields[k])
    ensures r.Some? ==> exists k :: 0 <= k < |fields| && fields[k] == r.value && !Present(p, r.value) &&
                          forall j :: 0 <= j < k ==> Present(p, fields[j])
  {
    if fields == [] then None
    else if !Present(p, fields[0]) then Some(fields[0])
    else
      var r := FirstMissing(p, fields[1..]);
      assert r.Some? ==> exists k :: 0 <= k < |fields| && fields[k] == r.value && !Present(p, r.value) &&
                           forall j :: 0 <= j < k ==> Present(p, fields[j]) by {
        if r.Some? {
          var k :| 0 <= k < |fields[1..]| && fields[1..][k] == r.value && !Present(p, r.value) &&
                   forall j :: 0 <= j < k ==> Present(p, fields[1..][j]);
          assert fields[k + 1] == r.value;
          forall j | 0 <= j < k + 1 ensures Present(p, fields[j]) {
            if j > 0 { assert fields[j] == fields[1..][j - 1]; }
          }
        }
      }
      assert r.None? ==> forall k :: 0 <= k < |fields| ==> Present(p, fields[k]) by {
        if r.None? {
          forall k | 0 <= k < |fields| ensures Present(p, fields[k]) {
            if k > 0 { assert fields[k] == fields[1..][k - 1]; }
          }
        }
      }
      r
  }

  /**
   * The handler's `for (const field of requiredFields)` loop: returns the first required
   * field that is missing or empty (answered with 400 "Missing <field>"), or `None`.
   */
  method Validate(p: Payload) returns (missing: Option<string>)
    ensures missing == FirstMissing(p, RequiredFields)
  {
    for i := 0 to |RequiredFields|
      invariant FirstMissing(p, RequiredFields) == FirstMissing(p, RequiredFields[i..])
    {
      var field := RequiredFields[i];
      assert RequiredFields[i..][1..] == RequiredFields[i + 1..];
      if !Present(p, field) {
        return Some(field);
      }
    }
    return None;
  }

  /** Each of the six required fields is present and non-empty. */
  predicate Complete(p: Payload) {
    && Present(p, "eventName") && Present(p, "eventDate") && Present(p, "eventPlace")
    && Present(p, "contactName") && Present(p, "contactPhone") && Present(p, "contactEmail")
  }

  /** Validation lets a payload through exactly when it is complete. */
  lemma ValidatedIffComplete(p: Payload)
    ensures FirstMissing(p, RequiredFields).None? <==> Complete(p)
  {
    assert RequiredFields[0] == "eventName" && RequiredFields[1] == "eventDate";
    assert RequiredFields[2] == "eventPlace" && RequiredFields[3] == "contactName";
    assert RequiredFields[4] == "contactPhone" && RequiredFields[5] == "contactEmail";
    if Complete(p) {
      assert forall k :: 0 <= k < |RequiredFields| ==> Present(p, RequiredFields[k]);
    }
  }

  /**
   * The `values` array: the 14 values for the INSERT, in column order. The required
   * fields are copied (and are not empty), optional ones default to `""`, and the stamp
   * comes last.
   */
  function Row(p: Payload, createdAt: string): (values: seq<string>)
    requires Complete(p)
    ensures |values| == |Columns| == 14
    ensures values[0] != [] && values[1] != [] && values[2] != []
    ensures values[9] != [] && values[11] != [] && values[12] != []
    ensures values[13] == createdAt
  {
    [p["eventName"], p["eventDate"], p["eventPlace"],
     FieldOr(p, "eventDuration"), FieldOr(p, "ledType"), FieldOr(p, "ledSize"),
     FieldOr(p, "ledContent"), FieldOr(p, "power"), FieldOr(p, "extra"),
     p["contactName"], FieldOr(p, "contactCompany"), p["contactPhone"], p["contactEmail"],
     createdAt]
  }

  /**
   * Each of the first 13 values is the payload's field named by its column: the field as
   * sent for a required column, and `""` for an optional column the payload leaves out.
   */
  lemma RowColumns(p: Payload, createdAt: string)
    requires Complete(p)
    ensures forall k :: 0 <= k < 13 ==> Row(p, createdAt)[k] == FieldOr(p, Columns[k])
    ensures forall k :: 0 <= k < 13 && Columns[k] in RequiredFields ==> Row(p, createdAt)[k] == p[Columns[k]]
    ensures forall k :: 0 <= k < 13 && Columns[k] in OptionalFields && !Present(p, Columns[k]) ==>
              Row(p, createdAt)[k] == []
  {
  }

  /** A row of the `quotes` table. */
  datatype Quote = Quote(
    id: nat,
    eventName: string,
    eventDate: string,
    eventPlace: string,
    eventDuration: string,
    ledType: string,
    ledSize: string,
    ledContent: string,
    power: string,
    extra: string,
    contactName: string,
    contactCompany: string,
    contactPhone: string,
    contactEmail: string,
    createdAt: string
  )

  /** The values of a quote in INSERT column order. */
  function Values(q: Quote): (values: seq<string>)
    ensures |values| == 14
  {
    [q.eventName, q.eventDate, q.eventPlace, q.eventDuration, q.ledType, q.ledSize,
     q.ledContent, q.power, q.extra, q.contactName, q.contactCompany, q.contactPhone,
     q.contactEmail, q.createdAt]
  }

  /** The row the database stores for the bound `values` under the id it assigns. */
  function QuoteOf(id: nat, values: seq<string>): (q: Quote)
    requires |values| == 14
    ensures q.id == id && Values(q) == values
  {
    Quote(id, values[0], values[1], values[2], values[3], values[4], values[5], values[6],
          values[7], values[8], values[9], values[10], values[11], values[12], values[13])
  }

  /** A stored quote gives back the payload's fields, `""` for absent optional ones, and the stamp. */
  lemma StoredQuoteFields(id: nat, p: Payload, createdAt: string)
    requires Complete(p)
    ensures var q := QuoteOf(id, Row(p, createdAt));
            && q.eventName == p["eventName"] && q.eventDate == p["eventDate"]
            && q.eventPlace == p["eventPlace"] && q.contactName == p["contactName"]
            && q.contactPhone == p["contactPhone"] && q.contactEmail == p["contactEmail"]
            && q.eventDuration == FieldOr(p, "eventDuration") && q.ledType == FieldOr(p, "ledType")
            && q.ledSize == FieldOr(p, "ledSize") && q.ledContent == FieldOr(p, "ledContent")
            && q.power == FieldOr(p, "power") && q.extra == FieldOr(p, "extra")
            && q.contactCompany == FieldOr(p, "contactCompany") && q.createdAt == createdAt
  {
    var values := Row(p, createdAt);
    var q := QuoteOf(id, values);
    assert Values(q) == values;
  }

  /** Every required field of a validated payload is stored non-empty. */
  lemma RequiredStoredNonEmpty(id: nat, p: Payload, createdAt: string)
    requires Complete(p)
    ensures var q := QuoteOf(id, Row(p, createdAt));
            q.eventName != [] && q.eventDate != [] && q.eventPlace != [] &&
            q.contactName != [] && q.contactPhone != [] && q.contactEmail != []
  {
    StoredQuoteFields(id, p, createdAt);
  }
}
