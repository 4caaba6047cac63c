/**
 Two reads in `validateChecklist` are unguarded: `data.resumen[field]`
 (middlewares/validations.js:83) and `destinatario.nombre` (line 107). A body
 without `resumen`, or with a `null` recipient, makes the middleware throw a
 TypeError instead of answering 422 with the list it has already built, and
 the "Campo requerido faltante: resumen" message it has just logged never
 reaches the client.

 `Validate` models the code as written. `ValidateGuarded` is the evidently
 intended behaviour: a missing or `null` object is read as an empty one
 (`data?.[field]`, `data.resumen?.[field]`, `destinatario?.nombre`), so every
 absent field is reported and the gate never throws.
 */
module ValidationFindings {
  import opened JsValue
  import opened Validations
  import opened ValidationFacts

  /** `v ?? {}`. */
  function Guard(v: Json): (r: Json)
    ensures !Nullish(r)
    ensures !Nullish(v) ==> r == v
  {
    if Nullish(v) then Obj(map[]) else v
  }

  function GuardAll(elems: seq<Json>): (r: seq<Json>)
    ensures |r| == |elems|
    ensures forall k :: 0 <= k < |r| ==> !Nullish(r[k])
    ensures forall k :: 0 <= k < |r| && !Nullish(elems[k]) ==> r[k] == elems[k]
  {
    seq(|elems|, k requires 0 <= k < |elems| => Guard(elems[k]))
  }

  /** The error list with every read guarded. */
  function GuardedEmitted(body: Json): seq<string> {
    var data := Guard(body);
    var d := Get(data, "destinatarios");
    PresenceErrors(data, RequiredFields) + ArrayErrors(data)
    + ResumenErrors(Guard(Get(data, "resumen")), ResumenFields)
    + (if d.Arr? then RecipientErrors(GuardAll(d.elems)) else [])
  }

  /** `validateChecklist` with guarded reads. */
  function ValidateGuarded(req: Request): (r: Reply)
    ensures r.outcome != Fault
    ensures !req.isJson ==> r == Validate(req)
  {
    if !req.isJson then Reply(BadRequest(ContentTypeError), [ContentTypeLog])
    else
      var errors := GuardedEmitted(req.body);
      if |errors| > 0 then Reply(Unprocessable(errors), errors + [BatchLog])
      else Reply(Next, errors)
  }

  // ---------------------------------------------------------------------------
  // As written

  /** An empty JSON object, the body of the most basic bad request, makes the
      middleware throw; the "faltante: resumen" message is logged but not
      answered. */
  lemma EmptyBodyFaults()
    ensures Validate(Request(true, Obj(map[]))).outcome == Fault
    ensures MissingMsg("resumen") in Validate(Request(true, Obj(map[]))).log
  {
    var body := Obj(map[]);
    MissingReportedOnce(body, "resumen");
    assert multiset(Emitted(body))[MissingMsg("resumen")] == 1;
  }

  /** The smallest instance of `NullishRecipientFaults`: a lone `null` recipient
      makes the middleware throw, whatever else the body holds. */
  lemma NullRecipientFaults(body: Json)
    requires body.Obj? && "resumen" in body.fields && body.fields["resumen"].Obj?
    requires "destinatarios" in body.fields && body.fields["destinatarios"] == Arr([Null])
    ensures Validate(Request(true, body)).outcome == Fault
  {
    NullishRecipientFaults(body, 0);
  }

  // ---------------------------------------------------------------------------
  // Corrected

  /** Where the code as written does not throw, the guarded gate answers
      exactly as it does. */
  lemma GuardedAgrees(req: Request)
    requires Validate(req).outcome != Fault
    ensures ValidateGuarded(req) == Validate(req)
  {
    if req.isJson {
      var body := req.body;
      var d := Get(body, "destinatarios");
      if d.Arr? {
        assert FirstNullish(d.elems) == |d.elems|;
        assert d.elems[..|d.elems|] == d.elems;
        assert GuardAll(d.elems) == d.elems;
      }
      assert GuardedEmitted(body) == Emitted(body);
    }
  }

  /** A body without a usable `resumen` gets a 422 that names `resumen` as
      missing (when it is absent) and every one of its nine sub-fields. */
  lemma GuardedReportsResumen(body: Json, f: string)
    requires !Nullish(body) && Nullish(Get(body, "resumen")) && f in ResumenFields
    ensures ValidateGuarded(Request(true, body)).outcome.Unprocessable?
    ensures ResumenMissingMsg(f) in ValidateGuarded(Request(true, body)).outcome.errors
    ensures Get(body, "resumen") == Undefined ==>
      MissingMsg("resumen") in ValidateGuarded(Request(true, body)).outcome.errors
  {
    var empty := Obj(map[]);
    ResumenMembership(empty, ResumenFields, f);
    PresenceMembership(body, RequiredFields, "resumen");
    var presence := PresenceErrors(body, RequiredFields);
    var checked := ResumenErrors(empty, ResumenFields);
    var rest := if Get(body, "destinatarios").Arr? then RecipientErrors(GuardAll(Get(body, "destinatarios").elems)) else [];
    assert GuardedEmitted(body) == presence + ArrayErrors(body) + checked + rest;
  }

  /** The empty object gets a 422 listing every missing field. */
  lemma GuardedEmptyBody()
    ensures ValidateGuarded(Request(true, Obj(map[]))).outcome.Unprocessable?
    ensures MissingMsg("resumen") in ValidateGuarded(Request(true, Obj(map[]))).outcome.errors
  {
    GuardedReportsResumen(Obj(map[]), ResumenFields[0]);
  }

  /** An `undefined` or `null` recipient, at any position of any readable
      body, gets a 422 carrying its positional message for each field. */
  lemma GuardedNullRecipient(body: Json, k: nat, f: string)
    requires !Nullish(body) && Get(body, "destinatarios").Arr?
    requires k < |Get(body, "destinatarios").elems| && Nullish(Get(body, "destinatarios").elems[k])
    requires f in RecipientFields
    ensures ValidateGuarded(Request(true, body)).outcome.Unprocessable?
    ensures RecipientMsg(k, f) in ValidateGuarded(Request(true, body)).outcome.errors
  {
    var guarded := GuardAll(Get(body, "destinatarios").elems);
    assert guarded[k] == Obj(map[]);
    RecipientMembership(guarded, k, f);
    var early := PresenceErrors(body, RequiredFields) + ArrayErrors(body)
                 + ResumenErrors(Guard(Get(body, "resumen")), ResumenFields);
    assert GuardedEmitted(body) == early + RecipientErrors(guarded);
  }
}
