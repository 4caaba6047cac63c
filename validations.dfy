/**
 The checklist request-validation gate (`validateChecklist`) and the
 malformed-body classifier (`handleJSONErrors`) of middlewares/validations.js.

 The gate is modelled twice: `Validate` is the specification, a function that
 concatenates the four error segments in the order the source appends them;
 `ValidateChecklist` is the step-by-step method that pushes onto a local list
 exactly as the source does, and is proved to compute `Validate`.
 */
module Validations {
  import opened JsValue

  /** What the middleware does with the request. `Fault` is a TypeError thrown
      by a property read on `undefined` or `null`. */
  datatype Outcome =
    | BadRequest(error: string)          // res.status(400).json({ error })
    | Unprocessable(errors: seq<string>) // res.status(422).json({ errors })
    | Next                               // next()
    | Fault                              // a TypeError escapes the middleware

  /** `isJson` is the answer of `req.is("application/json")`; `body` is `req.body`. */
  datatype Request = Request(isJson: bool, body: Json)

  /** The outcome together with the messages handed to `logger.error`, in order. */
  datatype Reply = Reply(outcome: Outcome, log: seq<string>)

  const ContentTypeError := "Las solicitudes deben hacerse en formato JSON, revisar el header Content-Type"
  const ContentTypeLog := "Content-Type no es application/json"
  const BatchLog := "Errores de validación"

  const RequiredFields: seq<string> := [
    "asunto", "ambiente", "cliente", "resumen", "test_store",
    "maquinas_sin_registrar", "destinatarios"
  ]

  const Unregistered := "maquinas_sin_registrar"
  const Recipients := "destinatarios"

  /** The two fields whose value must be an array, in the order they are checked. */
  const ArrayFields: seq<string> := [Unregistered, Recipients]

  const ResumenFields: seq<string> := [
    "total_maquinas",
    "maquinas_sin_registrar_principal",
    "maquinas_registradas_principal",
    "maquinas_sin_registrar_alterno",
    "maquinas_registradas_alterno",
    "maquinas_mantenimiento",
    "maquinas_apagadas",
    "sesiones_totales",
    "sesiones_activas_ultima_hora"
  ]

  /** The fields every recipient must carry, in the order they are checked. */
  const RecipientFields: seq<string> := [Nombre, Correo, Cargo]

  const Nombre := "nombre"
  const Correo := "correo"
  const Cargo := "cargo"

  // ---------------------------------------------------------------------------
  // Messages

  const MissingPrefix := "Campo requerido faltante: "
  const ResumenMissingPrefix := "Campo requerido en 'resumen': "
  const NotNumberPrefix := "El campo 'resumen."
  const RecipientPrefix := "El destinatario "

  predicate StartsWith(s: string, p: string) {
    |p| <= |s| && s[..|p|] == p
  }

  function MissingMsg(field: string): (m: string)
    ensures StartsWith(m, MissingPrefix)
  {
    var m := MissingPrefix + field;
    assert m[..|MissingPrefix|] == MissingPrefix;
    m
  }

  /** Names the field right after the opening "El campo '". */
  function NotArrayMsg(field: string): (m: string)
    ensures |m| > 10 + |field| && m[10..10 + |field|] == field
  {
    var m := "El campo '" + field + "' debe ser un array";
    assert m[10..10 + |field|] == field;
    m
  }

  function ResumenMissingMsg(field: string): (m: string)
    ensures StartsWith(m, ResumenMissingPrefix)
  {
    var m := ResumenMissingPrefix + field;
    assert m[..|ResumenMissingPrefix|] == ResumenMissingPrefix;
    m
  }

  function NotNumberMsg(field: string): (m: string)
    ensures StartsWith(m, NotNumberPrefix)
  {
    var m := NotNumberPrefix + field + "' debe ser un número";
    assert m[..|NotNumberPrefix|] == NotNumberPrefix;
    m
  }

  function RecipientMsg(index: nat, field: string): (m: string)
    ensures StartsWith(m, RecipientPrefix)
  {
    var m := RecipientPrefix + NatToString(index) + " debe tener un '" + field + "'";
    assert m[..|RecipientPrefix|] == RecipientPrefix;
    m
  }

  // ---------------------------------------------------------------------------
  // The four error segments

  /** One "faltante" message per field of `fields` whose value is `undefined`,
      in the order of `fields`. */
  function PresenceErrors(data: Json, fields: seq<string>): (r: seq<string>)
    requires !Nullish(data)
    ensures |r| <= |fields|
    ensures forall x :: x in r ==> StartsWith(x, MissingPrefix)
  {
    if fields == [] then []
    else
      var field := fields[|fields| - 1];
      PresenceErrors(data, fields[..|fields| - 1])
      + (if Get(data, field) == Undefined then [MissingMsg(field)] else [])
  }

  /** The two `Array.isArray` checks, run whether or not the field is present. */
  function ArrayErrors(data: Json): (r: seq<string>)
    requires !Nullish(data)
    ensures |r| <= |ArrayFields|
    ensures forall x :: x in r ==> x == NotArrayMsg(ArrayFields[0]) || x == NotArrayMsg(ArrayFields[1])
  {
    (if Get(data, Unregistered).Arr? then [] else [NotArrayMsg(Unregistered)])
    + (if Get(data, Recipients).Arr? then [] else [NotArrayMsg(Recipients)])
  }

  /** At most one message for one `resumen` sub-field: absent, else not a number. */
  function ResumenFieldErrors(resumen: Json, field: string): (r: seq<string>)
    requires !Nullish(resumen)
    ensures |r| <= 1
    ensures r == [] <==> Get(resumen, field).Num?
    ensures ResumenMissingMsg(field) in r <==> Get(resumen, field) == Undefined
  {
    var v := Get(resumen, field);
    if v == Undefined then [ResumenMissingMsg(field)]
    else if !v.Num? then [NotNumberMsg(field)]
    else []
  }

  function ResumenErrors(resumen: Json, fields: seq<string>): (r: seq<string>)
    requires !Nullish(resumen)
    ensures |r| <= |fields|
    ensures forall x :: x in r ==> StartsWith(x, ResumenMissingPrefix) || StartsWith(x, NotNumberPrefix)
  {
    if fields == [] then []
    else
      ResumenErrors(resumen, fields[..|fields| - 1])
      + ResumenFieldErrors(resumen, fields[|fields| - 1])
  }

  /** The message for one recipient field that is not truthy. */
  function RecipientFieldErrors(recipient: Json, index: nat, field: string): (r: seq<string>)
    requires !Nullish(recipient)
    ensures r == [] <==> Truthy(Get(recipient, field))
    ensures r != [] ==> r == [RecipientMsg(index, field)]
  {
    if Truthy(Get(recipient, field)) then [] else [RecipientMsg(index, field)]
  }

  /** The messages of the recipient at `index`: `nombre`, then `correo`, then `cargo`. */
  function ElementErrors(recipient: Json, index: nat): (r: seq<string>)
    requires !Nullish(recipient)
    ensures |r| <= |RecipientFields|
    ensures forall x :: x in r ==> StartsWith(x, RecipientPrefix)
  {
    RecipientFieldErrors(recipient, index, Nombre)
    + RecipientFieldErrors(recipient, index, Correo)
    + RecipientFieldErrors(recipient, index, Cargo)
  }

  /** The messages of every recipient, by increasing index. */
  function RecipientErrors(recipients: seq<Json>): (r: seq<string>)
    requires forall k :: 0 <= k < |recipients| ==> !Nullish(recipients[k])
    ensures |r| <= 3 * |recipients|
    ensures forall x :: x in r ==> StartsWith(x, RecipientPrefix)
  {
    if recipients == [] then []
    else
      var n := |recipients| - 1;
      RecipientErrors(recipients[..n]) + ElementErrors(recipients[n], n)
  }

  /** The index of the first `undefined` or `null` recipient, where
      `destinatario.nombre` throws; `|recipients|` when there is none. */
  function FirstNullish(recipients: seq<Json>): (k: nat)
    ensures k <= |recipients|
    ensures forall j :: 0 <= j < k ==> !Nullish(recipients[j])
    ensures k < |recipients| ==> Nullish(recipients[k])
  {
    if recipients == [] || Nullish(recipients[0]) then 0
    else 1 + FirstNullish(recipients[1..])
  }

  // ---------------------------------------------------------------------------
  // The whole gate

  /** Whether validating `body` throws a TypeError: reading a field of the body
      itself, of `resumen`, or of a recipient that is `undefined` or `null`. */
  predicate Throws(body: Json)
    ensures Nullish(body) ==> Throws(body)
    ensures !Nullish(body) && !Nullish(Get(body, "resumen")) && Get(body, "destinatarios").Arr? ==>
      (Throws(body) <==> exists k :: 0 <= k < |Get(body, "destinatarios").elems|
                                     && Nullish(Get(body, "destinatarios").elems[k]))
  {
    Nullish(body)
    || Nullish(Get(body, "resumen"))
    || (Get(body, "destinatarios").Arr?
        && FirstNullish(Get(body, "destinatarios").elems) < |Get(body, "destinatarios").elems|)
  }

  /** How many recipients the recipient check visits at most. */
  function RecipientCount(body: Json): nat
    requires !Nullish(body)
  {
    var d := Get(body, "destinatarios");
    if d.Arr? then |d.elems| else 0
  }

  /** The `errors` list as it stands when the body checks end, normally or by a
      TypeError: presence ++ array ++ resumen ++ recipients, each segment cut
      where the throw happens. */
  function Emitted(body: Json): (r: seq<string>)
    ensures !Nullish(body) ==>
      |r| <= 7 + 2 + 9 + 3 * RecipientCount(body)
  {
    if Nullish(body) then []
    else
      var early := PresenceErrors(body, RequiredFields) + ArrayErrors(body);
      var resumen := Get(body, "resumen");
      if Nullish(resumen) then early
      else
        var d := Get(body, "destinatarios");
        early + ResumenErrors(resumen, ResumenFields)
        + (if d.Arr? then RecipientErrors(d.elems[..FirstNullish(d.elems)]) else [])
  }

  /** The specification of `validateChecklist`. A 422 always carries a
      non-empty list, logged message by message and then once as a batch;
      `next()` is reached with nothing logged. */
  function Validate(req: Request): (r: Reply)
    ensures !req.isJson <==> r.outcome.BadRequest?
    ensures r.outcome.Unprocessable? ==> r.outcome.errors != [] && r.log == r.outcome.errors + [BatchLog]
    ensures r.outcome == Next ==> r.log == []
  {
    if !req.isJson then Reply(BadRequest(ContentTypeError), [ContentTypeLog])
    else
      var errors := Emitted(req.body);
      if Throws(req.body) then Reply(Fault, errors)
      else if |errors| > 0 then Reply(Unprocessable(errors), errors + [BatchLog])
      else Reply(Next, errors)
  }

  /** Step 2 of `validateChecklist`: the loop over `requiredFields`. Its first
      read `data[field]` throws when the body is `undefined` or `null`. */
  method CheckRequired(data: Json) returns (threw: bool, found: seq<string>)
    ensures threw <==> Nullish(data)
    ensures found == if threw then [] else PresenceErrors(data, RequiredFields)
  {
    found := [];
    for i := 0 to |RequiredFields|
      invariant Nullish(data) ==> i == 0 && found == []
      invariant !Nullish(data) ==> found == PresenceErrors(data, RequiredFields[..i])
    {
      var field := RequiredFields[i];
      if Nullish(data) {
        return true, [];
      }
      if Get(data, field) == Undefined {
        found := found + [MissingMsg(field)];
      }
      assert RequiredFields[..i + 1][..i] == RequiredFields[..i];
    }
    assert RequiredFields[..|RequiredFields|] == RequiredFields;
    threw := false;
  }

  /** Step 4: the loop over `resumenFields`. Its first read `data.resumen[field]`
      throws when `resumen` is `undefined` or `null`. */
  method CheckResumen(resumen: Json) returns (threw: bool, found: seq<string>)
    ensures threw <==> Nullish(resumen)
    ensures found == if threw then [] else ResumenErrors(resumen, ResumenFields)
  {
    found := [];
    for i := 0 to |ResumenFields|
      invariant Nullish(resumen) ==> i == 0 && found == []
      invariant !Nullish(resumen) ==> found == ResumenErrors(resumen, ResumenFields[..i])
    {
      var field := ResumenFields[i];
      if Nullish(resumen) {
        return true, [];
      }
      var value := Get(resumen, field);
      if value == Undefined {
        found := found + [ResumenMissingMsg(field)];
      } else if !value.Num? {
        found := found + [NotNumberMsg(field)];
      }
      assert ResumenFields[..i + 1][..i] == ResumenFields[..i];
    }
    assert ResumenFields[..|ResumenFields|] == ResumenFields;
    threw := false;
  }

  /** The callback `forEach` runs on the recipient at `index`: one message per
      field among `nombre`, `correo`, `cargo` that is not truthy, in that order. */
  method CheckRecipient(recipient: Json, index: nat) returns (found: seq<string>)
    requires !Nullish(recipient)
    ensures found == ElementErrors(recipient, index)
  {
    found := [];
    if !Truthy(Get(recipient, Nombre)) {
      found := found + [RecipientMsg(index, Nombre)];
    }
    if !Truthy(Get(recipient, Correo)) {
      found := found + [RecipientMsg(index, Correo)];
    }
    if !Truthy(Get(recipient, Cargo)) {
      found := found + [RecipientMsg(index, Cargo)];
    }
  }

  /** Step 5: the `forEach` over `destinatarios`. Reading `destinatario.nombre`
      throws at the first `undefined` or `null` element; the messages of the
      elements before it have been pushed by then. */
  method CheckRecipients(recipients: seq<Json>) returns (threw: bool, found: seq<string>)
    ensures threw <==> FirstNullish(recipients) < |recipients|
    ensures found == RecipientErrors(recipients[..FirstNullish(recipients)])
  {
    found := [];
    for index := 0 to |recipients|
      invariant forall j :: 0 <= j < index ==> !Nullish(recipients[j])
      invariant found == RecipientErrors(recipients[..index])
    {
      var recipient := recipients[index];
      if Nullish(recipient) {
        assert FirstNullish(recipients) == index;
        return true, found;
      }
      var own := CheckRecipient(recipient, index);
      found := found + own;
      assert recipients[..index + 1][..index] == recipients[..index];
    }
    assert recipients[..|recipients|] == recipients;
    assert FirstNullish(recipients) == |recipients|;
    threw := false;
  }

  /** `validateChecklist`: every message found is pushed onto `errors` and
      logged, in the order of the checks; a TypeError aborts the middleware with
      whatever has been logged so far. */
  method ValidateChecklist(req: Request) returns (outcome: Outcome, log: seq<string>)
    ensures Reply(outcome, log) == Validate(req)
  {
    if !req.isJson {
      log := [ContentTypeLog];
      outcome := BadRequest(ContentTypeError);
      return;
    }
    var data := req.body;
    var errors: seq<string> := [];
    log := [];

    var threw, found := CheckRequired(data);
    errors, log := errors + found, log + found;
    if threw {
      outcome := Fault;
      return;
    }

    if !Get(data, Unregistered).Arr? {
      var message := NotArrayMsg(Unregistered);
      errors, log := errors + [message], log + [message];
    }
    if !Get(data, Recipients).Arr? {
      var message := NotArrayMsg(Recipients);
      errors, log := errors + [message], log + [message];
    }
    assert errors == PresenceErrors(data, RequiredFields) + ArrayErrors(data);

    threw, found := CheckResumen(Get(data, "resumen"));
    errors, log := errors + found, log + found;
    if threw {
      outcome := Fault;
      return;
    }

    var destinatarios := Get(data, "destinatarios");
    if destinatarios.Arr? {
      threw, found := CheckRecipients(destinatarios.elems);
      errors, log := errors + found, log + found;
      if threw {
        outcome := Fault;
        return;
      }
    }

    assert errors == Emitted(data);
    if |errors| > 0 {
      log := log + [BatchLog];
      outcome := Unprocessable(errors);
      return;
    }
    outcome := Next;
  }

  // ---------------------------------------------------------------------------
  // handleJSONErrors

  /** What the body parser hands to the error middleware: whether the error is a
      `SyntaxError`, its `status` property (`undefined` when it has none) and
      whether it carries a `body` property. */
  datatype ParserError = ParserError(isSyntaxError: bool, status: Json, hasBody: bool)

  const MalformedJsonError := "JSON malformado. Verifica comillas y llaves"
  const MalformedJsonLog := "JSON malformado"

  /** `err instanceof SyntaxError && err.status === 400 && "body" in err`. */
  predicate IsMalformedBody(err: ParserError) {
    err.isSyntaxError && err.status == Num(400) && err.hasBody
  }

  /** A parse failure of the body is answered with 400 and the fixed message and
      logged once; every other error is dropped and the chain continues with a
      bare `next()`, logging nothing. */
  function HandleJsonErrors(err: ParserError): (r: Reply)
    ensures r.outcome.BadRequest? <==> IsMalformedBody(err)
    ensures r.outcome.BadRequest? ==> r.outcome.error == MalformedJsonError && r.log == [MalformedJsonLog]
    ensures !r.outcome.BadRequest? ==> r.outcome == Next && r.log == []
  {
    if IsMalformedBody(err) then Reply(BadRequest(MalformedJsonError), [MalformedJsonLog])
    else Reply(Next, [])
  }
}
