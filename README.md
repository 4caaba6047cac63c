# Checklist validation gate — a Dafny model

This project models the two Express middlewares of `middlewares/validations.js`:

- `validateChecklist`, the gate in front of the checklist endpoint. It runs these checks in order:
  1. It rejects any request that is not `application/json` with 400.
  2. It checks that the seven required top-level fields are defined.
  3. It checks that `maquinas_sin_registrar` and `destinatarios` are arrays.
  4. It checks that the nine `resumen` counters are present and numeric.
  5. It checks that every recipient has a truthy `nombre`, `correo` and `cargo`.

  Every violation is collected and logged. If any were found, the gate answers 422 with the whole ordered list. Otherwise it calls `next()`.
- `handleJSONErrors` is the error middleware that turns a body-parser `SyntaxError` into a 400 with a fixed message.

The model is organised in five modules:

- `JsValue` (jsvalue.dfy) is the parsed-JSON value seen from JavaScript:
  - `undefined` is distinct from `null`;
  - a property read `Get` returns `undefined` for a missing key or a non-object;
  - `Truthy` is JavaScript truthiness;
  - `NatToString` renders an array index in decimal.
- `Validations` (validations.dfy) holds:
  - the constants and message templates of the source;
  - one specification function per check segment;
  - `Validate`, the specification of the whole gate;
  - `ValidateChecklist`, the step-by-step method. It pushes messages the way the source does, through the loop methods `CheckRequired`, `CheckResumen` and `CheckRecipients` and the `forEach` callback `CheckRecipient`, and is proved to compute `Validate`.
  - `HandleJsonErrors`.

  A `Reply` pairs the outcome with the sequence of messages handed to `logger.error`. The outcome is `BadRequest`, `Unprocessable`, `Next`, or `Fault` (a TypeError escapes the middleware).
- `ValidationFacts` (facts.dfy) holds the properties of the gate. They cover:
  - the short circuit on content type;
  - exactly one message per missing field, in field order;
  - the array checks;
  - the missing and not-a-number verdicts for `resumen`, which exclude each other;
  - each `resumen` and positional recipient message reported exactly once when due, and the recipient messages' order;
  - the characterisation of the requests that pass;
  - the size bound on the error list;
  - the throwing paths.
- `ValidationFindings` (findings.dfy) holds the two unguarded reads described under Findings, and the guarded gate proved against them.
- `ValidationScenarios` (scenarios.dfy) holds concrete requests: a complete checklist, and a recipient that has only a name.

Three behaviours of the code are worth noting, and the model keeps each of them:

- A body without `resumen` makes the code throw at line 83. It does not answer 422. See Findings.
- `handleJSONErrors` calls a bare `next()` for errors it does not recognise (line 170). That drops the error instead of passing it on, so the model answers `Next` with an empty log.
- The array checks run whether or not the field was reported missing (lines 47-67). An absent array field therefore produces two messages.

## Model

| member | source | states |
|---|---|---|
| JsValue.Get | middlewares/validations.js:34 | a defined result comes only from an object that holds the key; reading from `undefined`/`null` is excluded (it throws) |
| JsValue.Truthy | middlewares/validations.js:107-127 | the `!destinatario.x` test: a truthy value is never `undefined`/`null`, and every array and object is truthy |
| JsValue.ParseNatToString | middlewares/validations.js:108 | the decimal index in a recipient message reads back as the index |
| JsValue.NatToStringInjective | middlewares/validations.js:108 | distinct indices give distinct decimal renderings |
| Validations.MissingMsg | middlewares/validations.js:35 | the message starts with "Campo requerido faltante: " |
| Validations.NotArrayMsg | middlewares/validations.js:48-59 | the not-an-array message names its field right after "El campo '" |
| Validations.ResumenMissingMsg | middlewares/validations.js:84 | the message starts with "Campo requerido en 'resumen': " |
| Validations.NotNumberMsg | middlewares/validations.js:93 | the message starts with "El campo 'resumen." |
| Validations.RecipientMsg | middlewares/validations.js:108-128 | the message starts with "El destinatario " |
| Validations.PresenceErrors | middlewares/validations.js:33-44 | no more messages than fields, all of the missing-field kind (the exact count per field is `ValidationFacts.PresenceCount`) |
| Validations.ArrayErrors | middlewares/validations.js:47-67 | at most two messages, each naming one of the two array fields |
| Validations.ResumenFieldErrors | middlewares/validations.js:83-101 | one sub-field yields at most one message: none exactly when its value is a number, the missing message exactly when it is `undefined` |
| Validations.ResumenErrors | middlewares/validations.js:82-102 | no more messages than sub-fields, each of the missing or not-a-number kind (the exact count per sub-field is `ValidationFacts.ResumenCount`) |
| Validations.RecipientFieldErrors | middlewares/validations.js:107-116 | one `if (!destinatario.x)`: no message exactly when the field is truthy, otherwise exactly the positional message for that field |
| Validations.ElementErrors | middlewares/validations.js:107-136 | at most three messages for one recipient, all positional recipient messages |
| Validations.RecipientErrors | middlewares/validations.js:105-138 | at most three times as many messages as recipients, all positional recipient messages (the exact count per recipient and field is `ValidationFacts.RecipientMsgCount`) |
| Validations.FirstNullish | middlewares/validations.js:106-107 | the index of the first `undefined`/`null` recipient, every earlier one being readable |
| Validations.Emitted | middlewares/validations.js:30-138 | the list holds at most 7 + 2 + 9 + 3·(number of recipients) messages |
| Validations.Throws | middlewares/validations.js:34-107 | when a TypeError escapes: always for an `undefined`/`null` body, and, once the body and `resumen` are readable and `destinatarios` is an array, exactly when some recipient is `undefined`/`null` |
| Validations.Validate | middlewares/validations.js:3-156 | the specification of the gate: non-JSON requests and only they get the 400; a 422 carries a non-empty list and logs it followed by the batch entry; `next()` logs nothing. Its full meaning is stated by `ValidationFacts.OutcomeFollowsErrors`, `ValidationFacts.PassesIff` and the other `ValidationFacts` lemmas |
| Validations.CheckRequired | middlewares/validations.js:33-44 | the loop throws exactly on an `undefined`/`null` body, and otherwise collects the missing-field messages in field order |
| Validations.CheckResumen | middlewares/validations.js:82-102 | the loop throws exactly on an `undefined`/`null` `resumen`, and otherwise collects the missing or not-a-number message of each sub-field in order |
| Validations.CheckRecipient | middlewares/validations.js:106-137 | the callback pushes the messages for the non-truthy `nombre`, `correo`, `cargo` of one recipient, in that order |
| Validations.CheckRecipients | middlewares/validations.js:105-138 | the `forEach` throws exactly when some recipient is `undefined`/`null`, having collected the messages of every recipient before it |
| Validations.ValidateChecklist | middlewares/validations.js:3-156 | the imperative middleware produces exactly the outcome and the log sequence of the specification `Validate` |
| Validations.HandleJsonErrors | middlewares/validations.js:158-171 | 400 with the fixed message and one log entry if and only if the error is a `SyntaxError` with status 400 and a `body`; otherwise `next()` and no log |
| Validations.IsMalformedBody | middlewares/validations.js:159 | the condition `err instanceof SyntaxError && err.status === 400 && "body" in err`; what it selects is stated by `Validations.HandleJsonErrors` and `ValidationFacts.MalformedBodyCases` |
| ValidationFacts.IndexOf | middlewares/validations.js:30 | the position of a message in the error list is within bounds exactly when the message is present |
| ValidationFacts.KindsDisjoint | middlewares/validations.js:35-128 | no message is of two kinds (missing, not-array, resumen, recipient) |
| ValidationFacts.MissingMsgInjective | middlewares/validations.js:35 | distinct fields give distinct missing-field messages |
| ValidationFacts.ResumenMsgsInjective | middlewares/validations.js:84-93 | `resumen` messages identify their sub-field, and a missing message is never a not-a-number message |
| ValidationFacts.RecipientMsgInjective | middlewares/validations.js:108-128 | a recipient message identifies both its index and its field |
| ValidationFacts.ContentTypeShortCircuit | middlewares/validations.js:5-16 | a non-JSON request gets 400 with the content-type message and one log entry, whatever its body |
| ValidationFacts.PresenceCount | middlewares/validations.js:33-44 | each field of a duplicate-free list is reported once if undefined and never otherwise |
| ValidationFacts.PresenceMembership | middlewares/validations.js:33-44 | a field's message is in the list if and only if the field is listed and undefined |
| ValidationFacts.PresenceOrder | middlewares/validations.js:33-44 | missing-field messages appear in the order of the field list |
| ValidationFacts.RequiredFieldsDistinct | middlewares/validations.js:20-28 | the required and `resumen` field lists have no duplicates |
| ValidationFacts.EmittedSplit | middlewares/validations.js:30-138 | the error list is the presence segment followed by everything the later checks add |
| ValidationFacts.AfterPresenceKinds | middlewares/validations.js:47-138 | the later checks never add a missing-field message |
| ValidationFacts.MissingReportedOnce | middlewares/validations.js:33-44 | each required field appears in the whole list exactly once if undefined (`null`, `0`, `""`, `false` are present) and never otherwise |
| ValidationFacts.MissingInOrder | middlewares/validations.js:33-44 | missing required fields are reported in the declared order |
| ValidationFacts.NotArrayReported | middlewares/validations.js:47-67 | the not-an-array message of an array field is present if and only if its value is not an array |
| ValidationFacts.AbsentArrayFieldReportedTwice | middlewares/validations.js:33-67 | an absent array field is reported both as missing and as not an array |
| ValidationFacts.ResumenMembership | middlewares/validations.js:82-102 | a sub-field gets the missing message if and only if it is undefined, and the not-a-number message if and only if it is defined but not a number |
| ValidationFacts.ResumenFieldVerdict | middlewares/validations.js:82-102 | in the whole list, a `resumen` sub-field is reported missing if and only if undefined, as not a number if and only if defined and non-numeric, and never both |
| ValidationFacts.ResumenFieldCount | middlewares/validations.js:83-101 | the check of one sub-field yields a given sub-field's missing or not-a-number message only when it is that sub-field and its condition holds, and then once |
| ValidationFacts.ResumenCount | middlewares/validations.js:82-102 | over distinct sub-fields, each sub-field's missing message occurs once if undefined and never otherwise, and its not-a-number message once if defined and non-numeric and never otherwise |
| ValidationFacts.ResumenReportedOnce | middlewares/validations.js:82-102 | in the whole list of a body that does not throw, each `resumen` message occurs exactly once when its condition holds and never otherwise |
| ValidationFacts.ElementMembership | middlewares/validations.js:107-136 | a recipient's message for a field is present if and only if the field is not truthy |
| ValidationFacts.RecipientMembership | middlewares/validations.js:105-138 | the message for recipient i and field f is present if and only if i is a position and that field of the recipient is not truthy |
| ValidationFacts.ElementCount | middlewares/validations.js:107-136 | one recipient yields the message for a field exactly once when the field is not truthy, and never otherwise |
| ValidationFacts.RecipientMsgCount | middlewares/validations.js:105-138 | in the recipient segment, the message for recipient i and field f occurs exactly once when that field is not truthy, and never otherwise |
| ValidationFacts.RecipientOrder | middlewares/validations.js:105-138 | messages of an earlier recipient come before those of a later one |
| ValidationFacts.ElementOrder | middlewares/validations.js:107-136 | within one recipient, messages follow `nombre`, `correo`, `cargo` |
| ValidationFacts.ElementOrderInList | middlewares/validations.js:105-138 | within the whole recipient segment, one recipient's messages follow `nombre`, `correo`, `cargo` |
| ValidationFacts.RecipientVerdict | middlewares/validations.js:105-138 | in the whole list, the message for recipient i and field f is present if and only if i is a position whose f is not truthy, and then occurs exactly once (so a recipient lacking only `correo` gets exactly that one message) |
| ValidationFacts.RecipientSegmentLast | middlewares/validations.js:104-138 | in a body that does not throw, the recipient messages come last, after messages none of which is a recipient message |
| ValidationFacts.RecipientsInOrder | middlewares/validations.js:105-138 | in the whole list, a lower-indexed recipient's messages come before a higher-indexed one's |
| ValidationFacts.RecipientFieldsInOrder | middlewares/validations.js:107-136 | in the whole list, one recipient's messages follow `nombre`, `correo`, `cargo` |
| ValidationFacts.NoRecipientCheckWithoutArray | middlewares/validations.js:105 | when `destinatarios` is not an array, no positional recipient message is produced |
| ValidationFacts.OutcomeFollowsErrors | middlewares/validations.js:140-155 | a throwing body faults with the messages logged so far; otherwise a non-empty list gives 422 with the full list and one batch log, and an empty list gives `next()` with nothing logged |
| ValidationFacts.PresenceEmpty | middlewares/validations.js:33-44 | the presence check reports nothing if and only if every listed field is defined |
| ValidationFacts.ResumenEmpty | middlewares/validations.js:82-102 | the `resumen` check reports nothing if and only if every sub-field is a number |
| ValidationFacts.RecipientEmpty | middlewares/validations.js:105-138 | the recipient check reports nothing if and only if every recipient has truthy `nombre`, `correo` and `cargo` |
| ValidationFacts.CleanIff | middlewares/validations.js:30-138 | for a body that does not throw and whose `destinatarios` is an array, an empty error list means exactly a complete checklist |
| ValidationFacts.PassesIff | middlewares/validations.js:3-156 | a JSON request reaches `next()` if and only if the body is a complete checklist: every field defined, both arrays arrays, nine numeric counters, every recipient complete |
| ValidationFacts.NullishResumenFaults | middlewares/validations.js:83 | an `undefined`/`null` `resumen` throws after logging the presence and array messages |
| ValidationFacts.NullishRecipientFaults | middlewares/validations.js:107 | the first `undefined`/`null` recipient throws after logging everything before it |
| ValidationFacts.ErrorBound | middlewares/validations.js:30-152 | a 422 carries at most 7 + 2 + 9 + 3·(number of recipients) messages |
| ValidationFacts.MalformedBodyCases | middlewares/validations.js:158-171 | a 400 parse error is recognised; a string status, a missing `body` or a non-`SyntaxError` fall through to `next()` |
| ValidationFindings.Guard | middlewares/validations.js:83 | the guarded read base is never `undefined`/`null` and leaves readable values unchanged |
| ValidationFindings.GuardAll | middlewares/validations.js:106-107 | every guarded recipient is readable; readable recipients are unchanged |
| ValidationFindings.ValidateGuarded | middlewares/validations.js:3-156 | the guarded gate never throws, and agrees with the gate on non-JSON requests |
| ValidationFindings.EmptyBodyFaults | middlewares/validations.js:83 | as written, the body `{}` throws, and the missing-`resumen` message is logged but never answered |
| ValidationFindings.NullRecipientFaults | middlewares/validations.js:107 | as written, `destinatarios: [null]` throws; the smallest instance of `ValidationFacts.NullishRecipientFaults` |
| ValidationFindings.GuardedAgrees | middlewares/validations.js:3-156 | wherever the code as written does not throw, the guarded gate answers and logs exactly the same |
| ValidationFindings.GuardedReportsResumen | middlewares/validations.js:82-102 | with guarded reads, an unusable `resumen` gets a 422 naming each of its sub-fields, and `resumen` itself when absent |
| ValidationFindings.GuardedEmptyBody | middlewares/validations.js:33-102 | with guarded reads, `{}` gets a 422 naming `resumen` as missing |
| ValidationFindings.GuardedNullRecipient | middlewares/validations.js:105-138 | with guarded reads, an `undefined`/`null` recipient at any position of any readable body gets a 422 carrying its positional message for each of the three fields |
| ValidationScenarios.ChecklistPresence | middlewares/validations.js:33-44 | the sample checklist defines all seven required fields |
| ValidationScenarios.FullResumenChecks | middlewares/validations.js:82-102 | the sample `resumen` passes the nine numeric checks |
| ValidationScenarios.RecipientsDecide | middlewares/validations.js:140-155 | a body whose only possible faults are in its recipients gets `next()` when they are complete, and otherwise a 422 carrying exactly their messages |
| ValidationScenarios.ChecklistShape | middlewares/validations.js:33-102 | the sample checklist passes every check before the recipients |
| ValidationScenarios.CompleteChecklistPasses | middlewares/validations.js:3-156 | a complete checklist with one complete recipient reaches `next()` and logs nothing |
| ValidationScenarios.RecipientWithOnlyName | middlewares/validations.js:105-152 | `destinatarios: [{nombre: "A"}]` gets a 422 with exactly the `correo` and `cargo` messages for index 0 |

## Left out

- The logger (utils/logger.js) and its metadata are not part of this model:
  - file rotation;
  - timestamps;
  - `description`, `endpoint` and `body`;
  - the `errors` array attached to the batch entry.

  Only the first argument of each `logger.error` call is modelled, in order.
- Express plumbing is represented by parameters and results:
  - `req.is("application/json")` is a boolean field of the request;
  - `res.status(...).json(...)` is the `Outcome`;
  - the body parser is not part of this model. The gate receives its result, and `handleJSONErrors` receives the error's `SyntaxError` class, its `status` and whether it has a `body`.
- Numbers are integers. `typeof v === "number"` is the `Num` case, and the falsy number is `0`. Floating point, `NaN` and `-0` are not modelled.
- Property reads see only a JSON object's own keys. Keys inherited from the prototype, such as `constructor`, and array or string properties, such as `length`, read as `undefined`.
- The error message of the TypeError that escapes on an `undefined`/`null` read is not modelled. `Fault` stands for it.
- Validating the same payload twice gives the same ordered list. This is not a separate lemma: `Validate` is a function.
- ValidationFindings.ValidateGuarded reads a missing `resumen` as an empty object, so all nine of its sub-fields are reported. It does not emit one composite message. The code suggests no particular wording for such a message.

## Findings

| source | as written | input that shows it | evidently intended | confidence | as-written member | corrected member |
|---|---|---|---|---|---|---|
| middlewares/validations.js:83 | `data.resumen[field]` is read without checking that `resumen` exists | the JSON body `{}`: the seven missing-field and two not-an-array messages are logged, then a TypeError escapes | a 422 listing every missing field, including `resumen` | high, not executed | ValidationFindings.EmptyBodyFaults | ValidationFindings.GuardedEmptyBody |
| middlewares/validations.js:107 | `destinatario.nombre` is read on an element that may be `null` | a complete body with `destinatarios: [null]`: a TypeError escapes | a 422 with the positional messages of the `null` recipient | high, not executed | ValidationFindings.NullRecipientFaults | ValidationFindings.GuardedNullRecipient |
