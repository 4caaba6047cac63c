/** Concrete requests run through the specification of the gate. */
module ValidationScenarios {
  import opened JsValue
  import opened Validations
  import opened ValidationFacts

  function FullResumen(): Json {
    Obj(map[
      "total_maquinas" := Num(12),
      "maquinas_sin_registrar_principal" := Num(1),
      "maquinas_registradas_principal" := Num(5),
      "maquinas_sin_registrar_alterno" := Num(0),
      "maquinas_registradas_alterno" := Num(4),
      "maquinas_mantenimiento" := Num(1),
      "maquinas_apagadas" := Num(1),
      "sesiones_totales" := Num(30),
      "sesiones_activas_ultima_hora" := Num(7)
    ])
  }

  /** A checklist with every top-level field set and a complete `resumen`;
      `test_store` is `false`, which counts as present. */
  function Checklist(recipients: seq<Json>): Json {
    Obj(map[
      "asunto" := Str("Checklist diario"),
      "ambiente" := Str("produccion"),
      "cliente" := Str("ACME"),
      "resumen" := FullResumen(),
      "test_store" := Bool(false),
      "maquinas_sin_registrar" := Arr([]),
      "destinatarios" := Arr(recipients)
    ])
  }

  lemma ChecklistPresence(recipients: seq<Json>)
    ensures PresenceErrors(Checklist(recipients), RequiredFields) == []
  {
    var body := Checklist(recipients);
    assert forall f :: f in RequiredFields ==> f in body.fields;
    PresenceEmpty(body, RequiredFields);
  }

  lemma FullResumenChecks()
    ensures ResumenErrors(FullResumen(), ResumenFields) == []
  {
    assert forall f :: f in ResumenFields ==> f in FullResumen().fields && FullResumen().fields[f].Num?;
    ResumenEmpty(FullResumen(), ResumenFields);
  }

  lemma ChecklistReads(recipients: seq<Json>)
    ensures Get(Checklist(recipients), "resumen") == FullResumen()
    ensures Get(Checklist(recipients), "destinatarios") == Arr(recipients)
    ensures ArrayErrors(Checklist(recipients)) == []
  {
  }

  /** A body whose only faults can lie in its recipients is answered by
      their messages alone. */
  lemma RecipientsDecide(body: Json, recipients: seq<Json>)
    requires !Nullish(body) && PresenceErrors(body, RequiredFields) == [] && ArrayErrors(body) == []
    requires !Nullish(Get(body, "resumen")) && ResumenErrors(Get(body, "resumen"), ResumenFields) == []
    requires Get(body, "destinatarios") == Arr(recipients)
    requires forall k :: 0 <= k < |recipients| ==> !Nullish(recipients[k])
    ensures RecipientErrors(recipients) == [] ==> Validate(Request(true, body)) == Reply(Next, [])
    ensures RecipientErrors(recipients) != [] ==>
      Validate(Request(true, body)).outcome == Unprocessable(RecipientErrors(recipients))
  {
    assert recipients[..FirstNullish(recipients)] == recipients;
    assert Emitted(body) == RecipientErrors(recipients);
  }

  /** The checklist meets every requirement outside its recipients. */
  lemma ChecklistShape(recipients: seq<Json>)
    ensures !Nullish(Checklist(recipients))
    ensures PresenceErrors(Checklist(recipients), RequiredFields) == []
    ensures ArrayErrors(Checklist(recipients)) == []
    ensures !Nullish(Get(Checklist(recipients), "resumen"))
    ensures ResumenErrors(Get(Checklist(recipients), "resumen"), ResumenFields) == []
    ensures Get(Checklist(recipients), "destinatarios") == Arr(recipients)
  {
    ChecklistPresence(recipients);
    FullResumenChecks();
    ChecklistReads(recipients);
  }

  /** A complete checklist passes to the next stage and nothing is logged. */
  lemma CompleteChecklistPasses()
    ensures Validate(Request(true, Checklist([
      Obj(map["nombre" := Str("A"), "correo" := Str("a@x.com"), "cargo" := Str("Eng")])
    ]))) == Reply(Next, [])
  {
    var r := Obj(map["nombre" := Str("A"), "correo" := Str("a@x.com"), "cargo" := Str("Eng")]);
    assert RecipientErrors([r]) == [] by {
      assert [r][..0] == [];
    }
    ChecklistShape([r]);
    RecipientsDecide(Checklist([r]), [r]);
  }

  /** A recipient with only a name yields exactly its `correo` and `cargo`
      messages, in that order. */
  lemma RecipientWithOnlyName()
    ensures Validate(Request(true, Checklist([Obj(map["nombre" := Str("A")])]))).outcome
            == Unprocessable([RecipientMsg(0, "correo"), RecipientMsg(0, "cargo")])
  {
    var r := Obj(map["nombre" := Str("A")]);
    assert RecipientErrors([r]) == [RecipientMsg(0, "correo"), RecipientMsg(0, "cargo")] by {
      assert [r][..0] == [];
    }
    ChecklistShape([r]);
    RecipientsDecide(Checklist([r]), [r]);
  }
}
