/**
 What the checklist gate promises, proved about its specification `Validate`
 (and so, through the contract of `ValidateChecklist`, about the middleware).
 */
module ValidationFacts {
  import opened JsValue
  import opened Validations

  // ---------------------------------------------------------------------------
  // Vocabulary

  predicate Distinct(fields: seq<string>) {
    forall i, j :: 0 <= i < j < |fields| ==> fields[i] != fields[j]
  }

  /** The position of the first occurrence of `m` in `s`; `|s|` when absent. */
  function IndexOf(s: seq<string>, m: string): (k: nat)
    ensures k <= |s|
    ensures k < |s| <==> m in s
  {
    if s == [] then 0 else if s[0] == m then 0 else 1 + IndexOf(s[1..], m)
  }

  lemma {:induction false} IndexOfAppend(s: seq<string>, t: seq<string>, m: string)
    ensures IndexOf(s + t, m) == if m in s then IndexOf(s, m) else |s| + IndexOf(t, m)
  {
    if s != [] {
      assert (s + t)[1..] == s[1..] + t;
      IndexOfAppend(s[1..], t, m);
    } else {
      assert s + t == t;
    }
  }

  lemma OrderKeptByAppend(s: seq<string>, t: seq<string>, x: string, y: string)
    requires IndexOf(s, x) < IndexOf(s, y) < |s|
    ensures IndexOf(s + t, x) < IndexOf(s + t, y) < |s + t|
  {
    IndexOfAppend(s, t, x);
    IndexOfAppend(s, t, y);
  }

  lemma OrderKeptByPrepend(s: seq<string>, t: seq<string>, x: string, y: string)
    requires x !in s && y !in s
    requires IndexOf(t, x) < IndexOf(t, y) < |t|
    ensures IndexOf(s + t, x) < IndexOf(s + t, y) < |s + t|
  {
    IndexOfAppend(s, t, x);
    IndexOfAppend(s, t, y);
  }

  lemma OrderAcrossAppend(s: seq<string>, t: seq<string>, x: string, y: string)
    requires x in s && y !in s && y in t
    ensures IndexOf(s + t, x) < IndexOf(s + t, y) < |s + t|
  {
    IndexOfAppend(s, t, x);
    IndexOfAppend(s, t, y);
  }

  lemma StartsWithAt(x: string, p: string, k: nat)
    requires k < |p|
    ensures StartsWith(x, p) ==> x[k] == p[k]
  {
    if StartsWith(x, p) {
      assert x[..|p|][k] == x[k];
    }
  }

  /** Two prefixes that disagree at some position cannot both start one string. */
  lemma PrefixesClash(x: string, p: string, q: string, k: nat)
    requires k < |p| && k < |q| && p[k] != q[k]
    ensures !(StartsWith(x, p) && StartsWith(x, q))
  {
    StartsWithAt(x, p, k);
    StartsWithAt(x, q, k);
  }

  /** Every message the body checks produce, classified by the way it opens. */
  predicate IsMissing(x: string) { StartsWith(x, MissingPrefix) }
  predicate IsNotArray(x: string) { x == NotArrayMsg(ArrayFields[0]) || x == NotArrayMsg(ArrayFields[1]) }
  predicate IsResumen(x: string) { StartsWith(x, ResumenMissingPrefix) || StartsWith(x, NotNumberPrefix) }
  predicate IsRecipient(x: string) { StartsWith(x, RecipientPrefix) }

  /** The four kinds of message never coincide. */
  lemma KindsDisjoint(x: string)
    ensures IsMissing(x) ==> !IsNotArray(x) && !IsResumen(x) && !IsRecipient(x)
    ensures IsNotArray(x) ==> !IsResumen(x) && !IsRecipient(x)
    ensures IsResumen(x) ==> !IsRecipient(x)
  {
    PrefixesClash(x, MissingPrefix, ResumenMissingPrefix, 16);
    PrefixesClash(x, MissingPrefix, NotNumberPrefix, 0);
    PrefixesClash(x, MissingPrefix, RecipientPrefix, 0);
    PrefixesClash(x, ResumenMissingPrefix, RecipientPrefix, 0);
    PrefixesClash(x, NotNumberPrefix, RecipientPrefix, 3);
    var a0, a1 := NotArrayMsg(ArrayFields[0]), NotArrayMsg(ArrayFields[1]);
    if x == a0 || x == a1 {
      assert StartsWith(x, x[..11]);
      assert x[10] == 'm' || x[10] == 'd' by {
        if x == a0 {
          assert x[10..10 + |ArrayFields[0]|] == ArrayFields[0];
        } else {
          assert x[10..10 + |ArrayFields[1]|] == ArrayFields[1];
        }
      }
      PrefixesClash(x, x[..11], MissingPrefix, 0);
      PrefixesClash(x, x[..11], ResumenMissingPrefix, 0);
      PrefixesClash(x, x[..11], NotNumberPrefix, 10);
      PrefixesClash(x, x[..11], RecipientPrefix, 3);
    }
  }

  // ---------------------------------------------------------------------------
  // Messages identify what they report

  lemma MissingMsgInjective(a: string, b: string)
    ensures MissingMsg(a) == MissingMsg(b) ==> a == b
  {
    var n := |MissingPrefix|;
    assert MissingMsg(a)[n..] == a && MissingMsg(b)[n..] == b;
  }

  lemma ResumenMsgsInjective(a: string, b: string)
    ensures ResumenMissingMsg(a) == ResumenMissingMsg(b) ==> a == b
    ensures NotNumberMsg(a) == NotNumberMsg(b) ==> a == b
    ensures ResumenMissingMsg(a) != NotNumberMsg(b)
  {
    var n := |ResumenMissingPrefix|;
    assert ResumenMissingMsg(a)[n..] == a && ResumenMissingMsg(b)[n..] == b;
    var p := |NotNumberPrefix|;
    if NotNumberMsg(a) == NotNumberMsg(b) {
      assert |a| == |b|;
      assert NotNumberMsg(a)[p..p + |a|] == a;
      assert NotNumberMsg(b)[p..p + |b|] == b;
    }
    PrefixesClash(ResumenMissingMsg(a), ResumenMissingPrefix, NotNumberPrefix, 0);
  }

  /** In a digit string followed by a non-digit, the digits end exactly at the
      end of the digit string. */
  lemma DigitRunEnd(a: string, s: string, k: nat)
    requires AllDigits(a) && s != [] && !IsDigit(s[0]) && k <= |a|
    ensures IsDigit((a + s)[k]) <==> k < |a|
  {
  }

  /** Two digit strings, each followed by something that does not open with a
      digit, are equal when the concatenations are. */
  lemma DigitRunsAgree(a: string, s: string, b: string, t: string)
    requires AllDigits(a) && AllDigits(b)
    requires s != [] && !IsDigit(s[0]) && t != [] && !IsDigit(t[0])
    requires a + s == b + t
    ensures a == b && s == t
  {
    var w := a + s;
    var k := if |a| < |b| then |a| else |b|;
    DigitRunEnd(a, s, k);
    DigitRunEnd(b, t, k);
    assert |a| == |b|;
    assert a == w[..|a|] && b == (b + t)[..|b|];
    assert s == w[|a|..] && t == (b + t)[|b|..];
  }

  lemma DropPrefix(p: string, x: string)
    ensures (p + x)[|p|..] == x
  {
  }

  /** After its fixed opening, a recipient message is the index's digits
      followed by a tail that names the field. */
  lemma RecipientMsgAfterPrefix(i: nat, f: string)
    ensures RecipientMsg(i, f)[|RecipientPrefix|..] == NatToString(i) + RecipientTail(f)
  {
    assert RecipientMsg(i, f) == RecipientPrefix + (NatToString(i) + RecipientTail(f));
    DropPrefix(RecipientPrefix, NatToString(i) + RecipientTail(f));
  }

  function RecipientTail(f: string): string {
    " debe tener un '" + f + "'"
  }

  lemma RecipientTailInjective(f: string, g: string)
    requires RecipientTail(f) == RecipientTail(g)
    ensures f == g
  {
    var mid := " debe tener un '";
    assert RecipientTail(f) == mid + (f + "'") && RecipientTail(g) == mid + (g + "'");
    DropPrefix(mid, f + "'");
    DropPrefix(mid, g + "'");
    assert f == (f + "'")[..|f|] && g == (g + "'")[..|g|];
  }

  /** A recipient message names exactly one index and one field. */
  lemma RecipientMsgInjective(i: nat, f: string, j: nat, g: string)
    ensures RecipientMsg(i, f) == RecipientMsg(j, g) ==> i == j && f == g
  {
    if RecipientMsg(i, f) == RecipientMsg(j, g) {
      RecipientMsgAfterPrefix(i, f);
      RecipientMsgAfterPrefix(j, g);
      DigitRunsAgree(NatToString(i), RecipientTail(f), NatToString(j), RecipientTail(g));
      NatToStringInjective(i, j);
      RecipientTailInjective(f, g);
    }
  }

  // ---------------------------------------------------------------------------
  // Content-type gate

  /** A request whose content type is not JSON is answered 400 with the fixed
      message and one log line, whatever its body: no body check runs. */
  lemma ContentTypeShortCircuit(body: Json, other: Json)
    ensures Validate(Request(false, body)) == Reply(BadRequest(ContentTypeError), [ContentTypeLog])
    ensures Validate(Request(false, body)) == Validate(Request(false, other))
  {
  }

  // ---------------------------------------------------------------------------
  // Presence segment

  /** Over distinct field names, the "faltante" message of `f` occurs exactly
      once when `f` is listed and its value is `undefined`, and never otherwise. */
  lemma {:induction false} PresenceCount(data: Json, fields: seq<string>, f: string)
    requires !Nullish(data) && Distinct(fields)
    ensures multiset(PresenceErrors(data, fields))[MissingMsg(f)]
            == if f in fields && Get(data, f) == Undefined then 1 else 0
  {
    if fields != [] {
      var n := |fields| - 1;
      var last := fields[n];
      assert Distinct(fields[..n]);
      PresenceCount(data, fields[..n], f);
      MissingMsgInjective(f, last);
      assert fields == fields[..n] + [last];
      assert f in fields <==> f in fields[..n] || f == last;
      assert f == last ==> f !in fields[..n];
    }
  }

  lemma {:induction false} PresenceMembership(data: Json, fields: seq<string>, f: string)
    requires !Nullish(data)
    ensures MissingMsg(f) in PresenceErrors(data, fields) <==> f in fields && Get(data, f) == Undefined
  {
    if fields != [] {
      var n := |fields| - 1;
      PresenceMembership(data, fields[..n], f);
      MissingMsgInjective(f, fields[n]);
      assert fields == fields[..n] + [fields[n]];
    }
  }

  /** The "faltante" messages follow the order of the field list. */
  lemma {:induction false} PresenceOrder(data: Json, fields: seq<string>, i: nat, j: nat)
    requires !Nullish(data) && Distinct(fields)
    requires i < j < |fields|
    requires Get(data, fields[i]) == Undefined && Get(data, fields[j]) == Undefined
    ensures IndexOf(PresenceErrors(data, fields), MissingMsg(fields[i]))
            < IndexOf(PresenceErrors(data, fields), MissingMsg(fields[j]))
            < |PresenceErrors(data, fields)|
  {
    var n := |fields| - 1;
    var init := fields[..n];
    var before := PresenceErrors(data, init);
    var tail := if Get(data, fields[n]) == Undefined then [MissingMsg(fields[n])] else [];
    var mi, mj := MissingMsg(fields[i]), MissingMsg(fields[j]);
    assert PresenceErrors(data, fields) == before + tail;
    assert init[i] == fields[i];
    if j < n {
      assert init[j] == fields[j];
      assert Distinct(init);
      PresenceOrder(data, init, i, j);
      OrderKeptByAppend(before, tail, mi, mj);
    } else {
      assert fields[j] !in init;
      PresenceMembership(data, init, fields[i]);
      PresenceMembership(data, init, fields[j]);
      OrderAcrossAppend(before, tail, mi, mj);
    }
  }

  lemma RequiredFieldsDistinct()
    ensures Distinct(RequiredFields) && Distinct(ResumenFields)
  {
  }

  /** What follows the presence segment in the list. */
  function AfterPresence(body: Json): seq<string>
    requires !Nullish(body)
  {
    var resumen := Get(body, "resumen");
    var d := Get(body, "destinatarios");
    ArrayErrors(body)
    + if Nullish(resumen) then []
      else ResumenErrors(resumen, ResumenFields)
           + if d.Arr? then RecipientErrors(d.elems[..FirstNullish(d.elems)]) else []
  }

  lemma Associate(a: seq<string>, b: seq<string>, c: seq<string>, d: seq<string>)
    ensures a + b + c + d == a + (b + (c + d))
  {
  }

  lemma EmittedSplit(body: Json)
    requires !Nullish(body)
    ensures Emitted(body) == PresenceErrors(body, RequiredFields) + AfterPresence(body)
  {
    var presence, arrays := PresenceErrors(body, RequiredFields), ArrayErrors(body);
    var resumen := Get(body, "resumen");
    if !Nullish(resumen) {
      var checked := ResumenErrors(resumen, ResumenFields);
      var d := Get(body, "destinatarios");
      var recipients := if d.Arr? then RecipientErrors(d.elems[..FirstNullish(d.elems)]) else [];
      assert Emitted(body) == presence + arrays + checked + recipients;
      assert AfterPresence(body) == arrays + (checked + recipients);
      Associate(presence, arrays, checked, recipients);
    }
  }

  lemma AfterPresenceKinds(body: Json)
    requires !Nullish(body)
    ensures forall x :: x in AfterPresence(body) ==> IsNotArray(x) || IsResumen(x) || IsRecipient(x)
  {
    var resumen := Get(body, "resumen");
    var d := Get(body, "destinatarios");
    var arrays := ArrayErrors(body);
    assert forall x :: x in arrays ==> IsNotArray(x);
    if Nullish(resumen) {
      assert AfterPresence(body) == arrays;
    } else {
      var checked := ResumenErrors(resumen, ResumenFields);
      var recipients := if d.Arr? then RecipientErrors(d.elems[..FirstNullish(d.elems)]) else [];
      assert forall x :: x in checked ==> IsResumen(x);
      assert forall x :: x in recipients ==> IsRecipient(x);
      assert AfterPresence(body) == arrays + (checked + recipients);
    }
  }

  /** For each required key, its "faltante" message is in the list exactly once
      when the key's value is `undefined` and not at all otherwise; `null`, `0`,
      `""` and `false` count as present. This holds for every body that can be
      read, including one whose run later throws (the messages are then in the
      log). */
  lemma MissingReportedOnce(body: Json, f: string)
    requires !Nullish(body) && f in RequiredFields
    ensures multiset(Emitted(body))[MissingMsg(f)] == if Get(body, f) == Undefined then 1 else 0
  {
    RequiredFieldsDistinct();
    PresenceCount(body, RequiredFields, f);
    var m := MissingMsg(f);
    KindsDisjoint(m);
    EmittedSplit(body);
    AfterPresenceKinds(body);
    assert m !in AfterPresence(body);
  }

  /** The "faltante" messages follow the order of the required keys. */
  lemma MissingInOrder(body: Json, i: nat, j: nat)
    requires !Nullish(body) && i < j < |RequiredFields|
    requires Get(body, RequiredFields[i]) == Undefined && Get(body, RequiredFields[j]) == Undefined
    ensures IndexOf(Emitted(body), MissingMsg(RequiredFields[i]))
            < IndexOf(Emitted(body), MissingMsg(RequiredFields[j]))
  {
    RequiredFieldsDistinct();
    var presence := PresenceErrors(body, RequiredFields);
    PresenceOrder(body, RequiredFields, i, j);
    EmittedSplit(body);
    IndexOfAppend(presence, AfterPresence(body), MissingMsg(RequiredFields[i]));
    IndexOfAppend(presence, AfterPresence(body), MissingMsg(RequiredFields[j]));
  }

  // ---------------------------------------------------------------------------
  // Array segment

  /** The "debe ser un array" message of an array field is in the list exactly
      when its value is not an array, whether or not the field is present. */
  lemma NotArrayReported(body: Json, f: string)
    requires !Nullish(body) && f in ArrayFields
    ensures NotArrayMsg(f) in Emitted(body) <==> !Get(body, f).Arr?
  {
    var m := NotArrayMsg(f);
    KindsDisjoint(m);
    assert m !in PresenceErrors(body, RequiredFields);
    assert NotArrayMsg(ArrayFields[0]) != NotArrayMsg(ArrayFields[1]);
    var resumen := Get(body, "resumen");
    if !Nullish(resumen) {
      assert m !in ResumenErrors(resumen, ResumenFields);
      var d := Get(body, "destinatarios");
      if d.Arr? {
        assert m !in RecipientErrors(d.elems[..FirstNullish(d.elems)]);
      }
    }
  }

  /** An absent array field is reported twice: missing, and not an array. */
  lemma AbsentArrayFieldReportedTwice(body: Json, f: string)
    requires !Nullish(body) && f in ArrayFields && Get(body, f) == Undefined
    ensures MissingMsg(f) in Emitted(body) && NotArrayMsg(f) in Emitted(body)
  {
    MissingReportedOnce(body, f);
    NotArrayReported(body, f);
  }

  // ---------------------------------------------------------------------------
  // Resumen segment

  lemma {:induction false} ResumenMembership(resumen: Json, fields: seq<string>, f: string)
    requires !Nullish(resumen)
    ensures ResumenMissingMsg(f) in ResumenErrors(resumen, fields)
            <==> f in fields && Get(resumen, f) == Undefined
    ensures NotNumberMsg(f) in ResumenErrors(resumen, fields)
            <==> f in fields && Get(resumen, f) != Undefined && !Get(resumen, f).Num?
  {
    if fields != [] {
      var n := |fields| - 1;
      var last := fields[n];
      ResumenMembership(resumen, fields[..n], f);
      ResumenMsgsInjective(f, last);
      ResumenMsgsInjective(last, f);
      assert fields == fields[..n] + [last];
      assert f in fields <==> f in fields[..n] || f == last;
    }
  }

  /** The check of one sub-field yields a message of `f` only when it is `f`'s. */
  lemma ResumenFieldCount(resumen: Json, field: string, f: string)
    requires !Nullish(resumen)
    ensures multiset(ResumenFieldErrors(resumen, field))[ResumenMissingMsg(f)]
            == if f == field && Get(resumen, f) == Undefined then 1 else 0
    ensures multiset(ResumenFieldErrors(resumen, field))[NotNumberMsg(f)]
            == if f == field && Get(resumen, f) != Undefined && !Get(resumen, f).Num? then 1 else 0
  {
    ResumenMsgsInjective(f, field);
    ResumenMsgsInjective(field, f);
  }

  /** Over distinct sub-field names, each of the two `resumen` messages of `f`
      occurs at most once: exactly once when its condition holds. */
  lemma {:induction false} ResumenCount(resumen: Json, fields: seq<string>, f: string)
    requires !Nullish(resumen) && Distinct(fields)
    ensures multiset(ResumenErrors(resumen, fields))[ResumenMissingMsg(f)]
            == if f in fields && Get(resumen, f) == Undefined then 1 else 0
    ensures multiset(ResumenErrors(resumen, fields))[NotNumberMsg(f)]
            == if f in fields && Get(resumen, f) != Undefined && !Get(resumen, f).Num? then 1 else 0
  {
    if fields != [] {
      var n := |fields| - 1;
      var last := fields[n];
      assert Distinct(fields[..n]);
      ResumenCount(resumen, fields[..n], f);
      ResumenFieldCount(resumen, last, f);
      assert ResumenErrors(resumen, fields) == ResumenErrors(resumen, fields[..n]) + ResumenFieldErrors(resumen, last);
      assert fields == fields[..n] + [last];
      assert f in fields <==> f in fields[..n] || f == last;
      assert f == last ==> f !in fields[..n];
    }
  }

  /** For each `resumen` sub-field of a body that does not throw: "requerido en
      'resumen'" is reported exactly when the value is `undefined`, "debe ser un
      número" exactly when it is present but not a number, so never both. */
  lemma ResumenFieldVerdict(body: Json, f: string)
    requires !Throws(body) && f in ResumenFields
    ensures ResumenMissingMsg(f) in Emitted(body)
            <==> Get(Get(body, "resumen"), f) == Undefined
    ensures NotNumberMsg(f) in Emitted(body)
            <==> Get(Get(body, "resumen"), f) != Undefined && !Get(Get(body, "resumen"), f).Num?
    ensures !(ResumenMissingMsg(f) in Emitted(body) && NotNumberMsg(f) in Emitted(body))
  {
    var resumen := Get(body, "resumen");
    ResumenMembership(resumen, ResumenFields, f);
    var d := Get(body, "destinatarios");
    KindsDisjoint(ResumenMissingMsg(f));
    KindsDisjoint(NotNumberMsg(f));
    assert ResumenMissingMsg(f) !in PresenceErrors(body, RequiredFields) + ArrayErrors(body);
    assert NotNumberMsg(f) !in PresenceErrors(body, RequiredFields) + ArrayErrors(body);
    if d.Arr? {
      assert ResumenMissingMsg(f) !in RecipientErrors(d.elems[..FirstNullish(d.elems)]);
      assert NotNumberMsg(f) !in RecipientErrors(d.elems[..FirstNullish(d.elems)]);
    }
  }

  /** Each `resumen` message of a body that does not throw is in the list once
      when its condition holds and not at all otherwise. */
  lemma ResumenReportedOnce(body: Json, f: string)
    requires !Throws(body) && f in ResumenFields
    ensures multiset(Emitted(body))[ResumenMissingMsg(f)]
            == if Get(Get(body, "resumen"), f) == Undefined then 1 else 0
    ensures multiset(Emitted(body))[NotNumberMsg(f)]
            == if Get(Get(body, "resumen"), f) != Undefined && !Get(Get(body, "resumen"), f).Num? then 1 else 0
  {
    var resumen := Get(body, "resumen");
    RequiredFieldsDistinct();
    ResumenCount(resumen, ResumenFields, f);
    var early := PresenceErrors(body, RequiredFields) + ArrayErrors(body);
    var d := Get(body, "destinatarios");
    var rest := if d.Arr? then RecipientErrors(d.elems[..FirstNullish(d.elems)]) else [];
    assert Emitted(body) == early + ResumenErrors(resumen, ResumenFields) + rest;
    OnlyInResumen(early, rest, ResumenMissingMsg(f));
    OnlyInResumen(early, rest, NotNumberMsg(f));
    CountInMiddle(early, ResumenErrors(resumen, ResumenFields), rest, ResumenMissingMsg(f));
    CountInMiddle(early, ResumenErrors(resumen, ResumenFields), rest, NotNumberMsg(f));
  }

  lemma OnlyInResumen(early: seq<string>, rest: seq<string>, m: string)
    requires forall x :: x in early ==> IsMissing(x) || IsNotArray(x)
    requires forall x :: x in rest ==> IsRecipient(x)
    requires IsResumen(m)
    ensures m !in early && m !in rest
  {
    KindsDisjoint(m);
  }

  lemma CountInMiddle(a: seq<string>, b: seq<string>, c: seq<string>, m: string)
    requires m !in a && m !in c
    ensures multiset(a + b + c)[m] == multiset(b)[m]
  {
    assert multiset(a + b + c) == multiset(a) + multiset(b) + multiset(c);
  }

  // ---------------------------------------------------------------------------
  // Recipient segment

  lemma ElementMembership(recipient: Json, index: nat, i: nat, f: string)
    requires !Nullish(recipient) && f in RecipientFields
    ensures RecipientMsg(i, f) in ElementErrors(recipient, index)
            <==> i == index && !Truthy(Get(recipient, f))
  {
    forall g | g in RecipientFields && RecipientMsg(i, f) == RecipientMsg(index, g)
      ensures i == index && f == g
    {
      RecipientMsgInjective(i, f, index, g);
    }
  }

  lemma {:induction false} RecipientMembership(recipients: seq<Json>, i: nat, f: string)
    requires forall k :: 0 <= k < |recipients| ==> !Nullish(recipients[k])
    requires f in RecipientFields
    ensures RecipientMsg(i, f) in RecipientErrors(recipients)
            <==> i < |recipients| && !Truthy(Get(recipients[i], f))
  {
    if recipients != [] {
      var n := |recipients| - 1;
      RecipientMembership(recipients[..n], i, f);
      ElementMembership(recipients[n], n, i, f);
      if i < n {
        assert recipients[..n][i] == recipients[i];
      }
    }
  }

  /** One recipient yields the message for `f` at most once: exactly once when
      `f` is not truthy. */
  lemma ElementCount(recipient: Json, index: nat, i: nat, f: string)
    requires !Nullish(recipient) && f in RecipientFields
    ensures multiset(ElementErrors(recipient, index))[RecipientMsg(i, f)]
            == if i == index && !Truthy(Get(recipient, f)) then 1 else 0
  {
    RecipientMsgInjective(i, f, index, "nombre");
    RecipientMsgInjective(i, f, index, "correo");
    RecipientMsgInjective(i, f, index, "cargo");
  }

  /** In the recipient segment, the message naming field `f` of recipient `i`
      occurs exactly once when that field is not truthy, and never otherwise. */
  lemma {:induction false} RecipientMsgCount(recipients: seq<Json>, i: nat, f: string)
    requires forall k :: 0 <= k < |recipients| ==> !Nullish(recipients[k])
    requires f in RecipientFields
    ensures multiset(RecipientErrors(recipients))[RecipientMsg(i, f)]
            == if i < |recipients| && !Truthy(Get(recipients[i], f)) then 1 else 0
  {
    if recipients != [] {
      var n := |recipients| - 1;
      RecipientMsgCount(recipients[..n], i, f);
      ElementCount(recipients[n], n, i, f);
      assert RecipientErrors(recipients) == RecipientErrors(recipients[..n]) + ElementErrors(recipients[n], n);
      if i < n {
        assert recipients[..n][i] == recipients[i];
      }
    }
  }

  /** Messages of a lower index come before those of a higher index. */
  lemma {:induction false} RecipientOrder(recipients: seq<Json>, i: nat, f: string, j: nat, g: string)
    requires forall k :: 0 <= k < |recipients| ==> !Nullish(recipients[k])
    requires f in RecipientFields && g in RecipientFields
    requires i < j < |recipients|
    requires !Truthy(Get(recipients[i], f)) && !Truthy(Get(recipients[j], g))
    ensures IndexOf(RecipientErrors(recipients), RecipientMsg(i, f))
            < IndexOf(RecipientErrors(recipients), RecipientMsg(j, g))
            < |RecipientErrors(recipients)|
  {
    var n := |recipients| - 1;
    var init := recipients[..n];
    var before := RecipientErrors(init);
    var last := ElementErrors(recipients[n], n);
    var mi, mj := RecipientMsg(i, f), RecipientMsg(j, g);
    assert RecipientErrors(recipients) == before + last;
    assert init[i] == recipients[i];
    if j < n {
      assert init[j] == recipients[j];
      RecipientOrder(init, i, f, j, g);
      OrderKeptByAppend(before, last, mi, mj);
    } else {
      RecipientMembership(init, i, f);
      RecipientMembership(init, j, g);
      ElementMembership(recipients[n], n, j, g);
      OrderAcrossAppend(before, last, mi, mj);
    }
  }

  /** The position of a recipient field in the order the checks visit them;
      only meaningful for the members of `RecipientFields` (anything else is
      ranked with `cargo`), and only ever used under `f in RecipientFields`. */
  function Rank(f: string): nat {
    if f == "nombre" then 0 else if f == "correo" then 1 else 2
  }

  /** Within one recipient, the messages follow `nombre`, `correo`, `cargo`. */
  lemma ElementOrder(recipient: Json, index: nat, f: string, g: string)
    requires !Nullish(recipient) && f in RecipientFields && g in RecipientFields && Rank(f) < Rank(g)
    requires !Truthy(Get(recipient, f)) && !Truthy(Get(recipient, g))
    ensures IndexOf(ElementErrors(recipient, index), RecipientMsg(index, f))
            < IndexOf(ElementErrors(recipient, index), RecipientMsg(index, g))
            < |ElementErrors(recipient, index)|
  {
    var nombre := RecipientFieldErrors(recipient, index, "nombre");
    var correo := RecipientFieldErrors(recipient, index, "correo");
    var cargo := RecipientFieldErrors(recipient, index, "cargo");
    var mf, mg := RecipientMsg(index, f), RecipientMsg(index, g);
    RecipientMsgInjective(index, "nombre", index, "correo");
    RecipientMsgInjective(index, "nombre", index, "cargo");
    RecipientMsgInjective(index, "correo", index, "cargo");
    IndexOfAppend(nombre, correo, mf);
    IndexOfAppend(nombre, correo, mg);
    IndexOfAppend(nombre + correo, cargo, mf);
    IndexOfAppend(nombre + correo, cargo, mg);
  }

  /** Within the whole recipient segment too, one recipient's messages follow
      `nombre`, `correo`, `cargo`. */
  lemma {:induction false} ElementOrderInList(recipients: seq<Json>, i: nat, f: string, g: string)
    requires forall k :: 0 <= k < |recipients| ==> !Nullish(recipients[k])
    requires i < |recipients| && f in RecipientFields && g in RecipientFields && Rank(f) < Rank(g)
    requires !Truthy(Get(recipients[i], f)) && !Truthy(Get(recipients[i], g))
    ensures IndexOf(RecipientErrors(recipients), RecipientMsg(i, f))
            < IndexOf(RecipientErrors(recipients), RecipientMsg(i, g))
            < |RecipientErrors(recipients)|
  {
    var n := |recipients| - 1;
    var init := recipients[..n];
    assert RecipientErrors(recipients) == RecipientErrors(init) + ElementErrors(recipients[n], n);
    if i < n {
      assert init[i] == recipients[i];
      ElementOrderInList(init, i, f, g);
      OrderKeptByAppend(RecipientErrors(init), ElementErrors(recipients[n], n), RecipientMsg(i, f), RecipientMsg(i, g));
    } else {
      assert i == n;
      var before := RecipientErrors(init);
      var mf, mg := RecipientMsg(n, f), RecipientMsg(n, g);
      RecipientMembership(init, n, f);
      RecipientMembership(init, n, g);
      assert mf !in before && mg !in before;
      ElementOrder(recipients[n], n, f, g);
      OrderKeptByPrepend(before, ElementErrors(recipients[n], n), mf, mg);
    }
  }

  /** When `destinatarios` is an array and the body does not throw, the
      message naming field `f` of recipient `i` is in the list exactly when
      that recipient's `f` is not truthy. */
  lemma RecipientVerdict(body: Json, i: nat, f: string)
    requires !Throws(body) && Get(body, "destinatarios").Arr?
    requires f in RecipientFields
    ensures RecipientMsg(i, f) in Emitted(body)
            <==> i < |Get(body, "destinatarios").elems|
                 && !Truthy(Get(Get(body, "destinatarios").elems[i], f))
    ensures multiset(Emitted(body))[RecipientMsg(i, f)]
            == if i < |Get(body, "destinatarios").elems|
                  && !Truthy(Get(Get(body, "destinatarios").elems[i], f)) then 1 else 0
  {
    var recipients := Get(body, "destinatarios").elems;
    assert recipients[..FirstNullish(recipients)] == recipients;
    RecipientMembership(recipients, i, f);
    RecipientMsgCount(recipients, i, f);
    var m := RecipientMsg(i, f);
    KindsDisjoint(m);
    var early := PresenceErrors(body, RequiredFields) + ArrayErrors(body)
                 + ResumenErrors(Get(body, "resumen"), ResumenFields);
    assert m !in PresenceErrors(body, RequiredFields) + ArrayErrors(body);
    assert m !in ResumenErrors(Get(body, "resumen"), ResumenFields);
    assert m !in early;
    assert Emitted(body) == early + RecipientErrors(recipients);
  }

  /** In the whole list of a body that does not throw, what precedes the
      recipient messages holds none of them. */
  lemma RecipientSegmentLast(body: Json)
    requires !Throws(body) && Get(body, "destinatarios").Arr?
    ensures Emitted(body) == EarlyErrors(body) + RecipientErrors(Get(body, "destinatarios").elems)
    ensures forall x :: x in EarlyErrors(body) ==> !IsRecipient(x)
  {
    var recipients := Get(body, "destinatarios").elems;
    assert recipients[..FirstNullish(recipients)] == recipients;
    forall x | x in EarlyErrors(body) ensures !IsRecipient(x) {
      KindsDisjoint(x);
    }
  }

  /** The presence, array and `resumen` messages of a body whose `resumen` can be read. */
  function EarlyErrors(body: Json): seq<string>
    requires !Nullish(body) && !Nullish(Get(body, "resumen"))
  {
    PresenceErrors(body, RequiredFields) + ArrayErrors(body) + ResumenErrors(Get(body, "resumen"), ResumenFields)
  }

  /** In the whole list, a lower-indexed recipient's messages come first. */
  lemma RecipientsInOrder(body: Json, i: nat, f: string, j: nat, g: string)
    requires !Throws(body) && Get(body, "destinatarios").Arr?
    requires f in RecipientFields && g in RecipientFields
    requires i < j < |Get(body, "destinatarios").elems|
    requires !Truthy(Get(Get(body, "destinatarios").elems[i], f))
    requires !Truthy(Get(Get(body, "destinatarios").elems[j], g))
    ensures IndexOf(Emitted(body), RecipientMsg(i, f)) < IndexOf(Emitted(body), RecipientMsg(j, g)) < |Emitted(body)|
  {
    var recipients := Get(body, "destinatarios").elems;
    RecipientSegmentLast(body);
    RecipientOrder(recipients, i, f, j, g);
    assert !(RecipientMsg(i, f) in EarlyErrors(body)) && !(RecipientMsg(j, g) in EarlyErrors(body));
    OrderKeptByPrepend(EarlyErrors(body), RecipientErrors(recipients), RecipientMsg(i, f), RecipientMsg(j, g));
  }

  /** In the whole list, one recipient's messages follow `nombre`, `correo`, `cargo`. */
  lemma RecipientFieldsInOrder(body: Json, i: nat, f: string, g: string)
    requires !Throws(body) && Get(body, "destinatarios").Arr?
    requires i < |Get(body, "destinatarios").elems|
    requires f in RecipientFields && g in RecipientFields && Rank(f) < Rank(g)
    requires !Truthy(Get(Get(body, "destinatarios").elems[i], f))
    requires !Truthy(Get(Get(body, "destinatarios").elems[i], g))
    ensures IndexOf(Emitted(body), RecipientMsg(i, f)) < IndexOf(Emitted(body), RecipientMsg(i, g)) < |Emitted(body)|
  {
    var recipients := Get(body, "destinatarios").elems;
    RecipientSegmentLast(body);
    ElementOrderInList(recipients, i, f, g);
    assert !(RecipientMsg(i, f) in EarlyErrors(body)) && !(RecipientMsg(i, g) in EarlyErrors(body));
    OrderKeptByPrepend(EarlyErrors(body), RecipientErrors(recipients), RecipientMsg(i, f), RecipientMsg(i, g));
  }

  /** When `destinatarios` is not an array, no recipient message is produced. */
  lemma NoRecipientCheckWithoutArray(body: Json)
    requires !Nullish(body) && !Get(body, "destinatarios").Arr?
    ensures forall x :: x in Emitted(body) ==> !IsRecipient(x)
  {
    forall x | x in Emitted(body) ensures !IsRecipient(x) {
      KindsDisjoint(x);
    }
  }

  // ---------------------------------------------------------------------------
  // Outcome

  /** With a JSON content type, the run throws exactly when `Throws` says so, and
      then nothing but the messages found up to the throw is logged. Otherwise
      the answer is 422 carrying exactly the accumulated list when it is not
      empty, logged message by message and then as a batch; and `next()` with
      nothing logged when it is empty. */
  lemma OutcomeFollowsErrors(body: Json)
    ensures Throws(body) ==> Validate(Request(true, body)) == Reply(Fault, Emitted(body))
    ensures !Throws(body) && Emitted(body) != [] ==>
      Validate(Request(true, body)) == Reply(Unprocessable(Emitted(body)), Emitted(body) + [BatchLog])
    ensures !Throws(body) && Emitted(body) == [] ==> Validate(Request(true, body)) == Reply(Next, [])
  {
  }

  lemma {:induction false} PresenceEmpty(data: Json, fields: seq<string>)
    requires !Nullish(data)
    ensures PresenceErrors(data, fields) == [] <==> forall f :: f in fields ==> Get(data, f) != Undefined
  {
    if fields != [] {
      var n := |fields| - 1;
      var init, last := fields[..n], fields[n];
      PresenceEmpty(data, init);
      assert forall f :: f in fields <==> f in init || f == last by {
        assert fields == init + [last];
      }
    }
  }

  lemma {:induction false} ResumenEmpty(resumen: Json, fields: seq<string>)
    requires !Nullish(resumen)
    ensures ResumenErrors(resumen, fields) == [] <==> forall f :: f in fields ==> Get(resumen, f).Num?
  {
    if fields != [] {
      var n := |fields| - 1;
      var init, last := fields[..n], fields[n];
      ResumenEmpty(resumen, init);
      assert ResumenErrors(resumen, fields) == ResumenErrors(resumen, init) + ResumenFieldErrors(resumen, last);
      assert ResumenFieldErrors(resumen, last) == [] <==> Get(resumen, last).Num?;
      assert forall f :: f in fields <==> f in init || f == last by {
        assert fields == init + [last];
      }
    }
  }

  /** A recipient carries a truthy `nombre`, `correo` and `cargo`. */
  predicate CompleteRecipient(recipient: Json)
    requires !Nullish(recipient)
  {
    Truthy(Get(recipient, "nombre")) && Truthy(Get(recipient, "correo")) && Truthy(Get(recipient, "cargo"))
  }

  lemma {:induction false} RecipientEmpty(recipients: seq<Json>)
    requires forall k :: 0 <= k < |recipients| ==> !Nullish(recipients[k])
    ensures RecipientErrors(recipients) == [] <==> forall k :: 0 <= k < |recipients| ==> CompleteRecipient(recipients[k])
  {
    if recipients != [] {
      var n := |recipients| - 1;
      RecipientEmpty(recipients[..n]);
      assert forall k :: 0 <= k < n ==> recipients[..n][k] == recipients[k];
    }
  }

  /** The checklist document the gate lets through: every required key defined,
      both array fields arrays, `resumen` an object-like value whose nine
      sub-fields are numbers, and every recipient complete. */
  predicate Accepted(body: Json) {
    && !Nullish(body)
    && (forall f :: f in RequiredFields ==> Get(body, f) != Undefined)
    && Get(body, "maquinas_sin_registrar").Arr?
    && Get(body, "destinatarios").Arr?
    && !Nullish(Get(body, "resumen"))
    && (forall f :: f in ResumenFields ==> Get(Get(body, "resumen"), f).Num?)
    && (forall k :: 0 <= k < |Get(body, "destinatarios").elems| ==>
          !Nullish(Get(body, "destinatarios").elems[k])
          && CompleteRecipient(Get(body, "destinatarios").elems[k]))
  }

  /** For a body that does not throw and whose `destinatarios` is an array,
      no message at all means an accepted checklist. */
  lemma CleanIff(body: Json)
    requires !Throws(body) && Get(body, "destinatarios").Arr?
    ensures Emitted(body) == [] <==> Accepted(body)
  {
    var resumen := Get(body, "resumen");
    var elems := Get(body, "destinatarios").elems;
    PresenceEmpty(body, RequiredFields);
    ResumenEmpty(resumen, ResumenFields);
    assert elems[..FirstNullish(elems)] == elems;
    RecipientEmpty(elems);
    assert ArrayErrors(body) == [] <==> Get(body, "maquinas_sin_registrar").Arr?;
    assert Emitted(body) == PresenceErrors(body, RequiredFields) + ArrayErrors(body)
                            + ResumenErrors(resumen, ResumenFields) + RecipientErrors(elems);
  }

  /** A JSON request reaches the next stage exactly when its body is an
      accepted checklist; every other JSON request is answered 422 or throws. */
  lemma PassesIff(body: Json)
    ensures Validate(Request(true, body)).outcome == Next <==> Accepted(body)
  {
    if !Throws(body) {
      if Get(body, "destinatarios").Arr? {
        CleanIff(body);
      } else {
        assert NotArrayMsg(ArrayFields[1]) in ArrayErrors(body);
        assert Emitted(body) != [];
      }
    } else if !Nullish(body) && !Nullish(Get(body, "resumen")) {
      // The run throws at the first unreadable recipient, which `Accepted` excludes.
      var elems := Get(body, "destinatarios").elems;
      assert Nullish(elems[FirstNullish(elems)]);
    }
  }

  /** A `resumen` that is `undefined` or `null` makes the run throw after the
      presence and array checks, whose messages are all that is logged. */
  lemma NullishResumenFaults(body: Json)
    requires !Nullish(body) && Nullish(Get(body, "resumen"))
    ensures Validate(Request(true, body))
            == Reply(Fault, PresenceErrors(body, RequiredFields) + ArrayErrors(body))
  {
  }

  /** A recipient that is `undefined` or `null` makes the run throw after the
      messages of the recipients before it. */
  lemma NullishRecipientFaults(body: Json, k: nat)
    requires !Nullish(body) && !Nullish(Get(body, "resumen"))
    requires Get(body, "destinatarios").Arr?
    requires k < |Get(body, "destinatarios").elems|
    requires Nullish(Get(body, "destinatarios").elems[k])
    requires forall j :: 0 <= j < k ==> !Nullish(Get(body, "destinatarios").elems[j])
    ensures Validate(Request(true, body)).outcome == Fault
    ensures Validate(Request(true, body)).log
            == PresenceErrors(body, RequiredFields) + ArrayErrors(body)
               + ResumenErrors(Get(body, "resumen"), ResumenFields)
               + RecipientErrors(Get(body, "destinatarios").elems[..k])
  {
    var recipients := Get(body, "destinatarios").elems;
    assert FirstNullish(recipients) == k;
  }

  /** A run that reaches the end yields at most 7 + 2 + 9 + 3·|destinatarios|
      messages. */
  lemma ErrorBound(req: Request)
    requires req.isJson && !Throws(req.body)
    ensures Validate(req).outcome.Unprocessable? ==>
      |Validate(req).outcome.errors|
      <= 7 + 2 + 9 + 3 * RecipientCount(req.body)
  {
  }

  // ---------------------------------------------------------------------------
  // handleJSONErrors

  /** The two 400 answers differ, and a `status` of `"400"` (a string) or a
      missing `body` property is not a body parse failure. */
  lemma MalformedBodyCases()
    ensures MalformedJsonError != ContentTypeError
    ensures HandleJsonErrors(ParserError(true, Num(400), true)).outcome == BadRequest(MalformedJsonError)
    ensures HandleJsonErrors(ParserError(true, Str("400"), true)).outcome == Next
    ensures HandleJsonErrors(ParserError(true, Num(400), false)).outcome == Next
    ensures HandleJsonErrors(ParserError(false, Num(400), true)).outcome == Next
  {
  }
}
