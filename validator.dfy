/** `validateRequiredFields(requiredFields)`: a request whose body lacks any
    of the listed fields is refused with 400 and the ordered list of the
    missing ones. */
module Validator {
  import opened Js

  const MsgMissingFields: string := "Campos obrigatórios não fornecidos"

  /** A field counts as missing when the body has no own property of that
      name, or its value is `''`, `null` or `undefined`. */
  predicate IsMissing(body: map<string, JsValue>, field: string) {
    field !in body || body[field] == Str("") || body[field] == Null || body[field] == Undefined
  }

  /** The required fields that are missing, in the order they are listed
      (repetitions included): never more than are required, and each one
      missing. */
  function MissingOf(required: seq<string>, body: map<string, JsValue>): (r: seq<string>)
    ensures |r| <= |required|
    ensures forall i :: 0 <= i < |r| ==> IsMissing(body, r[i])
  {
    if required == [] then []
    else
      var last := required[|required| - 1];
      MissingOf(required[..|required| - 1], body) + (if IsMissing(body, last) then [last] else [])
  }

  /** The list holds exactly the missing required fields. */
  lemma {:induction false} MissingOfMembers(required: seq<string>, body: map<string, JsValue>)
    ensures forall f :: f in MissingOf(required, body) <==> f in required && IsMissing(body, f)
  {
    if required != [] {
      var init := required[..|required| - 1];
      MissingOfMembers(init, body);
      assert required == init + [required[|required| - 1]];
    }
  }

  /** Filtering keeps the order of the list: it distributes over
      concatenation. */
  lemma {:induction false} MissingOfConcat(a: seq<string>, b: seq<string>, body: map<string, JsValue>)
    ensures MissingOf(a + b, body) == MissingOf(a, body) + MissingOf(b, body)
  {
    if b != [] {
      var init := b[..|b| - 1];
      assert (a + b)[..|a + b| - 1] == a + init;
      MissingOfConcat(a, init, body);
    } else {
      assert a + b == a;
    }
  }

  /** Nothing is reported exactly when every required field is present. */
  lemma NoneMissingIff(required: seq<string>, body: map<string, JsValue>)
    ensures MissingOf(required, body) == [] <==> forall i :: 0 <= i < |required| ==> !IsMissing(body, required[i])
  {
    MissingOfMembers(required, body);
    if MissingOf(required, body) != [] {
      assert MissingOf(required, body)[0] in MissingOf(required, body);
    }
  }

  /** The middleware: collect the missing fields in a loop, then refuse with
      400 if there are any and proceed otherwise. */
  method ValidateRequiredFields(body: map<string, JsValue>, required: seq<string> := []) returns (outcome: Outcome)
    ensures MissingOf(required, body) != [] ==>
      outcome == Respond(400, MsgMissingFields, MissingFields(MissingOf(required, body)))
    ensures MissingOf(required, body) == [] ==> outcome == Next
  {
    var missing: seq<string> := [];
    for i := 0 to |required|
      invariant missing == MissingOf(required[..i], body)
    {
      var f := required[i];
      if IsMissing(body, f) {
        missing := missing + [f];
      }
      assert required[..i + 1][..i] == required[..i];
    }
    assert required[..|required|] == required;
    if |missing| > 0 {
      return Respond(400, MsgMissingFields, MissingFields(missing));
    }
    return Next;
  }
}
