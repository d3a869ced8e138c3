/** `sanitizeInput`: every top-level string field of the request body is
    replaced by its trimmed text with all of `<`, `>`, `"` and `'` deleted. */
module Sanitizer {
  import opened Js

  /** The characters `String.prototype.trim` removes: ECMAScript WhiteSpace
      (tab, vertical tab, form feed, space, no-break space, byte order mark
      and the Unicode space separators) and LineTerminator (line feed,
      carriage return, line and paragraph separators). */
  predicate IsWhitespace(c: char) {
    var n := c as int;
    n == 0x09 || n == 0x0A || n == 0x0B || n == 0x0C || n == 0x0D || n == 0x20
    || n == 0xA0 || n == 0x1680 || (0x2000 <= n <= 0x200A)
    || n == 0x2028 || n == 0x2029 || n == 0x202F || n == 0x205F
    || n == 0x3000 || n == 0xFEFF
  }

  /** The characters of the pattern `/[<>"']/g`. */
  predicate IsMarkup(c: char) {
    c == '<' || c == '>' || c == '"' || c == '\''
  }

  /** Leading whitespace removed: the result is a suffix of `s`, everything
      cut off is whitespace, and the result does not start with whitespace. */
  function TrimStart(s: string): (r: string)
    ensures |r| <= |s| && r == s[|s| - |r|..]
    ensures forall k :: 0 <= k < |s| - |r| ==> IsWhitespace(s[k])
    ensures r == "" || !IsWhitespace(r[0])
  {
    if |s| > 0 && IsWhitespace(s[0]) then TrimStart(s[1..]) else s
  }

  /** Trailing whitespace removed: the result is a prefix of `s`, everything
      cut off is whitespace, and the result does not end with whitespace. */
  function TrimEnd(s: string): (r: string)
    ensures |r| <= |s| && r == s[..|r|]
    ensures forall k :: |r| <= k < |s| ==> IsWhitespace(s[k])
    ensures r == "" || !IsWhitespace(r[|r| - 1])
  {
    if |s| > 0 && IsWhitespace(s[|s| - 1]) then TrimEnd(s[..|s| - 1]) else s
  }

  /** `String.prototype.trim`: the result is no longer than the input and has
      no whitespace at either end (see `TrimIsInfix` for where it lies in the
      input). */
  function Trim(s: string): (r: string)
    ensures |r| <= |s|
    ensures r == "" || (!IsWhitespace(r[0]) && !IsWhitespace(r[|r| - 1]))
  {
    TrimEnd(TrimStart(s))
  }

  /** `s.replace(/[<>"']/g, '')`: the result is no longer than the input and
      holds no markup character (see `StripMarkupMembers`,
      `StripMarkupCounts` and `StripMarkupConcat` for what is kept). */
  function StripMarkup(s: string): (r: string)
    ensures |r| <= |s|
    ensures forall k :: 0 <= k < |r| ==> !IsMarkup(r[k])
  {
    if s == "" then ""
    else (if IsMarkup(s[0]) then "" else [s[0]]) + StripMarkup(s[1..])
  }

  /** The sanitized form of one string field: no longer than the input and
      free of markup characters. */
  function SanitizeString(s: string): (r: string)
    ensures |r| <= |s|
    ensures forall k :: 0 <= k < |r| ==> !IsMarkup(r[k])
  {
    StripMarkup(Trim(s))
  }

  /** The sanitized form of one body value: only strings change. */
  function SanitizeValue(v: JsValue): JsValue {
    if v.Str? then Str(SanitizeString(v.s)) else v
  }

  /** The body after `sanitizeInput`: the same keys, the same non-string
      values, and every string value replaced by a string that is no longer
      and carries no markup character. */
  function SanitizedBody(body: map<string, JsValue>): (r: map<string, JsValue>)
    ensures r.Keys == body.Keys
    ensures forall k :: k in body && !body[k].Str? ==> r[k] == body[k]
    ensures forall k :: k in body && body[k].Str? ==>
      r[k].Str? && |r[k].s| <= |body[k].s| && forall n :: 0 <= n < |r[k].s| ==> !IsMarkup(r[k].s[n])
    {
    map k | k in body :: SanitizeValue(body[k])
  }

  /** How much leading whitespace `trim` cuts. */
  function TrimOffset(s: string): nat {
    |s| - |TrimStart(s)|
  }

  /** Trimming keeps a contiguous piece of the text, starting at
      `TrimOffset(s)`, and cuts only whitespace from either end. */
  lemma TrimIsInfix(s: string)
    ensures TrimOffset(s) + |Trim(s)| <= |s|
    ensures Trim(s) == s[TrimOffset(s)..TrimOffset(s) + |Trim(s)|]
    ensures forall k :: 0 <= k < TrimOffset(s) ==> IsWhitespace(s[k])
    ensures forall k :: TrimOffset(s) + |Trim(s)| <= k < |s| ==> IsWhitespace(s[k])
  {
    var t := TrimStart(s);
    var r := TrimEnd(t);
    var i := |s| - |t|;
    assert t == s[i..];
    assert r == t[..|r|];
    assert r == s[i..i + |r|];
    forall k | i + |r| <= k < |s| ensures IsWhitespace(s[k]) {
      assert s[k] == t[k - i];
    }
  }

  /** Trimming twice is trimming once. */
  lemma TrimIdempotent(s: string)
    ensures Trim(Trim(s)) == Trim(s)
  {
    TrimIsInfix(s);
    var r := Trim(s);
    assert TrimStart(r) == r;
    assert TrimEnd(r) == r;
  }

  /** Text without markup characters is left alone by the markup filter. */
  lemma {:induction false} StripMarkupKeepsClean(s: string)
    requires forall k :: 0 <= k < |s| ==> !IsMarkup(s[k])
    ensures StripMarkup(s) == s
  {
    if s != "" {
      StripMarkupKeepsClean(s[1..]);
    }
  }

  /** The markup filter works character by character, so it distributes
      over concatenation: the kept characters stay in their order. */
  lemma {:induction false} StripMarkupConcat(a: string, b: string)
    ensures StripMarkup(a + b) == StripMarkup(a) + StripMarkup(b)
  {
    if a != "" {
      assert (a + b)[1..] == a[1..] + b;
      StripMarkupConcat(a[1..], b);
    } else {
      assert a + b == b;
    }
  }

  /** Every non-markup character is kept as often as it occurs, and every
      markup character is dropped. */
  lemma {:induction false} StripMarkupCounts(s: string, c: char)
    ensures multiset(StripMarkup(s))[c] == if IsMarkup(c) then 0 else multiset(s)[c]
  {
    if s != "" {
      StripMarkupCounts(s[1..], c);
      assert s == [s[0]] + s[1..];
    }
  }

  /** A character occurs in the filtered text exactly when it occurs in the
      input and is not a markup character. */
  lemma StripMarkupMembers(s: string, c: char)
    ensures c in StripMarkup(s) <==> c in s && !IsMarkup(c)
  {
    StripMarkupCounts(s, c);
    assert c in StripMarkup(s) <==> multiset(StripMarkup(s))[c] > 0;
    assert c in s <==> multiset(s)[c] > 0;
  }

  /** Every character of a sanitized string comes from the input. */
  lemma SanitizeStringFromInput(s: string)
    ensures forall c :: c in SanitizeString(s) ==> c in s
  {
    TrimIsInfix(s);
    var r := SanitizeString(s);
    var t := Trim(s);
    forall c | c in r ensures c in s {
      StripMarkupCounts(t, c);
      assert multiset(r)[c] > 0;
      assert multiset(t)[c] > 0;
      var k :| 0 <= k < |t| && t[k] == c;
      assert s[TrimOffset(s) + k] == c;
    }
  }

  /** Sanitizing is not idempotent: markup deleted after trimming can expose
      whitespace that a second pass removes. */
  lemma SanitizeNotIdempotent()
    ensures SanitizeString("a <") == "a "
    ensures SanitizeString(SanitizeString("a <")) == "a"
  {
    var input: string := "a <";
    assert !IsWhitespace(input[0]) && !IsWhitespace(input[2]);
    assert Trim(input) == input;
    assert input[1..] == " <" && input[1..][1..] == "<";
    assert StripMarkup("<") == "" by { assert "<"[1..] == ""; }
    assert StripMarkup(" <") == " ";
    assert StripMarkup(input) == "a ";
    var once: string := "a ";
    assert !IsWhitespace(once[0]) && IsWhitespace(once[1]);
    assert TrimStart(once) == once;
    assert once[..1] == "a";
    assert TrimEnd(once) == "a";
    assert StripMarkup("a") == "a" by { assert "a"[1..] == ""; }
  }

  /** What a second pass does: it only trims; the markup is already gone. */
  lemma SecondPassOnlyTrims(s: string)
    ensures SanitizeString(SanitizeString(s)) == Trim(SanitizeString(s))
  {
    var once := SanitizeString(s);
    TrimIsInfix(once);
    var t := Trim(once);
    forall k | 0 <= k < |t| ensures !IsMarkup(t[k]) {
      assert t[k] == once[TrimOffset(once) + k];
    }
    StripMarkupKeepsClean(t);
  }

  /** Sanitizing reaches a fixed point after two passes. */
  lemma SanitizeStabilizes(s: string)
    ensures var twice := SanitizeString(SanitizeString(s));
      SanitizeString(twice) == twice
  {
    var once := SanitizeString(s);
    SecondPassOnlyTrims(s);
    SecondPassOnlyTrims(once);
    TrimIdempotent(once);
  }

  /** The decoded request body, which `sanitizeInput` rewrites in place. */
  class RequestBody {
    var fields: map<string, JsValue>

    constructor (fields: map<string, JsValue>)
      ensures this.fields == fields
    {
      this.fields := fields;
    }

    /** The `for...in` loop: each key's string value is overwritten by its
        sanitized form, one key at a time. */
    method SanitizeInput()
      modifies this
      ensures fields == SanitizedBody(old(fields))
    {
      ghost var original := fields;
      var pending := fields.Keys;
      while pending != {}
        invariant pending <= original.Keys
        invariant fields.Keys == original.Keys
        invariant forall k :: k in fields ==>
          fields[k] == if k in pending then original[k] else SanitizeValue(original[k])
        decreases pending
      {
        var key :| key in pending;
        var value := fields[key];
        if value.Str? {
          fields := fields[key := Str(SanitizeString(value.s))];
        }
        pending := pending - {key};
      }
      assert fields == SanitizedBody(original);
    }
  }
}
