/** Values shared by every part of the model: optional values, request fields,
    the HTTP failures the controllers answer with, and ASCII string helpers. */
module Common {

  datatype Option<+T> = None | Some(value: T)

  /** A field of a JSON request body as the validated array sees it: the key is
      missing, the key is present with null, or a value was given. */
  datatype Field<+T> = Absent | Null | Given(value: T) {

    /** `$validated['key'] ?? null`: missing and null both read as null. */
    function OrNull(): (r: Option<T>)
      ensures r.Some? <==> Given?
      ensures r.Some? ==> r.value == value
    {
      if Given? then Some(value) else None
    }

    /** A nullable field passes its rule when it is missing, null, or a given
        value that satisfies the rule. */
    predicate NullableAnd(rule: T -> bool) {
      !Given? || rule(value)
    }
  }

  /** The error responses of the controllers. */
  datatype Failure =
    | ValidationFailed               // 422, raised by $request->validate
    | NotFound(message: string)      // 404 answered by the controller
    | ModelNotFound                  // 404 raised by findOrFail
    | BadRequest(message: string)    // 400
    | Forbidden(message: string)     // 403
    | ServerError                    // 500, an uncaught PHP error
  {
    function HttpStatus(): int {
      match this
      case ValidationFailed => 422
      case NotFound(_) => 404
      case ModelNotFound => 404
      case BadRequest(_) => 400
      case Forbidden(_) => 403
      case ServerError => 500
    }
  }

  datatype Result<+T> = Ok(value: T) | Err(failure: Failure)

  /** Laravel's `max:n` on a string. */
  predicate MaxLength(s: string, n: nat) {
    |s| <= n
  }

  /** Laravel's `required` on a string: present and not empty. */
  predicate RequiredString(f: Field<string>) {
    f.Given? && f.value != ""
  }

  function LowerChar(c: char): char {
    if 'A' <= c <= 'Z' then (c as int + 32) as char else c
  }

  function UpperChar(c: char): char {
    if 'a' <= c <= 'z' then (c as int - 32) as char else c
  }

  /** `strtolower` / `toLowerCase`, restricted to ASCII letters. */
  function Lower(s: string): string {
    seq(|s|, i requires 0 <= i < |s| => LowerChar(s[i]))
  }

  /** `strtoupper`, restricted to ASCII letters. */
  function Upper(s: string): string {
    seq(|s|, i requires 0 <= i < |s| => UpperChar(s[i]))
  }

  predicate IsAlphaNumeric(c: char) {
    'a' <= c <= 'z' || 'A' <= c <= 'Z' || '0' <= c <= '9'
  }

  predicate NoLowerCase(s: string) {
    forall i :: 0 <= i < |s| ==> !('a' <= s[i] <= 'z')
  }

  /** Upper-casing leaves no lower-case ASCII letter behind and keeps the length. */
  lemma UpperHasNoLowerCase(s: string)
    ensures |Upper(s)| == |s|
    ensures NoLowerCase(Upper(s))
  {
  }

  /** `t` occurs in `s` as a contiguous substring (`str.includes(t)`). */
  predicate Contains(s: string, t: string)
    decreases |s|
  {
    t <= s || (s != [] && Contains(s[1..], t))
  }

  /** Every string contains the empty string. */
  lemma ContainsEmpty(s: string)
    ensures Contains(s, "")
  {
  }

  /** `t` sits in `s` starting at offset `i`. */
  predicate OccursAt(s: string, t: string, i: int) {
    0 <= i && i + |t| <= |s| && s[i..i + |t|] == t
  }

  /** `Contains` agrees with the slicing definition of a substring. */
  lemma {:induction false} ContainsAt(s: string, t: string)
    ensures Contains(s, t) <==> exists i :: OccursAt(s, t, i)
    decreases |s|
  {
    if t <= s {
      assert OccursAt(s, t, 0);
    } else if s == [] {
    } else {
      ContainsAt(s[1..], t);
      if Contains(s[1..], t) {
        var i :| OccursAt(s[1..], t, i);
        assert s[i + 1..i + 1 + |t|] == s[1..][i..i + |t|];
        assert OccursAt(s, t, i + 1);
      }
      if exists i :: OccursAt(s, t, i) {
        var i :| OccursAt(s, t, i);
        if i == 0 {
          assert false;
        } else {
          assert s[1..][i - 1..i - 1 + |t|] == s[i..i + |t|];
          assert OccursAt(s[1..], t, i - 1);
        }
      }
    }
  }

  function DigitChar(d: nat): char
    requires d < 10
  {
    ('0' as int + d) as char
  }

  /** The decimal form PHP gives an integer id in string concatenation. */
  function NatToString(n: nat): (r: string)
    ensures |r| >= 1
    ensures forall i :: 0 <= i < |r| ==> '0' <= r[i] <= '9'
    decreases n
  {
    if n < 10 then [DigitChar(n)] else NatToString(n / 10) + [DigitChar(n % 10)]
  }

  /** The number a string of decimal digits denotes. */
  function DigitsValue(s: string): nat
    requires forall i :: 0 <= i < |s| ==> '0' <= s[i] <= '9'
    decreases |s|
  {
    if s == [] then 0 else DigitsValue(s[..|s| - 1]) * 10 + (s[|s| - 1] as int - '0' as int)
  }

  /** Reading the decimal form back gives the number, so distinct numbers
      have distinct decimal forms. */
  lemma {:induction false} NatToStringValue(n: nat)
    ensures DigitsValue(NatToString(n)) == n
    decreases n
  {
    if n >= 10 {
      var init := NatToString(n / 10);
      NatToStringValue(n / 10);
      assert NatToString(n)[..|NatToString(n)| - 1] == init;
    }
  }
}
