/** Validation of numeric request fields: `validate_int` and
    `_require_positive_int` (app.py:54-60). A field is accepted when it is one
    or more ASCII decimal digits whose value is at least 1. */
module Decimal {
  import opened Results

  predicate IsDigit(c: char) {
    '0' <= c <= '9'
  }

  predicate AllDigits(s: string) {
    forall i :: 0 <= i < |s| ==> IsDigit(s[i])
  }

  /** validate_int: the whole string is one or more decimal digits. */
  predicate ValidateInt(s: string) {
    |s| > 0 && AllDigits(s)
  }

  function DigitValue(c: char): (d: nat)
    requires IsDigit(c)
    ensures d < 10
  {
    c as int - '0' as int
  }

  /** The number a string of decimal digits denotes, most significant digit
      first; leading zeros are allowed, as Python's int() allows them. */
  function Value(s: string): nat
    requires AllDigits(s)
    decreases |s|
  {
    if s == [] then 0 else 10 * Value(s[..|s| - 1]) + DigitValue(s[|s| - 1])
  }

  function DigitChar(d: nat): (c: char)
    requires d < 10
    ensures IsDigit(c) && DigitValue(c) == d
  {
    ('0' as int + d) as char
  }

  /** The canonical decimal spelling of n: the text a client sends for n. */
  function Spell(n: nat): (s: string)
    ensures ValidateInt(s)
    decreases n
  {
    if n < 10 then [DigitChar(n)] else Spell(n / 10) + [DigitChar(n % 10)]
  }

  /** The fields _require_positive_int accepts. */
  predicate IsPositiveInt(s: string) {
    ValidateInt(s) && Value(s) > 0
  }

  /** _require_positive_int: the value of a well-formed positive field, or an
      InvalidFormat error naming the field. */
  function RequirePositiveInt(s: string, name: string): (r: Result<nat>)
    ensures r.Ok? <==> IsPositiveInt(s)
    ensures r.Ok? ==> r.value == Value(s) >= 1
    ensures r.Err? ==> r.error == InvalidFormat(name)
  {
    if !ValidateInt(s) || Value(s) <= 0 then Err(InvalidFormat(name)) else Ok(Value(s))
  }

  /** Reading the spelling of n gives back n. */
  lemma {:induction false} ValueOfSpell(n: nat)
    ensures Value(Spell(n)) == n
    decreases n
  {
    var s := Spell(n);
    if n >= 10 {
      assert s[..|s| - 1] == Spell(n / 10);
      ValueOfSpell(n / 10);
    }
  }

  /** A digit string denotes a positive number exactly when one of its digits
      is not '0'. */
  lemma {:induction false} ValuePositive(s: string)
    requires AllDigits(s)
    ensures Value(s) > 0 <==> exists i :: 0 <= i < |s| && s[i] != '0'
    decreases |s|
  {
    if s != [] {
      var init := s[..|s| - 1];
      ValuePositive(init);
      if exists i :: 0 <= i < |init| && init[i] != '0' {
        var i :| 0 <= i < |init| && init[i] != '0';
        assert s[i] != '0';
      }
      if exists i :: 0 <= i < |s| && s[i] != '0' {
        var i :| 0 <= i < |s| && s[i] != '0';
        if i < |s| - 1 {
          assert init[i] != '0';
        }
      }
    }
  }

  /** A field is accepted exactly when it is non-empty, all ASCII digits and
      not all zeros; the accepted value is the number the digits denote. */
  lemma RequirePositiveIntAccepts(s: string, name: string)
    ensures RequirePositiveInt(s, name).Ok? <==>
      |s| > 0 && AllDigits(s) && exists i :: 0 <= i < |s| && s[i] != '0'
  {
    if AllDigits(s) {
      ValuePositive(s);
    }
  }

  /** Every positive integer, sent in its decimal spelling, is accepted as itself. */
  lemma RequirePositiveIntOfSpell(n: nat, name: string)
    requires n >= 1
    ensures RequirePositiveInt(Spell(n), name) == Ok(n)
  {
    ValueOfSpell(n);
  }

  /** Zero, the empty string, signs and fractions are rejected; leading zeros are not. */
  lemma RequirePositiveIntExamples()
    ensures RequirePositiveInt("0", "p") == Err(InvalidFormat("p"))
    ensures RequirePositiveInt("000", "p") == Err(InvalidFormat("p"))
    ensures RequirePositiveInt("", "p") == Err(InvalidFormat("p"))
    ensures RequirePositiveInt("-3", "p") == Err(InvalidFormat("p"))
    ensures RequirePositiveInt("1.5", "p") == Err(InvalidFormat("p"))
    ensures RequirePositiveInt("007", "p") == Ok(7)
  {
    RequirePositiveIntAccepts("000", "p");
    assert "007"[..2] == "00" && "00"[..1] == "0";
  }
}
