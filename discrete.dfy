/** The discrete-mathematics handlers `discrete_exponentiation` and
    `discrete_logarithm` (app.py:169-200): modular exponentiation with an
    explicit modulus-1 case, and the brute-force search for the smallest
    exponent that gives a residue. */
module DiscreteMath {
  import opened Results
  import opened Decimal
  import opened ModularArithmetic
  import opened DiffieHellman

  /** The largest modulus the discrete-logarithm search accepts (app.py:192). */
  const MaxLogModulus: nat := 10000

  /** discrete_exponentiation: base, exponent and modulus validated in that
      order; a modulus of 1 answers 0 without exponentiating; otherwise the
      residue of base^exp. Either way the answer is base^exp modulo mod. */
  function DiscreteExp(baseRaw: string, expRaw: string, modRaw: string): (r: Result<nat>)
    ensures r.Ok? <==> IsPositiveInt(baseRaw) && IsPositiveInt(expRaw) && IsPositiveInt(modRaw)
    ensures r.Ok? ==> r.value == Pow(Value(baseRaw), Value(expRaw)) % Value(modRaw)
    ensures !(IsPositiveInt(baseRaw) && IsPositiveInt(expRaw) && IsPositiveInt(modRaw)) ==>
      r == Err(RequireThree(baseRaw, "Basis", expRaw, "Exponent", modRaw, "Modul").error)
  {
    var (base, exp, mod) :- RequireThree(baseRaw, "Basis", expRaw, "Exponent", modRaw, "Modul");
    if mod == 1 then Ok(0) else Ok(ModPow(base, exp, mod))
  }

  /** x is the smallest exponent whose power of base leaves residue res. */
  ghost predicate IsSmallestLog(x: nat, base: nat, res: nat, mod: nat)
    requires mod >= 1
  {
    ModPow(base, x, mod) == res && forall y: nat :: y < x ==> ModPow(base, y, mod) != res
  }

  /** The loop `for x in range(mod)` with early return: the first exponent
      below mod that gives res, or None when none does, in which case no
      exponent whatsoever gives res. */
  method SmallestLog(base: nat, res: nat, mod: nat) returns (found: Option<nat>)
    requires mod >= 1
    ensures found.Some? ==> found.value < mod && IsSmallestLog(found.value, base, res, mod)
    ensures found.None? ==> forall x: nat :: ModPow(base, x, mod) != res
  {
    var x := 0;
    while x < mod
      invariant x <= mod
      invariant forall y: nat :: y < x ==> ModPow(base, y, mod) != res
    {
      var v := FastModPow(base, x, mod);
      if v == res {
        return Some(x);
      }
      x := x + 1;
    }
    forall z: nat
      ensures ModPow(base, z, mod) != res
    {
      var y := EarlierExponent(base, z, mod);
    }
    return None;
  }

  /** discrete_logarithm: base, result and modulus validated in that order;
      a modulus above 10 000 is refused before any search; otherwise the
      smallest exponent x with base^x = result modulo mod, which is at most
      every exponent that solves the equation, or NoSolutionFound exactly when
      no exponent solves it. */
  method DiscreteLog(baseRaw: string, resultRaw: string, modRaw: string) returns (r: Result<nat>)
    ensures !(IsPositiveInt(baseRaw) && IsPositiveInt(resultRaw) && IsPositiveInt(modRaw)) ==>
      r == Err(RequireThree(baseRaw, "Basis", resultRaw, "Ergebnis", modRaw, "Modul").error)
    ensures IsPositiveInt(baseRaw) && IsPositiveInt(resultRaw) && IsPositiveInt(modRaw) ==>
      var base, res, mod := Value(baseRaw), Value(resultRaw), Value(modRaw);
      && (mod > MaxLogModulus ==> r == Err(ModulusTooLarge))
      && (mod <= MaxLogModulus && r.Ok? ==>
            r.value < mod && IsSmallestLog(r.value, base, res, mod) &&
            forall x: nat :: ModPow(base, x, mod) == res ==> r.value <= x)
      && (mod <= MaxLogModulus && r.Err? ==>
            r.error == NoSolutionFound && forall x: nat :: ModPow(base, x, mod) != res)
  {
    var q := RequireThree(baseRaw, "Basis", resultRaw, "Ergebnis", modRaw, "Modul");
    if q.Err? {
      return Err(q.error);
    }
    var (base, res, mod) := q.value;
    if mod > MaxLogModulus {
      return Err(ModulusTooLarge);
    }
    var found := SmallestLog(base, res, mod);
    if found.Some? {
      return Ok(found.value);
    }
    return Err(NoSolutionFound);
  }

  /** The discrete exponentiation's explicit modulus-1 answer is the answer
      pow would give. */
  lemma DiscreteExpModulusOne(baseRaw: string, expRaw: string)
    requires IsPositiveInt(baseRaw) && IsPositiveInt(expRaw)
    ensures DiscreteExp(baseRaw, expRaw, "1") == Ok(0)
    ensures DiscreteExp(baseRaw, expRaw, "1") == Ok(ModPow(Value(baseRaw), Value(expRaw), 1))
  {
  }

  /** A client of the search: a modulus of 10 001 is refused. */
  method DiscreteLogBoundExample() {
    assert Value("10001") == 10001 by {
      assert "10001"[..4] == "1000" && "1000"[..3] == "100" && "100"[..2] == "10" && "10"[..1] == "1";
    }
    var r := DiscreteLog("2", "1", "10001");
    assert r == Err(ModulusTooLarge);
  }

  /** A client of the search: a modulus of 10 000 is searched; 1^0 = 1. */
  method DiscreteLogAtBoundExample() {
    assert Value("10000") == 10000 by {
      assert "10000"[..4] == "1000" && "1000"[..3] == "100" && "100"[..2] == "10" && "10"[..1] == "1";
    }
    assert IsPositiveInt("1") && IsPositiveInt("10000");
    var r := DiscreteLog("1", "1", "10000");
    assert ModPow(1, 0, 10000) == 1;
    assert r.Ok?;
    assert r == Ok(0);
  }

  /** A client of the search: modulo 1 every residue is 0, so a positive
      result is never found. */
  method DiscreteLogModulusOneExample() {
    var r := DiscreteLog("5", "1", "1");
    assert r == Err(NoSolutionFound);
  }

  /** No exponent below 6 takes 5 to 8 modulo 23: the residues of 5^0 .. 5^5
      are 1, 5, 2, 10, 4, 20. */
  lemma FiveToEightModulo23(x: nat)
    ensures ModPow(5, x, 23) == 8 ==> x >= 6
  {
    if x < 6 {
      assert Pow(5, 0) == 1 && Pow(5, 1) == 5 && Pow(5, 2) == 25;
      assert Pow(5, 3) == 125 && Pow(5, 4) == 625 && Pow(5, 5) == 3125;
    }
  }

  /** A client of the search: the smallest x with 5^x = 8 modulo 23 is 6. */
  method DiscreteLogExample() {
    assert Value("5") == 5 && Value("8") == 8;
    assert Value("23") == 23 by { assert "23"[..1] == "2"; }
    assert IsPositiveInt("5") && IsPositiveInt("8") && IsPositiveInt("23");
    var r := DiscreteLog("5", "8", "23");
    assert ModPow(5, 6, 23) == 8;
    assert r.Ok?;
    FiveToEightModulo23(r.value);
    assert r == Ok(6);
  }
}
