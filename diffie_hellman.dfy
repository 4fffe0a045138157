/** The numeric Diffie-Hellman handlers `set_params`, `public_key` and
    `shared_secret` (app.py:139-164), each as a function from the request's
    already-extracted string fields to a result. */
module DiffieHellman {
  import opened Results
  import opened Decimal
  import opened Primality
  import opened ModularArithmetic

  /** MAX_SAFE_PRIME: the largest modulus set_params accepts (app.py:21). */
  const MaxSafePrime: nat := 1000000

  /** Accepted Diffie-Hellman parameters, echoed back to the caller. */
  datatype Params = Params(p: nat, g: nat)

  /** Three fields validated one after the other, as three consecutive calls
      of _require_positive_int: the first malformed field is reported. */
  function RequireThree(a: string, aName: string, b: string, bName: string, c: string, cName: string)
    : (r: Result<(nat, nat, nat)>)
    ensures r.Ok? <==> IsPositiveInt(a) && IsPositiveInt(b) && IsPositiveInt(c)
    ensures r.Ok? ==> r.value == (Value(a), Value(b), Value(c))
    ensures r.Err? ==> (r.error ==
      if !IsPositiveInt(a) then InvalidFormat(aName)
      else if !IsPositiveInt(b) then InvalidFormat(bName)
      else InvalidFormat(cName))
  {
    var x :- RequirePositiveInt(a, aName);
    var y :- RequirePositiveInt(b, bName);
    var z :- RequirePositiveInt(c, cName);
    Ok((x, y, z))
  }

  /** set_params: format of p, then of g, then the ceiling on p, then
      primality of p and 1 < g < p. Accepted parameters are the two fields'
      values, and they form a group of the kind the exchange needs. */
  function SetParams(primeRaw: string, generatorRaw: string): (r: Result<Params>)
    ensures r.Ok? ==>
      IsPositiveInt(primeRaw) && IsPositiveInt(generatorRaw) &&
      r.value == Params(Value(primeRaw), Value(generatorRaw))
    ensures r.Ok? ==>
      IsPrimeSpec(r.value.p) && 1 < r.value.g < r.value.p <= MaxSafePrime
  {
    var p :- RequirePositiveInt(primeRaw, "p");
    var g :- RequirePositiveInt(generatorRaw, "g");
    if p > MaxSafePrime then Err(TooLarge)
    else if !IsPrime(p) || !(1 < g < p) then Err(InvalidGroup)
    else
      IsPrimeCorrect(p);
      Ok(Params(p, g))
  }

  /** public_key: g^secret modulo p. No group check is made here: any three
      positive fields give a residue of the modulus. */
  function PublicKey(primeRaw: string, generatorRaw: string, secretRaw: string): (r: Result<nat>)
    ensures r.Ok? <==> IsPositiveInt(primeRaw) && IsPositiveInt(generatorRaw) && IsPositiveInt(secretRaw)
    ensures r.Ok? ==> r.value == ModPow(Value(generatorRaw), Value(secretRaw), Value(primeRaw))
    ensures r.Ok? ==> r.value < Value(primeRaw)
    ensures r.Err? ==> r.error == RequireThree(primeRaw, "p", generatorRaw, "g", secretRaw, "secret").error
  {
    var (p, g, s) :- RequireThree(primeRaw, "p", generatorRaw, "g", secretRaw, "secret");
    Ok(ModPow(g, s, p))
  }

  /** shared_secret: received_public^secret modulo p. */
  function SharedSecret(primeRaw: string, secretRaw: string, receivedRaw: string): (r: Result<nat>)
    ensures r.Ok? <==> IsPositiveInt(primeRaw) && IsPositiveInt(secretRaw) && IsPositiveInt(receivedRaw)
    ensures r.Ok? ==> r.value == ModPow(Value(receivedRaw), Value(secretRaw), Value(primeRaw))
    ensures r.Ok? ==> r.value < Value(primeRaw)
    ensures r.Err? ==> r.error == RequireThree(primeRaw, "p", secretRaw, "secret", receivedRaw, "received_public").error
  {
    var (p, s, pk) :- RequireThree(primeRaw, "p", secretRaw, "secret", receivedRaw, "received_public");
    Ok(ModPow(pk, s, p))
  }

  /** The checks of set_params apply in a fixed order: a malformed p, then a
      malformed g, then a p above the ceiling; past those, the pair is
      accepted exactly when p is prime and 1 < g < p, and it is echoed back. */
  lemma SetParamsOrder(primeRaw: string, generatorRaw: string)
    ensures !IsPositiveInt(primeRaw) ==>
      SetParams(primeRaw, generatorRaw) == Err(InvalidFormat("p"))
    ensures IsPositiveInt(primeRaw) && !IsPositiveInt(generatorRaw) ==>
      SetParams(primeRaw, generatorRaw) == Err(InvalidFormat("g"))
    ensures IsPositiveInt(primeRaw) && IsPositiveInt(generatorRaw) ==>
      var p, g := Value(primeRaw), Value(generatorRaw);
      && (p > MaxSafePrime ==> SetParams(primeRaw, generatorRaw) == Err(TooLarge))
      && (p <= MaxSafePrime && IsPrimeSpec(p) && 1 < g < p ==>
            SetParams(primeRaw, generatorRaw) == Ok(Params(p, g)))
      && (p <= MaxSafePrime && !(IsPrimeSpec(p) && 1 < g < p) ==>
            SetParams(primeRaw, generatorRaw) == Err(InvalidGroup))
  {
    if IsPositiveInt(primeRaw) {
      IsPrimeCorrect(Value(primeRaw));
    }
  }

  /** Every prime p up to the ceiling with 1 < g < p is accepted. */
  lemma SetParamsAcceptsPrimes(p: nat, g: nat)
    requires IsPrimeSpec(p) && p <= MaxSafePrime && 1 < g < p
    ensures SetParams(Spell(p), Spell(g)) == Ok(Params(p, g))
  {
    RequirePositiveIntOfSpell(p, "p");
    RequirePositiveIntOfSpell(g, "g");
    IsPrimeCorrect(p);
  }

  /** ("4", "2") fails the primality rule and ("23", "5") is accepted. */
  lemma SetParamsExamples()
    ensures SetParams("4", "2") == Err(InvalidGroup)
    ensures SetParams("23", "5") == Ok(Params(23, 5))
  {
    assert !IsPrime(4);
    assert "23"[..1] == "2";
    assert IsPrime(23);
  }

  /** "0" fails the format check before the generator is looked at, and the
      prime 1000003 is above the ceiling. */
  lemma SetParamsRejectionExamples()
    ensures SetParams("0", "x") == Err(InvalidFormat("p"))
    ensures SetParams("1000003", "2") == Err(TooLarge)
  {
    RequirePositiveIntAccepts("0", "p");
    assert Value("1000003") == 1000003 by {
      assert "1000003"[..6] == "100000";
      assert "100000"[..5] == "10000";
      assert "10000"[..4] == "1000";
      assert "1000"[..3] == "100";
      assert "100"[..2] == "10";
      assert "10"[..1] == "1";
    }
  }

  /** Diffie-Hellman agreement: with parameters that set_params accepts and
      two positive secrets, both public values are positive (so each is a
      valid received_public) and both parties derive the same shared secret,
      g^(a*b) modulo p. */
  lemma ExchangeAgrees(primeRaw: string, generatorRaw: string, aliceRaw: string, bobRaw: string)
    requires SetParams(primeRaw, generatorRaw).Ok?
    requires IsPositiveInt(aliceRaw) && IsPositiveInt(bobRaw)
    ensures PublicKey(primeRaw, generatorRaw, aliceRaw).Ok?
    ensures PublicKey(primeRaw, generatorRaw, bobRaw).Ok?
    ensures
      var aPub, bPub := PublicKey(primeRaw, generatorRaw, aliceRaw).value,
                        PublicKey(primeRaw, generatorRaw, bobRaw).value;
      var p, g, a, b := Value(primeRaw), Value(generatorRaw), Value(aliceRaw), Value(bobRaw);
      && aPub >= 1 && bPub >= 1
      && SharedSecret(primeRaw, aliceRaw, Spell(bPub)) == SharedSecret(primeRaw, bobRaw, Spell(aPub))
      && SharedSecret(primeRaw, aliceRaw, Spell(bPub)) == Ok(ModPow(g, a * b, p))
  {
    var p, g, a, b := Value(primeRaw), Value(generatorRaw), Value(aliceRaw), Value(bobRaw);
    assert SetParams(primeRaw, generatorRaw).value == Params(p, g);
    assert IsPrimeSpec(p) && 1 < g < p;
    var aPub, bPub := ModPow(g, a, p), ModPow(g, b, p);
    assert PublicKey(primeRaw, generatorRaw, aliceRaw) == Ok(aPub);
    assert PublicKey(primeRaw, generatorRaw, bobRaw) == Ok(bPub);
    PublicValuePositive(p, g, a);
    PublicValuePositive(p, g, b);
    RequirePositiveIntOfSpell(aPub, "received_public");
    RequirePositiveIntOfSpell(bPub, "received_public");
    assert SharedSecret(primeRaw, aliceRaw, Spell(bPub)) == Ok(ModPow(bPub, a, p));
    assert SharedSecret(primeRaw, bobRaw, Spell(aPub)) == Ok(ModPow(aPub, b, p));
    DiffieHellmanAgreement(g, a, b, p);
  }

  /** In a group that set_params accepts, g^a modulo p is never 0. */
  lemma PublicValuePositive(p: nat, g: nat, a: nat)
    requires IsPrimeSpec(p) && 1 < g < p
    ensures ModPow(g, a, p) >= 1
  {
    assert g % p == g;
    PowNotDivisible(p, g, a);
  }

  /** The worked exchange p = 23, g = 5, secrets 6 and 15: public values 8
      and 19. */
  lemma ExchangeExamplePublic()
    ensures PublicKey("23", "5", "6") == Ok(8)
    ensures PublicKey("23", "5", "15") == Ok(19)
  {
    assert Value("23") == 23 by { assert "23"[..1] == "2"; }
    assert Value("15") == 15 by { assert "15"[..1] == "1"; }
    assert Pow(5, 6) == 15625;
    assert Pow(5, 15) == 30517578125;
  }

  /** The worked exchange continued: Alice raises Bob's public value 19 to
      her secret 6 and obtains 2. */
  lemma ExchangeExampleAlice()
    ensures SharedSecret("23", "6", "19") == Ok(2)
  {
    assert Value("23") == 23 by { assert "23"[..1] == "2"; }
    assert Value("19") == 19 by { assert "19"[..1] == "1"; }
    assert Pow(19, 6) == 47045881;
  }

  /** Bob raises Alice's public value 8 to his secret 15 and also obtains 2. */
  lemma ExchangeExampleBob()
    ensures SharedSecret("23", "15", "8") == Ok(2)
  {
    assert Value("23") == 23 by { assert "23"[..1] == "2"; }
    assert Value("15") == 15 by { assert "15"[..1] == "1"; }
    assert Pow(8, 15) == 35184372088832;
  }
}
