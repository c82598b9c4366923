/** The weighted modulo-11 check digit of a 44-digit NF-e access key
    (src/lib/xml/utils.ts, `calcularDvChave`). */
module CheckDigit {
  import opened Wrappers
  import opened JsString

  /** Length of an access key without its check digit. */
  const BodyLength: nat := 43

  /** `parseInt` of one digit character (non-digits are treated separately: they poison the sum). */
  function DigitValue(c: char): nat {
    if IsDigit(c) then c as nat - '0' as nat else 0
  }

  function DigitChar(d: nat): char
    requires d <= 9
  {
    ('0' as int + d) as char
  }

  /** Weight of the digit at distance `i` from the right end: 2, 3, ..., 9, 2, 3, ... */
  function Weight(i: nat): nat {
    2 + i % 8
  }

  /** Sum over the `n` rightmost characters of `s`, each times its weight. */
  function WeightedSum(s: string, n: nat): nat
    requires n <= |s|
  {
    if n == 0 then 0 else WeightedSum(s, n - 1) + DigitValue(s[|s| - n]) * Weight(n - 1)
  }

  /** The check digit as the closed form of the source's loop.
      A body that is not 43 characters long is an error; a non-digit anywhere makes
      `parseInt` yield NaN, which survives to the result as the text "NaN". */
  function CheckDigitOf(body: string): (r: Result<string>)
    ensures r.Failure? <==> |body| != BodyLength
    ensures r.Failure? ==> r.error == InvalidKeyLength
    ensures r.Success? && !AllDigits(body) ==> r.value == "NaN"
    ensures r.Success? && AllDigits(body) ==> |r.value| == 1 && IsDigit(r.value[0])
  {
    if |body| != BodyLength then Failure(InvalidKeyLength)
    else if !AllDigits(body) then Success("NaN")
    else
      var dv := 11 - WeightedSum(body, BodyLength) % 11;
      if dv == 0 || dv == 1 || dv == 10 || dv == 11 then Success("0") else Success([DigitChar(dv)])
  }

  /** The digit is "0" exactly when the remainder is 0, 1 or 10; otherwise it is
      11 minus the remainder. (The remainder 10 also gives "0", through `dv === 1`.) */
  lemma CheckDigitValue(body: string)
    requires |body| == BodyLength && AllDigits(body)
    ensures var rest := WeightedSum(body, BodyLength) % 11;
      && (CheckDigitOf(body) == Success("0") <==> rest == 0 || rest == 1 || rest == 10)
      && (rest != 0 && rest != 1 && rest != 10 ==> CheckDigitOf(body) == Success([DigitChar(11 - rest)]))
  {
    var rest := WeightedSum(body, BodyLength) % 11;
    if rest != 0 && rest != 1 && rest != 10 {
      assert 2 <= 11 - rest <= 9;
      assert DigitChar(11 - rest) != '0';
    }
  }

  /** The weighted sum as the NF-e key standard describes it, read from the left:
      every digit times the weight of its distance from the right end. */
  function StandardSum(s: string): nat {
    if s == [] then 0 else DigitValue(s[0]) * Weight(|s| - 1) + StandardSum(s[1..])
  }

  /** The standard's check digit for a remainder modulo 11: 0 when the remainder
      is 0 or 1, and 11 minus the remainder otherwise. */
  function StandardDigit(rest: nat): nat
    requires rest < 11
  {
    if rest <= 1 then 0 else 11 - rest
  }

  /** An access key the standard accepts: 44 digits, the last being the check
      digit of the first 43. */
  predicate Mod11Valid(k: string) {
    && |k| == BodyLength + 1 && AllDigits(k)
    && DigitValue(k[BodyLength]) == StandardDigit(StandardSum(k[..BodyLength]) % 11)
  }

  /** The source's right-to-left sum and the standard's left-to-right one agree. */
  lemma {:induction false} SumsAgree(s: string, n: nat)
    requires n <= |s|
    ensures WeightedSum(s, n) == StandardSum(s[|s| - n..])
  {
    if n > 0 {
      var t := s[|s| - n..];
      assert t[0] == s[|s| - n] && |t| - 1 == n - 1;
      assert t[1..] == s[|s| - (n - 1)..];
      SumsAgree(s, n - 1);
    }
  }

  lemma DigitCharValue(d: nat)
    requires d <= 9
    ensures IsDigit(DigitChar(d)) && DigitValue(DigitChar(d)) == d
  {
  }

  /** Appending the computed digit to a 43-digit body gives a key the standard
      accepts exactly when the remainder is not 10: there the source writes "0"
      where the standard asks for 1. */
  lemma AgreesWithStandard(body: string)
    requires |body| == BodyLength && AllDigits(body)
    ensures CheckDigitOf(body).Success?
    ensures Mod11Valid(body + CheckDigitOf(body).value) <==> StandardSum(body) % 11 != 10
  {
    SumsAgree(body, BodyLength);
    assert body[|body| - BodyLength..] == body;
    CheckDigitValue(body);
    var rest := StandardSum(body) % 11;
    var dv := CheckDigitOf(body).value;
    var k := body + dv;
    assert k[..BodyLength] == body && k[BodyLength] == dv[0];
    if rest == 0 || rest == 1 || rest == 10 {
      assert dv == [DigitChar(0)];
    } else {
      assert dv == [DigitChar(11 - rest)];
    }
    DigitCharValue(if rest == 0 || rest == 1 || rest == 10 then 0 else 11 - rest);
    DigitsConcat(body, dv);
  }

  /** Zeros in front of a body add nothing to its sum. */
  lemma {:induction false} LeadingZeros(n: nat, t: string)
    ensures StandardSum(Repeat('0', n) + t) == StandardSum(t)
  {
    var s := Repeat('0', n) + t;
    if n == 0 {
      assert s == t;
    } else {
      assert s[0] == '0' && DigitValue(s[0]) == 0;
      assert s[1..] == Repeat('0', n - 1) + t;
      LeadingZeros(n - 1, t);
    }
  }

  /** A body at remainder 10: 42 zeros and a 5 weigh 5 * 2 = 10. The source
      appends "0", which the standard rejects; the standard's key ends in 1. */
  lemma RemainderTen()
    ensures var body := Repeat('0', 42) + "5";
      && |body| == BodyLength && AllDigits(body) && StandardSum(body) % 11 == 10
      && CheckDigitOf(body) == Success("0")
      && !Mod11Valid(body + "0") && Mod11Valid(body + "1")
  {
    var body := Repeat('0', 42) + "5";
    LeadingZeros(42, "5");
    assert StandardSum("5") == 10 by {
      assert "5"[1..] == [];
    }
    assert AllDigits(body) by {
      forall i | 0 <= i < |body| ensures IsDigit(body[i]) {
        if i < 42 { assert body[i] == '0'; } else { assert body[i] == '5'; }
      }
    }
    SumsAgree(body, BodyLength);
    assert body[|body| - BodyLength..] == body;
    CheckDigitValue(body);
    assert DigitChar(0) == '0';
    assert (body + "0")[..BodyLength] == body && (body + "0")[BodyLength] == '0';
    assert (body + "1")[..BodyLength] == body && (body + "1")[BodyLength] == '1';
    DigitsConcat(body, "1");
  }

  /** The multiplier steps up by one and wraps from 9 back to 2. */
  lemma WeightNext(n: nat)
    ensures Weight(n + 1) == if Weight(n) == 9 then 2 else Weight(n) + 1
  {
  }

  /** The source's loop: digits from the least significant end, multiplier starting
      at 2 and wrapping from 9 back to 2, NaN as soon as a non-digit is read. */
  method CalcularDvChave(chave: string) returns (r: Result<string>)
    ensures r == CheckDigitOf(chave)
  {
    if |chave| != BodyLength {
      return Failure(InvalidKeyLength);
    }
    var soma: nat := 0;
    var isNaN := false;
    var multiplicador: nat := 2;
    var i: int := |chave| - 1;
    while i >= 0
      invariant -1 <= i < |chave|
      invariant multiplicador == Weight(|chave| - 1 - i)
      invariant soma == WeightedSum(chave, |chave| - 1 - i)
      invariant isNaN <==> exists j :: i < j < |chave| && !IsDigit(chave[j])
    {
      WeightNext(|chave| - 1 - i);
      if IsDigit(chave[i]) {
        soma := soma + DigitValue(chave[i]) * multiplicador;
      } else {
        isNaN := true;
      }
      multiplicador := multiplicador + 1;
      if multiplicador > 9 {
        multiplicador := 2;
      }
      i := i - 1;
    }
    if isNaN {
      return Success("NaN");
    }
    var dv := 11 - soma % 11;
    r := if dv == 0 || dv == 1 || dv == 10 || dv == 11 then Success("0") else Success([DigitChar(dv)]);
  }
}
