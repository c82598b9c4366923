/** `preparaMapeamentos` of src/lib/xml/editor.ts: before any document is edited,
    the batch's NF-e keys are rebuilt for the new issuer and date, the references
    between NF-e of the batch are resolved through their invoice numbers, and the
    new key of the sale file is remembered for the CT-e editor. */
module Mapping {
  import opened Wrappers
  import opened JsString
  import opened CheckDigit
  import opened Info
  import opened Config
  import Dict
  import Renamer

  /** `chaveMapping` (old key to new key), `referenceMap` (key of an NF-e to the key
      it references) and `chaveDaVendaNova`. */
  datatype Maps = Maps(chaveMapping: Dict.Dict<string>, referenceMap: Dict.Dict<string>, primary: Option<string>)

  /** An NF-e of the batch with a non-empty key: the only records the builder visits. */
  predicate Eligible(i: XmlInfo) {
    i.kind == NFe && Present(i.chave)
  }

  /** Keys are rebuilt when the issuer or the date is overridden. */
  predicate Rebuilds(p: Profile) {
    p.flags.emitente || p.flags.data
  }

  // ---------------------------------------------------------------------------
  // Key rebuild

  /** The CNPJ the new key carries: the profile's issuer CNPJ when the issuer is
      overridden and the profile has one, the document's own otherwise. */
  function KeyCnpj(i: XmlInfo, p: Profile): (c: string)
    ensures p.flags.emitente && NewCnpj(p) != "" ==> c == NewCnpj(p)
    ensures !(p.flags.emitente && NewCnpj(p) != "") ==> c == i.emitCnpj.GetOr("")
  {
    if p.flags.emitente && NewCnpj(p) != "" then NewCnpj(p) else i.emitCnpj.GetOr("")
  }

  /** The four year-and-month characters of the new key: the original's unless the
      date override supplies new ones. */
  function KeyYearMonth(orig: string, p: Profile): (r: Result<string>)
    ensures !DateOverride(p) ==> r == Success(Substring(orig, 2, 6))
    ensures DateOverride(p) ==> r == YearMonth(SplitDate(p.novaData))
  {
    if DateOverride(p) then YearMonth(SplitDate(p.novaData)) else Success(Substring(orig, 2, 6))
  }

  /** The 43 characters the check digit is computed over. */
  function KeyBody(orig: string, ym: string, cnpj: string): string {
    Substring(orig, 0, 2) + ym + PadStart(DigitsOnly(cnpj), 14, '0') + Substring(orig, 20, 43)
  }

  /** The new key of `orig`, or the error the source throws. */
  function NewKey(orig: string, cnpj: string, p: Profile): (r: Result<string>)
    ensures KeyYearMonth(orig, p).Failure? ==> r == Failure(UndefinedDatePart)
    ensures KeyYearMonth(orig, p).Success? && r.Failure? ==> r.error == InvalidKeyLength
    ensures r.Success? ==> |r.value| >= 44
  {
    match KeyYearMonth(orig, p)
    case Failure(e) => Failure(e)
    case Success(ym) =>
      var body := KeyBody(orig, ym, cnpj);
      match CheckDigitOf(body)
      case Failure(e) => Failure(e)
      case Success(dv) =>
        assert |dv| >= 1 by {
          if !AllDigits(body) { assert dv == "NaN"; }
        }
        Success(body + dv)
  }

  /** The new key of an eligible NF-e. */
  function Rebuild(i: XmlInfo, p: Profile): Result<string> {
    NewKey(i.chave.GetOr(""), KeyCnpj(i, p), p)
  }

  /** For a well-formed 44-digit key, a date with a two-digit year and month, and a
      CNPJ of at most 14 digits, the new key keeps the state code and the chars
      20..43 of the original, carries the new year and month and the zero-padded
      CNPJ, and ends in the source's check digit of the rest, which the standard
      accepts except at remainder 10. */
  lemma NewKeyLayout(orig: string, cnpj: string, p: Profile)
    requires |orig| >= 43 && AllDigits(orig)
    requires KeyYearMonth(orig, p).Success?
    requires |KeyYearMonth(orig, p).value| == 4 && AllDigits(KeyYearMonth(orig, p).value)
    requires |DigitsOnly(cnpj)| <= 14
    ensures NewKey(orig, cnpj, p).Success?
    ensures var k := NewKey(orig, cnpj, p).value;
      && k[..2] == orig[..2]
      && k[2..6] == KeyYearMonth(orig, p).value
      && k[6..20] == PadStart(DigitsOnly(cnpj), 14, '0')
      && k[20..43] == orig[20..43]
      && k[43..] == CheckDigitOf(k[..43]).value
      && (Mod11Valid(k) <==> StandardSum(k[..43]) % 11 != 10)
  {
    var ym := KeyYearMonth(orig, p).value;
    var pad := PadStart(DigitsOnly(cnpj), 14, '0');
    ZeroPadDigits(DigitsOnly(cnpj), 14);
    var a, b := Substring(orig, 0, 2), Substring(orig, 20, 43);
    assert a == orig[..2] && b == orig[20..43];
    DigitsSlice(orig, 0, 2);
    DigitsSlice(orig, 20, 43);
    var body := KeyBody(orig, ym, cnpj);
    DigitsConcat(a, ym);
    DigitsConcat(a + ym, pad);
    DigitsConcat(a + ym + pad, b);
    assert |body| == BodyLength;
    AgreesWithStandard(body);
    var k := NewKey(orig, cnpj, p).value;
    assert k == a + ym + pad + b + CheckDigitOf(body).value;
    assert k[..43] == body;
    Parts5(k, a, ym, pad, b, CheckDigitOf(body).value);
  }

  /** `padStart` never truncates: a CNPJ of more than 14 digits makes the body
      longer than 43 characters, and the check digit computation throws. */
  lemma NewKeyOverlongCnpj(orig: string, cnpj: string, p: Profile)
    requires |orig| >= 43
    requires KeyYearMonth(orig, p).Success? && |KeyYearMonth(orig, p).value| == 4
    requires |DigitsOnly(cnpj)| > 14
    ensures NewKey(orig, cnpj, p) == Failure(InvalidKeyLength)
  {
    var body := KeyBody(orig, KeyYearMonth(orig, p).value, cnpj);
    assert |body| > BodyLength;
  }

  /** A date override whose text has no year part makes every rebuild throw. */
  lemma NewKeyWithoutYear(orig: string, cnpj: string, p: Profile)
    requires DateOverride(p) && SplitDate(p.novaData).ano.None?
    ensures NewKey(orig, cnpj, p) == Failure(UndefinedDatePart)
  {
  }

  // ---------------------------------------------------------------------------
  // Reference definitions of the three results

  /** `nNFToKeyMap[n]`: the key of the last NF-e with invoice number `n` and a key. */
  function LastNumbered(infos: seq<XmlInfo>, n: string): (r: Option<string>)
    ensures r.Some? ==> Present(r)
  {
    if infos == [] then None
    else
      var x := infos[|infos| - 1];
      if x.kind == NFe && Present(x.nfeNumber) && Present(x.chave) && x.nfeNumber.value == n then x.chave
      else LastNumbered(infos[..|infos| - 1], n)
  }

  /** The key `i` references, when its referenced number names an NF-e of the batch. */
  function Resolve(i: XmlInfo, all: seq<XmlInfo>): Option<string> {
    if Present(i.refNFe) then LastNumbered(all, Renamer.RefNumber(i.refNFe.value)) else None
  }

  /** `referenceMap[key]`: the resolved reference of the last eligible NF-e with
      this key whose reference resolves. */
  function LastReference(infos: seq<XmlInfo>, all: seq<XmlInfo>, key: string): Option<string> {
    if infos == [] then None
    else
      var x := infos[|infos| - 1];
      if Eligible(x) && x.chave.value == key && Resolve(x, all).Some? then Resolve(x, all)
      else LastReference(infos[..|infos| - 1], all, key)
  }

  /** `chaveMapping[key]`: the new key of the last eligible NF-e with this key. */
  function LastMapped(infos: seq<XmlInfo>, p: Profile, key: string): Option<string> {
    if infos == [] || !Rebuilds(p) then None
    else
      var x := infos[|infos| - 1];
      if Eligible(x) && x.chave.value == key && Rebuild(x, p).Success? then Some(Rebuild(x, p).value)
      else LastMapped(infos[..|infos| - 1], p, key)
  }

  /** A file whose path contains "Venda.xml". */
  predicate SaleFile(i: XmlInfo) {
    Contains(i.path, "Venda.xml")
  }

  /** `chaveDaVendaNova`: the new key of the last eligible sale file. */
  function SaleKey(infos: seq<XmlInfo>, p: Profile): Option<string> {
    if infos == [] || !Rebuilds(p) then None
    else
      var x := infos[|infos| - 1];
      if Eligible(x) && SaleFile(x) && Rebuild(x, p).Success? then Some(Rebuild(x, p).value)
      else SaleKey(infos[..|infos| - 1], p)
  }

  /** An eligible NF-e whose rebuild throws. */
  predicate Throws(i: XmlInfo, p: Profile) {
    Rebuilds(p) && Eligible(i) && Rebuild(i, p).Failure?
  }

  // ---------------------------------------------------------------------------
  // The builder

  /** `nNFToKeyMap`: invoice number to key, over the NF-e that have both. */
  method NumberIndex(infos: seq<XmlInfo>) returns (index: Dict.Dict<string>)
    ensures forall n :: Dict.Get(index, n) == LastNumbered(infos, n)
  {
    index := [];
    var i := 0;
    while i < |infos|
      invariant 0 <= i <= |infos|
      invariant forall n :: Dict.Get(index, n) == LastNumbered(infos[..i], n)
    {
      var x := infos[i];
      var index' := index;
      if x.kind == NFe && Present(x.nfeNumber) && Present(x.chave) {
        index' := Dict.Set(index, x.nfeNumber.value, x.chave.value);
      }
      NumberStep(infos[..i], x, index, index');
      assert infos[..i + 1] == infos[..i] + [x];
      index := index';
      i := i + 1;
    }
    assert infos[..i] == infos;
  }

  lemma NumberStep(pre: seq<XmlInfo>, x: XmlInfo, index: Dict.Dict<string>, index': Dict.Dict<string>)
    requires forall n :: Dict.Get(index, n) == LastNumbered(pre, n)
    requires x.kind == NFe && Present(x.nfeNumber) && Present(x.chave) ==> index' == Dict.Set(index, x.nfeNumber.value, x.chave.value)
    requires !(x.kind == NFe && Present(x.nfeNumber) && Present(x.chave)) ==> index' == index
    ensures forall n :: Dict.Get(index', n) == LastNumbered(pre + [x], n)
  {
    assert (pre + [x])[..|pre|] == pre;
  }

  lemma ReferenceStep(pre: seq<XmlInfo>, x: XmlInfo, all: seq<XmlInfo>, refs: Dict.Dict<string>, refs': Dict.Dict<string>)
    requires forall key :: Dict.Get(refs, key) == LastReference(pre, all, key)
    requires Eligible(x) && Resolve(x, all).Some? ==> refs' == Dict.Set(refs, x.chave.value, Resolve(x, all).value)
    requires !(Eligible(x) && Resolve(x, all).Some?) ==> refs' == refs
    ensures forall key :: Dict.Get(refs', key) == LastReference(pre + [x], all, key)
  {
    assert (pre + [x])[..|pre|] == pre;
  }

  lemma MappedStep(pre: seq<XmlInfo>, x: XmlInfo, p: Profile, mapping: Dict.Dict<string>, mapping': Dict.Dict<string>)
    requires forall key :: Dict.Get(mapping, key) == LastMapped(pre, p, key)
    requires Rebuilds(p) && Eligible(x) && Rebuild(x, p).Success? ==> mapping' == Dict.Set(mapping, x.chave.value, Rebuild(x, p).value)
    requires !(Rebuilds(p) && Eligible(x) && Rebuild(x, p).Success?) ==> mapping' == mapping
    ensures forall key :: Dict.Get(mapping', key) == LastMapped(pre + [x], p, key)
  {
    assert (pre + [x])[..|pre|] == pre;
  }

  lemma SaleStep(pre: seq<XmlInfo>, x: XmlInfo, p: Profile, primary: Option<string>, primary': Option<string>)
    requires primary == SaleKey(pre, p)
    requires Rebuilds(p) && Eligible(x) && SaleFile(x) && Rebuild(x, p).Success? ==> primary' == Some(Rebuild(x, p).value)
    requires !(Rebuilds(p) && Eligible(x) && SaleFile(x) && Rebuild(x, p).Success?) ==> primary' == primary
    ensures primary' == SaleKey(pre + [x], p)
  {
    assert (pre + [x])[..|pre|] == pre;
  }

  /** The builder's state after a prefix of the batch: the three results as the
      reference definitions give them, no rebuild having thrown. */
  ghost predicate Built(pre: seq<XmlInfo>, all: seq<XmlInfo>, p: Profile, m: Maps) {
    && (forall key :: Dict.Get(m.chaveMapping, key) == LastMapped(pre, p, key))
    && (forall key :: Dict.Get(m.referenceMap, key) == LastReference(pre, all, key))
    && m.primary == SaleKey(pre, p)
    && (!Rebuilds(p) ==> m.chaveMapping == [])
    && Dict.Unique(m.chaveMapping) && Dict.Unique(m.referenceMap)
  }

  /** One iteration of the builder's loop, on the NF-e record `x`. */
  method Visit(pre: seq<XmlInfo>, x: XmlInfo, all: seq<XmlInfo>, index: Dict.Dict<string>, p: Profile, m: Maps)
    returns (r: Result<Maps>)
    requires forall n :: Dict.Get(index, n) == LastNumbered(all, n)
    requires Built(pre, all, p, m)
    ensures r.Failure? <==> Throws(x, p)
    ensures r.Success? ==> Built(pre + [x], all, p, r.value)
  {
    var refs := m.referenceMap;
    if Eligible(x) && Present(x.refNFe) {
      var target := Dict.Get(index, Renamer.RefNumber(x.refNFe.value));
      if Present(target) {
        refs := Dict.Set(refs, x.chave.value, target.value);
      }
    }
    ReferenceStep(pre, x, all, m.referenceMap, refs);
    var mapping, primary := m.chaveMapping, m.primary;
    if Eligible(x) && Rebuilds(p) {
      var nova := Rebuild(x, p);
      if nova.Failure? {
        return Failure(nova.error);
      }
      mapping := Dict.Set(mapping, x.chave.value, nova.value);
      if SaleFile(x) {
        primary := Some(nova.value);
      }
    }
    MappedStep(pre, x, p, m.chaveMapping, mapping);
    SaleStep(pre, x, p, m.primary, primary);
    r := Success(Maps(mapping, refs, primary));
  }

  method PreparaMapeamentos(infos: seq<XmlInfo>, p: Profile) returns (r: Result<Maps>)
    ensures !Rebuilds(p) ==> r.Success? && r.value.chaveMapping == [] && r.value.primary == None
    ensures r.Failure? <==> exists k :: 0 <= k < |infos| && Throws(infos[k], p)
    ensures r.Success? ==> forall key :: Dict.Get(r.value.chaveMapping, key) == LastMapped(infos, p, key)
    ensures r.Success? ==> forall key :: Dict.Get(r.value.referenceMap, key) == LastReference(infos, infos, key)
    ensures r.Success? ==> r.value.primary == SaleKey(infos, p)
    ensures r.Success? ==> Dict.Unique(r.value.chaveMapping) && Dict.Unique(r.value.referenceMap)
  {
    var index := NumberIndex(infos);
    var m := Maps([], [], None);
    var i := 0;
    while i < |infos|
      invariant 0 <= i <= |infos|
      invariant Built(infos[..i], infos, p, m)
      invariant forall k :: 0 <= k < i ==> !Throws(infos[k], p)
    {
      assert infos[..i + 1] == infos[..i] + [infos[i]];
      var next := Visit(infos[..i], infos[i], infos, index, p, m);
      if next.Failure? {
        return Failure(next.error);
      }
      m := next.value;
      i := i + 1;
    }
    assert infos[..i] == infos;
    if !Rebuilds(p) {
      SaleKeyNeedsRebuild(infos, p);
    }
    r := Success(m);
  }

  lemma {:induction false} SaleKeyNeedsRebuild(infos: seq<XmlInfo>, p: Profile)
    requires !Rebuilds(p)
    ensures SaleKey(infos, p) == None
  {
  }

  // ---------------------------------------------------------------------------
  // Consequences

  /** Every mapped key is the key of an eligible NF-e of the batch, and is mapped to
      that NF-e's rebuilt key. */
  lemma {:induction false} MappedFromBatch(infos: seq<XmlInfo>, p: Profile, key: string)
    requires LastMapped(infos, p, key).Some?
    ensures exists k :: (0 <= k < |infos| && Eligible(infos[k]) && infos[k].chave.value == key
      && Rebuild(infos[k], p) == Success(LastMapped(infos, p, key).value))
  {
    var x := infos[|infos| - 1];
    if Eligible(x) && x.chave.value == key && Rebuild(x, p).Success? {
      assert infos[|infos| - 1] == x;
    } else {
      var pre := infos[..|infos| - 1];
      MappedFromBatch(pre, p, key);
      var k :| 0 <= k < |pre| && Eligible(pre[k]) && pre[k].chave.value == key
        && Rebuild(pre[k], p) == Success(LastMapped(pre, p, key).value);
      assert infos[k] == pre[k];
    }
  }

  /** Every eligible NF-e's key is mapped when the batch does not throw. */
  lemma {:induction false} EveryKeyMapped(infos: seq<XmlInfo>, p: Profile, k: nat)
    requires Rebuilds(p) && k < |infos| && Eligible(infos[k])
    requires forall j :: 0 <= j < |infos| ==> !Throws(infos[j], p)
    ensures LastMapped(infos, p, infos[k].chave.value).Some?
  {
    var pre := infos[..|infos| - 1];
    if k < |infos| - 1 {
      NoThrowPrefix(infos, pre, p);
      assert pre[k] == infos[k];
      EveryKeyMapped(pre, p, k);
      MappedStays(infos, p, infos[k].chave.value);
    } else {
      LastIsMapped(infos, p);
    }
  }

  lemma NoThrowPrefix(infos: seq<XmlInfo>, pre: seq<XmlInfo>, p: Profile)
    requires infos != [] && pre == infos[..|infos| - 1]
    requires forall j :: 0 <= j < |infos| ==> !Throws(infos[j], p)
    ensures forall j :: 0 <= j < |pre| ==> !Throws(pre[j], p)
  {
    forall j | 0 <= j < |pre| ensures !Throws(pre[j], p) {
      assert pre[j] == infos[j];
    }
  }

  /** The last record of the batch, when eligible and not throwing, is mapped. */
  lemma LastIsMapped(infos: seq<XmlInfo>, p: Profile)
    requires infos != [] && Rebuilds(p) && Eligible(infos[|infos| - 1]) && !Throws(infos[|infos| - 1], p)
    ensures LastMapped(infos, p, infos[|infos| - 1].chave.value).Some?
  {
  }

  /** A key mapped by a prefix of the batch stays mapped. */
  lemma MappedStays(infos: seq<XmlInfo>, p: Profile, key: string)
    requires infos != [] && LastMapped(infos[..|infos| - 1], p, key).Some?
    ensures LastMapped(infos, p, key).Some?
  {
  }

  /** A reference is recorded only when the referenced invoice number names an NF-e
      of the batch, and the recorded key is that NF-e's. */
  lemma {:induction false} ReferenceResolved(infos: seq<XmlInfo>, all: seq<XmlInfo>, key: string)
    requires LastReference(infos, all, key).Some?
    ensures exists k :: (0 <= k < |infos| && Eligible(infos[k]) && infos[k].chave.value == key
      && Present(infos[k].refNFe)
      && LastNumbered(all, Renamer.RefNumber(infos[k].refNFe.value)) == LastReference(infos, all, key))
  {
    var x := infos[|infos| - 1];
    if Eligible(x) && x.chave.value == key && Resolve(x, all).Some? {
      assert infos[|infos| - 1] == x;
    } else {
      var pre := infos[..|infos| - 1];
      ReferenceResolved(pre, all, key);
      var k :| 0 <= k < |pre| && Eligible(pre[k]) && pre[k].chave.value == key
        && Present(pre[k].refNFe)
        && LastNumbered(all, Renamer.RefNumber(pre[k].refNFe.value)) == LastReference(pre, all, key);
      assert infos[k] == pre[k];
    }
  }

  /** The invoice-number index resolves a number exactly when some NF-e of the batch
      has that number and a key. */
  lemma {:induction false} NumberedIffPresent(infos: seq<XmlInfo>, n: string)
    ensures LastNumbered(infos, n).Some? <==>
      exists k :: (0 <= k < |infos| && infos[k].kind == NFe && Present(infos[k].chave)
        && infos[k].nfeNumber == Some(n) && n != "")
  {
    if infos != [] {
      var pre := infos[..|infos| - 1];
      NumberedIffPresent(pre, n);
      assert forall k :: 0 <= k < |pre| ==> pre[k] == infos[k];
    }
  }

  /** The sale key is the new key of some eligible NF-e whose path names a sale. */
  lemma {:induction false} SaleKeyFromSaleFile(infos: seq<XmlInfo>, p: Profile)
    ensures SaleKey(infos, p).Some? ==>
      exists k :: (0 <= k < |infos| && Eligible(infos[k]) && SaleFile(infos[k])
        && Rebuild(infos[k], p) == Success(SaleKey(infos, p).value))
  {
    if SaleKey(infos, p).None? {
      return;
    }
    var x := infos[|infos| - 1];
    if Eligible(x) && SaleFile(x) && Rebuild(x, p).Success? {
      assert infos[|infos| - 1] == x;
    } else {
      var pre := infos[..|infos| - 1];
      SaleKeyFromSaleFile(pre, p);
      var k :| 0 <= k < |pre| && Eligible(pre[k]) && SaleFile(pre[k])
        && Rebuild(pre[k], p) == Success(SaleKey(pre, p).value);
      assert infos[k] == pre[k];
    }
  }
}
