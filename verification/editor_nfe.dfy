/** `editarNFe` of src/lib/xml/editor.ts: the issuer, product and tax columns of
    a profile are copied into an NF-e, CST codes are set per CFOP, IPI values
    are zeroed for the configured operations and the totals recalculated, the
    dates are restamped, and the access key and the referenced key are moved
    to the rebuilt keys. */
module Nfe {
  import opened Wrappers
  import opened JsString
  import opened Doc
  import opened Trail
  import opened Config
  import opened Editing
  import opened Amounts
  import Tree
  import Dict

  const KeyLine: string := "Chave de Acesso ID alterada"
  const ProtocolKeyLine: string := "Chave de Acesso do Protocolo alterada"
  const RefLine: string := "Chave de Referência alterada"

  /** `d[k]` as a condition: the entry is there and is not empty. */
  function Mapped(d: Dict.Dict<string>, k: string): (v: Option<string>)
    ensures v.Some? <==> Dict.Get(d, k).Some? && Dict.Get(d, k).value != ""
    ensures v.Some? ==> v == Dict.Get(d, k)
  {
    match Dict.Get(d, k)
    case Some(x) => if x != "" then Some(x) else None
    case None => None
  }

  /** The `infNFe` the editor works on. */
  function InfNFe(t: Tree.Ref): Handle {
    Find(t, Root, ["infNFe"])
  }

  /** `getNodeAttr(infNFe, "Id")?.substring(3)`: the access key, `None` when the
      `Id` is missing or has nothing after its prefix. */
  function KeyOf(id: Option<string>): (k: Option<string>)
    ensures k.Some? <==> id.Some? && |id.value| > 3
    ensures k.Some? ==> id.value == id.value[..3] + k.value
  {
    if id.Some? && SubFrom(id.value, 3) != "" then Some(SubFrom(id.value, 3)) else None
  }

  /** The editor goes past its two early returns. */
  predicate Opens(t: Tree.Ref) {
    IsSet(t, InfNFe(t)) && KeyOf(Tree.AttrLoose(Val(t, InfNFe(t)), "Id")).Some?
  }

  function OriginalKey(t: Tree.Ref): string
    requires Opens(t)
  {
    KeyOf(Tree.AttrLoose(Val(t, InfNFe(t)), "Id")).value
  }

  // ---------------------------------------------------------------------------
  // Columns

  /** The issuer's columns, address columns under `enderEmit`. */
  function Issuer(r: Run, inf: Handle, p: Profile): (r': Run)
    ensures Extends(r', r) && TextOnly(Since(r', r))
    ensures Logged(r', r)
  {
    if p.flags.emitente && p.emitente.Some? then
      var emit := Look(r, inf, ["emit"]);
      var ender := Look(r, emit, ["enderEmit"]);
      OverridesText(r, p.emitente.value, emit, ender, true, "Emitente");
      Overrides(r, p.emitente.value, emit, ender, true, "Emitente")
    else r
  }

  /** The product columns, each looked up under `prod`. */
  function Products(r: Run, prod: Handle, p: Profile): (r': Run)
    ensures Extends(r', r) && TextOnly(Since(r', r))
    ensures Logged(r', r)
  {
    if p.flags.produtos && p.produto.Some? then
      OverridesText(r, p.produto.value, prod, prod, false, "Produto");
      Overrides(r, p.produto.value, prod, prod, false, "Produto")
    else r
  }

  /** The tax columns, each looked up under `imposto`. */
  function Taxes(r: Run, imposto: Handle, p: Profile): (r': Run)
    ensures Extends(r', r) && TextOnly(Since(r', r))
    ensures Logged(r', r)
  {
    if p.flags.impostos && p.impostos.Some? then
      OverridesText(r, p.impostos.value, imposto, imposto, false, "Imposto");
      Overrides(r, p.impostos.value, imposto, imposto, false, "Imposto")
    else r
  }

  // ---------------------------------------------------------------------------
  // CST and IPI

  /** One CST column of the rule: the `CST` under the tax element it names. */
  function CstColumn(r: Run, imposto: Handle, name: string, cst: string): (r': Run)
    ensures Extends(r', r) && TextOnly(Since(r', r))
    ensures Logged(r', r)
    ensures var tag := Look(r, imposto, [name]); var h := Look(r, tag, ["CST"]);
      && (cst != "" && Found(r, tag) && Found(r, h) ==>
            Since(r', r) == [Change(h, TextSlot, cst)] && r'.log == r.log + ["CST do " + name + " alterado"])
      && (!(cst != "" && Found(r, tag) && Found(r, h)) ==> r' == r)
  {
    var tag := Look(r, imposto, [name]);
    if cst != "" && Found(r, tag) then
      var h := Look(r, tag, ["CST"]);
      SetIfFoundText(r, h, cst, "CST do " + name + " alterado");
      SetIfFound(r, h, cst, "CST do " + name + " alterado")
    else r
  }

  /** The columns of a CST rule in order: ICMS, IPI, PIS, COFINS. */
  function CstColumns(r: Run, imposto: Handle, cols: seq<(string, string)>): (r': Run)
    ensures Extends(r', r) && TextOnly(Since(r', r))
    ensures Logged(r', r)
    decreases |cols|
  {
    if cols == [] then r
    else
      var r1 := CstColumn(r, imposto, cols[0].0, cols[0].1);
      var r' := CstColumns(r1, imposto, cols[1..]);
      TextOnlyTrans(r', r1, r);
      r'
  }

  /** `setNodeText(findElementDeep(base, tag), s)`, unconditionally: a missing
      element leaves the document as it is. */
  function Put(r: Run, base: Handle, tag: string, s: string): (r': Run)
    ensures Extends(r', r) && TextOnly(Since(r', r)) && r'.log == r.log
    ensures TextsOf(Since(r', r), s)
    ensures Anchored(Cur(r), base) && Safe([tag]) && Val(Cur(r), Look(r, base, [tag])).Obj? ==>
      TextAt(Cur(r'), Look(r, base, [tag])) == Some(s)
  {
    FindAnchoredIf(Cur(r), base, [tag]);
    WriteText(r, Look(r, base, [tag]), s)
  }

  /** `vIPI` and `vBC` become "0.00" and `pIPI` "0.0000" under the IPI element;
      the line is logged regardless. */
  function ZeroIpi(r: Run, ipi: Handle, msg: string): (r': Run)
    ensures Extends(r', r) && TextOnly(Since(r', r)) && r'.log == r.log + [msg]
    ensures Logged(r', r)
  {
    var r2 := ZeroValues(r, ipi);
    var r3 := Put(r2, ipi, "pIPI", "0.0000");
    TextOnlyTrans(r3, r2, r);
    Note(r3, msg)
  }

  /** `["vIPI", "vBC"].forEach(...)`: both become "0.00". */
  function ZeroValues(r: Run, ipi: Handle): (r': Run)
    ensures Extends(r', r) && TextOnly(Since(r', r)) && TextsOf(Since(r', r), "0.00") && r'.log == r.log
  {
    var r1 := Put(r, ipi, "vIPI", "0.00");
    var r2 := Put(r1, ipi, "vBC", "0.00");
    StampedTrans(r2, r1, r, "0.00");
    r2
  }

  lemma FindAnchoredIf(t: Tree.Ref, base: Handle, path: seq<string>)
    ensures Anchored(t, base) && Safe(path) ==> Anchored(t, Find(t, base, path))
  {
    if Anchored(t, base) && Safe(path) {
      FindAnchored(t, base, path);
    }
  }

  lemma IpiTags()
    ensures Safe(["vIPI"]) && Safe(["vBC"]) && Safe(["pIPI"]) && Safe(["IPI"])
    ensures Plain("vIPI") && Plain("vBC") && Plain("pIPI") && "vIPI" != "pIPI" && "vBC" != "pIPI"
  {
    SafeWhenNotNamed(["vIPI"]);
    SafeWhenNotNamed(["vBC"]);
    SafeWhenNotNamed(["pIPI"]);
    SafeWhenNotNamed(["IPI"]);
    assert "vIPI"[0] != "pIPI"[0] && "vBC"[0] != "pIPI"[0];
  }

  /** After the first two writes, `vIPI` and `vBC`, where they are objects,
      read "0.00". */
  lemma ZeroValuesWrite(r: Run, ipi: Handle)
    requires Anchored(Cur(r), ipi)
    ensures var v, b, r2 := Look(r, ipi, ["vIPI"]), Look(r, ipi, ["vBC"]), ZeroValues(r, ipi);
      && (Val(Cur(r), v).Obj? ==> TextAt(Cur(r2), v) == Some("0.00"))
      && (Val(Cur(r), b).Obj? ==> TextAt(Cur(r2), b) == Some("0.00"))
  {
    var v, b := Look(r, ipi, ["vIPI"]), Look(r, ipi, ["vBC"]);
    IpiTags();
    var r1 := Put(r, ipi, "vIPI", "0.00");
    var r2 := Put(r1, ipi, "vBC", "0.00");
    assert r2 == ZeroValues(r, ipi);
    FindAnchored(Cur(r), ipi, ["vIPI"]);
    FindAnchored(Cur(r), ipi, ["vBC"]);
    HandleLater(r1, r, ipi);
    LookLater(r1, r, ipi, ["vBC"]);
    HandleLater(r1, r, v);
    HandleLater(r1, r, b);
    if Val(Cur(r), v).Obj? {
      TextStays(r2, r1, v, "0.00");
    }
  }

  /** After zeroing, `vIPI` and `vBC`, where they are objects, read "0.00" and
      `pIPI` "0.0000". */
  lemma ZeroIpiWrites(r: Run, ipi: Handle, msg: string)
    requires Anchored(Cur(r), ipi)
    ensures var r' := ZeroIpi(r, ipi, msg);
      && (Val(Cur(r), Look(r, ipi, ["vIPI"])).Obj? ==> TextAt(Cur(r'), Look(r, ipi, ["vIPI"])) == Some("0.00"))
      && (Val(Cur(r), Look(r, ipi, ["vBC"])).Obj? ==> TextAt(Cur(r'), Look(r, ipi, ["vBC"])) == Some("0.00"))
      && (Val(Cur(r), Look(r, ipi, ["pIPI"])).Obj? ==> TextAt(Cur(r'), Look(r, ipi, ["pIPI"])) == Some("0.0000"))
  {
    var v, b, q := Look(r, ipi, ["vIPI"]), Look(r, ipi, ["vBC"]), Look(r, ipi, ["pIPI"]);
    IpiTags();
    var r2 := ZeroValues(r, ipi);
    var r3 := Put(r2, ipi, "pIPI", "0.0000");
    assert ZeroIpi(r, ipi, msg) == Note(r3, msg);
    ZeroValuesWrite(r, ipi);
    FindAnchored(Cur(r), ipi, ["vIPI"]);
    FindAnchored(Cur(r), ipi, ["vBC"]);
    DistinctTags(Cur(r), ipi, "vIPI", "pIPI", v, q);
    DistinctTags(Cur(r), ipi, "vBC", "pIPI", b, q);
    FindAnchored(Cur(r), ipi, ["pIPI"]);
    HandleLater(r2, r, ipi);
    LookLater(r2, r, ipi, ["pIPI"]);
    HandleLater(r2, r, q);
    HandleLater(r2, r, v);
    HandleLater(r2, r, b);
    ZeroAfter(r2, r3, v, "0.00");
    ZeroAfter(r2, r3, b, "0.00");
  }

  /** A text survives a single write made elsewhere. */
  lemma ZeroAfter(r2: Run, r3: Run, h: Handle, z: string)
    requires Anchored(Cur(r2), h)
    requires Extends(r3, r2) && |Since(r3, r2)| == 1 && (h.Some? ==> Since(r3, r2)[0].at != h)
    ensures TextAt(Cur(r3), h) == TextAt(Cur(r2), h)
  {
    CurSince(r3, r2);
    TextAfterAll(Cur(r2), Since(r3, r2), h);
  }

  function ZeroIpiIf(r: Run, ipi: Handle, c: bool, msg: string): (r': Run)
    ensures Extends(r', r) && TextOnly(Since(r', r))
    ensures Logged(r', r)
    ensures r'.log == if c then r.log + [msg] else r.log
  {
    if c then ZeroIpi(r, ipi, msg) else r
  }

  const RemessaLine: string := "Valores de IPI zerados para remessa/retorno"
  const VendaLine: string := "Valores de IPI zerados para venda"

  /** The IPI of an item: zeroed for a remessa or retorno CFOP when that switch is
      on, and (again) for a sale CFOP when that one is. */
  function Ipi(r: Run, imposto: Handle, cfop: string, p: Profile, cfops: CfopTables): (r': Run)
    ensures Extends(r', r) && TextOnly(Since(r', r))
    ensures Logged(r', r)
  {
    var ipi := Look(r, imposto, ["IPI"]);
    if Found(r, ipi) then
      var r1 := ZeroIpiIf(r, ipi, p.flags.zerarIpiRemessaRetorno && cfop in cfops.remessas + cfops.retornos, RemessaLine);
      var r2 := ZeroIpiIf(r1, ipi, p.flags.zerarIpiVenda && cfop in cfops.vendas, VendaLine);
      TextOnlyTrans(r2, r1, r);
      r2
    else r
  }

  /** What an item's CFOP triggers: its CST rule, then the IPI. */
  function ByCfop(r: Run, imposto: Handle, cfop: string, p: Profile, cfops: CfopTables): (r': Run)
    ensures Extends(r', r) && TextOnly(Since(r', r))
    ensures Logged(r', r)
  {
    var rule := RuleFor(p.cstRules, cfop);
    var r1 := if p.flags.cst && rule.Some? then CstColumns(r, imposto, Config.CstColumns(rule.value)) else r;
    var r2 := Ipi(r1, imposto, cfop, p, cfops);
    TextOnlyTrans(r2, r1, r);
    r2
  }

  /** One `det`: skipped unless both `prod` and `imposto` are found; the CFOP is
      read after the product columns are written. */
  function Item(r: Run, det: Handle, p: Profile, cfops: CfopTables): (r': Run)
    ensures Extends(r', r) && TextOnly(Since(r', r))
    ensures Logged(r', r)
  {
    var prod := Look(r, det, ["prod"]);
    var imposto := Look(r, det, ["imposto"]);
    if !Found(r, prod) || !Found(r, imposto) then r
    else
      var r1 := Products(r, prod, p);
      var r2 := Taxes(r1, imposto, p);
      TextOnlyTrans(r2, r1, r);
      var cfop := ReadText(r2, Look(r2, prod, ["CFOP"]));
      if cfop.Some? && cfop.value != "" then
        var r3 := ByCfop(r2, imposto, cfop.value, p, cfops);
        TextOnlyTrans(r3, r2, r);
        r3
      else r2
  }

  /** The items, in document order. */
  function Items(r: Run, dets: seq<Handle>, p: Profile, cfops: CfopTables): (r': Run)
    ensures Extends(r', r) && TextOnly(Since(r', r))
    ensures Logged(r', r)
    decreases |dets|
  {
    if dets == [] then r
    else
      var r1 := Item(r, dets[0], p, cfops);
      var r' := Items(r1, dets[1..], p, cfops);
      TextOnlyTrans(r', r1, r);
      r'
  }

  // ---------------------------------------------------------------------------
  // Totals

  /** The six sums `recalculaTotaisIpi` keeps, in centavos; `None` is NaN. */
  datatype Totals = Totals(vProd: Amount, vIPI: Amount, vDesc: Amount, vFrete: Amount, vSeg: Amount, vOutro: Amount)

  const NoTotals: Totals := Totals(Some(0), Some(0), Some(0), Some(0), Some(0), Some(0))

  /** `safeGetFloat(node, tag)`: the text under `tag`, zero when there is none. */
  function ReadAt(t: Tree.Ref, node: Handle, tag: string): Amount {
    ReadAmount(TextAt(t, Find(t, node, [tag])))
  }

  /** What one `det` adds: five values under `prod`, and `vIPI` under `imposto/IPI`.
      Neither `prod` nor `imposto` has to be there: a missing one adds zero. */
  function Line(t: Tree.Ref, det: Handle): Totals {
    var prod := Find(t, det, ["prod"]);
    Totals(ReadAt(t, prod, "vProd"), LineIpi(t, det), ReadAt(t, prod, "vDesc"),
           ReadAt(t, prod, "vFrete"), ReadAt(t, prod, "vSeg"), ReadAt(t, prod, "vOutro"))
  }

  function LineIpi(t: Tree.Ref, det: Handle): Amount {
    ReadAt(t, Find(t, Find(t, det, ["imposto"]), ["IPI"]), "vIPI")
  }

  function Plus(a: Totals, b: Totals): Totals {
    Totals(Add(a.vProd, b.vProd), Add(a.vIPI, b.vIPI), Add(a.vDesc, b.vDesc),
           Add(a.vFrete, b.vFrete), Add(a.vSeg, b.vSeg), Add(a.vOutro, b.vOutro))
  }

  /** What each item adds, in document order. */
  function Lines(t: Tree.Ref, dets: seq<Handle>): (ls: seq<Totals>)
    ensures |ls| == |dets|
    ensures forall i :: 0 <= i < |dets| ==> ls[i] == Line(t, dets[i])
  {
    seq(|dets|, i requires 0 <= i < |dets| => Line(t, dets[i]))
  }

  /** Per-item sums added in order from zero. */
  function SumOf(ls: seq<Totals>): Totals
    decreases |ls|
  {
    if ls == [] then NoTotals else Plus(SumOf(ls[..|ls| - 1]), ls[|ls| - 1])
  }

  /** The sums over the items, added in document order from zero. */
  function Sum(t: Tree.Ref, dets: seq<Handle>): Totals {
    SumOf(Lines(t, dets))
  }

  /** The new `vNF`: vProd + vIPI + vFrete + vSeg + vOutro - vDesc. */
  function VNF(s: Totals): (a: Amount)
    ensures a.Some? <==> s.vProd.Some? && s.vIPI.Some? && s.vFrete.Some? && s.vSeg.Some? && s.vOutro.Some? && s.vDesc.Some?
    ensures a.Some? ==> a.value == s.vProd.value + s.vIPI.value + s.vFrete.value + s.vSeg.value + s.vOutro.value - s.vDesc.value
  {
    Sub(Add(Add(Add(Add(s.vProd, s.vIPI), s.vFrete), s.vSeg), s.vOutro), s.vDesc)
  }

  /** Summing two runs of items is adding their sums. */
  lemma {:induction false} SumOfConcat(a: seq<Totals>, b: seq<Totals>)
    ensures SumOf(a + b) == Plus(SumOf(a), SumOf(b))
    decreases |b|
  {
    if b == [] {
      assert a + b == a;
      PlusZero(SumOf(a));
    } else {
      var b' := b[..|b| - 1];
      assert (a + b)[..|a + b| - 1] == a + b';
      assert (a + b)[|a + b| - 1] == b[|b| - 1];
      SumOfConcat(a, b');
      PlusAssoc(SumOf(a), SumOf(b'), b[|b| - 1]);
    }
  }

  lemma PlusZero(a: Totals)
    ensures Plus(a, NoTotals) == a
  {
  }

  lemma PlusAssoc(a: Totals, b: Totals, c: Totals)
    ensures Plus(Plus(a, b), c) == Plus(a, Plus(b, c))
  {
  }

  /** The items' vIPI values in document order. */
  function Ipis(t: Tree.Ref, dets: seq<Handle>): (xs: seq<Amount>)
    ensures |xs| == |dets|
    ensures forall i :: 0 <= i < |dets| ==> xs[i] == LineIpi(t, dets[i])
  {
    seq(|dets|, i requires 0 <= i < |dets| => LineIpi(t, dets[i]))
  }

  /** The vIPI column of per-item sums. */
  function IpiColumn(ls: seq<Totals>): (xs: seq<Amount>)
    ensures |xs| == |ls|
    ensures forall i :: 0 <= i < |ls| ==> xs[i] == ls[i].vIPI
  {
    seq(|ls|, i requires 0 <= i < |ls| => ls[i].vIPI)
  }

  /** The vIPI sum is the items' vIPI values added up. */
  lemma SumIsTotal(t: Tree.Ref, dets: seq<Handle>)
    ensures Sum(t, dets).vIPI == Total(Ipis(t, dets))
  {
    SumOfIpi(Lines(t, dets));
    assert IpiColumn(Lines(t, dets)) == Ipis(t, dets);
  }

  lemma {:induction false} SumOfIpi(ls: seq<Totals>)
    ensures SumOf(ls).vIPI == Total(IpiColumn(ls))
    decreases |ls|
  {
    if ls != [] {
      var init := ls[..|ls| - 1];
      SumOfIpi(init);
      var xs := IpiColumn(ls);
      InitOf(xs, IpiColumn(init));
      assert Total(xs) == Add(Total(xs[..|xs| - 1]), xs[|xs| - 1]);
    }
  }

  lemma InitOf(xs: seq<Amount>, ys: seq<Amount>)
    requires |xs| == |ys| + 1 && forall i :: 0 <= i < |ys| ==> ys[i] == xs[i]
    ensures xs[..|xs| - 1] == ys
  {
  }

  /** Amounts added up in order from zero. */
  function Total(xs: seq<Amount>): Amount
    decreases |xs|
  {
    if xs == [] then Some(0) else Add(Total(xs[..|xs| - 1]), xs[|xs| - 1])
  }

  /** The plain sum of the numbers among `xs`. */
  function Numbers(xs: seq<Amount>): int
    decreases |xs|
  {
    if xs == [] then 0
    else Numbers(xs[..|xs| - 1]) + (if xs[|xs| - 1].Some? then xs[|xs| - 1].value else 0)
  }

  /** A total is a number exactly when every amount is, and it is then their sum:
      one unreadable value makes the total NaN. */
  lemma {:induction false} TotalNaN(xs: seq<Amount>)
    ensures Total(xs).Some? <==> forall i :: 0 <= i < |xs| ==> xs[i].Some?
    ensures Total(xs).Some? ==> Total(xs).value == Numbers(xs)
    decreases |xs|
  {
    if xs != [] {
      var init := xs[..|xs| - 1];
      TotalNaN(init);
      assert forall i :: 0 <= i < |init| ==> init[i] == xs[i];
    }
  }

  /** The written vIPI total is NaN exactly when some item's vIPI cannot be read. */
  lemma SumIpi(t: Tree.Ref, dets: seq<Handle>)
    ensures Sum(t, dets).vIPI.Some? <==> forall i :: 0 <= i < |dets| ==> LineIpi(t, dets[i]).Some?
    ensures Sum(t, dets).vIPI.Some? ==> Sum(t, dets).vIPI.value == Numbers(Ipis(t, dets))
  {
    SumIsTotal(t, dets);
    TotalNaN(Ipis(t, dets));
  }

  /** A total written with `toFixed(2)` reads back as the same amount, NaN included. */
  lemma ReadBack(a: Amount)
    ensures ReadAmount(Some(ToFixed(a))) == a
  {
    if a.Some? {
      ParseFormat(a.value);
    } else {
      assert "NaN"[0] != '-';
      SplitNoSep("NaN", '.');
      assert !AllDigits("NaN") by { assert !IsDigit("NaN"[0]); }
    }
  }

  const IpiLine: string := "Total vIPI recalculado"
  const VnfLine: string := "Total vNF recalculado"

  /** Where `recalculaTotaisIpi` writes. */
  function IcmsTot(r: Run, inf: Handle): Handle {
    Look(r, inf, ["total", "ICMSTot"])
  }

  /** `recalculaTotaisIpi(infNFe, alteracoes)`: the totals of the items as the
      document now is, written into `vIPI` and `vNF` of `total/ICMSTot`. */
  function Recalc(r: Run, inf: Handle): (r': Run)
    ensures Extends(r', r) && TextOnly(Since(r', r))
    ensures Logged(r', r)
    ensures !Found(r, IcmsTot(r, inf)) ==> r' == r
  {
    var icms := IcmsTot(r, inf);
    if !Found(r, icms) then r
    else
      var s := Sum(Cur(r), LookAll(r, inf, ["det"]));
      var hIpi := Look(r, icms, ["vIPI"]);
      var hNf := Look(r, icms, ["vNF"]);
      var r1 := SetIfFound(r, hIpi, ToFixed(s.vIPI), IpiLine);
      var r2 := SetIfFound(r1, hNf, ToFixed(VNF(s)), VnfLine);
      SetIfFoundText(r, hIpi, ToFixed(s.vIPI), IpiLine);
      SetIfFoundText(r1, hNf, ToFixed(VNF(s)), VnfLine);
      TextOnlyTrans(r2, r1, r);
      r2
  }

  /** The lookups of the totals step along plain tag names. */
  lemma TotalTags()
    ensures Safe(["total", "ICMSTot"]) && Safe(["vIPI"]) && Safe(["vNF"]) && Safe(["det"])
    ensures Plain("vIPI") && Plain("vNF") && "vIPI" != "vNF"
  {
    SafeWhenNotNamed(["total", "ICMSTot"]);
    SafeWhenNotNamed(["vIPI"]);
    SafeWhenNotNamed(["vNF"]);
    SafeWhenNotNamed(["det"]);
    assert "vIPI"[1] != "vNF"[1];
  }

  /** After the totals step, `vIPI` and `vNF` of `ICMSTot`, where they are objects,
      read back as the vIPI sum of the items and as the `vNF` formula over the
      sums (NaN as NaN). */
  lemma RecalcWrites(r: Run, inf: Handle)
    requires Anchored(Cur(r), inf)
    ensures var icms := IcmsTot(r, inf); var r' := Recalc(r, inf);
      var s := Sum(Cur(r), LookAll(r, inf, ["det"]));
      var hIpi, hNf := Look(r, icms, ["vIPI"]), Look(r, icms, ["vNF"]);
      && (Found(r, icms) && Val(Cur(r), hIpi).Obj? ==> ReadAmount(TextAt(Cur(r'), hIpi)) == s.vIPI)
      && (Found(r, icms) && Val(Cur(r), hNf).Obj? ==> ReadAmount(TextAt(Cur(r'), hNf)) == VNF(s))
  {
    var icms := IcmsTot(r, inf);
    if Found(r, icms) {
      var s := Sum(Cur(r), LookAll(r, inf, ["det"]));
      var hIpi, hNf := Look(r, icms, ["vIPI"]), Look(r, icms, ["vNF"]);
      TotalTags();
      FindAnchored(Cur(r), inf, ["total", "ICMSTot"]);
      FindAnchored(Cur(r), icms, ["vIPI"]);
      FindAnchored(Cur(r), icms, ["vNF"]);
      DistinctTags(Cur(r), icms, "vIPI", "vNF", hIpi, hNf);
      SetTwice(r, hIpi, ToFixed(s.vIPI), IpiLine, hNf, ToFixed(VNF(s)), VnfLine);
      ReadBack(s.vIPI);
      ReadBack(VNF(s));
    }
  }

  // ---------------------------------------------------------------------------
  // Dates

  /** The receipt date of the protocol, `protNFe/infProt/dhRecbto`. */
  function Receipt(r: Run, stamp: string): (r': Run)
    ensures Extends(r', r) && TextOnly(Since(r', r)) && TextsOf(Since(r', r), stamp)
    ensures Logged(r', r)
  {
    var prot := Look(r, Root, ["protNFe", "infProt"]);
    if Found(r, prot) then Stamped(r, Look(r, prot, ["dhRecbto"]), stamp, "Protocolo: <dhRecbto> alterado")
    else r
  }

  /** `ide/dhEmi`, then `ide/dhSaiEnt`, then the protocol's receipt date all take
      the new timestamp, when the date override is on. */
  function Dates(r: Run, inf: Handle, p: Profile, stamp: string): (r': Run)
    ensures Extends(r', r) && TextOnly(Since(r', r))
    ensures Logged(r', r)
    ensures !DateOverride(p) ==> r' == r
    ensures TextsOf(Since(r', r), stamp)
  {
    if DateOverride(p) then
      var r2 := IssueStamps(r, Look(r, inf, ["ide"]), stamp);
      var r3 := Receipt(r2, stamp);
      StampedTrans(r3, r2, r, stamp);
      r3
    else r
  }

  /** `["dhEmi", "dhSaiEnt"].forEach(...)` under `ide`. */
  function IssueStamps(r: Run, ide: Handle, stamp: string): (r': Run)
    ensures Extends(r', r) && TextOnly(Since(r', r)) && TextsOf(Since(r', r), stamp)
    ensures Logged(r', r)
  {
    var r1 := Stamped(r, Look(r, ide, ["dhEmi"]), stamp, "Data: <dhEmi> alterada");
    var r2 := Stamped(r1, Look(r1, ide, ["dhSaiEnt"]), stamp, "Data: <dhSaiEnt> alterada");
    StampedTrans(r2, r1, r, stamp);
    r2
  }

  /** `SetIfFound` with the timestamp. */
  function Stamped(r: Run, h: Handle, stamp: string, msg: string): (r': Run)
    ensures Extends(r', r) && TextOnly(Since(r', r)) && TextsOf(Since(r', r), stamp)
    ensures Logged(r', r)
    ensures Found(r, h) ==> r'.log == r.log + [msg]
  {
    SetIfFoundText(r, h, stamp, msg);
    SetIfFoundWrites(r, h, stamp, msg, 0);
    SetIfFound(r, h, stamp, msg)
  }

  lemma StampedTrans(r2: Run, r1: Run, r: Run, stamp: string)
    requires Extends(r2, r1) && Extends(r1, r)
    requires TextOnly(Since(r1, r)) && TextOnly(Since(r2, r1))
    requires TextsOf(Since(r1, r), stamp) && TextsOf(Since(r2, r1), stamp)
    ensures Extends(r2, r) && TextOnly(Since(r2, r)) && TextsOf(Since(r2, r), stamp)
  {
    TextOnlyTrans(r2, r1, r);
    SinceTrans(r2, r1, r);
    TextsConcat(Since(r1, r), Since(r2, r1), stamp);
  }

  // ---------------------------------------------------------------------------
  // Keys

  /** `Id` becomes "NFe" + the new key. */
  function NewId(r: Run, inf: Handle, nova: string): (r': Run)
    ensures Extends(r', r) && r'.log == r.log + [KeyLine]
    ensures Logged(r', r)
    ensures Since(r', r) == [Change(inf, IdSlot, "NFe" + nova)]
  {
    var r1 := WriteId(r, inf, "NFe" + nova);
    assert r1.trail == r.trail + [Change(inf, IdSlot, "NFe" + nova)];
    Note(r1, KeyLine)
  }

  /** The protocol's `chNFe` takes the new key. */
  function ProtocolKey(r: Run, nova: string): (r': Run)
    ensures Extends(r', r) && TextOnly(Since(r', r))
    ensures Logged(r', r)
  {
    var prot := Look(r, Root, ["protNFe", "infProt"]);
    if Found(r, prot) then
      var h := Look(r, prot, ["chNFe"]);
      SetIfFoundText(r, h, nova, ProtocolKeyLine);
      SetIfFound(r, h, nova, ProtocolKeyLine)
    else r
  }

  /** The access key moves to its mapped key, if it has one: the `Id` first, then
      the protocol. */
  function RewriteKey(r: Run, inf: Handle, key: string, chave: Dict.Dict<string>): (r': Run)
    ensures Extends(r', r)
    ensures Logged(r', r)
    ensures Mapped(chave, key).None? ==> r' == r
    ensures Mapped(chave, key).Some? ==>
      && |Since(r', r)| >= 1 && Since(r', r)[0] == Change(inf, IdSlot, "NFe" + Mapped(chave, key).value)
      && TextOnly(Since(r', r)[1..]) && |r'.log| > |r.log| && r'.log[|r.log|] == KeyLine
  {
    match Mapped(chave, key)
    case None => r
    case Some(nova) =>
      var r1 := NewId(r, inf, nova);
      var r' := ProtocolKey(r1, nova);
      SinceTrans(r', r1, r);
      assert Since(r', r)[1..] == Since(r', r1);
      assert r'.log[..|r1.log|] == r1.log;
      r'
  }

  /** The new referenced key: the reference switch is on, the document's key has
      a reference in the batch, and that referenced key has a mapped key. */
  function NewReference(key: string, p: Profile, chave: Dict.Dict<string>, refs: Dict.Dict<string>): (o: Option<string>)
    ensures o.Some? ==> o.value != ""
  {
    if !p.flags.refNFe then None
    else
      match Mapped(refs, key)
      case None => None
      case Some(referenced) => Mapped(chave, referenced)
  }

  /** `ide/NFref/refNFe` takes the new referenced key, when there is one and the
      element is found; nothing happens otherwise. */
  function RewriteReference(r: Run, inf: Handle, key: string, p: Profile,
                            chave: Dict.Dict<string>, refs: Dict.Dict<string>): (r': Run)
    ensures Extends(r', r) && TextOnly(Since(r', r))
    ensures Logged(r', r)
    ensures var h, o := Look(r, inf, ["ide", "NFref", "refNFe"]), NewReference(key, p, chave, refs);
      && (o.Some? && Found(r, h) ==> Since(r', r) == [Change(h, TextSlot, o.value)] && r'.log == r.log + [RefLine])
      && (!(o.Some? && Found(r, h)) ==> r' == r)
  {
    match NewReference(key, p, chave, refs)
    case None => r
    case Some(nova) =>
      var h := Look(r, inf, ["ide", "NFref", "refNFe"]);
      SetIfFoundText(r, h, nova, RefLine);
      SetIfFound(r, h, nova, RefLine)
  }

  // ---------------------------------------------------------------------------
  // The editor

  /** Every step before the key: columns, items, totals and dates. */
  function Edited(r: Run, inf: Handle, p: Profile, cfops: CfopTables, stamp: string): (r': Run)
    ensures Extends(r', r) && TextOnly(Since(r', r))
    ensures Logged(r', r)
  {
    var r1 := Issuer(r, inf, p);
    var r2 := Items(r1, LookAll(r1, inf, ["det"]), p, cfops);
    TextOnlyTrans(r2, r1, r);
    var r3 := if p.flags.zerarIpiRemessaRetorno || p.flags.zerarIpiVenda then Recalc(r2, inf) else r2;
    TextOnlyTrans(r3, r2, r);
    var r4 := Dates(r3, inf, p, stamp);
    TextOnlyTrans(r4, r3, r);
    r4
  }

  /** `editarNFe(xmlObj, config, chaveMapping, referenceMap)`: the CFOP tables are
      the unseen constants and `rt` supplies the time of day. A document without
      `infNFe`, or whose `Id` has nothing after its prefix, comes back untouched
      with an empty log. */
  function EditNFe(t: Tree.Ref, p: Profile, cfops: CfopTables, chave: Dict.Dict<string>,
                   refs: Dict.Dict<string>, rt: Runtime): (r: Run)
    ensures r.t0 == t
    ensures Extends(r, Begin(t)) && Logged(r, Begin(t))
    ensures !Opens(t) ==> r == Begin(t)
  {
    if !Opens(t) then Begin(t)
    else
      var key := OriginalKey(t);
      var r4 := Edited(Begin(t), InfNFe(t), p, cfops, Stamp(p, rt));
      var r5 := RewriteKey(r4, InfNFe(t), key, chave);
      var r6 := RewriteReference(r5, InfNFe(t), key, p, chave, refs);
      ExtendsTrans(r6, r5, r4);
      ExtendsTrans(r6, r4, Begin(t));
      LoggedTrans(r6, r5, r4);
      LoggedTrans(r6, r4, Begin(t));
      r6
  }

  // ---------------------------------------------------------------------------
  // What the editor leaves

  lemma InfAnchored(t: Tree.Ref, cs: seq<Change>)
    ensures Anchored(Apply(t, cs), InfNFe(t))
  {
    SafeWhenNotNamed(["infNFe"]);
    RootAnchored(t);
    FindAnchored(t, Root, ["infNFe"]);
    AnchoredAfterAll(t, cs, InfNFe(t));
  }

  /** `infNFe` stays anchored in every later run. */
  lemma InfAnchoredLater(t: Tree.Ref, r: Run)
    requires Extends(r, Begin(t))
    ensures Anchored(Cur(r), InfNFe(t))
  {
    CurSince(r, Begin(t));
    InfAnchored(t, Since(r, Begin(t)));
  }

  /** The run after every step before the key. */
  function Edited0(t: Tree.Ref, p: Profile, cfops: CfopTables, rt: Runtime): Run {
    Edited(Begin(t), InfNFe(t), p, cfops, Stamp(p, rt))
  }

  /** The run after the key step. */
  function Rekeyed0(t: Tree.Ref, p: Profile, cfops: CfopTables, chave: Dict.Dict<string>, rt: Runtime): Run
    requires Opens(t)
  {
    RewriteKey(Edited0(t, p, cfops, rt), InfNFe(t), OriginalKey(t), chave)
  }

  /** An edit that goes past its early returns is its three stages. */
  lemma NfeSteps(t: Tree.Ref, p: Profile, cfops: CfopTables, chave: Dict.Dict<string>,
                 refs: Dict.Dict<string>, rt: Runtime)
    requires Opens(t)
    ensures EditNFe(t, p, cfops, chave, refs, rt) ==
      RewriteReference(Rekeyed0(t, p, cfops, chave, rt), InfNFe(t), OriginalKey(t), p, chave, refs)
    ensures Extends(Rekeyed0(t, p, cfops, chave, rt), Edited0(t, p, cfops, rt))
    ensures Extends(Edited0(t, p, cfops, rt), Begin(t))
    ensures Extends(Rekeyed0(t, p, cfops, chave, rt), Begin(t))
  {
    ExtendsTrans(Rekeyed0(t, p, cfops, chave, rt), Edited0(t, p, cfops, rt), Begin(t));
  }

  /** The key step leaves "NFe" + the mapped key in the `Id` when there is one. */
  lemma RewriteKeyId(r: Run, inf: Handle, key: string, chave: Dict.Dict<string>)
    requires Anchored(Cur(r), inf) && Val(Cur(r), inf).Obj?
    ensures ReadId(RewriteKey(r, inf, key, chave), inf) ==
      if Mapped(chave, key).Some? then Some("NFe" + Mapped(chave, key).value) else ReadId(r, inf)
  {
    if Mapped(chave, key).Some? {
      var nova := Mapped(chave, key).value;
      var r1 := WriteId(r, inf, "NFe" + nova);
      assert NewId(r, inf, nova) == Note(r1, KeyLine);
      var r2 := ProtocolKey(NewId(r, inf, nova), nova);
      assert RewriteKey(r, inf, key, chave) == r2;
      CurSince(r1, r);
      AnchoredAfterAll(Cur(r), Since(r1, r), inf);
      IdKept(r2, NewId(r, inf, nova), inf);
    }
  }

  /** The `Id` after the edit: "NFe" + the mapped key when the document's key is
      mapped to a non-empty one, the original `Id` otherwise. */
  lemma NfeIdResult(t: Tree.Ref, p: Profile, cfops: CfopTables, chave: Dict.Dict<string>,
                    refs: Dict.Dict<string>, rt: Runtime)
    requires Opens(t)
    ensures var nova := Mapped(chave, OriginalKey(t));
      ReadId(EditNFe(t, p, cfops, chave, refs, rt), InfNFe(t)) ==
        if nova.Some? then Some("NFe" + nova.value) else Tree.AttrLoose(Val(t, InfNFe(t)), "Id")
  {
    NfeSteps(t, p, cfops, chave, refs, rt);
    var inf := InfNFe(t);
    var r4 := Edited0(t, p, cfops, rt);
    var r5 := Rekeyed0(t, p, cfops, chave, rt);
    InfAnchoredLater(t, Begin(t));
    IdKept(r4, Begin(t), inf);
    InfAnchoredLater(t, r4);
    RewriteKeyId(r4, inf, OriginalKey(t), chave);
    InfAnchoredLater(t, r5);
    IdKept(EditNFe(t, p, cfops, chave, refs, rt), r5, inf);
  }

  /** Where the key step writes in the protocol. */
  function ProtNFe(t: Tree.Ref): Handle {
    Find(t, Root, ["protNFe", "infProt"])
  }

  function ChNFe(t: Tree.Ref): Handle {
    Find(t, ProtNFe(t), ["chNFe"])
  }

  /** The protocol handles are anchored and are what every later run finds. */
  lemma ProtLater(t: Tree.Ref, r: Run)
    requires Extends(r, Begin(t))
    ensures Anchored(t, ProtNFe(t)) && Anchored(Cur(r), ChNFe(t))
    ensures Look(r, Root, ["protNFe", "infProt"]) == ProtNFe(t)
    ensures Look(r, ProtNFe(t), ["chNFe"]) == ChNFe(t)
    ensures Found(r, ProtNFe(t)) <==> IsSet(t, ProtNFe(t))
    ensures Val(Cur(r), ChNFe(t)).Obj? <==> Val(t, ChNFe(t)).Obj?
  {
    SafeWhenNotNamed(["protNFe", "infProt"]);
    SafeWhenNotNamed(["chNFe"]);
    RootAnchored(t);
    LookLater(r, Begin(t), Root, ["protNFe", "infProt"]);
    LookLater(r, Begin(t), ProtNFe(t), ["chNFe"]);
    HandleLater(r, Begin(t), ChNFe(t));
  }

  /** The reference step writes four levels below the document, the protocol key
      three: they never meet. */
  lemma ReferenceMissesChNFe(t: Tree.Ref, r: Run, key: string, p: Profile,
                             chave: Dict.Dict<string>, refs: Dict.Dict<string>)
    requires Extends(r, Begin(t))
    ensures var r' := RewriteReference(r, InfNFe(t), key, p, chave, refs);
      TextAt(Cur(r'), ChNFe(t)) == TextAt(Cur(r), ChNFe(t))
  {
    var r' := RewriteReference(r, InfNFe(t), key, p, chave, refs);
    var h := Look(r, InfNFe(t), ["ide", "NFref", "refNFe"]);
    ProtLater(t, r);
    if NewReference(key, p, chave, refs).Some? && Found(r, h) {
      assert |h.value| == 4;
      assert ChNFe(t).Some? ==> |ChNFe(t).value| == 3;
      TextElsewhere(r', r, h, NewReference(key, p, chave, refs).value, ChNFe(t));
    }
  }

  /** After the edit, a protocol `chNFe` that is an object holds the mapped key,
      when the document's key is mapped. */
  lemma ChNFeResult(t: Tree.Ref, p: Profile, cfops: CfopTables, chave: Dict.Dict<string>,
                    refs: Dict.Dict<string>, rt: Runtime)
    ensures Opens(t) && Mapped(chave, OriginalKey(t)).Some? && IsSet(t, ProtNFe(t)) && Val(t, ChNFe(t)).Obj? ==>
      TextAt(Cur(EditNFe(t, p, cfops, chave, refs, rt)), ChNFe(t)) == Mapped(chave, OriginalKey(t))
  {
    if !(Opens(t) && Mapped(chave, OriginalKey(t)).Some? && IsSet(t, ProtNFe(t)) && Val(t, ChNFe(t)).Obj?) {
      return;
    }
    NfeSteps(t, p, cfops, chave, refs, rt);
    var nova := Mapped(chave, OriginalKey(t)).value;
    var r4 := Edited0(t, p, cfops, rt);
    var r1 := NewId(r4, InfNFe(t), nova);
    ExtendsTrans(r1, r4, Begin(t));
    ProtLater(t, r1);
    var r5 := ProtocolKey(r1, nova);
    assert Rekeyed0(t, p, cfops, chave, rt) == r5;
    assert r5 == SetIfFound(r1, ChNFe(t), nova, ProtocolKeyLine);
    SetIfFoundHolds(r1, ChNFe(t), nova, ProtocolKeyLine);
    ReferenceMissesChNFe(t, r5, OriginalKey(t), p, chave, refs);
  }

  /** Where the reference step writes. */
  function RefNFe(t: Tree.Ref): Handle {
    Find(t, InfNFe(t), ["ide", "NFref", "refNFe"])
  }

  /** The reference step leaves the new referenced key in a `refNFe` object. */
  lemma ReferenceHolds(r: Run, inf: Handle, key: string, p: Profile,
                       chave: Dict.Dict<string>, refs: Dict.Dict<string>)
    requires Anchored(Cur(r), inf)
    ensures var h, o := Look(r, inf, ["ide", "NFref", "refNFe"]), NewReference(key, p, chave, refs);
      o.Some? && Val(Cur(r), h).Obj? ==> TextAt(Cur(RewriteReference(r, inf, key, p, chave, refs)), h) == o
  {
    var h, o := Look(r, inf, ["ide", "NFref", "refNFe"]), NewReference(key, p, chave, refs);
    if o.Some? && Val(Cur(r), h).Obj? {
      SafeWhenNotNamed(["ide", "NFref", "refNFe"]);
      FindAnchored(Cur(r), inf, ["ide", "NFref", "refNFe"]);
      assert RewriteReference(r, inf, key, p, chave, refs) == SetIfFound(r, h, o.value, RefLine);
      SetIfFoundHolds(r, h, o.value, RefLine);
    }
  }

  /** After the edit, a `refNFe` that is an object holds the new referenced key
      whenever there is one (when there is none, `RewriteReference` leaves the run
      as it was). */
  lemma RefNFeRewritten(t: Tree.Ref, p: Profile, cfops: CfopTables, chave: Dict.Dict<string>,
                        refs: Dict.Dict<string>, rt: Runtime)
    ensures Opens(t) && NewReference(OriginalKey(t), p, chave, refs).Some? && Val(t, RefNFe(t)).Obj? ==>
      TextAt(Cur(EditNFe(t, p, cfops, chave, refs, rt)), RefNFe(t)) == NewReference(OriginalKey(t), p, chave, refs)
  {
    if !(Opens(t) && NewReference(OriginalKey(t), p, chave, refs).Some? && Val(t, RefNFe(t)).Obj?) {
      return;
    }
    NfeSteps(t, p, cfops, chave, refs, rt);
    var r5 := Rekeyed0(t, p, cfops, chave, rt);
    RefLater(t, r5);
    ReferenceHolds(r5, InfNFe(t), OriginalKey(t), p, chave, refs);
  }

  /** `refNFe` is what every later run finds, and keeps its shape. */
  lemma RefLater(t: Tree.Ref, r: Run)
    requires Extends(r, Begin(t))
    ensures Anchored(Cur(r), InfNFe(t))
    ensures Look(r, InfNFe(t), ["ide", "NFref", "refNFe"]) == RefNFe(t)
    ensures Val(Cur(r), RefNFe(t)).Obj? <==> Val(t, RefNFe(t)).Obj?
  {
    InfAnchoredLater(t, Begin(t));
    InfAnchoredLater(t, r);
    SafeWhenNotNamed(["ide", "NFref", "refNFe"]);
    LookLater(r, Begin(t), InfNFe(t), ["ide", "NFref", "refNFe"]);
    HandleLater(r, Begin(t), RefNFe(t));
  }

  /** The two issue dates hold the timestamp after their two writes. */
  lemma IssueDates(r: Run, ide: Handle, stamp: string)
    requires Anchored(Cur(r), ide)
    ensures var e, s, r2 := Look(r, ide, ["dhEmi"]), Look(r, ide, ["dhSaiEnt"]), IssueStamps(r, ide, stamp);
      && Anchored(Cur(r2), e) && Anchored(Cur(r2), s)
      && (Val(Cur(r), e).Obj? ==> TextAt(Cur(r2), e) == Some(stamp))
      && (Val(Cur(r), s).Obj? ==> TextAt(Cur(r2), s) == Some(stamp))
  {
    var e, s := Look(r, ide, ["dhEmi"]), Look(r, ide, ["dhSaiEnt"]);
    var r1 := Stamped(r, e, stamp, "Data: <dhEmi> alterada");
    DateTags();
    FindAnchored(Cur(r), ide, ["dhEmi"]);
    FindAnchored(Cur(r), ide, ["dhSaiEnt"]);
    LookLater(r1, r, ide, ["dhSaiEnt"]);
    var r2 := Stamped(r1, s, stamp, "Data: <dhSaiEnt> alterada");
    assert r2 == IssueStamps(r, ide, stamp);
    HandleLater(r1, r, e);
    HandleLater(r1, r, s);
    HandleLater(r2, r1, e);
    HandleLater(r2, r1, s);
    if Val(Cur(r), e).Obj? {
      SetIfFoundHolds(r, e, stamp, "Data: <dhEmi> alterada");
      TextStays(r2, r1, e, stamp);
    }
    if Val(Cur(r), s).Obj? {
      SetIfFoundHolds(r1, s, stamp, "Data: <dhSaiEnt> alterada");
    }
  }

  /** With the date override on, `ide/dhEmi` and `ide/dhSaiEnt`, where they are
      objects, hold the timestamp after the date step: the receipt date written
      after them is the same timestamp. */
  lemma DatesWritten(r: Run, inf: Handle, p: Profile, stamp: string)
    requires Anchored(Cur(r), inf) && DateOverride(p)
    ensures var r' := Dates(r, inf, p, stamp); var ide := Look(r, inf, ["ide"]);
      && (Val(Cur(r), Look(r, ide, ["dhEmi"])).Obj? ==> TextAt(Cur(r'), Look(r, ide, ["dhEmi"])) == Some(stamp))
      && (Val(Cur(r), Look(r, ide, ["dhSaiEnt"])).Obj? ==> TextAt(Cur(r'), Look(r, ide, ["dhSaiEnt"])) == Some(stamp))
  {
    var ide := Look(r, inf, ["ide"]);
    var e, s := Look(r, ide, ["dhEmi"]), Look(r, ide, ["dhSaiEnt"]);
    DateTags();
    FindAnchored(Cur(r), inf, ["ide"]);
    IssueDates(r, ide, stamp);
    var r2 := IssueStamps(r, ide, stamp);
    var r' := Receipt(r2, stamp);
    if Val(Cur(r), e).Obj? {
      TextStays(r', r2, e, stamp);
    }
    if Val(Cur(r), s).Obj? {
      TextStays(r', r2, s, stamp);
    }
  }

  lemma DateTags()
    ensures Safe(["ide"]) && Safe(["dhEmi"]) && Safe(["dhSaiEnt"])
  {
    SafeWhenNotNamed(["ide"]);
    SafeWhenNotNamed(["dhEmi"]);
    SafeWhenNotNamed(["dhSaiEnt"]);
  }
}
