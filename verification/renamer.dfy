/** The renaming stage of src/lib/xml/renamer.ts: every NF-e registered for its
    invoice number gets a descriptive file name chosen by its CFOP and nature of
    operation, and every cancellation event whose key names an NF-e of the batch
    becomes `CAN-{number}.xml`. Reading the directory and moving files are not
    modelled; whether a move succeeds is the parameter `moved`. */
module Renamer {
  import opened Wrappers
  import opened JsString
  import opened Tree
  import opened Info
  import opened Config
  import Dict

  // ---------------------------------------------------------------------------
  // The NF-e name

  const NaoEntregue: string := "Retorno de mercadoria nao entregue"
  const Devolucao: string := "Devolucao de mercadorias"
  const RetornoSimbolico: string := "Outras Entradas - Retorno Simbolico de Deposito Temporario"
  const RetornoEfetivo: string := "Outras Entradas - Retorno de Deposito Temporario"

  /** `${x}` of a `string | null`. */
  function ShowNull(o: Option<string>): string {
    if o.Some? then o.value else "null"
  }

  /** The invoice number inside a referenced access key: characters 25 to 34,
      leading zeros dropped. */
  function RefNumber(refNFe: string): (n: string)
    ensures n == "" || n[0] != '0'
    ensures |n| <= |Substring(refNFe, 25, 34)|
    ensures Substring(refNFe, 25, 34) == Repeat('0', |Substring(refNFe, 25, 34)| - |n|) + n
  {
    StripLeadingZeros(Substring(refNFe, 25, 34))
  }

  /** `cfop && LIST.includes(cfop)` */
  predicate CfopIn(cfop: Option<string>, list: seq<string>) {
    Present(cfop) && cfop.value in list
  }

  predicate Marked(xTexto: Option<string>, marker: string) {
    Present(xTexto) && Contains(xTexto.value, marker)
  }

  /** The first branch: a devolution CFOP with a reference. It shadows every other branch. */
  predicate DevolutionCase(i: XmlInfo, t: CfopTables) {
    CfopIn(i.cfop, t.devolucoes) && Present(i.refNFe)
  }

  /** What the new name says about the document, between the number and ".xml";
      "" when no rule applies. */
  function Label(i: XmlInfo, t: CfopTables): string {
    if DevolutionCase(i, t) then
      var r := RefNumber(i.refNFe.value);
      if i.natOp == Some(NaoEntregue) then "Insucesso de entrega da venda " + r
      else if i.natOp == Some(Devolucao) then
        if Marked(i.xTexto, "DEVOLUTION_PLACES") || Marked(i.xTexto, "SALE_DEVOLUTION") then
          "Devoluçao pro Mercado Livre da venda - " + r
        else if Marked(i.xTexto, "DEVOLUTION_devolution") then "Devolucao da venda " + r
        else ""
      else ""
    else if CfopIn(i.cfop, t.vendas) then "Venda"
    else if CfopIn(i.cfop, t.retornos) && Present(i.refNFe) then
      var r := RefNumber(i.refNFe.value);
      if i.natOp == Some(RetornoSimbolico) then "Retorno da remessa " + r
      else if i.natOp == Some(RetornoEfetivo) then "Retorno Efetivo da remessa " + r
      else ""
    else if CfopIn(i.cfop, t.remessas) then
      if Present(i.refNFe) then "Remessa simbólica da venda " + RefNumber(i.refNFe.value)
      else "Remessa"
    else ""
  }

  /** `gerarNovoNomeNFe`: `{nNF} - {label}.xml`, or "" when the file keeps its name. */
  function NewNfeName(i: XmlInfo, t: CfopTables): (name: string)
    ensures name == "" <==> Label(i, t) == ""
    ensures name != "" ==> StartsWith(name, ShowNull(i.nfeNumber) + " - ") && EndsWith(name, ".xml")
  {
    var desc := Label(i, t);
    if desc == "" then ""
    else
      var name := ShowNull(i.nfeNumber) + " - " + desc + ".xml";
      assert name[..|ShowNull(i.nfeNumber) + " - "|] == ShowNull(i.nfeNumber) + " - ";
      assert name[|name| - 4..] == ".xml";
      name
  }

  /** Once the devolution branch applies, the sale, return and remessa lists are
      never consulted: the name is the same whatever they hold. */
  lemma DevolutionShadowsOtherLists(i: XmlInfo, t: CfopTables, t': CfopTables)
    requires DevolutionCase(i, t) && t'.devolucoes == t.devolucoes
    ensures NewNfeName(i, t') == NewNfeName(i, t)
    ensures Label(i, t) == "" <==>
      i.natOp != Some(NaoEntregue)
      && (i.natOp != Some(Devolucao)
          || (!Marked(i.xTexto, "DEVOLUTION_PLACES") && !Marked(i.xTexto, "SALE_DEVOLUTION")
              && !Marked(i.xTexto, "DEVOLUTION_devolution")))
  {
  }

  /** Under "Devolucao de mercadorias" the Mercado Livre markers win over
      DEVOLUTION_devolution, even when both are present. */
  lemma MarketplaceMarkerWins(i: XmlInfo, t: CfopTables)
    requires DevolutionCase(i, t) && i.natOp == Some(Devolucao)
    requires Marked(i.xTexto, "DEVOLUTION_PLACES") || Marked(i.xTexto, "SALE_DEVOLUTION")
    ensures Label(i, t) == "Devoluçao pro Mercado Livre da venda - " + RefNumber(i.refNFe.value)
  {
  }

  /** A sale CFOP outside the devolution branch names the file `{nNF} - Venda.xml`
      whatever the nature of operation, the reference and the observation text. */
  lemma SaleIgnoresOtherFields(i: XmlInfo, t: CfopTables, natOp: Option<string>, ref: Option<string>, x: Option<string>)
    requires CfopIn(i.cfop, t.vendas) && !CfopIn(i.cfop, t.devolucoes)
    ensures Label(i.(natOp := natOp, refNFe := ref, xTexto := x), t) == "Venda"
  {
  }

  /** A return CFOP with a reference is renamed only for the two exact natures of
      operation of a temporary deposit. */
  lemma ReturnNeedsExactNature(i: XmlInfo, t: CfopTables)
    requires !DevolutionCase(i, t) && !CfopIn(i.cfop, t.vendas)
    requires CfopIn(i.cfop, t.retornos) && Present(i.refNFe)
    ensures Label(i, t) != "" <==> i.natOp == Some(RetornoSimbolico) || i.natOp == Some(RetornoEfetivo)
  {
  }

  /** A remessa CFOP always renames: with the referenced number when there is a
      reference, as a plain remessa otherwise. */
  lemma RemessaAlwaysNamed(i: XmlInfo, t: CfopTables)
    requires !DevolutionCase(i, t) && !CfopIn(i.cfop, t.vendas)
    requires !(CfopIn(i.cfop, t.retornos) && Present(i.refNFe)) && CfopIn(i.cfop, t.remessas)
    ensures Present(i.refNFe) ==> Label(i, t) == "Remessa simbólica da venda " + RefNumber(i.refNFe.value)
    ensures !Present(i.refNFe) ==> Label(i, t) == "Remessa"
  {
  }

  /** A CFOP in none of the four lists never renames. */
  lemma UnlistedCfopKeepsName(i: XmlInfo, t: CfopTables)
    requires !CfopIn(i.cfop, t.devolucoes) && !CfopIn(i.cfop, t.vendas)
    requires !CfopIn(i.cfop, t.retornos) && !CfopIn(i.cfop, t.remessas)
    ensures Label(i, t) == ""
  {
  }

  // ---------------------------------------------------------------------------
  // The batch

  /** A directory entry and its parsed content. */
  datatype Listed = Listed(name: string, doc: Ref)

  /** `path.join(dir, name)` for a plain file name. */
  function JoinPath(dir: string, name: string): string {
    dir + "/" + name
  }

  /** The record of a directory entry: only `.xml` files are read. */
  function Recognised(f: Listed, dir: string): Option<XmlInfo> {
    if EndsWith(f.name, ".xml") then GetXmlInfo(f.doc, JoinPath(dir, f.name)) else None
  }

  /** The records of the `.xml` files the classifier recognises, in directory order. */
  function ExtractInfos(files: seq<Listed>, dir: string): (infos: seq<XmlInfo>)
    ensures |infos| <= |files|
  {
    Keep(files, f => Recognised(f, dir))
  }

  /** The defined results of `f` over `xs`, in order. */
  function Keep<X, Y>(xs: seq<X>, f: X -> Option<Y>): (ys: seq<Y>)
    ensures |ys| <= |xs|
  {
    if xs == [] then []
    else
      var rest := Keep(xs[1..], f);
      match f(xs[0])
      case Some(y) => [y] + rest
      case None => rest
  }

  /** Every kept result comes from an element of the input. */
  lemma {:induction false} KeptFrom<X, Y>(xs: seq<X>, f: X -> Option<Y>, i: nat)
    requires i < |Keep(xs, f)|
    ensures exists j :: 0 <= j < |xs| && f(xs[j]) == Some(Keep(xs, f)[i])
  {
    var rest := Keep(xs[1..], f);
    match f(xs[0])
    case Some(y) =>
      if i > 0 {
        KeptFrom(xs[1..], f, i - 1);
        var j :| 0 <= j < |xs[1..]| && f(xs[1..][j]) == Some(rest[i - 1]);
        assert xs[1..][j] == xs[j + 1];
      }
    case None =>
      KeptFrom(xs[1..], f, i);
      var j :| 0 <= j < |xs[1..]| && f(xs[1..][j]) == Some(rest[i]);
      assert xs[1..][j] == xs[j + 1];
  }

  /** Every record comes from an entry of the listing. */
  lemma ExtractedFromListing(files: seq<Listed>, dir: string, i: nat)
    ensures i < |ExtractInfos(files, dir)| ==>
      exists j :: 0 <= j < |files| && Recognised(files[j], dir) == Some(ExtractInfos(files, dir)[i])
  {
    if i < |ExtractInfos(files, dir)| {
      KeptFrom(files, f => Recognised(f, dir), i);
    }
  }

  /** An NF-e with a number; it enters `nfeInfos` under that number. */
  predicate Numbered(x: XmlInfo) {
    x.kind == NFe && Present(x.nfeNumber)
  }

  /** The NF-e `nfeInfos` keeps for its number: no later NF-e has the same number. */
  predicate Registered(infos: seq<XmlInfo>, i: int) {
    0 <= i < |infos| && Numbered(infos[i])
    && forall j :: i < j < |infos| && Numbered(infos[j]) ==> infos[j].nfeNumber != infos[i].nfeNumber
  }

  /** `nfeInfos`, holding positions in `infos`: the objects are shared with
      `allInfos`, so a rename through one is seen through the other. */
  function NfeIndex(infos: seq<XmlInfo>): (d: Dict.Dict<nat>)
    ensures Dict.Unique(d)
    ensures forall k :: 0 <= k < |d| ==> d[k].1 < |infos|
  {
    if infos == [] then []
    else
      var last := |infos| - 1;
      var d := NfeIndex(infos[..last]);
      if Numbered(infos[last]) then Dict.Set(d, infos[last].nfeNumber.value, last) else d
  }

  /** Whether an earlier NF-e stays registered once one more record is appended. */
  lemma RegisteredOnAppend(infos: seq<XmlInfo>, i: nat)
    requires |infos| > 0 && i < |infos| - 1
    ensures var last := |infos| - 1;
      Registered(infos, i) <==>
        Registered(infos[..last], i)
        && !(Numbered(infos[last]) && infos[last].nfeNumber == infos[i].nfeNumber)
  {
    var last := |infos| - 1;
    var prefix := infos[..last];
    assert forall j :: 0 <= j < last ==> prefix[j] == infos[j];
  }

  /** Each number leads to the last NF-e that carries it. */
  lemma {:induction false} NfeIndexLastWins(infos: seq<XmlInfo>, n: string, i: nat)
    ensures Dict.Get(NfeIndex(infos), n) == Some(i) <==>
      Registered(infos, i) && infos[i].nfeNumber == Some(n)
  {
    if infos != [] {
      var last := |infos| - 1;
      if i < last {
        NfeIndexLastWins(infos[..last], n, i);
        EarlierWins(infos, n, i);
      } else if i == last {
        LastWins(infos, n);
      } else {
        IndexBelow(NfeIndex(infos), n, |infos|);
      }
    }
  }

  /** The inductive step for an earlier record: it keeps its entry unless the
      appended record is an NF-e with the same number. */
  lemma EarlierWins(infos: seq<XmlInfo>, n: string, i: nat)
    requires i < |infos| - 1
    requires var prefix := infos[..|infos| - 1];
      Dict.Get(NfeIndex(prefix), n) == Some(i) <==> Registered(prefix, i) && prefix[i].nfeNumber == Some(n)
    ensures Dict.Get(NfeIndex(infos), n) == Some(i) <==> Registered(infos, i) && infos[i].nfeNumber == Some(n)
  {
    var last := |infos| - 1;
    NfeIndexStep(infos, n);
    RegisteredOnAppend(infos, i);
    assert infos[..last][i] == infos[i];
  }

  /** The appended record holds its number's entry exactly when it is a numbered NF-e. */
  lemma LastWins(infos: seq<XmlInfo>, n: string)
    requires infos != []
    ensures var last := |infos| - 1;
      Dict.Get(NfeIndex(infos), n) == Some(last) <==> Registered(infos, last) && infos[last].nfeNumber == Some(n)
  {
    var last := |infos| - 1;
    NfeIndexStep(infos, n);
    IndexBelow(NfeIndex(infos[..last]), n, last);
  }

  /** Appending a record changes only the entry of its own number, and only when
      it is a numbered NF-e. */
  lemma NfeIndexStep(infos: seq<XmlInfo>, n: string)
    requires infos != []
    ensures var last := |infos| - 1;
      Dict.Get(NfeIndex(infos), n) ==
        if Numbered(infos[last]) && infos[last].nfeNumber.value == n then Some(last)
        else Dict.Get(NfeIndex(infos[..last]), n)
  {
    if Numbered(infos[|infos| - 1]) {
      NumberedStep(infos, n);
    }
  }

  lemma NumberedStep(infos: seq<XmlInfo>, n: string)
    requires infos != [] && Numbered(infos[|infos| - 1])
    ensures infos[|infos| - 1].nfeNumber.value == n ==> Dict.Get(NfeIndex(infos), n) == Some(|infos| - 1)
    ensures infos[|infos| - 1].nfeNumber.value != n ==>
      Dict.Get(NfeIndex(infos), n) == Dict.Get(NfeIndex(infos[..|infos| - 1]), n)
  {
  }

  /** Every position the index holds is below the length of what it indexes. */
  lemma IndexBelow(d: Dict.Dict<nat>, n: string, bound: nat)
    requires forall k :: 0 <= k < |d| ==> d[k].1 < bound
    ensures Dict.Get(d, n).Some? ==> Dict.Get(d, n).value < bound
  {
    if Dict.Get(d, n).Some? {
      var k := Dict.IndexOf(d, n).value;
      assert d[k].1 == Dict.Get(d, n).value;
    }
  }

  /** The NF-e positions `Object.values(nfeInfos)` visits are exactly the registered ones. */
  lemma RegisteredInIndex(infos: seq<XmlInfo>, i: nat)
    ensures i in NfeOrder(infos) <==> Registered(infos, i)
  {
    var d := NfeIndex(infos);
    if i in Dict.Values(d) {
      var k :| 0 <= k < |d| && d[k].1 == i;
      Dict.GetAt(d, k);
      NfeIndexLastWins(infos, d[k].0, i);
    }
    if Registered(infos, i) {
      NfeIndexLastWins(infos, infos[i].nfeNumber.value, i);
      var k := Dict.IndexOf(d, infos[i].nfeNumber.value).value;
      assert Dict.Values(d)[k] == i;
    }
  }

  /** `eventosInfo`: the positions of the cancellations, in order. */
  function Events(infos: seq<XmlInfo>): (ev: seq<nat>)
    ensures forall i :: i in ev <==> 0 <= i < |infos| && infos[i].kind == Cancelamento
    ensures forall k :: 0 <= k < |ev| ==> ev[k] < |infos|
  {
    if infos == [] then []
    else
      var last := |infos| - 1;
      var ev := Events(infos[..last]);
      assert forall i :: 0 <= i < last ==> infos[..last][i] == infos[i];
      if infos[last].kind == Cancelamento then ev + [last] else ev
  }

  /** The key a registered NF-e enters the cancellation table under; a missing key
      becomes the property name "undefined". */
  function KeyName(x: XmlInfo): string {
    x.chave.GetOr("undefined")
  }

  /** The `k`-th position of `order` holds an NF-e whose key is `key`. */
  predicate Keyed(infos: seq<XmlInfo>, order: seq<nat>, k: int, key: string) {
    0 <= k < |order| && order[k] < |infos| && KeyName(infos[order[k]]) == key
  }

  /** `chaveToNfeMap`: access key to invoice number, over the NF-e positions in
      `order`; a later entry with the same key overwrites an earlier one. */
  function KeyTable(infos: seq<XmlInfo>, order: seq<nat>): Dict.Dict<string>
    requires forall k :: 0 <= k < |order| ==> order[k] < |infos|
  {
    if order == [] then []
    else
      var last := |order| - 1;
      var x := infos[order[last]];
      Dict.Set(KeyTable(infos, order[..last]), KeyName(x), ShowNull(x.nfeNumber))
  }

  /** A key is in the table exactly when one of the NF-e has it, and its number is
      the number of one of them. */
  lemma {:induction false} KeyTableHolds(infos: seq<XmlInfo>, order: seq<nat>, key: string)
    requires forall k :: 0 <= k < |order| ==> order[k] < |infos|
    ensures Dict.Get(KeyTable(infos, order), key).Some? <==> exists k :: Keyed(infos, order, k, key)
    ensures Dict.Get(KeyTable(infos, order), key).Some? ==>
      exists k :: (Keyed(infos, order, k, key)
        && Dict.Get(KeyTable(infos, order), key) == Some(ShowNull(infos[order[k]].nfeNumber)))
  {
    if order != [] {
      var last := |order| - 1;
      var prefix := order[..last];
      var x := infos[order[last]];
      KeyTableHolds(infos, prefix, key);
      assert forall k :: 0 <= k < last ==> prefix[k] == order[k];
      if KeyName(x) == key {
        assert Keyed(infos, order, last, key);
      } else {
        if exists k :: Keyed(infos, order, k, key) {
          var k :| Keyed(infos, order, k, key);
          assert k < last && Keyed(infos, prefix, k, key);
        }
        if Dict.Get(KeyTable(infos, order), key).Some? {
          var k :| Keyed(infos, prefix, k, key)
            && Dict.Get(KeyTable(infos, prefix), key) == Some(ShowNull(infos[prefix[k]].nfeNumber));
          assert Keyed(infos, order, k, key);
        }
      }
    }
  }

  /** The number a key maps to is the one of the last NF-e in `order` with that key. */
  lemma {:induction false} KeyTableLast(infos: seq<XmlInfo>, order: seq<nat>, key: string, k: int)
    requires forall j :: 0 <= j < |order| ==> order[j] < |infos|
    requires Keyed(infos, order, k, key)
    requires forall k' :: k < k' < |order| ==> !Keyed(infos, order, k', key)
    ensures Dict.Get(KeyTable(infos, order), key) == Some(ShowNull(infos[order[k]].nfeNumber))
  {
    var last := |order| - 1;
    var prefix := order[..last];
    var x := infos[order[last]];
    if k < last {
      assert !Keyed(infos, order, last, key);
      assert forall j :: 0 <= j < last ==> prefix[j] == order[j];
      assert Keyed(infos, prefix, k, key);
      forall k' | k < k' < |prefix| ensures !Keyed(infos, prefix, k', key) {
        assert !Keyed(infos, order, k', key);
      }
      KeyTableLast(infos, prefix, key, k);
    }
  }

  /** The name a cancellation receives, if any: its key must be truthy and lead to a
      truthy invoice number in the table. */
  function CancelName(ev: XmlInfo, table: Dict.Dict<string>): Option<string> {
    if Present(ev.chaveCancelada) then
      match Dict.Get(table, ev.chaveCancelada.value)
      case Some(n) => if n != "" then Some("CAN-" + n + ".xml") else None
      case None => None
    else None
  }

  /** One rename attempt: nothing for an empty name or an unchanged path, and the
      recorded path changes only when the move succeeds. */
  function TryRename(x: XmlInfo, dir: string, name: string, moved: (string, string) -> bool): (y: XmlInfo)
    ensures y == x.(path := y.path)
    ensures y.path == x.path || y.path == JoinPath(dir, name)
  {
    if name == "" then x
    else
      var p := JoinPath(dir, name);
      if x.path != p && moved(x.path, p) then x.(path := p) else x
  }

  /** A second attempt with the same name changes nothing. */
  lemma TryRenameIdempotent(x: XmlInfo, dir: string, name: string, moved: (string, string) -> bool)
    ensures TryRename(TryRename(x, dir, name, moved), dir, name, moved) == TryRename(x, dir, name, moved)
  {
  }

  /** The rename loop over the positions in `order`, position `i` being given `names[i]`. */
  function RenameAt(infos: seq<XmlInfo>, order: seq<nat>, dir: string, names: seq<string>,
                    moved: (string, string) -> bool): (r: seq<XmlInfo>)
    requires |names| == |infos|
    requires forall k :: 0 <= k < |order| ==> order[k] < |infos|
    ensures |r| == |infos|
    ensures forall i :: 0 <= i < |infos| ==>
      r[i] == (if i in order then TryRename(infos[i], dir, names[i], moved) else infos[i])
    decreases |order|
  {
    if order == [] then infos
    else
      var i := order[0];
      var next := infos[i := TryRename(infos[i], dir, names[i], moved)];
      var r := RenameAt(next, order[1..], dir, names, moved);
      assert forall j :: j in order <==> j == i || j in order[1..];
      TryRenameIdempotent(infos[i], dir, names[i], moved);
      r
  }

  /** `Object.values(nfeInfos)`, taken here as the registered NF-e in the order their
      numbers were first assigned. JavaScript lists property names that are canonical
      numbers below 2^32 - 1, as invoice numbers without leading zeros are, first and in
      ascending numeric order, so there the visit goes by increasing invoice number. */
  function NfeOrder(infos: seq<XmlInfo>): (order: seq<nat>)
    ensures forall k :: 0 <= k < |order| ==> order[k] < |infos|
  {
    Dict.Values(NfeIndex(infos))
  }

  function NfeNames(infos: seq<XmlInfo>, t: CfopTables): (names: seq<string>)
    ensures |names| == |infos| && forall i :: 0 <= i < |infos| ==> names[i] == NewNfeName(infos[i], t)
  {
    seq(|infos|, i requires 0 <= i < |infos| => NewNfeName(infos[i], t))
  }

  function CancelNames(infos: seq<XmlInfo>, table: Dict.Dict<string>): (names: seq<string>)
    ensures |names| == |infos| && forall i :: 0 <= i < |infos| ==> names[i] == CancelName(infos[i], table).GetOr("")
  {
    seq(|infos|, i requires 0 <= i < |infos| => CancelName(infos[i], table).GetOr(""))
  }

  /** `renameFilesInBatch`: the records of the batch with their paths as they stand
      after the NF-e renames and then the cancellation renames. */
  function RenameFilesInBatch(files: seq<Listed>, dir: string, t: CfopTables,
                              moved: (string, string) -> bool): (r: seq<XmlInfo>)
    ensures |r| == |ExtractInfos(files, dir)|
  {
    var infos := ExtractInfos(files, dir);
    var order := NfeOrder(infos);
    var renamed := RenameAt(infos, order, dir, NfeNames(infos, t), moved);
    RenameAt(renamed, Events(infos), dir, CancelNames(infos, KeyTable(infos, order)), moved)
  }

  /** What the batch does to one record: only its path may change; the NF-e kept
      for its number gets its descriptive name, a cancellation its `CAN-` name,
      and every other record keeps its path. */
  lemma RenameOutcome(files: seq<Listed>, dir: string, t: CfopTables,
                      moved: (string, string) -> bool, i: nat)
    requires i < |ExtractInfos(files, dir)|
    ensures var infos := ExtractInfos(files, dir);
      var r := RenameFilesInBatch(files, dir, t, moved)[i];
      var table := KeyTable(infos, NfeOrder(infos));
      && r == infos[i].(path := r.path)
      && (Registered(infos, i) ==> r == TryRename(infos[i], dir, NewNfeName(infos[i], t), moved))
      && (infos[i].kind == Cancelamento ==>
            r == TryRename(infos[i], dir, CancelName(infos[i], table).GetOr(""), moved))
      && (!Registered(infos, i) && infos[i].kind != Cancelamento ==> r == infos[i])
  {
    var infos := ExtractInfos(files, dir);
    var order := NfeOrder(infos);
    var renamed := RenameAt(infos, order, dir, NfeNames(infos, t), moved);
    var events := Events(infos);
    var names := CancelNames(infos, KeyTable(infos, order));
    var r := RenameAt(renamed, events, dir, names, moved);
    assert r == RenameFilesInBatch(files, dir, t, moved);
    RegisteredInIndex(infos, i);
    assert renamed[i] == (if i in order then TryRename(infos[i], dir, NewNfeName(infos[i], t), moved) else infos[i]);
    assert r[i] == (if i in events then TryRename(renamed[i], dir, names[i], moved) else renamed[i]);
    if infos[i].kind == Cancelamento {
      assert i !in order;
    }
  }

  /** The registered NF-e at `j` has the access key `key`. */
  predicate Cancels(infos: seq<XmlInfo>, j: int, key: string) {
    Registered(infos, j) && KeyName(infos[j]) == key
  }

  /** A cancellation gets a `CAN-{n}.xml` name exactly when an NF-e registered in
      the batch has the canceled key, `n` being the number of one such NF-e. */
  lemma CancellationNamedByBatchKey(infos: seq<XmlInfo>, ev: XmlInfo)
    ensures var table := KeyTable(infos, NfeOrder(infos));
      var c := ev.chaveCancelada;
      && (CancelName(ev, table).Some? <==> Present(c) && exists j :: Cancels(infos, j, c.value))
      && (CancelName(ev, table).Some? ==>
            exists j :: (Cancels(infos, j, c.value)
              && CancelName(ev, table) == Some("CAN-" + infos[j].nfeNumber.value + ".xml")))
  {
    var order := NfeOrder(infos);
    var table := KeyTable(infos, order);
    var c := ev.chaveCancelada;
    if Present(c) {
      KeyTableHolds(infos, order, c.value);
      if Dict.Get(table, c.value).Some? {
        var k :| Keyed(infos, order, k, c.value)
          && Dict.Get(table, c.value) == Some(ShowNull(infos[order[k]].nfeNumber));
        RegisteredInIndex(infos, order[k]);
        assert Cancels(infos, order[k], c.value);
      }
      if exists j :: Cancels(infos, j, c.value) {
        var j :| Cancels(infos, j, c.value);
        RegisteredInIndex(infos, j);
        var k :| 0 <= k < |order| && order[k] == j;
        assert Keyed(infos, order, k, c.value);
      }
    }
  }
}
