/** The document classifier of src/lib/xml/info-extractor.ts: what kind of fiscal
    document a parsed file is, and the handful of fields the renamer and the
    mapping builder need from an NF-e or a cancellation event. */
module Info {
  import opened Wrappers
  import opened JsString
  import opened Tree

  datatype Kind = NFe | Cancelamento | CTe | Inutilizacao

  /** `XmlInfo`. A field the document lacks is `None` (null or undefined). */
  datatype XmlInfo = XmlInfo(
    kind: Kind,
    path: string,            // caminhoCompleto
    doc: Ref,                // xmlObj
    nfeNumber: Option<string>,
    cfop: Option<string>,
    natOp: Option<string>,
    refNFe: Option<string>,
    xTexto: Option<string>,
    chave: Option<string>,
    emitCnpj: Option<string>,
    chaveCancelada: Option<string>)

  /** JavaScript truthiness of an optional string. */
  predicate Present(o: Option<string>) {
    o.Some? && o.value != ""
  }

  function Bare(kind: Kind, path: string, doc: Ref): XmlInfo {
    XmlInfo(kind, path, doc, None, None, None, None, None, None, None, None)
  }

  /** An event whose type code is 110111, the cancellation of an NF-e. */
  predicate IsCancellation(doc: Ref) {
    var ev := FindFirst(doc, ["infEvento"]);
    Truthy(ev) && GetText(FindFirst(ev, ["tpEvento"])) == Some("110111")
  }

  /** The access key an NF-e carries in its `Id` attribute, without the "NFe" prefix. */
  function KeyOf(inf: Ref): Option<string> {
    match GetAttr(inf, "Id")
    case Some(id) => Some(SubFrom(id, 3))
    case None => None
  }

  function NfeInfo(doc: Ref, path: string): XmlInfo {
    var inf := FindFirst(doc, ["infNFe"]);
    var ide := FindFirst(inf, ["ide"]);
    var emit := FindFirst(inf, ["emit"]);
    XmlInfo(NFe, path, doc,
      GetText(FindFirst(ide, ["nNF"])),
      GetText(FindFirst(inf, ["det", "prod", "CFOP"])),
      GetText(FindFirst(ide, ["natOp"])),
      GetText(FindFirst(ide, ["NFref", "refNFe"])),
      GetText(FindFirst(inf, ["infAdic", "obsCont", "xTexto"])),
      KeyOf(inf),
      GetText(FindFirst(emit, ["CNPJ"])),
      None)
  }

  /** `getXmlInfo`: a cancellation event first, then an NF-e, a CT-e and an
      inutilização, each recognised by its top-level element; anything else is
      not a document of the batch. */
  function GetXmlInfo(doc: Ref, path: string): (r: Option<XmlInfo>)
    ensures r.Some? ==> r.value.path == path && r.value.doc == doc
  {
    if IsCancellation(doc) then
      var ev := FindFirst(doc, ["infEvento"]);
      Some(Bare(Cancelamento, path, doc).(chaveCancelada := GetText(FindFirst(ev, ["chNFe"]))))
    else if Truthy(FindFirst(doc, ["infNFe"])) then Some(NfeInfo(doc, path))
    else if Truthy(FindFirst(doc, ["infCte"])) then Some(Bare(CTe, path, doc))
    else if Truthy(FindFirst(doc, ["infInut"])) then Some(Bare(Inutilizacao, path, doc))
    else None
  }

  /** A file is left out exactly when it holds none of the four documents; a
      cancellation record carries the canceled key and nothing else. */
  lemma Unrecognised(doc: Ref, path: string)
    ensures var r := GetXmlInfo(doc, path);
      && (r.None? <==>
            !IsCancellation(doc) && !Truthy(FindFirst(doc, ["infNFe"]))
            && !Truthy(FindFirst(doc, ["infCte"])) && !Truthy(FindFirst(doc, ["infInut"])))
      && (r.Some? && r.value.kind == Cancelamento ==>
            r.value == Bare(Cancelamento, path, doc).(chaveCancelada := GetText(FindFirst(FindFirst(doc, ["infEvento"]), ["chNFe"]))))
  {
  }

  /** A cancellation is recognised even when the file also holds an NF-e, a CT-e
      or an inutilização. */
  lemma CancellationFirst(doc: Ref, path: string)
    ensures GetXmlInfo(doc, path).Some? && GetXmlInfo(doc, path).value.kind == Cancelamento
      <==> IsCancellation(doc)
  {
    if !IsCancellation(doc) {
      KindPrecedence(doc, path);
    }
  }

  /** Without a cancellation, the NF-e comes before the CT-e, which comes before
      the inutilização. An event of any other type falls through to these. */
  lemma KindPrecedence(doc: Ref, path: string)
    requires !IsCancellation(doc)
    ensures var r := GetXmlInfo(doc, path);
      && (r.Some? && r.value.kind == NFe <==> Truthy(FindFirst(doc, ["infNFe"])))
      && (r.Some? && r.value.kind == CTe <==>
            !Truthy(FindFirst(doc, ["infNFe"])) && Truthy(FindFirst(doc, ["infCte"])))
      && (r.Some? && r.value.kind == Inutilizacao <==>
            !Truthy(FindFirst(doc, ["infNFe"])) && !Truthy(FindFirst(doc, ["infCte"]))
            && Truthy(FindFirst(doc, ["infInut"])))
      && (r.Some? ==> r.value.kind != Cancelamento)
  {
  }

  /** The key of an NF-e is its `Id` without the first three characters, so the
      `Id` is those three characters followed by the key. */
  lemma NfeKeyIsIdTail(doc: Ref, path: string)
    ensures var r := GetXmlInfo(doc, path);
      var id := GetAttr(FindFirst(doc, ["infNFe"]), "Id");
      r.Some? && r.value.kind == NFe ==>
        && (r.value.chave.Some? <==> id.Some?)
        && (id.Some? && |id.value| >= 3 ==> id.value == id.value[..3] + r.value.chave.value)
        && (id.Some? && |id.value| <= 3 ==> r.value.chave == Some(""))
  {
    NfeRecord(doc, path);
    KeyOfTail(FindFirst(doc, ["infNFe"]));
  }

  lemma KeyOfTail(inf: Ref)
    ensures var id := GetAttr(inf, "Id");
      && (KeyOf(inf).Some? <==> id.Some?)
      && (id.Some? && |id.value| >= 3 ==> id.value == id.value[..3] + KeyOf(inf).value)
      && (id.Some? && |id.value| <= 3 ==> KeyOf(inf) == Some(""))
  {
  }

  /** A file read as an NF-e holds the fields of its `infNFe`. */
  lemma NfeRecord(doc: Ref, file: string)
    ensures var r := GetXmlInfo(doc, file);
      r.Some? && r.value.kind == NFe ==> r == Some(NfeInfo(doc, file))
  {
  }

  /** The CFOP of an NF-e is read from its first item only: later items are ignored. */
  lemma NfeCfopFromFirstItem(doc: Ref, file: string)
    ensures var r := GetXmlInfo(doc, file);
      var all := FindAll(FindFirst(doc, ["infNFe"]), ["det", "prod", "CFOP"]);
      r.Some? && r.value.kind == NFe ==> r.value.cfop == (if all == [] then None else GetText(all[0]))
  {
    var inf := FindFirst(doc, ["infNFe"]);
    var path := ["det", "prod", "CFOP"];
    NfeRecord(doc, file);
    assert FindFirst(inf, path) == (if FindAll(inf, path) == [] then Nil else FindAll(inf, path)[0]);
  }

  /** CT-e and inutilização records carry only their kind, path and document. */
  lemma OtherKindsCarryNoFields(doc: Ref, path: string)
    ensures var r := GetXmlInfo(doc, path);
      r.Some? && (r.value.kind == CTe || r.value.kind == Inutilizacao) ==> r.value == Bare(r.value.kind, path, doc)
  {
    CancellationFirst(doc, path);
    if !IsCancellation(doc) {
      KindPrecedence(doc, path);
    }
  }

  // ---------------------------------------------------------------------------
  // Where the markers are looked for

  /** A top-level key that one of the four markers of `getXmlInfo` answers to. */
  predicate MarkerKey(key: string) {
    TagMatches(key, "infNFe") || TagMatches(key, "infCte") || TagMatches(key, "infInut")
    || TagMatches(key, "infEvento")
  }

  /** A one-segment lookup finds something only among the node's own keys. */
  lemma FoundAtRoot(doc: Ref, tag: string)
    ensures Truthy(FindFirst(doc, [tag])) ==> doc.Obj? && MatchedEntry(doc.node, tag).Some?
  {
  }

  /** The markers are looked for among the document's own keys, not below them:
      a document is recognised only when one of its top-level keys names a marker. */
  lemma MarkerAtRoot(doc: Ref, path: string)
    ensures GetXmlInfo(doc, path).Some? ==>
      doc.Obj? && exists i :: 0 <= i < |doc.node.entries| && MarkerKey(doc.node.entries[i].key)
  {
    FoundAtRoot(doc, "infEvento");
    FoundAtRoot(doc, "infNFe");
    FoundAtRoot(doc, "infCte");
    FoundAtRoot(doc, "infInut");
  }

  /** A key made of digits answers to no tag that starts with a letter. */
  lemma DigitKeyMatchesNoTag(key: string, tag: string)
    requires AllDigits(key) && |tag| > 0 && !IsDigit(tag[0])
    ensures !TagMatches(key, tag)
  {
    if |key| > 0 {
      assert IsDigit(key[0]) && key[0] != tag[0];
    }
    var suffix := ":" + tag;
    if |suffix| <= |key| {
      var j := |key| - |suffix|;
      assert IsDigit(key[j]) && key[j..][0] == key[j];
      assert key[j..][0] != suffix[0];
    }
  }

  /** A document none of whose own keys names a marker is not recognised. */
  lemma NoMarkerUnrecognised(doc: Ref, path: string)
    requires doc.Obj? ==> forall i :: 0 <= i < |doc.node.entries| ==> !MarkerKey(doc.node.entries[i].key)
    ensures GetXmlInfo(doc, path) == None
  {
    MarkerAtRoot(doc, path);
  }

  /** With `preserveOrder` on, the parser hands back an array, whose own keys are
      the indices "0", "1", ...: no marker answers to them, so no file is recognised. */
  lemma ArrayRootUnrecognised(doc: Ref, path: string)
    requires doc.Obj? ==> forall i :: 0 <= i < |doc.node.entries| ==> AllDigits(doc.node.entries[i].key)
    ensures GetXmlInfo(doc, path) == None
  {
    if doc.Obj? {
      forall i | 0 <= i < |doc.node.entries| ensures !MarkerKey(doc.node.entries[i].key) {
        var key := doc.node.entries[i].key;
        DigitKeyMatchesNoTag(key, "infNFe");
        DigitKeyMatchesNoTag(key, "infCte");
        DigitKeyMatchesNoTag(key, "infInut");
        DigitKeyMatchesNoTag(key, "infEvento");
      }
    }
    NoMarkerUnrecognised(doc, path);
  }

  /** In the keyed shape too, an NF-e delivered as `nfeProc/NFe/infNFe` is not
      recognised: whatever `nfeProc` holds, it is the only top-level key. */
  lemma NfeProcUnrecognised(proc: Node, path: string)
    ensures GetXmlInfo(Obj(Node([Entry("nfeProc", One(proc))])), path) == None
  {
    var doc := Obj(Node([Entry("nfeProc", One(proc))]));
    assert "nfeProc" != ":infNFe" && "nfeProc" != ":infCte" && "nfeProc" != ":infInut";
    assert !MarkerKey(doc.node.entries[0].key);
    NoMarkerUnrecognised(doc, path);
  }
}
