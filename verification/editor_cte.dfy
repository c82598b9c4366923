/** `editarCTe` of src/lib/xml/editor.ts: the access key in the `Id` of a CT-e
    receives the new year and month, the issue date is restamped, the NF-e
    the CT-e transports is forced to the new sale key, the sender takes the
    issuer's columns, and the protocol is aligned with the new `Id`. */
module Cte {
  import opened Wrappers
  import opened JsString
  import opened Doc
  import opened Trail
  import opened Config
  import opened Editing
  import Tree

  const KeyLine: string := "Chave de acesso do CTe alterada"
  const ForcedLine: string := "CTe: Referência <chave> FORÇADA para a chave da venda"
  const MissingSaleLine: string := "[AVISO] Nova chave da venda não encontrada para referenciar no CTe."
  const SyncLine: string := "Protocolo: <chCTe> sincronizado"

  /** The rebuilt `Id`: "CTe", the state, the new `yy` and `mm`, then the old `Id`
      from its eighth character on, the check digit included and not
      recomputed. */
  function CteId(id: string, yy: string, mm: string): string {
    "CTe" + Substring(id, 3, 5) + yy + mm + Substring(id, 7, 21) + Substring(id, 21, 43) + SubFrom(id, 43)
  }

  /** The new year and month are inserted after the state and nothing of the old
      `Id` from its eighth character on is dropped: with a two-digit year and
      month the `Id` grows by two characters. */
  lemma CteIdLayout(id: string, yy: string, mm: string)
    requires |id| >= 7
    ensures CteId(id, yy, mm) == "CTe" + id[3..5] + yy + mm + id[7..]
    ensures |CteId(id, yy, mm)| == |id| + |yy| + |mm| - 2
  {
    SubstringConcat(id, 7, 21, 43);
    SubFromSplit(id, 7, 43);
    assert Substring(id, 3, 5) == id[3..5];
  }

  /** An `Id` of "CTe" and a 44-digit key, 47 characters, becomes 49 characters
      long: the new year and month replace only the old year, so the old month
      follows the new one, and the key after "CTe" is 46 characters long. */
  lemma CteIdGrows(id: string, yy: string, mm: string)
    requires |id| == 47 && StartsWith(id, "CTe") && |yy| == 2 && |mm| == 2
    ensures var r := CteId(id, yy, mm);
      && |r| == 49 && r == id[..5] + yy + mm + id[7..]
      && r[5..9] == yy + mm && r[9..11] == id[7..9] && r[11..] == id[9..]
  {
    CteIdLayout(id, yy, mm);
    var r := CteId(id, yy, mm);
    assert id[..3] == "CTe";
    assert r == (id[..3] + id[3..5]) + (yy + mm) + id[7..];
    assert id[..5] == id[..3] + id[3..5];
  }

  /** The key the protocol carries is the `Id` without "CTe". */
  function ProtocolKey(id: Option<string>): Option<string> {
    if id.Some? && id.value != "" && StartsWith(id.value, "CTe") then Some(SubFrom(id.value, 3)) else None
  }

  /** Whether the `Id` is rebuilt: the date override is on and the `Id` is a
      non-empty CT-e key. */
  predicate Rekeyed(p: Profile, id: Option<string>) {
    DateOverride(p) && id.Some? && id.value != "" && StartsWith(id.value, "CTe")
  }

  /** The `Id` step. The source reads the year part of the new date without
      checking it is there; a date without two '/' fails the document. */
  function IdStep(r: Run, inf: Handle, p: Profile): (out: Result<Run>)
    ensures out.Failure? <==> Rekeyed(p, ReadId(r, inf)) && SplitDate(p.novaData).ano.None?
    ensures out.Success? ==> Extends(out.value, r) && Logged(out.value, r)
    ensures out.Success? && !Rekeyed(p, ReadId(r, inf)) ==> out.value == r
    ensures out.Success? && Rekeyed(p, ReadId(r, inf)) ==>
      var d := SplitDate(p.novaData);
      out.value == Note(WriteId(r, inf, CteId(ReadId(r, inf).value, SubFrom(d.ano.value, 2), Show(d.mes))), KeyLine)
  {
    var id := ReadId(r, inf);
    if Rekeyed(p, id) then
      var d := SplitDate(p.novaData);
      if d.ano.None? then Failure(UndefinedDatePart)
      else
        var r' := Note(WriteId(r, inf, CteId(id.value, SubFrom(d.ano.value, 2), Show(d.mes))), KeyLine);
        ExtendsTrans(r', WriteId(r, inf, CteId(id.value, SubFrom(d.ano.value, 2), Show(d.mes))), r);
        Success(r')
    else Success(r)
  }

  /** The issue date under `ide`. */
  function IssueDate(r: Run, inf: Handle, p: Profile, stamp: string): (r': Run)
    ensures Extends(r', r) && TextOnly(Since(r', r)) && Logged(r', r)
  {
    var ide := Look(r, inf, ["ide"]);
    if Found(r, ide) && DateOverride(p) then
      var h := Look(r, ide, ["dhEmi"]);
      SetIfFoundText(r, h, stamp, "CTe: <dhEmi> alterada");
      SetIfFound(r, h, stamp, "CTe: <dhEmi> alterada")
    else r
  }

  /** The transported NF-e: forced to the new sale key when there is one, and a
      warning is logged when there is none. */
  function Reference(r: Run, inf: Handle, sale: Option<string>): (r': Run)
    ensures Extends(r', r) && TextOnly(Since(r', r)) && Logged(r', r)
    ensures var h := Look(r, inf, ["infCTeNorm", "infDoc", "infNFe", "chave"]);
      && (Found(r, h) && sale.Some? && sale.value != "" ==>
            Since(r', r) == [Change(h, TextSlot, sale.value)] && r'.log == r.log + [ForcedLine])
      && (Found(r, h) && !(sale.Some? && sale.value != "") ==> r' == Note(r, MissingSaleLine))
      && (!Found(r, h) ==> r' == r)
  {
    var h := Look(r, inf, ["infCTeNorm", "infDoc", "infNFe", "chave"]);
    if Found(r, h) then
      if sale.Some? && sale.value != "" then
        SetIfFoundText(r, h, sale.value, ForcedLine);
        SetIfFound(r, h, sale.value, ForcedLine)
      else Note(r, MissingSaleLine)
    else r
  }

  /** The sender takes the issuer's columns, address columns under `enderReme`. */
  function Sender(r: Run, inf: Handle, p: Profile): (r': Run)
    ensures Extends(r', r) && TextOnly(Since(r', r)) && Logged(r', r)
  {
    if p.flags.emitente && p.emitente.Some? then
      var rem := Look(r, inf, ["rem"]);
      var ender := Look(r, rem, ["enderReme"]);
      OverridesText(r, p.emitente.value, rem, ender, true, "Remetente");
      Overrides(r, p.emitente.value, rem, ender, true, "Remetente")
    else r
  }

  /** `chCTe` under the protocol takes the `Id` without its prefix. */
  function SyncKey(r: Run, inf: Handle, prot: Handle): (r': Run)
    ensures Extends(r', r) && TextOnly(Since(r', r)) && Logged(r', r)
    ensures var h := Look(r, prot, ["chCTe"]);
      && (Found(r, h) && ProtocolKey(ReadId(r, inf)).Some? ==>
            Since(r', r) == [Change(h, TextSlot, ProtocolKey(ReadId(r, inf)).value)] && r'.log == r.log + [SyncLine])
      && (!(Found(r, h) && ProtocolKey(ReadId(r, inf)).Some?) ==> r' == r)
  {
    var h := Look(r, prot, ["chCTe"]);
    var key := ProtocolKey(ReadId(r, inf));
    if key.Some? then
      SetIfFoundText(r, h, key.value, SyncLine);
      SetIfFound(r, h, key.value, SyncLine)
    else r
  }

  /** The protocol: its key, then its receipt date. */
  function Protocol(r: Run, inf: Handle, p: Profile, stamp: string): (r': Run)
    ensures Extends(r', r) && TextOnly(Since(r', r)) && Logged(r', r)
  {
    var prot := Look(r, Root, ["protCTe", "infProt"]);
    if Found(r, prot) then
      var r1 := SyncKey(r, inf, prot);
      if DateOverride(p) then
        var h := Look(r1, prot, ["dhRecbto"]);
        var r2 := SetIfFound(r1, h, stamp, "Protocolo: <dhRecbto> alterado");
        SetIfFoundText(r1, h, stamp, "Protocolo: <dhRecbto> alterado");
        TextOnlyTrans(r2, r1, r);
        r2
      else r1
    else r
  }

  /** The steps between the `Id` and the protocol. */
  function Middle(r: Run, inf: Handle, p: Profile, sale: Option<string>, stamp: string): (r': Run)
    ensures Extends(r', r) && TextOnly(Since(r', r)) && Logged(r', r)
  {
    var r1 := IssueDate(r, inf, p, stamp);
    var r2 := Reference(r1, inf, sale);
    var r3 := Sender(r2, inf, p);
    TextOnlyTrans(r2, r1, r);
    TextOnlyTrans(r3, r2, r);
    r3
  }

  /** The `infCte` the editor works on. */
  function InfCte(t: Tree.Ref): Handle {
    Find(t, Root, ["infCte"])
  }

  /** `editarCTe(xmlObj, config, chaveMapping, chaveDaVendaNova)`; `sale` is the new
      sale key and `rt` supplies the time of day. A document without `infCte` is
      returned untouched; the only failure is the one of the `Id` step. */
  function EditCTe(t: Tree.Ref, p: Profile, sale: Option<string>, rt: Runtime): (out: Result<Run>)
    ensures out.Success? ==> out.value.t0 == t
    ensures out.Success? ==> Extends(out.value, Begin(t)) && Logged(out.value, Begin(t))
    ensures !IsSet(t, InfCte(t)) ==> out == Success(Begin(t))
  {
    var r0 := Begin(t);
    var inf := Look(r0, Root, ["infCte"]);
    if !Found(r0, inf) then Success(r0)
    else
      match IdStep(r0, inf, p)
      case Failure(e) => Failure(e)
      case Success(r1) =>
        var stamp := Stamp(p, rt);
        var r2 := Middle(r1, inf, p, sale, stamp);
        var r3 := Protocol(r2, inf, p, stamp);
        ExtendsTrans(r3, r2, r1);
        ExtendsTrans(r3, r1, r0);
        LoggedTrans(r3, r2, r1);
        LoggedTrans(r3, r1, r0);
        Success(r3)
  }

  /** The run after the `Id` step. */
  function Rekeyed1(t: Tree.Ref, p: Profile): Run
    requires IdStep(Begin(t), InfCte(t), p).Success?
  {
    IdStep(Begin(t), InfCte(t), p).value
  }

  /** A CT-e edit fails exactly when the `Id` is to be rebuilt and the new date
      has no year part. */
  lemma CteFails(t: Tree.Ref, p: Profile, sale: Option<string>, rt: Runtime)
    ensures EditCTe(t, p, sale, rt).Failure? <==>
      IsSet(t, InfCte(t)) && Rekeyed(p, Tree.AttrLoose(Val(t, InfCte(t)), "Id"))
      && SplitDate(p.novaData).ano.None?
  {
  }

  /** A successful edit of a CT-e is the `Id` step followed by the other steps. */
  lemma CteSteps(t: Tree.Ref, p: Profile, sale: Option<string>, rt: Runtime)
    ensures EditCTe(t, p, sale, rt).Success? && IsSet(t, InfCte(t)) ==>
      && IdStep(Begin(t), InfCte(t), p).Success?
      && EditCTe(t, p, sale, rt).value ==
           Protocol(Middle(Rekeyed1(t, p), InfCte(t), p, sale, Stamp(p, rt)), InfCte(t), p, Stamp(p, rt))
  {
  }

  lemma InfAnchored(t: Tree.Ref, cs: seq<Change>)
    ensures Anchored(Apply(t, cs), InfCte(t))
  {
    SafeWhenNotNamed(["infCte"]);
    RootAnchored(t);
    FindAnchored(t, Root, ["infCte"]);
    AnchoredAfterAll(t, cs, InfCte(t));
  }

  /** `infCte` stays anchored in every later run. */
  lemma InfAnchoredLater(t: Tree.Ref, r: Run)
    requires Extends(r, Begin(t))
    ensures Anchored(Cur(r), InfCte(t))
  {
    CurSince(r, Begin(t));
    InfAnchored(t, Since(r, Begin(t)));
  }

  /** The `Id` the `Id` step leaves: "CTe", the state code, the new year and
      month, then the old `Id` from its eighth character on; any other `Id` is
      left as it was. */
  lemma IdStepResult(r: Run, inf: Handle, p: Profile)
    requires IdStep(r, inf, p).Success?
    ensures var d := SplitDate(p.novaData);
      ReadId(IdStep(r, inf, p).value, inf) ==
        if Rekeyed(p, ReadId(r, inf)) then Some(CteId(ReadId(r, inf).value, SubFrom(d.ano.value, 2), Show(d.mes)))
        else ReadId(r, inf)
    ensures var d, id := SplitDate(p.novaData), ReadId(r, inf);
      Rekeyed(p, id) && |id.value| >= 7 ==>
        ReadId(IdStep(r, inf, p).value, inf) ==
          Some("CTe" + id.value[3..5] + SubFrom(d.ano.value, 2) + Show(d.mes) + id.value[7..])
  {
    if Rekeyed(p, ReadId(r, inf)) {
      assert Val(Cur(r), inf).Obj?;
      var d, id := SplitDate(p.novaData), ReadId(r, inf).value;
      if |id| >= 7 {
        CteIdLayout(id, SubFrom(d.ano.value, 2), Show(d.mes));
      }
    }
  }

  /** The steps after the `Id` step write texts only. */
  lemma TailKeepsId(r: Run, inf: Handle, p: Profile, sale: Option<string>, stamp: string)
    requires Anchored(Cur(r), inf)
    ensures ReadId(Protocol(Middle(r, inf, p, sale, stamp), inf, p, stamp), inf) == ReadId(r, inf)
  {
    var r2 := Middle(r, inf, p, sale, stamp);
    TextOnlyTrans(Protocol(r2, inf, p, stamp), r2, r);
    IdKept(Protocol(r2, inf, p, stamp), r, inf);
  }

  /** The `Id` after the edit: rebuilt when the date override is on and the `Id`
      is a CT-e key, untouched otherwise. */
  lemma CteIdResult(t: Tree.Ref, p: Profile, sale: Option<string>, rt: Runtime)
    ensures var inf, id := InfCte(t), Tree.AttrLoose(Val(t, InfCte(t)), "Id");
      var d := SplitDate(p.novaData);
      EditCTe(t, p, sale, rt).Success? && IsSet(t, inf) ==>
        ReadId(EditCTe(t, p, sale, rt).value, inf) ==
          if Rekeyed(p, id) then Some(CteId(id.value, SubFrom(d.ano.value, 2), Show(d.mes))) else id
  {
    if !(EditCTe(t, p, sale, rt).Success? && IsSet(t, InfCte(t))) {
      return;
    }
    CteSteps(t, p, sale, rt);
    IdStepResult(Begin(t), InfCte(t), p);
    InfAnchoredLater(t, Rekeyed1(t, p));
    TailKeepsId(Rekeyed1(t, p), InfCte(t), p, sale, Stamp(p, rt));
  }

  /** Where the protocol step looks: the protocol, and `chCTe` below it. */
  function Prot(r: Run): Handle {
    Look(r, Root, ["protCTe", "infProt"])
  }

  function ChCte(r: Run): Handle {
    Look(r, Prot(r), ["chCTe"])
  }

  /** Both are anchored, and found at the same places in every later run. */
  lemma ProtLater(r': Run, r: Run)
    requires Extends(r', r)
    ensures Anchored(Cur(r), Prot(r)) && Anchored(Cur(r), ChCte(r))
    ensures Prot(r') == Prot(r) && ChCte(r') == ChCte(r)
    ensures Found(r', Prot(r)) <==> Found(r, Prot(r))
    ensures Val(Cur(r'), ChCte(r)).Obj? <==> Val(Cur(r), ChCte(r)).Obj?
  {
    SafeWhenNotNamed(["protCTe", "infProt"]);
    SafeWhenNotNamed(["chCTe"]);
    RootAnchored(Cur(r));
    LookLater(r', r, Root, ["protCTe", "infProt"]);
    LookLater(r', r, Prot(r), ["chCTe"]);
    HandleLater(r', r, ChCte(r));
  }

  /** The key just written into `chCTe` survives the receipt date, which is
      written at another element. */
  lemma ReceiptElsewhere(r1: Run, p: Profile, stamp: string)
    requires Anchored(Cur(r1), ChCte(r1))
    ensures var d := Look(r1, Prot(r1), ["dhRecbto"]);
      TextAt(Cur(SetIfFound(r1, d, stamp, "Protocolo: <dhRecbto> alterado")), ChCte(r1)) == TextAt(Cur(r1), ChCte(r1))
  {
    var d := Look(r1, Prot(r1), ["dhRecbto"]);
    var r2 := SetIfFound(r1, d, stamp, "Protocolo: <dhRecbto> alterado");
    assert Plain("dhRecbto") && Plain("chCTe") && "dhRecbto" != "chCTe" by { PlainTags(); }
    DistinctTags(Cur(r1), Prot(r1), "dhRecbto", "chCTe", d, ChCte(r1));
    CurSince(r2, r1);
    TextAfterAll(Cur(r1), Since(r2, r1), ChCte(r1));
  }

  lemma PlainTags()
    ensures Plain("dhRecbto") && Plain("chCTe") && "dhRecbto" != "chCTe"
  {
    assert "dhRecbto"[0] != "chCTe"[0];
  }

  /** `SyncKey` leaves the protocol key in `chCTe`. */
  lemma SyncKeyText(r: Run, inf: Handle)
    requires Anchored(Cur(r), ChCte(r)) && Val(Cur(r), ChCte(r)).Obj? && ProtocolKey(ReadId(r, inf)).Some?
    ensures TextAt(Cur(SyncKey(r, inf, Prot(r))), ChCte(r)) == ProtocolKey(ReadId(r, inf))
  {
    var r1 := SyncKey(r, inf, Prot(r));
    CurSince(r1, r);
    TextAfterAll(Cur(r), Since(r1, r), ChCte(r));
  }

  /** After the protocol step, a `chCTe` that is an object holds the `Id` without
      "CTe" whenever the `Id` is a CT-e key. */
  lemma ProtocolSynced(r: Run, inf: Handle, p: Profile, stamp: string)
    requires Anchored(Cur(r), inf)
    ensures var r' := Protocol(r, inf, p, stamp);
      Found(r', Prot(r')) && Val(Cur(r'), ChCte(r')).Obj? && ProtocolKey(ReadId(r', inf)).Some? ==>
        TextAt(Cur(r'), ChCte(r')) == ProtocolKey(ReadId(r', inf))
  {
    var r' := Protocol(r, inf, p, stamp);
    ProtLater(r', r);
    IdKept(r', r, inf);
    if Found(r, Prot(r)) && Val(Cur(r), ChCte(r)).Obj? && ProtocolKey(ReadId(r, inf)).Some? {
      var r1 := SyncKey(r, inf, Prot(r));
      SyncKeyText(r, inf);
      if DateOverride(p) {
        ProtLater(r', r1);
        ProtLater(r1, r);
        var d := Look(r1, Prot(r1), ["dhRecbto"]);
        assert r' == SetIfFound(r1, d, stamp, "Protocolo: <dhRecbto> alterado");
        ReceiptElsewhere(r1, p, stamp);
      } else {
        assert r' == r1;
      }
    }
  }

  /** After the edit, the protocol's `chCTe`, when it is an object, holds the
      final `Id` without "CTe": the protocol and the rebuilt key agree. */
  lemma ChCteSynced(t: Tree.Ref, p: Profile, sale: Option<string>, rt: Runtime)
    ensures EditCTe(t, p, sale, rt).Success? && IsSet(t, InfCte(t)) ==>
      var r := EditCTe(t, p, sale, rt).value;
      Found(r, Prot(r)) && Val(Cur(r), ChCte(r)).Obj? && ProtocolKey(ReadId(r, InfCte(t))).Some? ==>
        TextAt(Cur(r), ChCte(r)) == ProtocolKey(ReadId(r, InfCte(t)))
  {
    if !(EditCTe(t, p, sale, rt).Success? && IsSet(t, InfCte(t))) {
      return;
    }
    CteSteps(t, p, sale, rt);
    var r2 := Middle(Rekeyed1(t, p), InfCte(t), p, sale, Stamp(p, rt));
    ExtendsTrans(r2, Rekeyed1(t, p), Begin(t));
    InfAnchoredLater(t, r2);
    ProtocolSynced(r2, InfCte(t), p, Stamp(p, rt));
  }

  /** Where the transported NF-e key lies: `infCTeNorm/infDoc/infNFe/chave` under `infCte`. */
  function Chave(t: Tree.Ref): Handle {
    Find(t, InfCte(t), ["infCTeNorm", "infDoc", "infNFe", "chave"])
  }

  lemma PlainRoots()
    ensures Plain("protCTe") && Plain("infCte") && "protCTe" != "infCte"
    ensures Plain("rem") && Plain("infCTeNorm") && "rem" != "infCTeNorm"
  {
    assert "protCTe"[0] != "infCte"[0];
    assert "rem"[0] != "infCTeNorm"[0];
  }

  /** `rem` is not on the way to `chave`. */
  lemma RemApart(t: Tree.Ref, inf: Handle)
    ensures var rem := Find(t, inf, ["rem"]);
      var h := Find(t, inf, ["infCTeNorm", "infDoc", "infNFe", "chave"]);
      rem.Some? && h.Some? ==> !IsPrefix(rem.value, h.value)
  {
    if Find(t, inf, ["rem"]).Some? && Find(t, inf, ["infCTeNorm", "infDoc", "infNFe", "chave"]).Some? {
      assert ["rem"] == ["rem"] + [];
      assert ["infCTeNorm", "infDoc", "infNFe", "chave"] == ["infCTeNorm"] + ["infDoc", "infNFe", "chave"];
      PlainRoots();
      Apart(t, inf, "rem", [], "infCTeNorm", ["infDoc", "infNFe", "chave"],
            Find(t, inf, ["infCTeNorm", "infDoc", "infNFe", "chave"]).value);
    }
  }

  /** The sender's columns are written under `rem`, which is not on the way to `chave`. */
  lemma SenderKeepsChave(r: Run, inf: Handle, p: Profile)
    requires Anchored(Cur(r), Look(r, inf, ["infCTeNorm", "infDoc", "infNFe", "chave"]))
    ensures var h := Look(r, inf, ["infCTeNorm", "infDoc", "infNFe", "chave"]);
      TextAt(Cur(Sender(r, inf, p)), h) == TextAt(Cur(r), h)
  {
    var h := Look(r, inf, ["infCTeNorm", "infDoc", "infNFe", "chave"]);
    if p.flags.emitente && p.emitente.Some? && h.Some? {
      var rem := Look(r, inf, ["rem"]);
      var ender := Look(r, rem, ["enderReme"]);
      var l := if rem.Some? then rem.value else h.value + [Tree.Pos(0, 0)];
      RemApart(Cur(r), inf);
      OverridesUnder(r, p.emitente.value, rem, ender, true, "Remetente", l);
      assert Sender(r, inf, p) == Overrides(r, p.emitente.value, rem, ender, true, "Remetente");
      UnderKeeps(Overrides(r, p.emitente.value, rem, ender, true, "Remetente"), r, l, h);
    }
  }

  /** `protCTe/infProt` is not on the way to anything under `infCte`. */
  lemma ProtApart(t: Tree.Ref, l: Tree.Loc)
    ensures var ic := Find(t, Root, ["infCte"]);
      var prot := Find(t, Root, ["protCTe", "infProt"]);
      ic.Some? && prot.Some? && IsPrefix(ic.value, l) ==> !IsPrefix(prot.value, l)
  {
    if Find(t, Root, ["infCte"]).Some? && Find(t, Root, ["protCTe", "infProt"]).Some? {
      assert ["infCte"] == ["infCte"] + [];
      assert ["protCTe", "infProt"] == ["protCTe"] + ["infProt"];
      PlainRoots();
      if IsPrefix(Find(t, Root, ["infCte"]).value, l) {
        Apart(t, Root, "protCTe", ["infProt"], "infCte", [], l);
      }
    }
  }

  /** The key is synchronised under the protocol element. */
  lemma SyncKeyUnder(r: Run, inf: Handle, prot: Handle)
    ensures prot.Some? ==> Under(Since(SyncKey(r, inf, prot), r), prot.value)
  {
    var key := ProtocolKey(ReadId(r, inf));
    if prot.Some? && key.Some? {
      SetIfFoundUnder(r, prot, ["chCTe"], key.value, SyncLine, prot.value);
    }
  }

  /** The protocol step writes only under `protCTe/infProt`, and nothing without it. */
  lemma ProtocolUnder(r: Run, inf: Handle, p: Profile, stamp: string)
    ensures var prot := Look(r, Root, ["protCTe", "infProt"]);
      && (Found(r, prot) ==> Under(Since(Protocol(r, inf, p, stamp), r), prot.value))
      && (!Found(r, prot) ==> Protocol(r, inf, p, stamp) == r)
  {
    var prot := Look(r, Root, ["protCTe", "infProt"]);
    if Found(r, prot) {
      var r1 := SyncKey(r, inf, prot);
      SyncKeyUnder(r, inf, prot);
      if DateOverride(p) {
        var msg := "Protocolo: <dhRecbto> alterado";
        var r2 := SetIfFound(r1, Look(r1, prot, ["dhRecbto"]), stamp, msg);
        SetIfFoundUnder(r1, prot, ["dhRecbto"], stamp, msg, prot.value);
        UnderTrans(r2, r1, r, prot.value);
      }
    }
  }

  /** The protocol step writes under `protCTe`, which is not on the way to anything
      under `infCte`. */
  lemma ProtocolKeeps(r: Run, inf: Handle, p: Profile, stamp: string, h: Handle)
    requires Anchored(Cur(r), h)
    ensures var ic := Look(r, Root, ["infCte"]);
      h.Some? && ic.Some? && IsPrefix(ic.value, h.value) ==>
        TextAt(Cur(Protocol(r, inf, p, stamp)), h) == TextAt(Cur(r), h)
  {
    var ic := Look(r, Root, ["infCte"]);
    var prot := Look(r, Root, ["protCTe", "infProt"]);
    ProtocolUnder(r, inf, p, stamp);
    if h.Some? && ic.Some? && IsPrefix(ic.value, h.value) && Found(r, prot) {
      ProtApart(Cur(r), h.value);
      UnderKeeps(Protocol(r, inf, p, stamp), r, prot.value, h);
    }
  }

  /** The sender and protocol steps leave the text of `chave` as it was. */
  lemma TailKeepsChave(t: Tree.Ref, r: Run, p: Profile, stamp: string)
    requires Extends(r, Begin(t))
    ensures var rc := Sender(r, InfCte(t), p);
      TextAt(Cur(Protocol(rc, InfCte(t), p, stamp)), Chave(t)) == TextAt(Cur(r), Chave(t))
  {
    var inf, h := InfCte(t), Chave(t);
    var path := ["infCTeNorm", "infDoc", "infNFe", "chave"];
    SafeWhenNotNamed(path);
    SafeWhenNotNamed(["infCte"]);
    InfAnchoredLater(t, Begin(t));
    RootAnchored(t);
    LookLater(r, Begin(t), inf, path);
    SenderKeepsChave(r, inf, p);
    var rc := Sender(r, inf, p);
    ExtendsTrans(rc, r, Begin(t));
    LookLater(rc, Begin(t), Root, ["infCte"]);
    HandleLater(rc, r, h);
    ProtocolKeeps(rc, inf, p, stamp, h);
  }

  /** The reference step leaves the sale key in a `chave` that is an element. */
  lemma ReferenceSetsChave(t: Tree.Ref, r: Run, sale: string)
    requires Extends(r, Begin(t)) && sale != ""
    ensures var r' := Reference(r, InfCte(t), Some(sale));
      && Anchored(Cur(r'), Chave(t))
      && (Val(Cur(r'), Chave(t)).Obj? ==> TextAt(Cur(r'), Chave(t)) == Some(sale))
  {
    var path := ["infCTeNorm", "infDoc", "infNFe", "chave"];
    var h := Chave(t);
    var r' := Reference(r, InfCte(t), Some(sale));
    SafeWhenNotNamed(path);
    InfAnchoredLater(t, Begin(t));
    LookLater(r, Begin(t), InfCte(t), path);
    HandleLater(r', r, h);
    if Val(Cur(r), h).Obj? {
      assert r' == SetIfFound(r, h, sale, ForcedLine);
      SetIfFoundHolds(r, h, sale, ForcedLine);
    }
  }

  /** From the reference step on, a `chave` that is an element holds the sale key. */
  lemma StepsForceChave(t: Tree.Ref, r: Run, p: Profile, sale: string, stamp: string)
    requires Extends(r, Begin(t)) && sale != ""
    ensures var rd := Protocol(Middle(r, InfCte(t), p, Some(sale), stamp), InfCte(t), p, stamp);
      Val(Cur(rd), Chave(t)).Obj? ==> TextAt(Cur(rd), Chave(t)) == Some(sale)
  {
    var inf := InfCte(t);
    var ra := IssueDate(r, inf, p, stamp);
    var rb := Reference(ra, inf, Some(sale));
    var rc := Sender(rb, inf, p);
    var rd := Protocol(rc, inf, p, stamp);
    ExtendsTrans(ra, r, Begin(t));
    ReferenceSetsChave(t, ra, sale);
    ExtendsTrans(rb, ra, Begin(t));
    TailKeepsChave(t, rb, p, stamp);
    ExtendsTrans(rd, rc, rb);
    HandleLater(rd, rb, Chave(t));
  }

  /** After a successful edit, a `chave` that is an element holds the new sale key
      whenever there is one: nothing after the reference step writes there. */
  lemma ChaveForced(t: Tree.Ref, p: Profile, sale: Option<string>, rt: Runtime)
    ensures EditCTe(t, p, sale, rt).Success? && IsSet(t, InfCte(t)) && sale.Some? && sale.value != "" ==>
      var r := EditCTe(t, p, sale, rt).value;
      Val(Cur(r), Chave(t)).Obj? ==> TextAt(Cur(r), Chave(t)) == Some(sale.value)
  {
    if !(EditCTe(t, p, sale, rt).Success? && IsSet(t, InfCte(t)) && sale.Some? && sale.value != "") {
      return;
    }
    CteSteps(t, p, sale, rt);
    StepsForceChave(t, Rekeyed1(t, p), p, sale.value, Stamp(p, rt));
  }
}
