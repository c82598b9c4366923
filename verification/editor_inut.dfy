/** `editarInutilizacao` of src/lib/xml/editor.ts: the CNPJ and the year of a
    voided range of invoice numbers are replaced, the receipt date is
    restamped, and the fixed-width `Id` of `infInut` is reassembled around the
    new year and CNPJ. */
module Inut {
  import opened Wrappers
  import opened JsString
  import opened Doc
  import opened Trail
  import opened Config
  import opened Editing
  import Tree

  /** The `Id` of an `infInut`: "ID", the state, the year, the CNPJ padded to 14
      characters, the model, the series and the first and last numbers. An empty
      `ano` or `cnpj` keeps the part the old `Id` holds. */
  function InutId(id: string, ano: string, cnpj: string): string {
    "ID" + Substring(id, 2, 4)
    + (if ano != "" then ano else Substring(id, 4, 6))
    + PadStart(if cnpj != "" then cnpj else Substring(id, 6, 20), 14, '0')
    + Substring(id, 20, 22) + Substring(id, 22, 25) + Substring(id, 25, 34) + Substring(id, 34, 43)
  }

  /** The four parts after the CNPJ (model, series, first and last number) travel
      together as one block. */
  lemma InutIdTail(id: string, ano: string, cnpj: string)
    ensures InutId(id, ano, cnpj) ==
      "ID" + Substring(id, 2, 4) + (if ano != "" then ano else Substring(id, 4, 6))
      + PadStart(if cnpj != "" then cnpj else Substring(id, 6, 20), 14, '0') + Substring(id, 20, 43)
  {
    var head := "ID" + Substring(id, 2, 4)
      + (if ano != "" then ano else Substring(id, 4, 6))
      + PadStart(if cnpj != "" then cnpj else Substring(id, 6, 20), 14, '0');
    Regroup(head, Substring(id, 20, 22), Substring(id, 22, 25), Substring(id, 25, 34), Substring(id, 34, 43));
    SubstringConcat(id, 20, 22, 25);
    SubstringConcat(id, 20, 25, 34);
    SubstringConcat(id, 20, 34, 43);
  }

  /** A new part of the right width lands at its fixed position, and every other
      part of a full-length `Id` is carried over in place. */
  lemma InutIdLayout(id: string, ano: string, cnpj: string)
    requires |id| >= 43 && (ano == "" || |ano| == 2) && |cnpj| <= 14
    ensures var r := InutId(id, ano, cnpj);
      && |r| == 43 && r[..2] == "ID" && r[2..4] == id[2..4]
      && r[4..6] == (if ano != "" then ano else id[4..6])
      && r[6..20] == PadStart(if cnpj != "" then cnpj else id[6..20], 14, '0')
      && r[20..] == id[20..43]
  {
    var yy := if ano != "" then ano else id[4..6];
    var cc := PadStart(if cnpj != "" then cnpj else id[6..20], 14, '0');
    InutIdTail(id, ano, cnpj);
    Parts5(InutId(id, ano, cnpj), "ID", id[2..4], yy, cc, id[20..43]);
  }

  /** Rebuilding a well-formed `Id` with its own year and CNPJ gives it back. */
  lemma InutIdOwnParts(id: string)
    requires |id| == 43 && id[..2] == "ID"
    ensures InutId(id, id[4..6], id[6..20]) == id
  {
    InutIdTail(id, id[4..6], id[6..20]);
    assert Substring(id, 2, 4) == id[2..4];
    assert Substring(id, 20, 43) == id[20..];
    assert PadStart(id[6..20], 14, '0') == id[6..20];
    Rejoin(id, 2, 4, 6, 20);
  }

  /** Rebuilding is idempotent: a rebuilt `Id` rebuilt again with the same parts
      is unchanged. */
  lemma InutIdStable(id: string, ano: string, cnpj: string)
    requires |id| >= 43 && (ano == "" || |ano| == 2) && |cnpj| <= 14
    ensures InutId(InutId(id, ano, cnpj), ano, cnpj) == InutId(id, ano, cnpj)
  {
    var r := InutId(id, ano, cnpj);
    InutIdLayout(id, ano, cnpj);
    InutIdTail(r, ano, cnpj);
    var yy := if ano != "" then ano else r[4..6];
    var cc := PadStart(if cnpj != "" then cnpj else r[6..20], 14, '0');
    assert Substring(r, 2, 4) == r[2..4];
    assert Substring(r, 4, 6) == r[4..6];
    assert Substring(r, 6, 20) == r[6..20];
    assert Substring(r, 20, 43) == r[20..];
    assert yy == r[4..6] && cc == r[6..20];
    Rejoin(r, 2, 4, 6, 20);
  }

  // ---------------------------------------------------------------------------
  // The editor

  /** The `infInut` the editor works on. */
  function InfInut(t: Tree.Ref): Handle {
    Find(t, Root, ["infInut"])
  }

  /** The CNPJ the editor writes, "" when it writes none: the issuer's CNPJ, digits
      only, when the issuer override is on, the record has a CNPJ and the
      document has a `CNPJ` under `infInut`. */
  function CnpjChoice(t: Tree.Ref, p: Profile): string {
    if p.flags.emitente && NewCnpj(p) != "" && IsSet(t, Find(t, InfInut(t), ["CNPJ"]))
    then DigitsOnly(NewCnpj(p)) else ""
  }

  /** The year the editor writes, "" when it writes none: the last digits of the
      new date's year, when the date override is on and `infInut` has an `ano`. */
  function YearChoice(t: Tree.Ref, p: Profile, rt: Runtime): string {
    if DateOverride(p) && IsSet(t, Find(t, InfInut(t), ["ano"])) then SubFrom(rt.year, 2) else ""
  }

  /** Writes into texts only, at found values at least two steps below the
      document: never at `infInut` itself. */
  predicate Deep(cs: seq<Change>) {
    Below(cs, 2) && TextOnly(cs)
  }

  lemma {:induction false} DeepConcat(a: seq<Change>, b: seq<Change>)
    requires Deep(a) && Deep(b)
    ensures Deep(a + b)
  {
    forall i | 0 <= i < |a + b| ensures (a + b)[i] == (if i < |a| then a[i] else b[i - |a|]) {}
  }

  lemma DeepTrans(r2: Run, r1: Run, r: Run)
    requires Extends(r2, r1) && Extends(r1, r) && Deep(Since(r1, r)) && Deep(Since(r2, r1))
    ensures Extends(r2, r) && Deep(Since(r2, r))
  {
    SinceTrans(r2, r1, r);
    DeepConcat(Since(r1, r), Since(r2, r1));
  }

  /** `SetIfFound` at a value at least two steps down. */
  function Set(r: Run, h: Handle, s: string, msg: string): (r': Run)
    requires h.None? || |h.value| >= 2
    ensures Extends(r', r) && Deep(Since(r', r)) && Logged(r', r)
    ensures Found(r, h) ==> Since(r', r) == [Change(h, TextSlot, s)] && r'.log == r.log + [msg]
    ensures !Found(r, h) ==> r' == r
  {
    SetIfFoundWrites(r, h, s, msg, 2);
    SetIfFound(r, h, s, msg)
  }

  /** The CNPJ step; the string is `cnpjNovo`. */
  function CnpjStep(r: Run, inf: Handle, p: Profile): (out: (Run, string))
    requires inf.Some? && |inf.value| == 1
    ensures Extends(out.0, r) && Deep(Since(out.0, r)) && Logged(out.0, r)
    ensures out.1 == (if p.flags.emitente && NewCnpj(p) != "" && Found(r, Look(r, inf, ["CNPJ"]))
                      then DigitsOnly(NewCnpj(p)) else "")
  {
    if p.flags.emitente && NewCnpj(p) != "" then
      var h := Look(r, inf, ["CNPJ"]);
      var c := DigitsOnly(NewCnpj(p));
      (Set(r, h, c, "Inutilização: <CNPJ> alterado"), if Found(r, h) then c else "")
    else (r, "")
  }

  /** The date step; the string is `anoNovo`. */
  function DateStep(r: Run, inf: Handle, p: Profile, rt: Runtime): (out: (Run, string))
    requires inf.Some? && |inf.value| == 1
    ensures Extends(out.0, r) && Deep(Since(out.0, r)) && Logged(out.0, r)
    ensures out.1 == (if DateOverride(p) && Found(r, Look(r, inf, ["ano"])) then SubFrom(rt.year, 2) else "")
  {
    if DateOverride(p) then
      var h1 := Look(r, inf, ["ano"]);
      var a := SubFrom(rt.year, 2);
      var r1 := Set(r, h1, a, "Inutilização: <ano> alterado");
      var h2 := Look(r1, Root, ["retInutNFe", "infInut", "dhRecbto"]);
      var r2 := Set(r1, h2, Stamp(p, rt), "Inutilização: <dhRecbto> alterado");
      DeepTrans(r2, r1, r);
      LoggedTrans(r2, r1, r);
      (r2, if Found(r, h1) then a else "")
    else (r, "")
  }

  /** The `Id` step: a non-empty `Id` is rebuilt when the year or the CNPJ changed. */
  function IdStep(r: Run, inf: Handle, ano: string, cnpj: string): (r': Run)
    ensures Extends(r', r) && Logged(r', r)
  {
    var id := ReadId(r, inf);
    if id.Some? && id.value != "" && (ano != "" || cnpj != "") then
      Note(WriteId(r, inf, InutId(id.value, ano, cnpj)), "Inutilização: <Id> alterado")
    else r
  }

  /** The steps before the `Id` is rebuilt, with the year and CNPJ they wrote. */
  function Prepared(t: Tree.Ref, p: Profile, rt: Runtime): (out: (Run, string, string))
    requires InfInut(t).Some?
    ensures Extends(out.0, Begin(t)) && Deep(Since(out.0, Begin(t))) && Logged(out.0, Begin(t))
  {
    var r0 := Begin(t);
    var inf := InfInut(t);
    var s1 := CnpjStep(r0, inf, p);
    var s2 := DateStep(s1.0, inf, p, rt);
    DeepTrans(s2.0, s1.0, r0);
    LoggedTrans(s2.0, s1.0, r0);
    (s2.0, s2.1, s1.1)
  }

  /** `editarInutilizacao(xmlObj, config)`; `rt` supplies the time of day and the
      year of the new date. A document without `infInut` is returned untouched. */
  function EditInutilizacao(t: Tree.Ref, p: Profile, rt: Runtime): (r: Run)
    ensures r.t0 == t
    ensures Extends(r, Begin(t)) && Logged(r, Begin(t))
    ensures !IsSet(t, InfInut(t)) ==> r == Begin(t)
  {
    var r0 := Begin(t);
    var inf := Look(r0, Root, ["infInut"]);
    if !Found(r0, inf) then r0
    else
      var out := Prepared(t, p, rt);
      var r := IdStep(out.0, inf, out.1, out.2);
      ExtendsTrans(r, out.0, r0);
      LoggedTrans(r, out.0, r0);
      r
  }

  /** The CNPJ and year the steps report are the ones chosen from the document as
      it was given: neither step moves what the other looks up. */
  lemma PreparedChoices(t: Tree.Ref, p: Profile, rt: Runtime)
    requires IsSet(t, InfInut(t))
    ensures var out := Prepared(t, p, rt);
      out.1 == YearChoice(t, p, rt) && out.2 == CnpjChoice(t, p)
  {
    var r0 := Begin(t);
    var inf := InfInut(t);
    var s1 := CnpjStep(r0, inf, p);
    SafeWhenNotNamed(["infInut"]);
    SafeWhenNotNamed(["ano"]);
    RootAnchored(t);
    FindAnchored(t, Root, ["infInut"]);
    LookLater(s1.0, r0, inf, ["ano"]);
  }

  /** The text writes before the `Id` step never reach the attribute, nor change
      whether `infInut` is an object. */
  lemma PreparedKeepsId(t: Tree.Ref, p: Profile, rt: Runtime)
    requires IsSet(t, InfInut(t))
    ensures var inf, out := InfInut(t), Prepared(t, p, rt);
      && ReadId(out.0, inf) == Tree.AttrLoose(Val(t, inf), "Id")
      && (Val(Cur(out.0), inf).Obj? <==> Val(t, inf).Obj?)
  {
    SafeWhenNotNamed(["infInut"]);
    RootAnchored(t);
    FindAnchored(t, Root, ["infInut"]);
    IdKept(Prepared(t, p, rt).0, Begin(t), InfInut(t));
  }

  /** The `Id` of `infInut` after the edit: rebuilt around the new year and CNPJ
      when either was written and the old `Id` is non-empty, and untouched
      otherwise. */
  lemma InutIdResult(t: Tree.Ref, p: Profile, rt: Runtime)
    requires IsSet(t, InfInut(t))
    ensures var inf := InfInut(t);
      var id := Tree.AttrLoose(Val(t, inf), "Id");
      var ano, cnpj := YearChoice(t, p, rt), CnpjChoice(t, p);
      ReadId(EditInutilizacao(t, p, rt), inf) ==
        if id.Some? && id.value != "" && (ano != "" || cnpj != "") then Some(InutId(id.value, ano, cnpj))
        else id
  {
    PreparedChoices(t, p, rt);
    PreparedKeepsId(t, p, rt);
  }
}
