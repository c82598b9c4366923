/** The configuration profile an edit run reads (src/lib/xml/editor.ts, `FullConfig`):
    which overrides are switched on, the replacement issuer, product and tax
    columns, the new issue date, and the per-CFOP CST rules. The four CFOP lists
    of the unseen constants file are parameters. */
module Config {
  import opened Wrappers
  import opened JsString
  import Dict

  /** One column of a stored record, in the record's declaration order. The empty
      string stands for a null or empty column: both are skipped the same way. */
  datatype Field = Field(name: string, value: string)

  /** `alterarFlags`; a profile without flags has every switch off. */
  datatype Flags = Flags(
    emitente: bool,
    produtos: bool,
    impostos: bool,
    data: bool,
    refNFe: bool,
    cst: bool,
    zerarIpiRemessaRetorno: bool,
    zerarIpiVenda: bool)

  const NoFlags: Flags := Flags(false, false, false, false, false, false, false, false)

  /** One CST rule row. A column that is missing or not a string is "". */
  datatype CstRule = CstRule(cfop: string, icms: string, ipi: string, pis: string, cofins: string)

  datatype Profile = Profile(
    flags: Flags,
    emitente: Option<seq<Field>>,
    produto: Option<seq<Field>>,
    impostos: Option<seq<Field>>,
    novaData: string,        // `data?.nova_data`, "" when absent
    cstRules: seq<CstRule>)

  /** DEVOLUCOES_CFOP, VENDAS_CFOP, RETORNOS_CFOP and REMESSAS_CFOP. Nothing is
      assumed about them: they may overlap. */
  datatype CfopTables = CfopTables(
    devolucoes: seq<string>,
    vendas: seq<string>,
    retornos: seq<string>,
    remessas: seq<string>)

  /** A column the override loops copy into the document: non-empty and not one of
      the record's own keys. */
  predicate Copied(f: Field) {
    f.value != "" && f.name != "id" && f.name != "profileId"
  }

  /** Columns that live under the address element rather than the party element. */
  const AddressTags: seq<string> := ["xLgr", "nro", "xCpl", "xBairro", "xMun", "UF", "fone", "CEP"]

  /** `record.name`, "" when the record has no such column. */
  function Column(fs: seq<Field>, name: string): (v: string)
    ensures v != "" ==> exists i :: 0 <= i < |fs| && fs[i].name == name && fs[i].value == v
    ensures (forall i :: 0 <= i < |fs| ==> fs[i].name != name) ==> v == ""
  {
    if fs == [] then ""
    else if fs[0].name == name then fs[0].value
    else Column(fs[1..], name)
  }

  /** `emitente?.CNPJ`, "" when there is no issuer record or no CNPJ. */
  function NewCnpj(p: Profile): string {
    if p.emitente.Some? then Column(p.emitente.value, "CNPJ") else ""
  }

  /** Whether the date override applies: the flag is on and a date is given. */
  predicate DateOverride(p: Profile) {
    p.flags.data && p.novaData != ""
  }

  // ---------------------------------------------------------------------------
  // CST rules

  /** The rule that applies to `cfop`: the last row naming it. Rows without a CFOP
      never apply, and neither does the empty CFOP. */
  function RuleFor(rules: seq<CstRule>, cfop: string): (r: Option<CstRule>)
    ensures r.Some? ==> cfop != "" && r.value in rules && r.value.cfop == cfop
    ensures r.None? ==> cfop == "" || forall i :: 0 <= i < |rules| ==> rules[i].cfop != cfop
  {
    if rules == [] then None
    else
      var last := rules[|rules| - 1];
      if last.cfop != "" && last.cfop == cfop then Some(last)
      else RuleFor(rules[..|rules| - 1], cfop)
  }

  /** The rule table the NF-e editor builds before walking the items: one entry
      per CFOP, a later row replacing an earlier one. */
  method BuildCstTable(rules: seq<CstRule>) returns (table: Dict.Dict<CstRule>)
    ensures forall c :: Dict.Get(table, c) == RuleFor(rules, c)
    ensures Dict.Unique(table)
  {
    table := [];
    var i := 0;
    while i < |rules|
      invariant 0 <= i <= |rules|
      invariant forall c :: Dict.Get(table, c) == RuleFor(rules[..i], c)
      invariant Dict.Unique(table)
    {
      var m := rules[i];
      assert rules[..i + 1][..i] == rules[..i];
      if m.cfop != "" {
        table := Dict.Set(table, m.cfop, m);
      } else {
        assert forall c :: RuleFor(rules[..i + 1], c) == RuleFor(rules[..i], c);
      }
      i := i + 1;
    }
    assert rules[..i] == rules;
  }

  /** The columns of a rule in the order the editor visits them. */
  function CstColumns(r: CstRule): seq<(string, string)> {
    [("ICMS", r.icms), ("IPI", r.ipi), ("PIS", r.pis), ("COFINS", r.cofins)]
  }

  // ---------------------------------------------------------------------------
  // Dates

  /** `const [dia, mes, ano] = nova_data.split("/")`: a missing part is `undefined`. */
  datatype DateParts = DateParts(dia: string, mes: Option<string>, ano: Option<string>)

  function SplitDate(s: string): DateParts {
    var parts := Split(s, '/');
    DateParts(parts[0],
      if |parts| > 1 then Some(parts[1]) else None,
      if |parts| > 2 then Some(parts[2]) else None)
  }

  /** A part as a template string renders it. */
  function Show(o: Option<string>): string {
    if o.Some? then o.value else "undefined"
  }

  /** The timestamp every date override writes: `{ano}-{mes}-{dia}T{clock}-03:00`,
      `clock` being the current UTC time of day, `HH:MM:SS`. */
  function Timestamp(d: DateParts, clock: string): string {
    Show(d.ano) + "-" + Show(d.mes) + "-" + d.dia + "T" + clock + "-03:00"
  }

  /** What the editors read from the JavaScript runtime: the current UTC time of
      day (`HH:MM:SS`), and `getFullYear()` of the new date as the runtime parses
      `{ano}-{mes}-{dia}` in the server's time zone, as a string. */
  datatype Runtime = Runtime(clock: string, year: string)

  /** The timestamp of the profile's new date at the runtime's time of day. */
  function Stamp(p: Profile, rt: Runtime): string {
    Timestamp(SplitDate(p.novaData), rt.clock)
  }

  /** A date written `DD/MM/YYYY` becomes the ISO-style timestamp `YYYY-MM-DDT{clock}-03:00`. */
  lemma TimestampOfDate(dd: string, mm: string, yyyy: string, clock: string)
    requires '/' !in dd && '/' !in mm && '/' !in yyyy
    ensures SplitDate(dd + "/" + mm + "/" + yyyy) == DateParts(dd, Some(mm), Some(yyyy))
    ensures Timestamp(SplitDate(dd + "/" + mm + "/" + yyyy), clock)
      == yyyy + "-" + mm + "-" + dd + "T" + clock + "-03:00"
  {
    SplitNoSep(yyyy, '/');
    SplitAt(mm, '/', yyyy);
    assert dd + "/" + mm + "/" + yyyy == dd + ['/'] + (mm + ['/'] + yyyy);
    SplitAt(dd, '/', mm + ['/'] + yyyy);
  }

  /** The year-and-month four characters of a rebuilt access key: `ano.substring(2) + mes`.
      The source throws when the date has no year part. */
  function YearMonth(d: DateParts): (r: Result<string>)
    ensures r.Failure? <==> d.ano.None?
    ensures r.Success? ==> r.value == SubFrom(d.ano.value, 2) + Show(d.mes)
  {
    if d.ano.None? then Failure(UndefinedDatePart)
    else Success(SubFrom(d.ano.value, 2) + Show(d.mes))
  }

  /** A date has a year part exactly when it holds at least two '/', so the
      year-and-month of a key fails exactly for a date with fewer. */
  lemma YearNeedsTwoSlashes(s: string)
    ensures SplitDate(s).ano.None? <==> multiset(s)['/'] < 2
    ensures YearMonth(SplitDate(s)).Failure? <==> multiset(s)['/'] < 2
  {
    SplitCount(s, '/');
  }

  /** For a `DD/MM/YYYY` date the key receives `YYMM`. */
  lemma YearMonthOfDate(dd: string, mm: string, yyyy: string)
    requires '/' !in dd && '/' !in mm && '/' !in yyyy && |yyyy| == 4
    ensures YearMonth(SplitDate(dd + "/" + mm + "/" + yyyy)) == Success(yyyy[2..] + mm)
  {
    TimestampOfDate(dd, mm, yyyy, "");
  }
}
