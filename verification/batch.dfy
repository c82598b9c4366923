/** `editFilesInBatch` of src/lib/xml/editor.ts: the maps are built once for the
    whole batch, then every file goes to the editor of its kind, and a file is
    written back only when its editor logged a change. A failure of the map
    builder fails the batch; a failure of one editor only skips its file. */
module Batch {
  import opened Wrappers
  import opened Info
  import opened Config
  import opened Editing
  import opened Mapping
  import Tree
  import Doc
  import Nfe
  import Cancel
  import Cte
  import Inut

  /** What became of one file: written back with its edited document and log,
      left as it was, or skipped because its editor failed. */
  datatype Outcome =
    | Saved(path: string, doc: Tree.Ref, log: seq<string>)
    | Kept(path: string)
    | Failed(path: string, error: Error)

  /** The editor of the file's kind. Only the CT-e editor can fail. */
  function EditOne(i: XmlInfo, p: Profile, cfops: CfopTables, m: Maps, rt: Runtime): (out: Result<Run>)
    ensures out.Success? ==> out.value.t0 == i.doc
    ensures out.Success? ==> Extends(out.value, Begin(i.doc)) && Logged(out.value, Begin(i.doc))
    ensures i.kind != CTe ==> out.Success?
  {
    match i.kind
    case NFe => Success(Nfe.EditNFe(i.doc, p, cfops, m.chaveMapping, m.referenceMap, rt))
    case Cancelamento => Success(Cancel.EditCancelamento(i.doc, p, m.chaveMapping, rt))
    case CTe => Cte.EditCTe(i.doc, p, m.primary, rt)
    case Inutilizacao => Success(Inut.EditInutilizacao(i.doc, p, rt))
  }

  /** One iteration of the batch loop: save only when the change log is not empty.
      Since every edit is logged, a file that is kept is one its editor left as
      it was given. */
  function FileOutcome(i: XmlInfo, p: Profile, cfops: CfopTables, m: Maps, rt: Runtime): (o: Outcome)
    ensures o.path == i.path
    ensures o.Saved? <==> EditOne(i, p, cfops, m, rt).Success? && EditOne(i, p, cfops, m, rt).value.log != []
    ensures o.Failed? <==> EditOne(i, p, cfops, m, rt).Failure?
    ensures o.Saved? ==>
      && o.log == EditOne(i, p, cfops, m, rt).value.log && o.log != []
      && o.doc == Cur(EditOne(i, p, cfops, m, rt).value)
    ensures o.Kept? ==> EditOne(i, p, cfops, m, rt).Success? && Cur(EditOne(i, p, cfops, m, rt).value) == i.doc
  {
    match EditOne(i, p, cfops, m, rt)
    case Failure(e) => Failed(i.path, e)
    case Success(r) => if r.log != [] then Saved(i.path, Cur(r), r.log) else Kept(i.path)
  }

  /** `editFilesInBatch(allInfos, config)`. On success the maps are the ones the
      builder defines and every file has its outcome, in batch order. */
  method EditFilesInBatch(infos: seq<XmlInfo>, p: Profile, cfops: CfopTables, rt: Runtime)
    returns (r: Result<(Maps, seq<Outcome>)>)
    ensures r.Failure? <==> exists k :: 0 <= k < |infos| && Throws(infos[k], p)
    ensures r.Success? ==> forall key :: Dict.Get(r.value.0.chaveMapping, key) == LastMapped(infos, p, key)
    ensures r.Success? ==> forall key :: Dict.Get(r.value.0.referenceMap, key) == LastReference(infos, infos, key)
    ensures r.Success? ==> r.value.0.primary == SaleKey(infos, p)
    ensures r.Success? ==> |r.value.1| == |infos|
    ensures r.Success? ==> forall k :: 0 <= k < |infos| ==> r.value.1[k] == FileOutcome(infos[k], p, cfops, r.value.0, rt)
  {
    var maps := PreparaMapeamentos(infos, p);
    if maps.Failure? {
      return Failure(maps.error);
    }
    var m := maps.value;
    var outcomes := Each(infos, x => FileOutcome(x, p, cfops, m, rt));
    r := Success((m, outcomes));
  }

  /** The `for (const info of allInfos)` loop: every file in order, each on its own. */
  method Each<X, Y>(xs: seq<X>, f: X -> Y) returns (ys: seq<Y>)
    ensures |ys| == |xs|
    ensures forall k :: 0 <= k < |xs| ==> ys[k] == f(xs[k])
  {
    ys := [];
    var i := 0;
    while i < |xs|
      invariant 0 <= i <= |xs| && |ys| == i
      invariant forall k :: 0 <= k < i ==> ys[k] == f(xs[k])
    {
      ys := ys + [f(xs[i])];
      i := i + 1;
    }
  }

  /** Only a CT-e can fail, and a CT-e fails exactly when its `Id` is to be
      rebuilt and the new date has no year part. */
  lemma FailsOnlyCte(i: XmlInfo, p: Profile, cfops: CfopTables, m: Maps, rt: Runtime)
    ensures FileOutcome(i, p, cfops, m, rt).Failed? <==>
      i.kind == CTe && Doc.IsSet(i.doc, Cte.InfCte(i.doc))
      && Cte.Rekeyed(p, Tree.AttrLoose(Doc.Val(i.doc, Cte.InfCte(i.doc)), "Id"))
      && SplitDate(p.novaData).ano.None?
  {
    if i.kind == CTe {
      Cte.CteFails(i.doc, p, m.primary, rt);
    }
  }

  /** A file its editor does not open (no `infNFe` with a key, no `infEvento`, no
      `infCte`, no `infInut`) is never written back. */
  lemma UnopenedKept(i: XmlInfo, p: Profile, cfops: CfopTables, m: Maps, rt: Runtime)
    requires match i.kind
      case NFe => !Nfe.Opens(i.doc)
      case Cancelamento => !Doc.IsSet(i.doc, Doc.Find(i.doc, Doc.Root, ["infEvento"]))
      case CTe => !Doc.IsSet(i.doc, Cte.InfCte(i.doc))
      case Inutilizacao => !Doc.IsSet(i.doc, Inut.InfInut(i.doc))
    ensures FileOutcome(i, p, cfops, m, rt) == Kept(i.path)
  {
  }
}
