/** `editarCancelamento` of src/lib/xml/editor.ts: the event of a cancellation
    is moved onto the rebuilt keys. A first pass replaces every `chNFe` the
    mapping knows, the event dates are optionally restamped, and a second pass
    aligns every `chNFe` with the first rebuilt key carrying the same invoice
    number. Both passes visit the `chNFe` values found once, at the start, as
    immediate children of the document. */
module Cancel {
  import opened Wrappers
  import opened JsString
  import opened Doc
  import opened Trail
  import opened Config
  import opened Editing
  import opened Passes
  import Tree
  import Dict
  import Info
  import Mapping

  const RemapLine: string := "Cancelamento: <chNFe> alterada"
  const SyncLine: string := "Cancelamento: <chNFe> sincronizada pelo número da nota"

  /** The invoice number inside an access key: characters 25 to 34. */
  function Number(key: string): string {
    Substring(key, 25, 34)
  }

  /** The first of `keys`, in order, carrying the invoice number `n`. */
  function FirstWithNumber(keys: seq<string>, n: string): (r: Option<string>)
    ensures r.Some? ==> exists i :: (0 <= i < |keys| && keys[i] == r.value && Number(keys[i]) == n
                                     && forall j :: 0 <= j < i ==> Number(keys[j]) != n)
    ensures r.None? ==> forall i :: 0 <= i < |keys| ==> Number(keys[i]) != n
  {
    if keys == [] then None
    else if Number(keys[0]) == n then Some(keys[0])
    else
      var r := FirstWithNumber(keys[1..], n);
      FirstWithNumberTail(keys, n, r);
      r
  }

  lemma FirstWithNumberTail(keys: seq<string>, n: string, r: Option<string>)
    requires keys != [] && Number(keys[0]) != n
    requires r.Some? ==> exists i :: (0 <= i < |keys[1..]| && keys[1..][i] == r.value && Number(keys[1..][i]) == n
                                      && forall j :: 0 <= j < i ==> Number(keys[1..][j]) != n)
    ensures r.Some? ==> exists i :: (0 <= i < |keys| && keys[i] == r.value && Number(keys[i]) == n
                                     && forall j :: 0 <= j < i ==> Number(keys[j]) != n)
  {
    if r.Some? {
      var i :| 0 <= i < |keys[1..]| && keys[1..][i] == r.value && Number(keys[1..][i]) == n
               && forall j :: 0 <= j < i ==> Number(keys[1..][j]) != n;
      assert keys[i + 1] == r.value && Number(keys[i + 1]) == n;
      forall j | 0 <= j < i + 1 ensures Number(keys[j]) != n {
        if j > 0 { assert keys[j] == keys[1..][j - 1]; }
      }
    }
  }

  /** The first pass: a `chNFe` with a non-empty text the mapping knows gets the
      mapped key. */
  function Remap(mapping: Dict.Dict<string>, text: Option<string>): (w: Option<string>)
    ensures w.Some? <==> text.Some? && text.value != "" && Dict.Get(mapping, text.value).Some?
                         && Dict.Get(mapping, text.value).value != ""
    ensures w.Some? ==> w == Dict.Get(mapping, text.value)
  {
    if text.Some? && text.value != "" then
      match Dict.Get(mapping, text.value)
      case Some(v) => if v != "" then Some(v) else None
      case None => None
    else None
  }

  /** Given the builder's mapping, the first pass moves a `chNFe` holding a
      non-empty key onto the rebuilt key of the last NF-e of the batch with that
      key, and leaves it alone when no NF-e of the batch had the key. */
  lemma RemapIsLastMapped(mapping: Dict.Dict<string>, infos: seq<Info.XmlInfo>, p: Profile, key: string)
    ensures Dict.Get(mapping, key) == Mapping.LastMapped(infos, p, key) ==>
      && Remap(mapping, Some(key)) == (if key != "" then Mapping.LastMapped(infos, p, key) else None)
      && (Remap(mapping, Some(key)).Some? ==>
            exists k :: (0 <= k < |infos| && Mapping.Eligible(infos[k]) && infos[k].chave.value == key
              && Mapping.Rebuild(infos[k], p) == Success(Remap(mapping, Some(key)).value)))
  {
    var v := Mapping.LastMapped(infos, p, key);
    if Dict.Get(mapping, key) == v && key != "" && v.Some? {
      Mapping.MappedFromBatch(infos, p, key);
      var k :| 0 <= k < |infos| && Mapping.Eligible(infos[k]) && infos[k].chave.value == key
        && Mapping.Rebuild(infos[k], p) == Success(v.value);
      assert |v.value| >= 44;
    }
  }

  /** The second pass: a `chNFe` with a non-empty text gets the first rebuilt key
      with its invoice number, unless it already holds it. */
  function Sync(mapping: Dict.Dict<string>, text: Option<string>): Option<string> {
    if text.Some? && text.value != "" then
      match FirstWithNumber(Dict.Values(mapping), Number(text.value))
      case Some(v) => if v != "" && v != text.value then Some(v) else None
      case None => None
    else None
  }

  /** The two passes as rewrites. */
  function RemapPass(mapping: Dict.Dict<string>): Rewrite {
    x => Remap(mapping, x)
  }

  function SyncPass(mapping: Dict.Dict<string>): Rewrite {
    x => Sync(mapping, x)
  }

  /** `x ?? y` of the two passes: the rewritten text, or the text as it was. */
  function Either(w: Option<string>, text: Option<string>): Option<string> {
    if w.Some? then w else text
  }

  /** The text a `chNFe` ends with, from the text it started with. */
  function Settled(mapping: Dict.Dict<string>, text: Option<string>): Option<string> {
    var after := Either(Remap(mapping, text), text);
    Either(Sync(mapping, after), after)
  }

  /** A `chNFe` whose text after the first pass carries the invoice number of a
      rebuilt key ends with the first such key, whether the second pass writes it
      or it is already there. */
  lemma SettledByNumber(mapping: Dict.Dict<string>, text: Option<string>, v: string)
    requires var after := Either(Remap(mapping, text), text);
      after.Some? && after.value != ""
      && FirstWithNumber(Dict.Values(mapping), Number(after.value)) == Some(v) && v != ""
    ensures Settled(mapping, text) == Some(v)
  {
  }

  /** A `chNFe` no rebuilt key numbers ends with what the first pass made of it. */
  lemma SettledWithoutNumber(mapping: Dict.Dict<string>, text: Option<string>)
    requires var after := Either(Remap(mapping, text), text);
      after.Some? ==> FirstWithNumber(Dict.Values(mapping), Number(after.value)).None?
    ensures Settled(mapping, text) == Either(Remap(mapping, text), text)
  {
  }

  /** The second pass is idempotent: run again on its own results it changes nothing. */
  lemma {:induction false} SyncSettles(mapping: Dict.Dict<string>, text: Option<string>)
    ensures Sync(mapping, Settled(mapping, text)).None?
  {
    var after := Either(Remap(mapping, text), text);
    var w := Sync(mapping, after);
    if w.Some? {
      var n := Number(after.value);
      var v := FirstWithNumber(Dict.Values(mapping), n);
      assert v == w && Number(v.value) == n;
    }
  }

  /** The dates of the event: `dhEvento` under the event, `dhRecbto` and
      `dhRegEvento` under `retEvento/infEvento`. */
  function EventDates(r: Run, ev: Handle, stamp: string): (r': Run)
    ensures Extends(r', r) && Logged(r', r)
    ensures TextsOf(Since(r', r), stamp)
    ensures ev.None? || |ev.value| >= 1 ==> Below(Since(r', r), 2)
  {
    var d := if ev.None? || |ev.value| >= 1 then 2 else 0;
    var h1 := Look(r, ev, ["dhEvento"]);
    var r1 := SetIfFound(r, h1, stamp, "Cancelamento: <dhEvento> alterado");
    var h2 := Look(r1, Root, ["retEvento", "infEvento", "dhRecbto"]);
    var r2 := SetIfFound(r1, h2, stamp, "Protocolo: <dhRecbto> alterado");
    var h3 := Look(r2, Root, ["retEvento", "infEvento", "dhRegEvento"]);
    var r3 := SetIfFound(r2, h3, stamp, "Protocolo: <dhRegEvento> alterado");
    SetIfFoundWrites(r, h1, stamp, "Cancelamento: <dhEvento> alterado", d);
    SetIfFoundWrites(r1, h2, stamp, "Protocolo: <dhRecbto> alterado", d);
    SetIfFoundWrites(r2, h3, stamp, "Protocolo: <dhRegEvento> alterado", d);
    SinceTrans(r2, r1, r);
    SinceTrans(r3, r2, r);
    BelowConcat(Since(r1, r), Since(r2, r1), d, stamp);
    BelowConcat(Since(r2, r), Since(r3, r2), d, stamp);
    r3
  }

  /** `editarCancelamento(xmlObj, config, chaveMapping)`; `rt` supplies the time of day. */
  function EditCancelamento(t: Tree.Ref, p: Profile, mapping: Dict.Dict<string>, rt: Runtime): (r: Run)
    ensures r.t0 == t
    ensures Extends(r, Begin(t)) && Logged(r, Begin(t))
    ensures !IsSet(t, Find(t, Root, ["infEvento"])) ==> r == Begin(t)
  {
    var r0 := Begin(t);
    var ev := Look(r0, Root, ["infEvento"]);
    if !Found(r0, ev) then r0
    else
      var r1 := Remapped(t, p, mapping, rt);
      var r := Pass(r1, Tags(t), SyncPass(mapping), SyncLine);
      ExtendsTrans(r, r1, r0);
      LoggedTrans(r, r1, r0);
      r
  }

  /** The run up to the second pass: the first pass, then the dates. */
  function Remapped(t: Tree.Ref, p: Profile, mapping: Dict.Dict<string>, rt: Runtime): (r: Run)
    ensures Extends(r, Begin(t)) && Logged(r, Begin(t))
  {
    var r0 := Begin(t);
    var ev := Look(r0, Root, ["infEvento"]);
    var r1 := Pass(r0, Tags(t), RemapPass(mapping), RemapLine);
    if DateOverride(p) then
      var r2 := EventDates(r1, ev, Stamp(p, rt));
      ExtendsTrans(r2, r1, r0);
      LoggedTrans(r2, r1, r0);
      r2
    else r1
  }

  /** The `chNFe` values the editor visits: found once, in document order. */
  function Tags(t: Tree.Ref): seq<Handle> {
    LookAll(Begin(t), Root, ["chNFe"])
  }

  lemma TagsSpread(t: Tree.Ref, cs: seq<Change>)
    ensures Spread(Apply(t, cs), Tags(t))
    ensures forall i :: 0 <= i < |Tags(t)| ==> Tags(t)[i].Some? && |Tags(t)[i].value| == 1
  {
    var hs := Tags(t);
    SafeWhenNotNamed(["chNFe"]);
    RootAnchored(t);
    forall i | 0 <= i < |hs| ensures Anchored(Apply(t, cs), hs[i]) {
      FindAllLocsAnchored(t, [], ["chNFe"], i);
      AnchoredAfterAll(t, cs, hs[i]);
    }
  }

  /** Before the second pass, a `chNFe` holds what the first pass made of it: the
      event dates lie deeper in the document. */
  lemma RemappedText(t: Tree.Ref, p: Profile, mapping: Dict.Dict<string>, rt: Runtime, i: nat)
    requires i < |Tags(t)|
    ensures var h := Tags(t)[i];
      ReadText(Remapped(t, p, mapping, rt), h) == Either(Remap(mapping, TextAt(t, h)), TextAt(t, h))
  {
    var h := Tags(t)[i];
    var r0 := Begin(t);
    var r1 := Pass(r0, Tags(t), RemapPass(mapping), RemapLine);
    FirstPassText(t, mapping, i);
    if DateOverride(p) {
      TagsSpread(t, Since(r1, r0));
      CurSince(r1, r0);
      DatesKeepTags(r1, Look(r0, Root, ["infEvento"]), Stamp(p, rt), h);
    }
  }

  /** The first pass leaves each `chNFe` remapped, or as it was when its text has
      no entry in the mapping. */
  lemma FirstPassText(t: Tree.Ref, mapping: Dict.Dict<string>, i: nat)
    requires i < |Tags(t)|
    ensures var h := Tags(t)[i];
      ReadText(Pass(Begin(t), Tags(t), RemapPass(mapping), RemapLine), h)
        == Either(Remap(mapping, TextAt(t, h)), TextAt(t, h))
  {
    TagsSpread(t, []);
    PassResult(Begin(t), Tags(t), RemapPass(mapping), RemapLine, Tags(t)[i]);
  }

  /** The event dates lie two levels down, so a top-level `chNFe` keeps its text. */
  lemma DatesKeepTags(r: Run, ev: Handle, stamp: string, h: Handle)
    requires ev.None? || |ev.value| >= 1
    requires h.Some? && |h.value| == 1 && Anchored(Cur(r), h)
    ensures TextAt(Cur(EventDates(r, ev, stamp)), h) == TextAt(Cur(r), h)
  {
    var r' := EventDates(r, ev, stamp);
    CurSince(r', r);
    BelowMisses(Since(r', r), 2, h, TextSlot);
    TextAfterAll(Cur(r), Since(r', r), h);
  }

  /** Every `chNFe` the editor visits ends with the text its starting text calls
      for: remapped, then aligned by invoice number. Nothing is touched when the
      document has no event. */
  lemma ChNFeSettled(t: Tree.Ref, p: Profile, mapping: Dict.Dict<string>, rt: Runtime, i: nat)
    requires i < |Tags(t)|
    ensures var h := Tags(t)[i];
      var r := EditCancelamento(t, p, mapping, rt);
      TextAt(Cur(r), h) ==
        if IsSet(t, Find(t, Root, ["infEvento"])) then Settled(mapping, TextAt(t, h)) else TextAt(t, h)
  {
    if IsSet(t, Find(t, Root, ["infEvento"])) {
      RemappedText(t, p, mapping, rt, i);
      SecondPassText(Remapped(t, p, mapping, rt), t, mapping, i);
    }
  }

  /** The second pass takes a `chNFe` holding the first pass's text to its settled text. */
  lemma SecondPassText(r: Run, t: Tree.Ref, mapping: Dict.Dict<string>, i: nat)
    requires Extends(r, Begin(t))
    ensures i < |Tags(t)| ==> var h := Tags(t)[i];
      ReadText(r, h) == Either(Remap(mapping, TextAt(t, h)), TextAt(t, h)) ==>
      ReadText(Pass(r, Tags(t), SyncPass(mapping), SyncLine), h) == Settled(mapping, TextAt(t, h))
  {
    if i < |Tags(t)| && ReadText(r, Tags(t)[i]) == Either(Remap(mapping, TextAt(t, Tags(t)[i])), TextAt(t, Tags(t)[i])) {
      var h := Tags(t)[i];
      CurSince(r, Begin(t));
      TagsSpread(t, Since(r, Begin(t)));
      assert h in Tags(t);
      PassResult(r, Tags(t), SyncPass(mapping), SyncLine, h);
    }
  }
}
