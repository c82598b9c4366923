/** The writes an editor makes, in the order it makes them. Every write stores a
    string under "#text" or under the "Id" attribute of an object found earlier,
    so the document after a run of writes is the original with each written
    (handle, slot) pair holding the last string written there. */
module Trail {
  import opened Wrappers
  import opened Tree
  import opened Doc

  /** The two places an editor writes: an element's text and its `Id` attribute. */
  datatype Slot = TextSlot | IdSlot

  function KeyOf(s: Slot): (k: string)
    ensures Written(k)
  {
    match s
    case TextSlot => TextKey
    case IdSlot => IdKey
  }

  /** One `setNodeText` or `setNodeAttr(…, "Id", …)` call: the found value it was
      given, where it stores, and the string. */
  datatype Change = Change(at: Handle, slot: Slot, text: string)

  /** The document after the writes `cs`, first to last. */
  function Apply(t: Ref, cs: seq<Change>): Ref
    decreases |cs|
  {
    if cs == [] then t
    else
      var c := cs[|cs| - 1];
      Write(Apply(t, cs[..|cs| - 1]), c.at, KeyOf(c.slot), c.text)
  }

  /** The string last written under `k` at `h`, if any. */
  function LastAt(cs: seq<Change>, h: Handle, k: Slot): (r: Option<string>)
    ensures r.Some? ==> exists i :: 0 <= i < |cs| && cs[i] == Change(h, k, r.value)
    ensures r.None? ==> forall i :: 0 <= i < |cs| ==> cs[i].at != h || cs[i].slot != k
  {
    if cs == [] then None
    else
      var c := cs[|cs| - 1];
      if c.at == h && c.slot == k then Some(c.text) else LastAt(cs[..|cs| - 1], h, k)
  }

  lemma ApplyAppend(t: Ref, cs: seq<Change>, c: Change)
    ensures Apply(t, cs + [c]) == Write(Apply(t, cs), c.at, KeyOf(c.slot), c.text)
  {
    assert (cs + [c])[..|cs|] == cs;
  }

  /** Writes made in two runs are the writes of the first, then of the second. */
  lemma {:induction false} ApplyConcat(t: Ref, a: seq<Change>, b: seq<Change>)
    ensures Apply(t, a + b) == Apply(Apply(t, a), b)
    decreases |b|
  {
    if b == [] {
      assert a + b == a;
    } else {
      var c := b[|b| - 1];
      var b' := b[..|b| - 1];
      assert a + b == (a + b') + [c];
      ApplyAppend(t, a + b', c);
      ApplyConcat(t, a, b');
    }
  }

  lemma LastAtAppend(cs: seq<Change>, c: Change, h: Handle, k: Slot)
    ensures LastAt(cs + [c], h, k) == if c.at == h && c.slot == k then Some(c.text) else LastAt(cs, h, k)
  {
    assert (cs + [c])[..|cs|] == cs;
  }

  /** The last write in two runs is the second run's, if it made one. */
  lemma {:induction false} LastAtConcat(a: seq<Change>, b: seq<Change>, h: Handle, k: Slot)
    ensures LastAt(a + b, h, k) == if LastAt(b, h, k).Some? then LastAt(b, h, k) else LastAt(a, h, k)
    decreases |b|
  {
    if b == [] {
      assert a + b == a;
    } else {
      var c := b[|b| - 1];
      var b' := b[..|b| - 1];
      assert a + b == (a + b') + [c];
      LastAtAppend(a + b', c, h, k);
      LastAtAppend(b', c, h, k);
      assert b == b' + [c];
      LastAtConcat(a, b', h, k);
    }
  }

  lemma {:induction false} AnchoredAfterAll(t: Ref, cs: seq<Change>, h: Handle)
    requires Anchored(t, h)
    ensures Anchored(Apply(t, cs), h)
    decreases |cs|
  {
    if cs != [] {
      var c := cs[|cs| - 1];
      AnchoredAfterAll(t, cs[..|cs| - 1], h);
      AnchoredAfterWrite(Apply(t, cs[..|cs| - 1]), c.at, KeyOf(c.slot), c.text, h);
    }
  }

  /** No run of writes moves what a lookup along a safe path finds. */
  lemma {:induction false} FindAfterAll(t: Ref, cs: seq<Change>, base: Handle, path: seq<string>)
    requires Anchored(t, base) && Safe(path)
    ensures Find(Apply(t, cs), base, path) == Find(t, base, path)
    decreases |cs|
  {
    if cs != [] {
      var c := cs[|cs| - 1];
      var pre := cs[..|cs| - 1];
      FindAfterAll(t, pre, base, path);
      AnchoredAfterAll(t, pre, base);
      FindAfterWrite(Apply(t, pre), c.at, KeyOf(c.slot), c.text, base, path);
    }
  }

  lemma {:induction false} FindAllLocsAfterAll(t: Ref, cs: seq<Change>, base: Loc, path: seq<string>)
    requires Anchored(t, Some(base)) && Safe(path)
    ensures FindAllLocs(Apply(t, cs), base, path) == FindAllLocs(t, base, path)
    decreases |cs|
  {
    if cs != [] {
      var c := cs[|cs| - 1];
      var pre := cs[..|cs| - 1];
      FindAllLocsAfterAll(t, pre, base, path);
      AnchoredAfterAll(t, pre, Some(base));
      FindAllLocsAfterWrite(Apply(t, pre), c.at, KeyOf(c.slot), c.text, base, path);
    }
  }

  /** A handle keeps referring to an object exactly when it did, and to the same
      value when that is not an object. */
  lemma {:induction false} ValAfterAll(t: Ref, cs: seq<Change>, h: Handle)
    requires Anchored(t, h)
    ensures Val(Apply(t, cs), h).Obj? <==> Val(t, h).Obj?
    ensures !Val(t, h).Obj? ==> Val(Apply(t, cs), h) == Val(t, h)
    ensures IsSet(Apply(t, cs), h) <==> IsSet(t, h)
    decreases |cs|
  {
    if cs != [] {
      var c := cs[|cs| - 1];
      var pre := cs[..|cs| - 1];
      ValAfterAll(t, pre, h);
      AnchoredAfterAll(t, pre, h);
      ValAfterWrite(Apply(t, pre), c.at, KeyOf(c.slot), c.text, h);
    }
  }

  /** What an anchored handle holds under `k` after a run of writes: the last string
      written there, or what it held before when nothing was. */
  lemma {:induction false} ShapeAfterAll(t: Ref, cs: seq<Change>, h: Handle, k: Slot)
    requires Anchored(t, h)
    ensures LastAt(cs, h, k).None? ==> ShapeUnder(Val(Apply(t, cs), h), KeyOf(k)) == ShapeUnder(Val(t, h), KeyOf(k))
    ensures LastAt(cs, h, k).Some? && Val(t, h).Obj? ==>
      ShapeUnder(Val(Apply(t, cs), h), KeyOf(k)) == Some(SText(LastAt(cs, h, k).value))
    decreases |cs|
  {
    if cs != [] {
      var c := cs[|cs| - 1];
      var pre := cs[..|cs| - 1];
      ShapeAfterAll(t, pre, h, k);
      AnchoredAfterAll(t, pre, h);
      ValAfterAll(t, pre, h);
      ShapeAfterWrite(Apply(t, pre), c.at, KeyOf(c.slot), c.text, h, KeyOf(k));
    }
  }

  /** The text of an anchored handle after a run of writes. */
  lemma TextAfterAll(t: Ref, cs: seq<Change>, h: Handle)
    requires Anchored(t, h)
    ensures TextAt(Apply(t, cs), h) ==
      if Val(t, h).Obj? && LastAt(cs, h, TextSlot).Some? then LastAt(cs, h, TextSlot) else TextAt(t, h)
  {
    ShapeAfterAll(t, cs, h, TextSlot);
    ValAfterAll(t, cs, h);
  }

  /** The `Id` attribute of an anchored handle after a run of writes, read as the
      editors read it. */
  lemma IdAfterAll(t: Ref, cs: seq<Change>, h: Handle)
    requires Anchored(t, h)
    ensures AttrLoose(Val(Apply(t, cs), h), "Id") ==
      if Val(t, h).Obj? && LastAt(cs, h, IdSlot).Some? then LastAt(cs, h, IdSlot) else AttrLoose(Val(t, h), "Id")
  {
    assert IdKey == AttrPrefix + "Id";
    ShapeAfterAll(t, cs, h, IdSlot);
    ValAfterAll(t, cs, h);
    if !(Val(t, h).Obj? && LastAt(cs, h, IdSlot).Some?) {
      AttrLooseOfShape(Val(Apply(t, cs), h), Val(t, h), "Id");
    }
  }
}
