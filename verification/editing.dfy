/** What every editor of src/lib/xml/editor.ts does: look values up in the
    document as it now is, write a string into a found object, and push a line on
    the change log. A run keeps the document it started from and the writes made
    so far; the document as it now is is the start with those writes applied. */
module Editing {
  import opened Wrappers
  import opened JsString
  import opened Tree
  import opened Doc
  import opened Trail
  import opened Config

  /** An editor part-way through a document: the document it was given, the writes
      made so far and the change log (`alteracoes`). */
  datatype Run = Run(t0: Ref, trail: seq<Change>, log: seq<string>)

  function Begin(t: Ref): (r: Run)
    ensures Cur(r) == t && r.log == [] && r.trail == []
  {
    Run(t, [], [])
  }

  /** The document as it now is. */
  function Cur(r: Run): Ref {
    Apply(r.t0, r.trail)
  }

  /** `findElementDeep(base, path)` on the document as it now is. */
  function Look(r: Run, base: Handle, path: seq<string>): Handle {
    Find(Cur(r), base, path)
  }

  /** `findAllElementsDeep(base, path)` on the document as it now is. */
  function LookAll(r: Run, base: Handle, path: seq<string>): (hs: seq<Handle>)
    ensures base.None? ==> hs == []
    ensures base.Some? ==> |hs| == |FindAllLocs(Cur(r), base.value, path)|
    ensures base.Some? ==> forall i :: 0 <= i < |hs| ==> hs[i] == Some(FindAllLocs(Cur(r), base.value, path)[i])
  {
    if base.None? then []
    else
      var ls := FindAllLocs(Cur(r), base.value, path);
      seq(|ls|, i requires 0 <= i < |ls| => Some(ls[i]))
  }

  /** `if (found)`: JavaScript truthiness of a found value. */
  predicate Found(r: Run, h: Handle) {
    IsSet(Cur(r), h)
  }

  /** `getNodeText(found)` */
  function ReadText(r: Run, h: Handle): Option<string> {
    TextAt(Cur(r), h)
  }

  /** The editor's own `getNodeAttr(found, "Id")`. */
  function ReadId(r: Run, h: Handle): Option<string> {
    AttrLoose(Val(Cur(r), h), "Id")
  }

  /** `r'` carries on from `r`: the same document, more writes and more log lines. */
  predicate Extends(r': Run, r: Run) {
    && r'.t0 == r.t0
    && |r.trail| <= |r'.trail| && r'.trail[..|r.trail|] == r.trail
    && |r.log| <= |r'.log| && r'.log[..|r.log|] == r.log
  }

  /** Every write `r'` made after `r` was followed by a log line: a run that
      logged nothing since `r` changed nothing since `r`. */
  predicate Logged(r': Run, r: Run) {
    |r'.log| == |r.log| ==> |r'.trail| == |r.trail|
  }

  lemma LoggedTrans(r'': Run, r': Run, r: Run)
    requires Extends(r'', r') && Extends(r', r) && Logged(r'', r') && Logged(r', r)
    ensures Logged(r'', r)
  {}

  lemma ExtendsTrans(r'': Run, r': Run, r: Run)
    requires Extends(r'', r') && Extends(r', r)
    ensures Extends(r'', r)
  {
    assert r''.trail[..|r.trail|] == r''.trail[..|r'.trail|][..|r.trail|];
    assert r''.log[..|r.log|] == r''.log[..|r'.log|][..|r.log|];
  }

  /** The writes `r'` made after `r`. */
  function Since(r': Run, r: Run): (cs: seq<Change>)
    requires Extends(r', r)
    ensures r'.trail == r.trail + cs
  {
    r'.trail[|r.trail|..]
  }

  lemma SinceTrans(r'': Run, r': Run, r: Run)
    requires Extends(r'', r') && Extends(r', r)
    ensures Extends(r'', r)
    ensures Since(r'', r) == Since(r', r) + Since(r'', r')
  {
    ExtendsTrans(r'', r', r);
    var a, b := Since(r', r), Since(r'', r');
    assert r''.trail == r.trail + (a + b);
    assert r''.trail[|r.trail|..] == a + b;
  }

  /** The document of a later run is the earlier one with the writes made since. */
  lemma CurSince(r': Run, r: Run)
    requires Extends(r', r)
    ensures Cur(r') == Apply(Cur(r), Since(r', r))
  {
    ApplyConcat(r.t0, r.trail, Since(r', r));
  }

  /** `setNodeText(found, s)` */
  function WriteText(r: Run, h: Handle, s: string): (r': Run)
    ensures Extends(r', r) && r'.log == r.log && Since(r', r) == [Change(h, TextSlot, s)]
    ensures Val(Cur(r), h).Obj? ==> ReadText(r', h) == Some(s)
    ensures !Val(Cur(r), h).Obj? ==> Cur(r') == Cur(r)
  {
    var r' := r.(trail := r.trail + [Change(h, TextSlot, s)]);
    assert r'.trail[..|r.trail|] == r.trail;
    ApplyAppend(r.t0, r.trail, Change(h, TextSlot, s));
    assert Cur(r') == SetTextAt(Cur(r), h, s);
    r'
  }

  /** `setNodeAttr(found, "Id", v)` */
  function WriteId(r: Run, h: Handle, v: string): (r': Run)
    ensures Extends(r', r) && r'.log == r.log && Since(r', r) == [Change(h, IdSlot, v)]
    ensures Val(Cur(r), h).Obj? ==> ReadId(r', h) == Some(v)
  {
    var r' := r.(trail := r.trail + [Change(h, IdSlot, v)]);
    assert r'.trail[..|r.trail|] == r.trail;
    ApplyAppend(r.t0, r.trail, Change(h, IdSlot, v));
    assert IdKey == AttrPrefix + "Id";
    assert Cur(r') == SetIdAt(Cur(r), h, v);
    r'
  }

  /** `alteracoes.push(msg)` */
  function Note(r: Run, msg: string): (r': Run)
    ensures Extends(r', r) && r'.trail == r.trail && r'.log == r.log + [msg]
    ensures Logged(r', r)
  {
    var r' := r.(log := r.log + [msg]);
    assert r'.log[..|r.log|] == r.log;
    r'
  }

  /** `if (node) { setNodeText(node, s); alteracoes.push(msg); }` */
  function SetIfFound(r: Run, h: Handle, s: string, msg: string): (r': Run)
    ensures Extends(r', r) && Logged(r', r)
    ensures Found(r, h) ==> Since(r', r) == [Change(h, TextSlot, s)] && r'.log == r.log + [msg]
    ensures !Found(r, h) ==> r' == r
  {
    if Found(r, h) then Note(WriteText(r, h, s), msg) else r
  }

  /** Writes made only at found values at least `d` steps below the document. */
  predicate Below(cs: seq<Change>, d: nat) {
    forall i :: 0 <= i < |cs| ==> cs[i].at.Some? && |cs[i].at.value| >= d
  }

  /** Writes of the single string `s` into texts. */
  predicate TextsOf(cs: seq<Change>, s: string) {
    forall i :: 0 <= i < |cs| ==> cs[i].slot == TextSlot && cs[i].text == s
  }

  lemma TextsConcat(a: seq<Change>, b: seq<Change>, s: string)
    requires TextsOf(a, s) && TextsOf(b, s)
    ensures TextsOf(a + b, s)
  {
    forall i | 0 <= i < |a + b| ensures (a + b)[i].slot == TextSlot && (a + b)[i].text == s {
      if i >= |a| { assert (a + b)[i] == b[i - |a|]; }
    }
  }

  lemma {:induction false} BelowConcat(a: seq<Change>, b: seq<Change>, d: nat, s: string)
    requires Below(a, d) && Below(b, d) && TextsOf(a, s) && TextsOf(b, s)
    ensures Below(a + b, d) && TextsOf(a + b, s)
  {
  }

  /** `SetIfFound` writes only `s`, only into a text, and only at the value given. */
  lemma SetIfFoundWrites(r: Run, h: Handle, s: string, msg: string, d: nat)
    requires h.None? || |h.value| >= d
    ensures var r' := SetIfFound(r, h, s, msg); Below(Since(r', r), d) && TextsOf(Since(r', r), s)
  {
  }

  /** Such writes leave every shallower value alone. */
  lemma BelowMisses(cs: seq<Change>, d: nat, h: Handle, k: Slot)
    requires Below(cs, d) && h.Some? && |h.value| < d
    ensures LastAt(cs, h, k).None?
  {
  }

  /** Writes into texts only: no `Id` attribute is touched. */
  predicate TextOnly(cs: seq<Change>) {
    forall i :: 0 <= i < |cs| ==> cs[i].slot == TextSlot
  }

  lemma TextOnlyTrans(r2: Run, r1: Run, r: Run)
    requires Extends(r2, r1) && Extends(r1, r) && TextOnly(Since(r1, r)) && TextOnly(Since(r2, r1))
    ensures Extends(r2, r) && TextOnly(Since(r2, r))
  {
    SinceTrans(r2, r1, r);
    var a: seq<Change>, b: seq<Change> := Since(r1, r), Since(r2, r1);
    forall i | 0 <= i < |a + b| ensures (a + b)[i].slot == TextSlot {
      if i >= |a| { assert (a + b)[i] == b[i - |a|]; }
    }
  }

  lemma SetIfFoundText(r: Run, h: Handle, s: string, msg: string)
    ensures TextOnly(Since(SetIfFound(r, h, s, msg), r))
  {
  }

  /** A found object holds the text just set into it. */
  lemma SetIfFoundHolds(r: Run, h: Handle, s: string, msg: string)
    requires Anchored(Cur(r), h) && Val(Cur(r), h).Obj?
    ensures TextAt(Cur(SetIfFound(r, h, s, msg)), h) == Some(s)
  {
    var r' := SetIfFound(r, h, s, msg);
    CurSince(r', r);
    TextAfterAll(Cur(r), Since(r', r), h);
  }

  /** Two texts set one after the other at different places both stay. */
  lemma SetTwice(r: Run, a: Handle, x: string, m: string, b: Handle, y: string, n: string)
    requires Anchored(Cur(r), a) && Anchored(Cur(r), b) && (a.Some? ==> a != b)
    ensures var r2 := SetIfFound(SetIfFound(r, a, x, m), b, y, n);
      && (Val(Cur(r), a).Obj? ==> TextAt(Cur(r2), a) == Some(x))
      && (Val(Cur(r), b).Obj? ==> TextAt(Cur(r2), b) == Some(y))
  {
    var r1 := SetIfFound(r, a, x, m);
    var r2 := SetIfFound(r1, b, y, n);
    HandleLater(r1, r, a);
    HandleLater(r1, r, b);
    if Val(Cur(r), b).Obj? {
      SetIfFoundHolds(r1, b, y, n);
    }
    if Val(Cur(r), a).Obj? {
      SetIfFoundHolds(r, a, x, m);
      CurSince(r2, r1);
      assert LastAt(Since(r2, r1), a, TextSlot).None?;
      TextAfterAll(Cur(r1), Since(r2, r1), a);
    }
  }

  /** A text that holds `s` keeps it through writes that all write `s`. */
  lemma TextStays(r': Run, r: Run, h: Handle, s: string)
    requires Extends(r', r) && TextsOf(Since(r', r), s) && Anchored(Cur(r), h)
    requires TextAt(Cur(r), h) == Some(s)
    ensures TextAt(Cur(r'), h) == Some(s)
  {
    CurSince(r', r);
    TextAfterAll(Cur(r), Since(r', r), h);
  }

  /** A single text write elsewhere leaves a text as it was. */
  lemma TextElsewhere(r': Run, r: Run, g: Handle, s: string, h: Handle)
    requires Extends(r', r) && Since(r', r) == [Change(g, TextSlot, s)]
    requires Anchored(Cur(r), h) && g != h
    ensures TextAt(Cur(r'), h) == TextAt(Cur(r), h)
  {
    CurSince(r', r);
    TextAfterAll(Cur(r), Since(r', r), h);
  }

  /** Text writes leave every `Id` where it was. */
  lemma IdKept(r': Run, r: Run, h: Handle)
    requires Extends(r', r) && TextOnly(Since(r', r)) && Anchored(Cur(r), h)
    ensures ReadId(r', h) == ReadId(r, h)
    ensures Val(Cur(r'), h).Obj? <==> Val(Cur(r), h).Obj?
  {
    CurSince(r', r);
    assert LastAt(Since(r', r), h, IdSlot).None?;
    IdAfterAll(Cur(r), Since(r', r), h);
    ValAfterAll(Cur(r), Since(r', r), h);
  }

  // ---------------------------------------------------------------------------
  // Safe lookups

  /** A segment that is neither "#text" nor "@_Id" is never answered by those keys. */
  lemma SafeWhenNotNamed(path: seq<string>)
    requires forall i :: 0 <= i < |path| ==> path[i] != TextKey && path[i] != IdKey
    ensures Safe(path)
  {
    forall i | 0 <= i < |path|
      ensures !TagMatches(TextKey, path[i]) && !TagMatches(IdKey, path[i])
    {
      if EndsWith(TextKey, ":" + path[i]) { SuffixHasColon(TextKey, path[i]); }
      if EndsWith(IdKey, ":" + path[i]) { SuffixHasColon(IdKey, path[i]); }
    }
  }

  /** A column name, split on '/' as `findElementDeep` does, makes a safe lookup path. */
  predicate SafeName(name: string) {
    Safe(Split(name, '/'))
  }

  predicate SafeNames(fs: seq<Field>) {
    forall i :: 0 <= i < |fs| ==> SafeName(fs[i].name)
  }

  /** A lookup along a safe path from an anchored handle finds the same value, which
      is itself anchored, and it is found in every later document. */
  lemma LookLater(r': Run, r: Run, base: Handle, path: seq<string>)
    requires Extends(r', r) && Anchored(Cur(r), base) && Safe(path)
    ensures Look(r', base, path) == Look(r, base, path)
    ensures Anchored(Cur(r), Look(r, base, path))
    ensures Anchored(Cur(r'), Look(r, base, path))
    ensures Found(r', Look(r, base, path)) <==> Found(r, Look(r, base, path))
  {
    CurSince(r', r);
    FindAfterAll(Cur(r), Since(r', r), base, path);
    FindAnchored(Cur(r), base, path);
    AnchoredAfterAll(Cur(r), Since(r', r), Look(r, base, path));
    ValAfterAll(Cur(r), Since(r', r), Look(r, base, path));
  }

  /** An anchored handle stays anchored and keeps its truthiness. */
  lemma HandleLater(r': Run, r: Run, h: Handle)
    requires Extends(r', r) && Anchored(Cur(r), h)
    ensures Anchored(Cur(r'), h)
    ensures Found(r', h) <==> Found(r, h)
    ensures Val(Cur(r'), h).Obj? <==> Val(Cur(r), h).Obj?
  {
    CurSince(r', r);
    AnchoredAfterAll(Cur(r), Since(r', r), h);
    ValAfterAll(Cur(r), Since(r', r), h);
  }

  // ---------------------------------------------------------------------------
  // Column overrides

  /** Where a column is looked up: address columns under the address element when
      the record is an issuer or sender, every other column under the party element. */
  function FieldBase(f: Field, main: Handle, ender: Handle, routed: bool): Handle {
    if routed && f.name in AddressTags then ender else main
  }

  function FieldTarget(t: Ref, f: Field, main: Handle, ender: Handle, routed: bool): Handle {
    Find(t, FieldBase(f, main, ender, routed), Split(f.name, '/'))
  }

  /** The writes an override loop makes, every lookup made in the document `t` the
      loop started from. */
  function FieldChanges(t: Ref, fs: seq<Field>, main: Handle, ender: Handle, routed: bool): seq<Change> {
    if fs == [] then []
    else
      var h := FieldTarget(t, fs[0], main, ender, routed);
      (if Copied(fs[0]) && IsSet(t, h) then [Change(h, TextSlot, fs[0].value)] else [])
      + FieldChanges(t, fs[1..], main, ender, routed)
  }

  /** The log lines an override loop pushes, likewise. */
  function FieldLog(t: Ref, fs: seq<Field>, main: Handle, ender: Handle, routed: bool, party: string): seq<string> {
    if fs == [] then []
    else
      var h := FieldTarget(t, fs[0], main, ender, routed);
      (if Copied(fs[0]) && IsSet(t, h) then [party + ": <" + fs[0].name + "> alterado"] else [])
      + FieldLog(t, fs[1..], main, ender, routed, party)
  }

  /** Writes elsewhere change neither what the loop finds nor what it logs. */
  lemma {:induction false} FieldFrame(t: Ref, cs: seq<Change>, fs: seq<Field>, main: Handle, ender: Handle,
                                      routed: bool, party: string)
    requires Anchored(t, main) && Anchored(t, ender) && SafeNames(fs)
    ensures FieldChanges(Apply(t, cs), fs, main, ender, routed) == FieldChanges(t, fs, main, ender, routed)
    ensures FieldLog(Apply(t, cs), fs, main, ender, routed, party) == FieldLog(t, fs, main, ender, routed, party)
  {
    if fs != [] {
      var base := FieldBase(fs[0], main, ender, routed);
      assert SafeName(fs[0].name);
      FindAfterAll(t, cs, base, Split(fs[0].name, '/'));
      FindAnchored(t, base, Split(fs[0].name, '/'));
      ValAfterAll(t, cs, FieldTarget(t, fs[0], main, ender, routed));
      FieldFrame(t, cs, fs[1..], main, ender, routed, party);
    }
  }

  /** One column of an override loop. */
  function Override(r: Run, f: Field, main: Handle, ender: Handle, routed: bool, party: string): (r': Run)
    ensures Extends(r', r) && Logged(r', r)
  {
    if Copied(f) then
      SetIfFound(r, Look(r, FieldBase(f, main, ender, routed), Split(f.name, '/')), f.value,
                 party + ": <" + f.name + "> alterado")
    else r
  }

  /** `for (const [campo, valor] of Object.entries(record))`: every column that is
      set and is not one of the record's own keys is written into the element it
      names, when that element is found, and logged as `{party}: <{campo}> alterado`. */
  function Overrides(r: Run, fs: seq<Field>, main: Handle, ender: Handle, routed: bool, party: string): (r': Run)
    ensures Extends(r', r) && Logged(r', r)
    decreases |fs|
  {
    if fs == [] then r
    else
      var r1 := Override(r, fs[0], main, ender, routed, party);
      var r' := Overrides(r1, fs[1..], main, ender, routed, party);
      ExtendsTrans(r', r1, r);
      LoggedTrans(r', r1, r);
      r'
  }

  /** An override loop writes texts only. */
  lemma {:induction false} OverridesText(r: Run, fs: seq<Field>, main: Handle, ender: Handle, routed: bool, party: string)
    ensures TextOnly(Since(Overrides(r, fs, main, ender, routed, party), r))
    decreases |fs|
  {
    if fs != [] {
      var r1 := Override(r, fs[0], main, ender, routed, party);
      var r' := Overrides(r1, fs[1..], main, ender, routed, party);
      if Copied(fs[0]) {
        SetIfFoundText(r, Look(r, FieldBase(fs[0], main, ender, routed), Split(fs[0].name, '/')), fs[0].value,
                       party + ": <" + fs[0].name + "> alterado");
      }
      OverridesText(r1, fs[1..], main, ender, routed, party);
      TextOnlyTrans(r', r1, r);
    }
  }

  /** Writes made only at or below the place `l`. */
  predicate Under(cs: seq<Change>, l: Loc) {
    forall i :: 0 <= i < |cs| ==> cs[i].at.Some? && IsPrefix(l, cs[i].at.value)
  }

  /** Writes at or below `l` leave the text of every place outside `l` as it was. */
  lemma UnderKeeps(r': Run, r: Run, l: Loc, h: Handle)
    requires Extends(r', r) && Anchored(Cur(r), h)
    ensures Under(Since(r', r), l) && h.Some? && !IsPrefix(l, h.value) ==> TextAt(Cur(r'), h) == TextAt(Cur(r), h)
  {
    CurSince(r', r);
    TextAfterAll(Cur(r), Since(r', r), h);
  }

  /** Two runs of writes at or below `l`, one after the other, are one such run. */
  lemma UnderTrans(r'': Run, r': Run, r: Run, l: Loc)
    requires Extends(r'', r') && Extends(r', r)
    ensures Extends(r'', r)
    ensures Under(Since(r', r), l) && Under(Since(r'', r'), l) ==> Under(Since(r'', r), l)
  {
    SinceTrans(r'', r', r);
    var a: seq<Change>, b: seq<Change> := Since(r', r), Since(r'', r');
    if Under(a, l) && Under(b, l) {
      forall i | 0 <= i < |a + b| ensures (a + b)[i].at.Some? && IsPrefix(l, (a + b)[i].at.value) {
        if i >= |a| { assert (a + b)[i] == b[i - |a|]; }
      }
    }
  }

  /** A text set into what a lookup from `base` finds lies at or below `base`. */
  lemma SetIfFoundUnder(r: Run, base: Handle, path: seq<string>, s: string, msg: string, l: Loc)
    requires base.Some? ==> IsPrefix(l, base.value)
    ensures Under(Since(SetIfFound(r, Look(r, base, path), s, msg), r), l)
  {
    var h := Look(r, base, path);
    if Found(r, h) {
      assert h.value[..|base.value|] == base.value;
      assert h.value[..|l|] == base.value[..|l|];
    }
  }

  /** An override loop writes only at or below its party and address elements. */
  lemma {:induction false} OverridesUnder(r: Run, fs: seq<Field>, main: Handle, ender: Handle, routed: bool,
                                          party: string, l: Loc)
    requires main.Some? ==> IsPrefix(l, main.value)
    requires ender.Some? ==> IsPrefix(l, ender.value)
    ensures Under(Since(Overrides(r, fs, main, ender, routed, party), r), l)
    decreases |fs|
  {
    if fs != [] {
      var r1 := Override(r, fs[0], main, ender, routed, party);
      var r' := Overrides(r1, fs[1..], main, ender, routed, party);
      if Copied(fs[0]) {
        SetIfFoundUnder(r, FieldBase(fs[0], main, ender, routed), Split(fs[0].name, '/'), fs[0].value,
                        party + ": <" + fs[0].name + "> alterado", l);
      }
      OverridesUnder(r1, fs[1..], main, ender, routed, party, l);
      UnderTrans(r', r1, r, l);
    }
  }

  /** What one column writes and logs, read in the document as it is before it. */
  lemma OverrideStep(r: Run, f: Field, main: Handle, ender: Handle, routed: bool, party: string)
    ensures var r1 := Override(r, f, main, ender, routed, party);
      && Since(r1, r) == FieldChanges(Cur(r), [f], main, ender, routed)
      && r1.log == r.log + FieldLog(Cur(r), [f], main, ender, routed, party)
  {
    FieldsOne(Cur(r), f, main, ender, routed, party);
  }

  lemma FieldsOne(t: Ref, f: Field, main: Handle, ender: Handle, routed: bool, party: string)
    ensures var h := FieldTarget(t, f, main, ender, routed);
      && FieldChanges(t, [f], main, ender, routed)
         == (if Copied(f) && IsSet(t, h) then [Change(h, TextSlot, f.value)] else [])
      && FieldLog(t, [f], main, ender, routed, party)
         == (if Copied(f) && IsSet(t, h) then [party + ": <" + f.name + "> alterado"] else [])
  {
    assert [f][1..] == [];
    var h := FieldTarget(t, f, main, ender, routed);
    var w := if Copied(f) && IsSet(t, h) then [Change(h, TextSlot, f.value)] else [];
    var l := if Copied(f) && IsSet(t, h) then [party + ": <" + f.name + "> alterado"] else [];
    assert w + [] == w && l + [] == l;
  }

  lemma FieldsCons(t: Ref, fs: seq<Field>, main: Handle, ender: Handle, routed: bool, party: string)
    requires fs != []
    ensures FieldChanges(t, fs, main, ender, routed)
      == FieldChanges(t, [fs[0]], main, ender, routed) + FieldChanges(t, fs[1..], main, ender, routed)
    ensures FieldLog(t, fs, main, ender, routed, party)
      == FieldLog(t, [fs[0]], main, ender, routed, party) + FieldLog(t, fs[1..], main, ender, routed, party)
  {
    var one := [fs[0]];
    assert one[1..] == [];
    var h := FieldTarget(t, fs[0], main, ender, routed);
    var w := if Copied(fs[0]) && IsSet(t, h) then [Change(h, TextSlot, fs[0].value)] else [];
    var l := if Copied(fs[0]) && IsSet(t, h) then [party + ": <" + fs[0].name + "> alterado"] else [];
    assert FieldChanges(t, one, main, ender, routed) == w + FieldChanges(t, one[1..], main, ender, routed);
    assert FieldChanges(t, one[1..], main, ender, routed) == [];
    assert w + [] == w;
    assert FieldLog(t, one, main, ender, routed, party) == l + FieldLog(t, one[1..], main, ender, routed, party);
    assert FieldLog(t, one[1..], main, ender, routed, party) == [];
    assert l + [] == l;
  }

  /** Along safe names, an override loop's writes and log lines are those its
      lookups find in the document as it was when the loop began: its own writes
      never move a later column's element. */
  lemma {:induction false} OverridesFrame(r: Run, fs: seq<Field>, main: Handle, ender: Handle, routed: bool, party: string,
                                          r': Run)
    requires Anchored(Cur(r), main) && Anchored(Cur(r), ender) && SafeNames(fs)
    requires r' == Overrides(r, fs, main, ender, routed, party)
    ensures r'.trail == r.trail + FieldChanges(Cur(r), fs, main, ender, routed)
    ensures r'.log == r.log + FieldLog(Cur(r), fs, main, ender, routed, party)
    decreases |fs|
  {
    if fs != [] {
      var r1 := Override(r, fs[0], main, ender, routed, party);
      var t, t1, rest := Cur(r), Cur(r1), fs[1..];
      var head := FieldChanges(t, [fs[0]], main, ender, routed);
      var line := FieldLog(t, [fs[0]], main, ender, routed, party);
      assert r1.trail == r.trail + head && r1.log == r.log + line by {
        OverrideStep(r, fs[0], main, ender, routed, party);
      }
      assert SafeNames(rest) by {
        forall i | 0 <= i < |rest| ensures SafeName(rest[i].name) { assert rest[i] == fs[i + 1]; }
      }
      assert FieldChanges(t1, rest, main, ender, routed) == FieldChanges(t, rest, main, ender, routed)
          && FieldLog(t1, rest, main, ender, routed, party) == FieldLog(t, rest, main, ender, routed, party)
          && Anchored(t1, main) && Anchored(t1, ender) by {
        ApplyConcat(r.t0, r.trail, head);
        assert Since(r1, r) == head;
        AnchoredAfterAll(t, head, main);
        AnchoredAfterAll(t, head, ender);
        FieldFrame(t, head, rest, main, ender, routed, party);
      }
      OverridesFrame(r1, rest, main, ender, routed, party, r');
      FieldsCons(t, fs, main, ender, routed, party);
      ConcatAssoc(r.trail, head, FieldChanges(t, rest, main, ender, routed));
      ConcatAssoc(r.log, line, FieldLog(t, rest, main, ender, routed, party));
    }
  }
}
