/** Found values as the editors hold them: a handle is the location where a
    lookup found something (or none, the source's null). The editors of
    src/lib/xml/editor.ts look values up, keep the object they found and write
    into it later; here a write is made at the remembered location.

    The editors only ever write two kinds of key: an element's "#text" and its
    "Id" attribute. No lookup path names either, so a write never moves what a
    later lookup finds (`FindAfterWrite`), and it changes nothing stored under any
    other (location, key) pair (`ShapeAfterWrite`). */
module Doc {
  import opened Wrappers
  import opened Tree
  import opened JsString

  type Handle = Option<Loc>

  /** The document itself. */
  const Root: Handle := Some([])

  /** Where `setNodeAttr(node, "Id", ...)` stores its value. */
  const IdKey: string := "@_Id"

  /** The value a handle refers to; null refers to nothing. */
  function Val(t: Ref, h: Handle): Ref {
    if h.Some? then At(t, h.value) else Nil
  }

  /** `findElementDeep(base, path)`, remembered by location. */
  function Find(t: Ref, base: Handle, path: seq<string>): (h: Handle)
    ensures Val(t, h) == FindFirst(Val(t, base), path)
    ensures h.Some? ==> base.Some? && |h.value| == |base.value| + |path| && h.value[..|base.value|] == base.value
    ensures h.Some? ==> Follows(At(t, base.value), h.value[|base.value|..], path)
  {
    if base.None? then None
    else
      var hs := Hits(At(t, base.value), path);
      if |hs| == 0 then None
      else
        HitsSound(At(t, base.value), path);
        AtConcat(t, base.value, hs[0].loc);
        assert (base.value + hs[0].loc)[|base.value|..] == hs[0].loc;
        Some(base.value + hs[0].loc)
  }

  /** `findAllElementsDeep(base, path)`, every result remembered by location. */
  function FindAllLocs(t: Ref, base: Loc, path: seq<string>): (ls: seq<Loc>)
    ensures |ls| == |FindAll(At(t, base), path)|
    ensures forall i :: 0 <= i < |ls| ==>
      && At(t, ls[i]) == FindAll(At(t, base), path)[i]
      && |ls[i]| == |base| + |path| && ls[i][..|base|] == base
      && Follows(At(t, base), ls[i][|base|..], path)
    ensures forall i, k :: 0 <= i < k < |ls| ==> ls[i] != ls[k]
  {
    var hs := Hits(At(t, base), path);
    HitsSound(At(t, base), path);
    HitsDistinct(At(t, base), path);
    var ls := seq(|hs|, i requires 0 <= i < |hs| => base + hs[i].loc);
    forall i | 0 <= i < |ls|
      ensures At(t, ls[i]) == FindAll(At(t, base), path)[i] && ls[i][|base|..] == hs[i].loc
    {
      AtConcat(t, base, hs[i].loc);
    }
    forall i, k | 0 <= i < k < |ls|
      ensures ls[i] != ls[k]
    {
      assert ls[i][|base|..] == hs[i].loc && ls[k][|base|..] == hs[k].loc;
    }
    ls
  }

  /** Store `x` under `k` in the object a handle refers to. */
  function Write(t: Ref, h: Handle, k: string, x: string): Ref {
    if h.Some? then WriteAt(t, h.value, k, x) else t
  }

  /** `setNodeText(found, s)` */
  function SetTextAt(t: Ref, h: Handle, s: string): (t': Ref)
    ensures Val(t', h) == SetText(Val(t, h), s)
    ensures !Val(t, h).Obj? ==> t' == t
  {
    SetAtHandle(t, h, TextKey, s);
    Write(t, h, TextKey, s)
  }

  /** `setNodeAttr(found, "Id", v)` */
  function SetIdAt(t: Ref, h: Handle, v: string): (t': Ref)
    ensures Val(t', h) == SetAttr(Val(t, h), "Id", v)
    ensures !Val(t, h).Obj? ==> t' == t
  {
    SetAtHandle(t, h, IdKey, v);
    Write(t, h, IdKey, v)
  }

  lemma SetAtHandle(t: Ref, h: Handle, k: string, x: string)
    ensures Val(t, h).Obj? ==> Val(Write(t, h, k, x), h) == Obj(Put(Val(t, h).node, k, Text(x)))
    ensures !Val(t, h).Obj? ==> Write(t, h, k, x) == t
  {
    if h.Some? {
      if At(t, h.value).Obj? {
        WriteAtTarget(t, h.value, k, x);
      } else {
        WriteAtMissing(t, h.value, k, x);
      }
    }
  }

  /** `getNodeText(found)` */
  function TextAt(t: Ref, h: Handle): Option<string> {
    GetText(Val(t, h))
  }

  /** JavaScript truthiness of a found value. */
  predicate IsSet(t: Ref, h: Handle) {
    Truthy(Val(t, h))
  }

  // ---------------------------------------------------------------------------
  // Writes do not disturb lookups
  // ---------------------------------------------------------------------------

  /** `l` is a real path of `r` that never steps through an entry stored under `k`. */
  predicate KeyFree(r: Ref, l: Loc, k: string)
    decreases |l|
  {
    l == [] ||
    (&& r.Obj? && l[0].entry < |r.node.entries|
     && r.node.entries[l[0].entry].key != k
     && KeyFree(ItemAt(r.node.entries[l[0].entry].value, l[0].slot), l[1..], k))
  }

  /** No segment of `path` is answered by the key `k`. */
  predicate NoSegment(k: string, path: seq<string>) {
    forall i :: 0 <= i < |path| ==> !TagMatches(k, path[i])
  }

  /** Lookup paths never name the keys the editors write. */
  predicate Safe(path: seq<string>) {
    NoSegment(TextKey, path) && NoSegment(IdKey, path)
  }

  /** The keys the editors write. */
  predicate Written(k: string) {
    k == TextKey || k == IdKey
  }

  /** A handle whose path avoids every written key. */
  predicate Anchored(t: Ref, h: Handle) {
    h.Some? ==> KeyFree(t, h.value, TextKey) && KeyFree(t, h.value, IdKey)
  }

  predicate IsPrefix(l: Loc, m: Loc) {
    |l| <= |m| && m[..|l|] == l
  }

  lemma {:induction false} FollowsKeyFree(r: Ref, l: Loc, path: seq<string>, k: string)
    requires Follows(r, l, path) && NoSegment(k, path)
    ensures KeyFree(r, l, k)
    decreases |l|
  {
    if l != [] {
      assert !TagMatches(k, path[0]);
      FollowsKeyFree(ItemAt(r.node.entries[l[0].entry].value, l[0].slot), l[1..], path[1..], k);
    }
  }

  lemma {:induction false} KeyFreeConcat(r: Ref, a: Loc, b: Loc, k: string)
    requires KeyFree(r, a, k) && KeyFree(At(r, a), b, k)
    ensures KeyFree(r, a + b, k)
    decreases |a|
  {
    if a == [] {
      assert a + b == b;
    } else {
      var c := ItemAt(r.node.entries[a[0].entry].value, a[0].slot);
      assert At(r, a) == At(c, a[1..]);
      KeyFreeConcat(c, a[1..], b, k);
      KeyFreeCons(r, a[0], a[1..] + b, k);
      HeadConcat(a, b);
    }
  }

  lemma KeyFreeCons(r: Ref, x: Pos, l: Loc, k: string)
    requires r.Obj? && x.entry < |r.node.entries| && r.node.entries[x.entry].key != k
    requires KeyFree(ItemAt(r.node.entries[x.entry].value, x.slot), l, k)
    ensures KeyFree(r, [x] + l, k)
  {
    assert ([x] + l)[1..] == l;
  }

  /** An entry not stored under the written key is left as it was. */
  lemma PutKeepsEntry(n: Node, key: string, v: Value, i: nat)
    requires i < |n.entries| && n.entries[i].key != key
    ensures i < |Put(n, key, v).entries| && Put(n, key, v).entries[i] == n.entries[i]
  {
  }

  /** What a write at `m` does to the value at a key-free location `l`: it is
      rewritten below when `l` leads to `m`, and left alone otherwise. */
  lemma {:induction false} AtAfterWrite(t: Ref, m: Loc, key: string, x: string, l: Loc)
    requires KeyFree(t, l, key)
    ensures At(WriteAt(t, m, key, x), l) ==
      if IsPrefix(l, m) then WriteAt(At(t, l), m[|l|..], key, x) else At(t, l)
    decreases |l|
  {
    var t' := WriteAt(t, m, key, x);
    if l == [] {
      assert m[0..] == m;
    } else {
      var n := t.node;
      var e := l[0].entry;
      if m == [] {
        PutKeepsEntry(n, key, Text(x), e);
      } else if m[0].entry >= |n.entries| {
        assert t' == t;
      } else if e != m[0].entry {
        assert t'.node.entries[e] == n.entries[e];
      } else {
        var v := n.entries[e].value;
        assert t'.node.entries[e].value == WriteIn(v, m[0].slot, m[1..], key, x);
        ItemAtWriteIn(v, m[0].slot, m[1..], key, x, l[0].slot);
        if l[0].slot == m[0].slot {
          AtAfterWrite(ItemAt(v, m[0].slot), m[1..], key, x, l[1..]);
          assert IsPrefix(l, m) <==> IsPrefix(l[1..], m[1..]) by {
            if IsPrefix(l[1..], m[1..]) {
              assert m[..|l|] == [m[0]] + m[1..][..|l[1..]|];
              assert l == [l[0]] + l[1..];
            }
            if IsPrefix(l, m) {
              assert m[1..][..|l[1..]|] == m[..|l|][1..];
            }
          }
          if IsPrefix(l, m) {
            assert m[1..][|l[1..]|..] == m[|l|..];
          }
        } else {
        }
      }
    }
  }

  /** A write keeps every path that avoids its key and one other key intact. */
  lemma {:induction false} KeyFreeAfterWrite(t: Ref, m: Loc, key: string, x: string, l: Loc, k: string)
    requires KeyFree(t, l, k) && KeyFree(t, l, key)
    ensures KeyFree(WriteAt(t, m, key, x), l, k)
    decreases |l|
  {
    var t' := WriteAt(t, m, key, x);
    if l != [] {
      var n := t.node;
      var e := l[0].entry;
      if m == [] {
        PutKeepsEntry(n, key, Text(x), e);
      } else if m[0].entry >= |n.entries| {
        assert t' == t;
      } else if e != m[0].entry {
        assert t'.node.entries[e] == n.entries[e];
      } else {
        var v := n.entries[e].value;
        assert t'.node.entries[e].value == WriteIn(v, m[0].slot, m[1..], key, x);
        ItemAtWriteIn(v, m[0].slot, m[1..], key, x, l[0].slot);
        if l[0].slot == m[0].slot {
          KeyFreeAfterWrite(ItemAt(v, m[0].slot), m[1..], key, x, l[1..], k);
        }
      }
    }
  }

  function Locs(hs: seq<Hit>): (ls: seq<Loc>)
    ensures |ls| == |hs|
    ensures forall i :: 0 <= i < |hs| ==> ls[i] == hs[i].loc
  {
    seq(|hs|, i requires 0 <= i < |hs| => hs[i].loc)
  }

  lemma LocsAppend(a: seq<Hit>, b: seq<Hit>)
    ensures Locs(a + b) == Locs(a) + Locs(b)
  {
  }

  lemma LocsPrefixed(p: Pos, hs: seq<Hit>, hs': seq<Hit>)
    requires Locs(hs) == Locs(hs')
    ensures Locs(Prefixed(p, hs)) == Locs(Prefixed(p, hs'))
  {
    assert |hs| == |Locs(hs)| == |hs'|;
    forall i | 0 <= i < |hs|
      ensures Locs(Prefixed(p, hs))[i] == Locs(Prefixed(p, hs'))[i]
    {
      assert hs[i].loc == Locs(hs)[i] == Locs(hs')[i] == hs'[i].loc;
    }
  }

  /** The locations found under one key depend only on the locations found from each item. */
  lemma {:induction false} LocsHitsFrom(items: seq<Ref>, items': seq<Ref>, e: nat, j: nat, rest: seq<string>)
    requires |items| == |items'|
    requires forall i :: 0 <= i < |items| ==> Locs(Hits(items[i], rest)) == Locs(Hits(items'[i], rest))
    ensures Locs(HitsFrom(items, e, j, rest)) == Locs(HitsFrom(items', e, j, rest))
    decreases |items|
  {
    if items != [] {
      LocsHitsFrom(items[1..], items'[1..], e, j + 1, rest);
      LocsPrefixed(Pos(e, j), Hits(items[0], rest), Hits(items'[0], rest));
      LocsAppend(Prefixed(Pos(e, j), Hits(items[0], rest)), HitsFrom(items[1..], e, j + 1, rest));
      LocsAppend(Prefixed(Pos(e, j), Hits(items'[0], rest)), HitsFrom(items'[1..], e, j + 1, rest));
    }
  }

  /** Entry lists with the same keys agree on the first key answering to a segment. */
  lemma {:induction false} FirstMatchSameKeys(es: seq<Entry>, es': seq<Entry>, tag: string)
    requires |es| == |es'|
    requires forall i :: 0 <= i < |es| ==> es[i].key == es'[i].key
    ensures FirstMatch(es, tag) == FirstMatch(es', tag)
  {
    if es != [] {
      FirstMatchSameKeys(es[1..], es'[1..], tag);
    }
  }

  lemma {:induction false} FirstMatchAppend(es: seq<Entry>, x: Entry, tag: string)
    requires !TagMatches(x.key, tag)
    ensures FirstMatch(es + [x], tag) == FirstMatch(es, tag)
  {
    if es != [] {
      assert (es + [x])[1..] == es[1..] + [x];
      FirstMatchAppend(es[1..], x, tag);
    }
  }

  /** Storing a key that answers to no segment leaves every segment's entry where it was. */
  lemma MatchedEntryAfterPut(n: Node, key: string, v: Value, tag: string)
    requires !TagMatches(key, tag)
    ensures MatchedEntry(Put(n, key, v), tag) == MatchedEntry(n, tag)
  {
    var n' := Put(n, key, v);
    match KeyIndex(n.entries, key)
    case Some(i) =>
      FirstMatchSameKeys(n.entries, n'.entries, tag);
    case None =>
      assert n'.entries == n.entries + [Entry(key, v)];
      FirstMatchAppend(n.entries, Entry(key, v), tag);
  }

  /** A write under a key that no segment names leaves the locations of a search unchanged. */
  lemma {:induction false} HitLocsAfterWrite(r: Ref, m: Loc, key: string, x: string, path: seq<string>)
    requires NoSegment(key, path)
    ensures Locs(Hits(WriteAt(r, m, key, x), path)) == Locs(Hits(r, path))
    decreases |path|
  {
    var r' := WriteAt(r, m, key, x);
    if path != [] && r.Obj? {
      var n := r.node;
      var n' := r'.node;
      var seg := path[0];
      assert !TagMatches(key, seg);
      if m == [] {
        MatchedEntryAfterPut(n, key, Text(x), seg);
        match MatchedEntry(n, seg)
        case Some(e) => PutKeepsEntry(n, key, Text(x), e);
        case None =>
      } else if m[0].entry >= |n.entries| {
        assert r' == r;
      } else {
        var m0 := m[0].entry;
        var v := n.entries[m0].value;
        var v' := WriteIn(v, m[0].slot, m[1..], key, x);
        assert n'.entries == n.entries[m0 := Entry(n.entries[m0].key, v')];
        FirstMatchSameKeys(n.entries, n'.entries, seg);
        match MatchedEntry(n, seg)
        case Some(e) =>
          if e == m0 {
            var items, items' := Items(v), Items(v');
            assert |items| == |items'| by { assert Shape(v') == Shape(v); }
            forall i | 0 <= i < |items|
              ensures Locs(Hits(items[i], path[1..])) == Locs(Hits(items'[i], path[1..]))
            {
              ItemAtWriteIn(v, m[0].slot, m[1..], key, x, i);
              assert items[i] == ItemAt(v, i) && items'[i] == ItemAt(v', i);
              if i == m[0].slot {
                HitLocsAfterWrite(items[i], m[1..], key, x, path[1..]);
              }
            }
            LocsHitsFrom(items, items', e, 0, path[1..]);
          }
        case None =>
      }
    }
  }

  /** A write at a handle moves no later lookup from an anchored base along a safe path. */
  lemma FindAfterWrite(t: Ref, w: Handle, key: string, x: string, base: Handle, path: seq<string>)
    requires Written(key) && Anchored(t, base) && Safe(path)
    ensures Find(Write(t, w, key, x), base, path) == Find(t, base, path)
  {
    if w.Some? && base.Some? {
      var t' := Write(t, w, key, x);
      AtAfterWrite(t, w.value, key, x, base.value);
      if IsPrefix(base.value, w.value) {
        HitLocsAfterWrite(At(t, base.value), w.value[|base.value|..], key, x, path);
      }
      var hs, hs' := Hits(At(t, base.value), path), Hits(At(t', base.value), path);
      assert Locs(hs) == Locs(hs');
      if |hs| > 0 {
        assert hs[0].loc == Locs(hs)[0];
      }
    }
  }

  /** The same for the all-results search. */
  lemma FindAllLocsAfterWrite(t: Ref, w: Handle, key: string, x: string, base: Loc, path: seq<string>)
    requires Written(key) && Anchored(t, Some(base)) && Safe(path)
    ensures FindAllLocs(Write(t, w, key, x), base, path) == FindAllLocs(t, base, path)
  {
    if w.Some? {
      var t' := Write(t, w, key, x);
      AtAfterWrite(t, w.value, key, x, base);
      if IsPrefix(base, w.value) {
        HitLocsAfterWrite(At(t, base), w.value[|base|..], key, x, path);
      }
      var hs, hs' := Hits(At(t, base), path), Hits(At(t', base), path);
      assert Locs(hs) == Locs(hs');
      var ls, ls' := FindAllLocs(t, base, path), FindAllLocs(t', base, path);
      assert |ls| == |ls'|;
      forall i | 0 <= i < |ls|
        ensures ls[i] == ls'[i]
      {
        assert ls[i] == base + hs[i].loc by {
          assert ls[i][..|base|] == base;
        }
        assert ls'[i] == base + hs'[i].loc by {
          assert ls'[i][..|base|] == base;
        }
        assert hs[i].loc == Locs(hs)[i];
      }
    }
  }

  /** What a lookup from an anchored base along a safe path finds is anchored too. */
  lemma FindAnchored(t: Ref, base: Handle, path: seq<string>)
    requires Anchored(t, base) && Safe(path)
    ensures Anchored(t, Find(t, base, path))
  {
    var h := Find(t, base, path);
    if h.Some? {
      var b := base.value;
      assert h.value == b + h.value[|b|..];
      FollowsKeyFree(At(t, b), h.value[|b|..], path, TextKey);
      FollowsKeyFree(At(t, b), h.value[|b|..], path, IdKey);
      KeyFreeConcat(t, b, h.value[|b|..], TextKey);
      KeyFreeConcat(t, b, h.value[|b|..], IdKey);
    }
  }

  lemma FindAllLocsAnchored(t: Ref, base: Loc, path: seq<string>, i: nat)
    requires Anchored(t, Some(base)) && Safe(path) && i < |FindAllLocs(t, base, path)|
    ensures Anchored(t, Some(FindAllLocs(t, base, path)[i]))
  {
    var l := FindAllLocs(t, base, path)[i];
    assert l == base + l[|base|..];
    FollowsKeyFree(At(t, base), l[|base|..], path, TextKey);
    FollowsKeyFree(At(t, base), l[|base|..], path, IdKey);
    KeyFreeConcat(t, base, l[|base|..], TextKey);
    KeyFreeConcat(t, base, l[|base|..], IdKey);
  }

  lemma AnchoredAfterWrite(t: Ref, w: Handle, key: string, x: string, h: Handle)
    requires Written(key) && Anchored(t, h)
    ensures Anchored(Write(t, w, key, x), h)
  {
    if w.Some? && h.Some? {
      KeyFreeAfterWrite(t, w.value, key, x, h.value, TextKey);
      KeyFreeAfterWrite(t, w.value, key, x, h.value, IdKey);
    }
  }

  /** The root is anchored. */
  lemma RootAnchored(t: Ref)
    ensures Anchored(t, Root)
  {
  }

  /** A write leaves an anchored handle referring to an object exactly when it did,
      and a handle that refers to no object keeps its value. */
  lemma ValAfterWrite(t: Ref, w: Handle, key: string, x: string, h: Handle)
    requires Written(key) && Anchored(t, h)
    ensures Val(Write(t, w, key, x), h).Obj? <==> Val(t, h).Obj?
    ensures !Val(t, h).Obj? ==> Val(Write(t, w, key, x), h) == Val(t, h)
  {
    if w.Some? && h.Some? {
      assert KeyFree(t, h.value, key);
      AtAfterWrite(t, w.value, key, x, h.value);
      if IsPrefix(h.value, w.value) && !At(t, h.value).Obj? {
        var r := At(t, h.value);
        if r.Str? { WriteAtStr(r.s, w.value[|h.value|..], key, x); }
        else { WriteAtNil(w.value[|h.value|..], key, x); }
      }
    }
  }

  // ---------------------------------------------------------------------------
  // Writes change only what they write
  // ---------------------------------------------------------------------------

  lemma SameSurfaceShape(n: Node, n': Node, k: string)
    requires SameSurface(n, n')
    ensures ShapeUnder(Obj(n), k) == ShapeUnder(Obj(n'), k)
  {
    KeyIndexSame(n.entries, n'.entries, k);
  }

  /** A write under `key` at `w` leaves what an anchored handle `h` holds under `k`
      as it was, unless it is that very (handle, key) pair; and the written value is
      what is then stored there. */
  lemma ShapeAfterWrite(t: Ref, w: Handle, key: string, x: string, h: Handle, k: string)
    requires Written(key) && Anchored(t, h)
    ensures Val(Write(t, w, key, x), h).Obj? <==> Val(t, h).Obj?
    ensures w.None? || h != w || k != key ==>
      ShapeUnder(Val(Write(t, w, key, x), h), k) == ShapeUnder(Val(t, h), k)
    ensures w.Some? && h == w && k == key && Val(t, h).Obj? ==>
      ShapeUnder(Val(Write(t, w, key, x), h), k) == Some(SText(x))
  {
    if w.Some? && h.Some? {
      var m, l := w.value, h.value;
      var t' := Write(t, w, key, x);
      AtAfterWrite(t, m, key, x, l);
      if IsPrefix(l, m) {
        var r := At(t, l);
        if !r.Obj? {
          WriteAtMissing(r, m[|l|..], key, x);
        } else if |l| == |m| {
          assert m[|l|..] == [];
          assert l == m by { assert m[..|l|] == m; }
        } else {
          assert StrictPrefix([], m[|l|..]);
          WriteAtAncestor(r, m[|l|..], [], key, x);
          SameSurfaceShape(r.node, WriteAt(r, m[|l|..], key, x).node, k);
        }
      }
    }
  }

  /** Text reads through the same frame. */
  lemma TextAfterWrite(t: Ref, w: Handle, key: string, x: string, h: Handle)
    requires Written(key) && Anchored(t, h)
    ensures w.None? || h != w || key != TextKey ==> TextAt(Write(t, w, key, x), h) == TextAt(t, h)
    ensures Val(Write(t, w, key, x), h).Obj? <==> Val(t, h).Obj?
  {
    ShapeAfterWrite(t, w, key, x, h, TextKey);
  }

  /** Attribute reads through the same frame. */
  lemma IdAfterWrite(t: Ref, w: Handle, key: string, x: string, h: Handle)
    requires Written(key) && Anchored(t, h)
    ensures w.None? || h != w || key != IdKey ==>
      AttrLoose(Val(Write(t, w, key, x), h), "Id") == AttrLoose(Val(t, h), "Id")
  {
    ShapeAfterWrite(t, w, key, x, h, IdKey);
    assert IdKey == AttrPrefix + "Id";
    if w.None? || h != w || key != IdKey {
      AttrLooseOfShape(Val(Write(t, w, key, x), h), Val(t, h), "Id");
    }
  }

  lemma AttrLooseOfShape(r: Ref, r': Ref, a: string)
    requires ShapeUnder(r, AttrPrefix + a) == ShapeUnder(r', AttrPrefix + a)
    ensures AttrLoose(r, a) == AttrLoose(r', a)
  {
  }

  // ---------------------------------------------------------------------------
  // Distinct paths reach distinct places
  // ---------------------------------------------------------------------------

  /** A segment without ':' answers only to keys ending in itself. */
  predicate Plain(tag: string) {
    ':' !in tag
  }

  /** One key cannot answer to two different plain segments. */
  lemma OneKeyOneTag(key: string, a: string, b: string)
    requires Plain(a) && Plain(b) && a != b
    requires TagMatches(key, a)
    ensures !TagMatches(key, b)
  {
    var sa, sb := ":" + a, ":" + b;
    if EndsWith(key, sa) && EndsWith(key, sb) {
      if |a| < |b| {
        LongerSuffixHasColon(key, a, b);
      } else if |b| < |a| {
        LongerSuffixHasColon(key, b, a);
      } else {
        SameLengthSuffix(key, a, b);
      }
    } else if key == a && EndsWith(key, sb) {
      SuffixHasColon(a, b);
    } else if key == b && EndsWith(key, sa) {
      SuffixHasColon(b, a);
    }
  }

  lemma LongerSuffixHasColon(key: string, a: string, b: string)
    requires EndsWith(key, ":" + a) && EndsWith(key, ":" + b) && |a| < |b|
    ensures ':' in b
  {
    var sa, sb := ":" + a, ":" + b;
    assert b[|b| - |a| - 1] == sb[|sb| - |sa|] == key[|key| - |sa|] == sa[0];
  }

  lemma SameLengthSuffix(key: string, a: string, b: string)
    requires EndsWith(key, ":" + a) && EndsWith(key, ":" + b) && |a| == |b|
    ensures a == b
  {
    var sa, sb := ":" + a, ":" + b;
    assert a == sa[1..] == sb[1..] == b;
  }

  lemma SuffixHasColon(a: string, b: string)
    requires EndsWith(a, ":" + b)
    ensures ':' in a
  {
    var sb := ":" + b;
    assert a[|a| - |sb|] == sb[0];
  }

  /** Lookups from one value whose paths start with different plain segments part at
      their first step: nothing below the one lies below the other. */
  lemma Apart(t: Ref, base: Handle, a: string, pa: seq<string>, b: string, pb: seq<string>, l: Loc)
    requires Plain(a) && Plain(b) && a != b
    requires Find(t, base, [a] + pa).Some? && Find(t, base, [b] + pb).Some?
    requires IsPrefix(Find(t, base, [b] + pb).value, l)
    ensures !IsPrefix(Find(t, base, [a] + pa).value, l)
  {
    var ga, gb := Find(t, base, [a] + pa).value, Find(t, base, [b] + pb).value;
    var n := |base.value|;
    var r := At(t, base.value);
    assert ga[n..][0] == ga[n] && gb[n..][0] == gb[n];
    var x, y := ga[n], gb[n];
    assert TagMatches(r.node.entries[x.entry].key, a);
    assert TagMatches(r.node.entries[y.entry].key, b);
    OneKeyOneTag(r.node.entries[x.entry].key, a, b);
    assert x != y;
    assert l[n] == y;
  }

  /** Two paths of plain segments that reach the same place from the same value are equal. */
  lemma {:induction false} FollowsSame(r: Ref, l: Loc, p: seq<string>, q: seq<string>)
    requires Follows(r, l, p) && Follows(r, l, q)
    requires forall i :: 0 <= i < |p| ==> Plain(p[i])
    requires forall i :: 0 <= i < |q| ==> Plain(q[i])
    ensures p == q
    decreases |l|
  {
    if l != [] {
      var key := r.node.entries[l[0].entry].key;
      if p[0] != q[0] {
        OneKeyOneTag(key, p[0], q[0]);
      }
      FollowsSame(ItemAt(r.node.entries[l[0].entry].value, l[0].slot), l[1..], p[1..], q[1..]);
      assert p == [p[0]] + p[1..] && q == [q[0]] + q[1..];
    }
  }

  /** Lookups of two different plain tags below the same value never meet. */
  lemma DistinctTags(t: Ref, base: Handle, a: string, b: string, ha: Handle, hb: Handle)
    requires a != b && Plain(a) && Plain(b)
    requires ha == Find(t, base, [a]) && hb == Find(t, base, [b])
    ensures ha.Some? ==> ha != hb
  {
    if ha.Some? && ha == hb {
      var l := ha.value[|base.value|..];
      FollowsSame(At(t, base.value), l, [a], [b]);
    }
  }
}
