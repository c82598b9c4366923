/** The parsed document as an explicit keyed tree, and the lookup and update
    helpers of src/lib/xml/utils.ts over it.

    A node is an ordered list of (key, value) entries, as the parser produces
    them: element children under their (possibly namespace-prefixed) tag, the
    element text under "#text" and every attribute `a` under "@_a". A value is a
    string, one node, or a sequence of nodes (a repeated element).

    `Ref` is what a lookup hands back (the source's `unknown`): nothing, a bare
    string, or a node. The source mutates the nodes it found in place; the model
    gives each found value its location (`Loc`, one (entry, slot) step per path
    segment) and rewrites the tree at that location. */
module Tree {
  import opened Wrappers
  import opened JsString

  datatype Node = Node(entries: seq<Entry>)
  datatype Entry = Entry(key: string, value: Value)
  datatype Value = Text(text: string) | One(child: Node) | Many(children: seq<Node>)

  /** A value handed back by a lookup. */
  datatype Ref = Nil | Str(s: string) | Obj(node: Node)

  /** One step down: the entry index, and the slot inside a repeated element (0 otherwise). */
  datatype Pos = Pos(entry: nat, slot: nat)
  type Loc = seq<Pos>

  /** A lookup result together with where it was found. */
  datatype Hit = Hit(loc: Loc, ref: Ref)

  const TextKey: string := "#text"
  const AttrPrefix: string := "@_"

  /** JavaScript truthiness of a lookup result: objects always, strings when non-empty. */
  predicate Truthy(r: Ref) {
    r.Obj? || (r.Str? && r.s != "")
  }

  // ---------------------------------------------------------------------------
  // Path lookup (findElementDeep / findAllElementsDeep)
  // ---------------------------------------------------------------------------

  /** A key answers to a path segment when it is the segment itself or ends with ":" + segment. */
  predicate TagMatches(key: string, tag: string) {
    EndsWith(key, ":" + tag) || key == tag
  }

  /** `Object.keys(node).find(...)`: the index of the first matching key. */
  function FirstMatch(es: seq<Entry>, tag: string): (r: Option<nat>)
    ensures r.Some? ==> r.value < |es| && TagMatches(es[r.value].key, tag)
    ensures r.Some? ==> forall j :: 0 <= j < r.value ==> !TagMatches(es[j].key, tag)
    ensures r.None? ==> forall j :: 0 <= j < |es| ==> !TagMatches(es[j].key, tag)
  {
    if es == [] then None
    else if TagMatches(es[0].key, tag) then Some(0)
    else match FirstMatch(es[1..], tag)
      case None => None
      case Some(i) => Some(i + 1)
  }

  /** The entry a segment descends into: the first matching key, unless that key is
      the empty (falsy) string. */
  function MatchedEntry(n: Node, tag: string): (r: Option<nat>)
    ensures r.Some? ==> r.value < |n.entries| && TagMatches(n.entries[r.value].key, tag)
  {
    match FirstMatch(n.entries, tag)
    case None => None
    case Some(i) => if n.entries[i].key != "" then Some(i) else None
  }

  /** The values a key contributes to the next level: a repeated element is flattened. */
  function Items(v: Value): (rs: seq<Ref>)
    ensures |rs| == (if v.Many? then |v.children| else 1)
    ensures v.Many? ==> forall i :: 0 <= i < |rs| ==> rs[i] == Obj(v.children[i])
  {
    match v
    case Text(s) => [Str(s)]
    case One(c) => [Obj(c)]
    case Many(cs) => seq(|cs|, i requires 0 <= i < |cs| => Obj(cs[i]))
  }

  /** One segment from one current value; strings and nothing have no keys. */
  function Step(r: Ref, tag: string): seq<Ref> {
    if r.Obj? then
      match MatchedEntry(r.node, tag)
      case Some(e) => Items(r.node.entries[e].value)
      case None => []
    else []
  }

  /** Every value the path reaches from `r`, in document order, with its location.
      Depth-first; `FindAllFromEach` shows it equal to the source's level-by-level walk. */
  function Hits(r: Ref, path: seq<string>): seq<Hit>
    decreases |path|, 0
  {
    if path == [] then [Hit([], r)]
    else if r.Obj? then
      match MatchedEntry(r.node, path[0])
      case Some(e) => HitsFrom(Items(r.node.entries[e].value), e, 0, path[1..])
      case None => []
    else []
  }

  function HitsFrom(items: seq<Ref>, e: nat, j: nat, rest: seq<string>): seq<Hit>
    decreases |rest|, |items| + 1
  {
    if items == [] then []
    else Prefixed(Pos(e, j), Hits(items[0], rest)) + HitsFrom(items[1..], e, j + 1, rest)
  }

  function Prefixed(p: Pos, hs: seq<Hit>): (r: seq<Hit>)
    ensures |r| == |hs|
    ensures forall i :: 0 <= i < |hs| ==> r[i] == Hit([p] + hs[i].loc, hs[i].ref)
  {
    if hs == [] then [] else [Hit([p] + hs[0].loc, hs[0].ref)] + Prefixed(p, hs[1..])
  }

  function Refs(hs: seq<Hit>): (rs: seq<Ref>)
    ensures |rs| == |hs|
    ensures forall i :: 0 <= i < |hs| ==> rs[i] == hs[i].ref
  {
    if hs == [] then [] else [hs[0].ref] + Refs(hs[1..])
  }

  /** `findAllElementsDeep(r, path)` */
  function FindAll(r: Ref, path: seq<string>): seq<Ref> {
    Refs(Hits(r, path))
  }

  /** `findElementDeep(r, path)`: the first value found, or nothing. */
  function FindFirst(r: Ref, path: seq<string>): Ref {
    var hs := Hits(r, path);
    if |hs| == 0 then Nil else hs[0].ref
  }

  // ---------------------------------------------------------------------------
  // Locations
  // ---------------------------------------------------------------------------

  function ItemAt(v: Value, j: nat): Ref {
    var items := Items(v);
    if j < |items| then items[j] else Nil
  }

  /** The value at a location, or nothing when the location does not exist. */
  function At(r: Ref, loc: Loc): Ref
    decreases |loc|
  {
    if loc == [] then r
    else if r.Obj? && loc[0].entry < |r.node.entries| then
      At(ItemAt(r.node.entries[loc[0].entry].value, loc[0].slot), loc[1..])
    else Nil
  }

  lemma {:induction false} AtConcat(r: Ref, a: Loc, b: Loc)
    ensures At(r, a + b) == At(At(r, a), b)
    decreases |a|
  {
    if a == [] {
      assert a + b == b;
    } else {
      assert (a + b)[0] == a[0];
      assert (a + b)[1..] == a[1..] + b;
      if r.Obj? && a[0].entry < |r.node.entries| {
        AtConcat(ItemAt(r.node.entries[a[0].entry].value, a[0].slot), a[1..], b);
      } else {
        assert At(Nil, b) == Nil by { AtNil(b); }
      }
    }
  }

  lemma AtNil(loc: Loc)
    ensures At(Nil, loc) == Nil
  {
  }

  /** Each step of `l` from `r` goes through an entry whose key answers to the
      corresponding segment of `path`. */
  predicate Follows(r: Ref, l: Loc, path: seq<string>)
    decreases |l|
  {
    && |l| == |path|
    && (l == [] ||
        (&& r.Obj? && l[0].entry < |r.node.entries|
         && TagMatches(r.node.entries[l[0].entry].key, path[0])
         && Follows(ItemAt(r.node.entries[l[0].entry].value, l[0].slot), l[1..], path[1..])))
  }

  lemma FollowsCons(r: Ref, x: Pos, l: Loc, s: string, path: seq<string>)
    requires r.Obj? && x.entry < |r.node.entries| && TagMatches(r.node.entries[x.entry].key, s)
    requires Follows(ItemAt(r.node.entries[x.entry].value, x.slot), l, path)
    ensures Follows(r, [x] + l, [s] + path)
  {
    assert ([x] + l)[1..] == l && ([s] + path)[1..] == path;
  }

  lemma HeadConcat<T>(a: seq<T>, b: seq<T>)
    requires a != []
    ensures a + b == [a[0]] + (a[1..] + b)
  {
  }

  lemma FollowsUncons(r: Ref, a: Loc, p: seq<string>, b: Loc, q: seq<string>)
    requires a != [] && Follows(r, a, p) && Follows(At(r, a), b, q)
    ensures r.Obj? && a[0].entry < |r.node.entries| && TagMatches(r.node.entries[a[0].entry].key, p[0])
    ensures var c := ItemAt(r.node.entries[a[0].entry].value, a[0].slot);
      Follows(c, a[1..], p[1..]) && Follows(At(c, a[1..]), b, q)
  {
  }

  lemma {:induction false} FollowsConcat(r: Ref, a: Loc, p: seq<string>, b: Loc, q: seq<string>)
    requires Follows(r, a, p) && Follows(At(r, a), b, q)
    ensures Follows(r, a + b, p + q)
    decreases |a|
  {
    if a == [] {
      assert a + b == b && p + q == q;
    } else {
      FollowsUncons(r, a, p, b, q);
      var c := ItemAt(r.node.entries[a[0].entry].value, a[0].slot);
      FollowsConcat(c, a[1..], p[1..], b, q);
      FollowsCons(r, a[0], a[1..] + b, p[0], p[1..] + q);
      HeadConcat(a, b);
      HeadConcat(p, q);
    }
  }

  /** Every hit is found at its location, through keys answering to the path. */
  lemma {:induction false} HitsSound(r: Ref, path: seq<string>)
    ensures forall i :: 0 <= i < |Hits(r, path)| ==>
      Follows(r, Hits(r, path)[i].loc, path) && At(r, Hits(r, path)[i].loc) == Hits(r, path)[i].ref
    decreases |path|, 0
  {
    if path != [] && r.Obj? {
      match MatchedEntry(r.node, path[0])
      case Some(e) =>
        var v := r.node.entries[e].value;
        assert path == [path[0]] + path[1..];
        HitsFromSound(r.node, e, 0, Items(v), path[0], path[1..]);
      case None =>
    }
  }

  lemma {:induction false} HitsFromSound(n: Node, e: nat, j: nat, items: seq<Ref>, seg: string, rest: seq<string>)
    requires e < |n.entries| && TagMatches(n.entries[e].key, seg)
    requires j + |items| == |Items(n.entries[e].value)|
    requires items == Items(n.entries[e].value)[j..]
    ensures forall i :: 0 <= i < |HitsFrom(items, e, j, rest)| ==>
      Follows(Obj(n), HitsFrom(items, e, j, rest)[i].loc, [seg] + rest)
      && At(Obj(n), HitsFrom(items, e, j, rest)[i].loc) == HitsFrom(items, e, j, rest)[i].ref
    decreases |rest|, |items| + 1
  {
    if items != [] {
      var head := Hits(items[0], rest);
      HitsSound(items[0], rest);
      HitsFromSound(n, e, j + 1, items[1..], seg, rest);
      var all := HitsFrom(items, e, j, rest);
      var pre := Prefixed(Pos(e, j), head);
      assert all == pre + HitsFrom(items[1..], e, j + 1, rest);
      forall i | 0 <= i < |pre|
        ensures Follows(Obj(n), pre[i].loc, [seg] + rest) && At(Obj(n), pre[i].loc) == pre[i].ref
      {
        assert pre[i].loc[1..] == head[i].loc;
        assert ([seg] + rest)[1..] == rest;
        assert ItemAt(n.entries[e].value, j) == items[0];
      }
    }
  }

  /** The locations of a search are pairwise distinct. */
  lemma {:induction false} HitsDistinct(r: Ref, path: seq<string>)
    ensures forall i, k :: 0 <= i < k < |Hits(r, path)| ==> Hits(r, path)[i].loc != Hits(r, path)[k].loc
    decreases |path|, 0
  {
    if path != [] && r.Obj? {
      match MatchedEntry(r.node, path[0])
      case Some(e) => HitsFromDistinct(Items(r.node.entries[e].value), e, 0, path[1..]);
      case None =>
    }
  }

  lemma {:induction false} HitsFromDistinct(items: seq<Ref>, e: nat, j: nat, rest: seq<string>)
    ensures forall i :: 0 <= i < |HitsFrom(items, e, j, rest)| ==>
      |HitsFrom(items, e, j, rest)[i].loc| > 0
      && HitsFrom(items, e, j, rest)[i].loc[0].entry == e
      && HitsFrom(items, e, j, rest)[i].loc[0].slot >= j
    ensures forall i, k :: 0 <= i < k < |HitsFrom(items, e, j, rest)| ==>
      HitsFrom(items, e, j, rest)[i].loc != HitsFrom(items, e, j, rest)[k].loc
    decreases |rest|, |items| + 1
  {
    if items != [] {
      var head := Hits(items[0], rest);
      HitsDistinct(items[0], rest);
      HitsFromDistinct(items[1..], e, j + 1, rest);
      var pre := Prefixed(Pos(e, j), head);
      var tail := HitsFrom(items[1..], e, j + 1, rest);
      var all := HitsFrom(items, e, j, rest);
      assert all == pre + tail;
      forall i, k | 0 <= i < k < |all|
        ensures all[i].loc != all[k].loc
      {
        if k < |pre| {
          assert all[i].loc[1..] == head[i].loc;
          assert all[k].loc[1..] == head[k].loc;
        } else if i < |pre| {
          assert all[i].loc[0].slot == j;
          assert tail[k - |pre|].loc[0].slot >= j + 1;
        }
      }
    }
  }

  // ---------------------------------------------------------------------------
  // Reading and writing one node (getNodeText / setNodeText / getNodeAttr / setNodeAttr)
  // ---------------------------------------------------------------------------

  /** The index of the entry stored under exactly `key`. */
  function KeyIndex(es: seq<Entry>, key: string): (r: Option<nat>)
    ensures r.Some? ==> r.value < |es| && es[r.value].key == key
    ensures r.Some? ==> forall j :: 0 <= j < r.value ==> es[j].key != key
    ensures r.None? ==> forall j :: 0 <= j < |es| ==> es[j].key != key
  {
    if es == [] then None
    else if es[0].key == key then Some(0)
    else match KeyIndex(es[1..], key)
      case None => None
      case Some(i) => Some(i + 1)
  }

  /** `node[key]` */
  function Lookup(n: Node, key: string): Option<Value> {
    match KeyIndex(n.entries, key)
    case Some(i) => Some(n.entries[i].value)
    case None => None
  }

  function Keys(n: Node): (ks: seq<string>)
    ensures |ks| == |n.entries|
    ensures forall i :: 0 <= i < |ks| ==> ks[i] == n.entries[i].key
  {
    seq(|n.entries|, i requires 0 <= i < |n.entries| => n.entries[i].key)
  }

  /** `node[key] = v`: an existing key keeps its place, a new key goes last. */
  function Put(n: Node, key: string, v: Value): (n': Node)
    ensures Lookup(n', key) == Some(v)
    ensures forall k :: k != key ==> Lookup(n', k) == Lookup(n, k)
    ensures Lookup(n, key).Some? ==> Keys(n') == Keys(n)
    ensures Lookup(n, key).None? ==> Keys(n') == Keys(n) + [key]
  {
    match KeyIndex(n.entries, key)
    case Some(i) =>
      var n' := Node(n.entries[i := Entry(key, v)]);
      assert KeyIndex(n'.entries, key) == Some(i) by { KeyIndexSame(n.entries, n'.entries, key); }
      forall k | k != key
        ensures Lookup(n', k) == Lookup(n, k)
      {
        KeyIndexSame(n.entries, n'.entries, k);
      }
      n'
    case None =>
      var n' := Node(n.entries + [Entry(key, v)]);
      assert KeyIndex(n'.entries, key) == Some(|n.entries|) by { KeyIndexAppend(n.entries, Entry(key, v), key); }
      forall k | k != key
        ensures Lookup(n', k) == Lookup(n, k)
      {
        KeyIndexAppend(n.entries, Entry(key, v), k);
      }
      n'
  }

  /** Two entry lists with the same keys resolve every key to the same index. */
  lemma {:induction false} KeyIndexSame(es: seq<Entry>, es': seq<Entry>, key: string)
    requires |es| == |es'|
    requires forall i :: 0 <= i < |es| ==> es[i].key == es'[i].key
    ensures KeyIndex(es, key) == KeyIndex(es', key)
  {
    if es != [] {
      KeyIndexSame(es[1..], es'[1..], key);
    }
  }

  lemma {:induction false} KeyIndexAppend(es: seq<Entry>, x: Entry, key: string)
    ensures KeyIndex(es + [x], key) ==
      (if KeyIndex(es, key).Some? then KeyIndex(es, key) else if x.key == key then Some(|es|) else None)
  {
    if es != [] {
      assert (es + [x])[1..] == es[1..] + [x];
      KeyIndexAppend(es[1..], x, key);
    }
  }

  /** How the value stored under `k` looks, if `r` is an object holding that key. */
  function ShapeUnder(r: Ref, k: string): Option<ShapeOf> {
    if r.Obj? then
      match Lookup(r.node, k)
      case Some(v) => Some(Shape(v))
      case None => None
    else None
  }

  /** The string stored under `k`, if there is one. */
  function TextUnder(r: Ref, k: string): Option<string> {
    match ShapeUnder(r, k)
    case Some(SText(s)) => Some(s)
    case _ => None
  }

  /** `getNodeText`: the "#text" entry of an object, when it is a string. */
  function GetText(r: Ref): Option<string> {
    TextUnder(r, TextKey)
  }

  /** `setNodeText`: writes "#text" on an object; a no-op on anything else. */
  function SetText(r: Ref, s: string): (r': Ref)
    ensures r.Obj? ==> r'.Obj? && GetText(r') == Some(s)
    ensures r.Obj? ==> forall k :: k != TextKey ==> Lookup(r'.node, k) == Lookup(r.node, k)
    ensures !r.Obj? ==> r' == r
  {
    if r.Obj? then Obj(Put(r.node, TextKey, Text(s))) else r
  }

  /** `getNodeAttr` of utils.ts: the "@_a" entry of an object, when it is a string. */
  function GetAttr(r: Ref, a: string): Option<string> {
    TextUnder(r, AttrPrefix + a)
  }

  /** `setNodeAttr`: writes "@_a" on an object; a no-op on anything else. */
  function SetAttr(r: Ref, a: string, v: string): (r': Ref)
    ensures r.Obj? ==> r'.Obj? && GetAttr(r', a) == Some(v)
    ensures r.Obj? ==> forall k :: k != AttrPrefix + a ==> Lookup(r'.node, k) == Lookup(r.node, k)
    ensures !r.Obj? ==> r' == r
  {
    if r.Obj? then Obj(Put(r.node, AttrPrefix + a, Text(v))) else r
  }

  /** `String(...)` of a parsed object, and of an array of `count` of them. */
  function ObjectString(count: nat): string {
    if count == 0 then ""
    else if count == 1 then "[object Object]"
    else "[object Object]," + ObjectString(count - 1)
  }

  /** The attribute reader private to editor.ts: any value present is coerced with
      `String(...)`, and an attribute read on a bare string gives nothing. */
  function AttrLoose(r: Ref, a: string): (o: Option<string>)
    ensures GetAttr(r, a).Some? ==> o == GetAttr(r, a)
    ensures !r.Obj? ==> o.None?
    ensures o.None? <==> !r.Obj? || Lookup(r.node, AttrPrefix + a).None?
  {
    match ShapeUnder(r, AttrPrefix + a)
    case Some(SText(s)) => Some(s)
    case Some(SOne) => Some(ObjectString(1))
    case Some(SMany(c)) => Some(ObjectString(c))
    case None => None
  }

  // ---------------------------------------------------------------------------
  // Writing at a location
  // ---------------------------------------------------------------------------

  /** Store the string `text` under `key` in the object at `loc`; anything else is left alone. */
  function WriteAt(r: Ref, loc: Loc, key: string, text: string): (r': Ref)
    ensures r'.Obj? <==> r.Obj?
    decreases |loc|, 1
  {
    if loc == [] then
      if r.Obj? then Obj(Put(r.node, key, Text(text))) else r
    else if r.Obj? && loc[0].entry < |r.node.entries| then
      var e := r.node.entries[loc[0].entry];
      Obj(Node(r.node.entries[loc[0].entry := Entry(e.key, WriteIn(e.value, loc[0].slot, loc[1..], key, text))]))
    else r
  }

  function WriteIn(v: Value, j: nat, rest: Loc, key: string, text: string): (v': Value)
    ensures Shape(v') == Shape(v)
    decreases |rest| + 1, 0
  {
    match v
    case Text(_) => v
    case One(c) => if j == 0 then One(WriteAt(Obj(c), rest, key, text).node) else v
    case Many(cs) => if j < |cs| then Many(cs[j := WriteAt(Obj(cs[j]), rest, key, text).node]) else v
  }

  /** What a value looks like from its parent: its text, or just whether it is one
      node or how many. */
  datatype ShapeOf = SText(text: string) | SOne | SMany(count: nat)

  function Shape(v: Value): ShapeOf {
    match v
    case Text(s) => SText(s)
    case One(_) => SOne
    case Many(cs) => SMany(|cs|)
  }

  /** Same keys in the same order, same strings, same nesting counts. */
  predicate SameSurface(n: Node, n': Node) {
    && |n.entries| == |n'.entries|
    && forall i :: 0 <= i < |n.entries| ==>
         n.entries[i].key == n'.entries[i].key && Shape(n.entries[i].value) == Shape(n'.entries[i].value)
  }

  /** Text, attributes and keys are all read off the surface of a node. */
  lemma SameSurfaceReads(n: Node, n': Node)
    requires SameSurface(n, n')
    ensures GetText(Obj(n)) == GetText(Obj(n'))
    ensures forall a :: GetAttr(Obj(n), a) == GetAttr(Obj(n'), a) && AttrLoose(Obj(n), a) == AttrLoose(Obj(n'), a)
    ensures Keys(n) == Keys(n')
  {
    forall k
      ensures KeyIndex(n.entries, k) == KeyIndex(n'.entries, k)
    {
      KeyIndexSame(n.entries, n'.entries, k);
    }
  }

  lemma {:induction false} ItemAtWriteIn(v: Value, j: nat, rest: Loc, key: string, text: string, j': nat)
    ensures j' == j ==> ItemAt(WriteIn(v, j, rest, key, text), j') == WriteAt(ItemAt(v, j), rest, key, text)
    ensures j' != j ==> ItemAt(WriteIn(v, j, rest, key, text), j') == ItemAt(v, j')
  {
    if j' == j {
      match v
      case Text(s) => WriteAtStr(s, rest, key, text);
      case One(c) =>
        if j != 0 {
          WriteAtNil(rest, key, text);
        }
      case Many(cs) =>
        if j >= |cs| {
          WriteAtNil(rest, key, text);
        }
    }
  }

  lemma WriteAtStr(s: string, loc: Loc, key: string, text: string)
    ensures WriteAt(Str(s), loc, key, text) == Str(s)
  {
  }

  lemma WriteAtNil(loc: Loc, key: string, text: string)
    ensures WriteAt(Nil, loc, key, text) == Nil
  {
  }

  /** The object at the written location now carries the string under `key`. */
  lemma {:induction false} WriteAtTarget(r: Ref, m: Loc, key: string, text: string)
    requires At(r, m).Obj?
    ensures At(WriteAt(r, m, key, text), m) == Obj(Put(At(r, m).node, key, Text(text)))
    decreases |m|
  {
    if m != [] {
      var e := r.node.entries[m[0].entry];
      var r' := WriteAt(r, m, key, text);
      assert r'.node.entries[m[0].entry].value == WriteIn(e.value, m[0].slot, m[1..], key, text);
      ItemAtWriteIn(e.value, m[0].slot, m[1..], key, text, m[0].slot);
      WriteAtTarget(ItemAt(e.value, m[0].slot), m[1..], key, text);
    }
  }

  /** Writing somewhere else leaves a location untouched. */
  lemma {:induction false} WriteAtElsewhere(r: Ref, m: Loc, l: Loc, key: string, text: string)
    requires Diverge(l, m)
    ensures At(WriteAt(r, m, key, text), l) == At(r, l)
    decreases |m|
  {
    var r' := WriteAt(r, m, key, text);
    if r.Obj? && m[0].entry < |r.node.entries| {
      var e := r.node.entries[m[0].entry];
      if l[0].entry == m[0].entry {
        ItemAtWriteIn(e.value, m[0].slot, m[1..], key, text, l[0].slot);
        if l[0].slot == m[0].slot {
          WriteAtElsewhere(ItemAt(e.value, m[0].slot), m[1..], l[1..], key, text);
        }
      }
    }
  }

  /** Two locations part ways at some step: neither is a prefix of the other. */
  predicate Diverge(l: Loc, m: Loc)
    decreases |l|
  {
    |l| > 0 && |m| > 0 && (l[0] != m[0] || Diverge(l[1..], m[1..]))
  }

  lemma {:induction false} DivergeOfDistinct(l: Loc, m: Loc)
    requires |l| == |m| && l != m
    ensures Diverge(l, m)
    decreases |l|
  {
    if l[0] == m[0] {
      assert l == [l[0]] + l[1..] && m == [m[0]] + m[1..];
      DivergeOfDistinct(l[1..], m[1..]);
    }
  }

  lemma {:induction false} DivergeExtend(b: Loc, l: Loc, m: Loc, x: Loc, y: Loc)
    requires Diverge(l, m)
    ensures Diverge(b + l + x, b + m + y)
    decreases |b|
  {
    if b == [] {
      assert b + l + x == l + x && b + m + y == m + y;
      DivergeTails(l, m, x, y);
    } else {
      assert (b + l + x)[1..] == b[1..] + l + x;
      assert (b + m + y)[1..] == b[1..] + m + y;
      DivergeExtend(b[1..], l, m, x, y);
    }
  }

  lemma {:induction false} DivergeTails(l: Loc, m: Loc, x: Loc, y: Loc)
    requires Diverge(l, m)
    ensures Diverge(l + x, m + y)
    decreases |l|
  {
    if l[0] == m[0] {
      assert (l + x)[1..] == l[1..] + x;
      assert (m + y)[1..] == m[1..] + y;
      DivergeTails(l[1..], m[1..], x, y);
    }
  }

  predicate StrictPrefix(l: Loc, m: Loc) {
    |l| < |m| && m[..|l|] == l
  }

  /** Writing below a location keeps that node's surface: its keys, its strings
      (attributes included) and its nesting counts. */
  lemma {:induction false} WriteAtAncestor(r: Ref, m: Loc, l: Loc, key: string, text: string)
    requires StrictPrefix(l, m)
    requires At(r, l).Obj?
    ensures At(WriteAt(r, m, key, text), l).Obj?
    ensures SameSurface(At(r, l).node, At(WriteAt(r, m, key, text), l).node)
    decreases |l|
  {
    var r' := WriteAt(r, m, key, text);
    if m[0].entry >= |r.node.entries| {
      assert r' == r;
      assert At(r', l) == At(r, l);
    } else if l == [] {
      var e := r.node.entries[m[0].entry];
      assert r'.node.entries == r.node.entries[m[0].entry := Entry(e.key, WriteIn(e.value, m[0].slot, m[1..], key, text))];
    } else {
      var e := r.node.entries[m[0].entry];
      assert l[0] == m[0];
      ItemAtWriteIn(e.value, m[0].slot, m[1..], key, text, m[0].slot);
      assert m[1..][..|l[1..]|] == l[1..];
      WriteAtAncestor(ItemAt(e.value, m[0].slot), m[1..], l[1..], key, text);
    }
  }

  /** Writing at a location that holds no object changes nothing. */
  lemma {:induction false} WriteAtMissing(r: Ref, m: Loc, key: string, text: string)
    requires !At(r, m).Obj?
    ensures WriteAt(r, m, key, text) == r
    decreases |m|
  {
    if m != [] && r.Obj? && m[0].entry < |r.node.entries| {
      var e := r.node.entries[m[0].entry];
      WriteAtMissing(ItemAt(e.value, m[0].slot), m[1..], key, text);
      ItemAtWriteIn(e.value, m[0].slot, m[1..], key, text, m[0].slot);
      WriteInUnchanged(e.value, m[0].slot, m[1..], key, text);
      assert r.node.entries[m[0].entry := Entry(e.key, e.value)] == r.node.entries;
    }
  }

  lemma WriteInUnchanged(v: Value, j: nat, rest: Loc, key: string, text: string)
    requires WriteAt(ItemAt(v, j), rest, key, text) == ItemAt(v, j)
    ensures WriteIn(v, j, rest, key, text) == v
  {
    match v
    case Text(_) =>
    case One(c) =>
    case Many(cs) =>
      if j < |cs| {
        assert cs[j := WriteAt(Obj(cs[j]), rest, key, text).node] == cs;
      }
  }
}
