/** The two path searches of src/lib/xml/utils.ts as the source writes them:
    a walk that keeps the whole current level of matches, one path segment at a
    time. Both are shown equal to the depth-first definition `Tree.Hits`. */
module Search {
  import opened Tree
  import opened JsString

  /** `f` applied to every element, the results joined in order. */
  function Flat<X, Y>(xs: seq<X>, f: X -> seq<Y>): seq<Y> {
    if xs == [] then [] else f(xs[0]) + Flat(xs[1..], f)
  }

  lemma {:induction false} FlatAppend<X, Y>(a: seq<X>, b: seq<X>, f: X -> seq<Y>)
    ensures Flat(a + b, f) == Flat(a, f) + Flat(b, f)
  {
    if a == [] {
      assert a + b == b;
    } else {
      assert (a + b)[0] == a[0] && (a + b)[1..] == a[1..] + b;
      FlatAppend(a[1..], b, f);
    }
  }

  lemma FlatOne<X, Y>(x: X, f: X -> seq<Y>)
    ensures Flat([x], f) == f(x)
  {
    assert [x][1..] == [];
  }

  function StepBy(tag: string): Ref -> seq<Ref> {
    r => Step(r, tag)
  }

  function FindAllBy(path: seq<string>): Ref -> seq<Ref> {
    r => FindAll(r, path)
  }

  /** One segment applied to every value of the current level, in order. */
  function StepAll(current: seq<Ref>, tag: string): seq<Ref> {
    Flat(current, StepBy(tag))
  }

  /** Everything the rest of the path reaches from each value of a level, in order. */
  function FindAllFromEach(current: seq<Ref>, path: seq<string>): seq<Ref> {
    Flat(current, FindAllBy(path))
  }

  lemma StepAllAppend(a: seq<Ref>, b: seq<Ref>, tag: string)
    ensures StepAll(a + b, tag) == StepAll(a, tag) + StepAll(b, tag)
  {
    FlatAppend(a, b, StepBy(tag));
  }

  lemma FindAllFromEachAppend(a: seq<Ref>, b: seq<Ref>, path: seq<string>)
    ensures FindAllFromEach(a + b, path) == FindAllFromEach(a, path) + FindAllFromEach(b, path)
  {
    FlatAppend(a, b, FindAllBy(path));
  }

  lemma {:induction false} RefsAppend(a: seq<Hit>, b: seq<Hit>)
    ensures Refs(a + b) == Refs(a) + Refs(b)
  {
  }

  lemma {:induction false} RefsPrefixed(p: Pos, hs: seq<Hit>)
    ensures Refs(Prefixed(p, hs)) == Refs(hs)
  {
  }

  /** The hits under one key, stripped of their locations, are the searches from each item. */
  lemma {:induction false} RefsHitsFrom(items: seq<Ref>, e: nat, j: nat, rest: seq<string>)
    ensures Refs(HitsFrom(items, e, j, rest)) == FindAllFromEach(items, rest)
    decreases |items|
  {
    if items != [] {
      var head := Prefixed(Pos(e, j), Hits(items[0], rest));
      RefsAppend(head, HitsFrom(items[1..], e, j + 1, rest));
      RefsPrefixed(Pos(e, j), Hits(items[0], rest));
      RefsHitsFrom(items[1..], e, j + 1, rest);
    }
  }

  /** A search is its first segment followed by the rest of the path from each result. */
  lemma FindAllCons(r: Ref, tag: string, rest: seq<string>)
    ensures FindAll(r, [tag] + rest) == FindAllFromEach(Step(r, tag), rest)
  {
    var path := [tag] + rest;
    assert path[0] == tag && path[1..] == rest;
    if r.Obj? {
      match MatchedEntry(r.node, tag)
      case Some(e) => RefsHitsFrom(Items(r.node.entries[e].value), e, 0, rest);
      case None =>
    }
  }

  /** The same, for a whole level at once. */
  lemma {:induction false} FindAllFromEachCons(current: seq<Ref>, tag: string, rest: seq<string>)
    ensures FindAllFromEach(current, [tag] + rest) == FindAllFromEach(StepAll(current, tag), rest)
  {
    if current != [] {
      FindAllCons(current[0], tag, rest);
      FindAllFromEachCons(current[1..], tag, rest);
      FindAllFromEachAppend(Step(current[0], tag), StepAll(current[1..], tag), rest);
    }
  }

  lemma {:induction false} FindAllFromEachEmptyPath(current: seq<Ref>)
    ensures FindAllFromEach(current, []) == current
  {
    if current != [] {
      FindAllFromEachEmptyPath(current[1..]);
      assert current == [current[0]] + current[1..];
    }
  }

  /** One round of the walk: every object of the level that has a matching key
      contributes that key's value, a repeated element contributing each item. */
  method NextLevel(current: seq<Ref>, tag: string) returns (next: seq<Ref>)
    ensures next == StepAll(current, tag)
  {
    next := [];
    var i := 0;
    while i < |current|
      invariant 0 <= i <= |current|
      invariant next == StepAll(current[..i], tag)
    {
      var node := current[i];
      StepAllAppend(current[..i], [node], tag);
      assert current[..i + 1] == current[..i] + [node];
      FlatOne(node, StepBy(tag));
      if node.Obj? {
        match MatchedEntry(node.node, tag)
        case Some(e) =>
          next := next + Items(node.node.entries[e].value);
        case None =>
      }
      i := i + 1;
    }
    assert current[..i] == current;
  }

  lemma FindAllFromOne(r: Ref, path: seq<string>)
    ensures FindAllFromEach([r], path) == FindAll(r, path)
  {
    FlatOne(r, FindAllBy(path));
  }

  /** The walk over an already split path. */
  method Walk(obj: Ref, tags: seq<string>) returns (found: seq<Ref>)
    ensures found == FindAll(obj, tags)
  {
    var current := [obj];
    FindAllFromOne(obj, tags);
    var k := 0;
    while k < |tags|
      invariant 0 <= k <= |tags|
      invariant FindAllFromEach(current, tags[k..]) == FindAll(obj, tags)
    {
      var tag := tags[k];
      var next := NextLevel(current, tag);
      assert tags[k..] == [tag] + tags[k + 1..];
      FindAllFromEachCons(current, tag, tags[k + 1..]);
      current := next;
      k := k + 1;
      if |current| == 0 {
        return [];
      }
    }
    assert tags[k..] == [];
    FindAllFromEachEmptyPath(current);
    found := current;
  }

  /** `findAllElementsDeep`: walks the '/'-separated path level by level; strings and
      missing values drop out of a level, repeated elements are flattened into it,
      and an empty level ends the search early. */
  method FindAllElementsDeep(obj: Ref, tagPath: string) returns (found: seq<Ref>)
    ensures found == FindAll(obj, Split(tagPath, '/'))
  {
    found := Walk(obj, Split(tagPath, '/'));
  }

  /** `findElementDeep`: the same walk, keeping the first value of the last level. */
  method FindElementDeep(obj: Ref, tagPath: string) returns (found: Ref)
    ensures found == FindFirst(obj, Split(tagPath, '/'))
    ensures found != Nil ==> found in FindAll(obj, Split(tagPath, '/'))
  {
    var all := FindAllElementsDeep(obj, tagPath);
    found := if |all| > 0 then all[0] else Nil;
  }
}
