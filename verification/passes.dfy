/** A pass over a list of found values that rewrites each one's text from what
    it reads there: `for (const tag of tags) { if (cond(getNodeText(tag))) {
    setNodeText(tag, v); alteracoes.push(msg); } }`. The editors of
    src/lib/xml/editor.ts run two of them over the `chNFe` tags of a
    cancellation event. */
module Passes {
  import opened Wrappers
  import opened JsString
  import opened Tree
  import opened Doc
  import opened Trail
  import opened Editing

  /** What a pass writes, given the text it reads: `None` leaves the value alone. */
  type Rewrite = Option<string> -> Option<string>

  /** One value of a pass. */
  function Touch(r: Run, h: Handle, f: Rewrite, msg: string): (r': Run)
    ensures Extends(r', r) && Logged(r', r)
    ensures f(ReadText(r, h)).Some? ==>
      Since(r', r) == [Change(h, TextSlot, f(ReadText(r, h)).value)] && r'.log == r.log + [msg]
    ensures f(ReadText(r, h)).None? ==> r' == r
  {
    match f(ReadText(r, h))
    case Some(x) => Note(WriteText(r, h, x), msg)
    case None => r
  }

  /** The pass, each value visited in list order. */
  function Pass(r: Run, hs: seq<Handle>, f: Rewrite, msg: string): (r': Run)
    ensures Extends(r', r) && Logged(r', r)
    decreases |hs|
  {
    if hs == [] then r
    else
      var r1 := Touch(r, hs[0], f, msg);
      var r' := Pass(r1, hs[1..], f, msg);
      ExtendsTrans(r', r1, r);
      LoggedTrans(r', r1, r);
      r'
  }

  /** The writes of a pass, every text read in the document `t` it started from. */
  function PassWrites(t: Ref, hs: seq<Handle>, f: Rewrite): seq<Change> {
    if hs == [] then []
    else
      (match f(TextAt(t, hs[0])) case Some(x) => [Change(hs[0], TextSlot, x)] case None => [])
      + PassWrites(t, hs[1..], f)
  }

  /** The log lines of a pass, likewise. */
  function PassLog(t: Ref, hs: seq<Handle>, f: Rewrite, msg: string): seq<string> {
    if hs == [] then []
    else (if f(TextAt(t, hs[0])).Some? then [msg] else []) + PassLog(t, hs[1..], f, msg)
  }

  /** Distinct values, none reached through a written key. */
  predicate Spread(t: Ref, hs: seq<Handle>) {
    && (forall i :: 0 <= i < |hs| ==> Anchored(t, hs[i]))
    && (forall i, j :: 0 <= i < j < |hs| ==> hs[i] != hs[j])
  }

  lemma PassCons(t: Ref, hs: seq<Handle>, f: Rewrite, msg: string)
    requires hs != []
    ensures PassWrites(t, hs, f) == PassWrites(t, [hs[0]], f) + PassWrites(t, hs[1..], f)
    ensures PassLog(t, hs, f, msg) == PassLog(t, [hs[0]], f, msg) + PassLog(t, hs[1..], f, msg)
  {
    var one := [hs[0]];
    assert one[1..] == [];
    assert PassWrites(t, one[1..], f) == [];
    assert PassLog(t, one[1..], f, msg) == [];
  }

  /** Writes that leave the texts of the pass's values alone change nothing the
      pass does. */
  lemma {:induction false} PassWritesFrame(t: Ref, cs: seq<Change>, hs: seq<Handle>, f: Rewrite, msg: string)
    requires forall i :: 0 <= i < |hs| ==> Anchored(t, hs[i]) && LastAt(cs, hs[i], TextSlot).None?
    ensures PassWrites(Apply(t, cs), hs, f) == PassWrites(t, hs, f)
    ensures PassLog(Apply(t, cs), hs, f, msg) == PassLog(t, hs, f, msg)
    decreases |hs|
  {
    if hs != [] {
      TextAfterAll(t, cs, hs[0]);
      PassWritesFrame(t, cs, hs[1..], f, msg);
    }
  }

  /** Over distinct values a pass never reads its own writes: it writes and logs
      what its reads in the starting document call for. */
  lemma {:induction false} PassFrame(r: Run, hs: seq<Handle>, f: Rewrite, msg: string, r': Run)
    requires Spread(Cur(r), hs)
    requires r' == Pass(r, hs, f, msg)
    ensures r'.trail == r.trail + PassWrites(Cur(r), hs, f)
    ensures r'.log == r.log + PassLog(Cur(r), hs, f, msg)
    decreases |hs|
  {
    if hs != [] {
      var r1 := Touch(r, hs[0], f, msg);
      var t, rest := Cur(r), hs[1..];
      var head := PassWrites(t, [hs[0]], f);
      var line := PassLog(t, [hs[0]], f, msg);
      assert r1.trail == r.trail + head && r1.log == r.log + line by {
        assert [hs[0]][1..] == [];
        assert PassWrites(t, [hs[0]][1..], f) == [] && PassLog(t, [hs[0]][1..], f, msg) == [];
        if f(ReadText(r, hs[0])).Some? {
          assert Since(r1, r) == head;
        }
      }
      assert Spread(Cur(r1), rest) by {
        assert Since(r1, r) == head;
        CurSince(r1, r);
        forall i | 0 <= i < |rest| ensures Anchored(Cur(r1), rest[i]) {
          assert rest[i] == hs[i + 1];
          AnchoredAfterAll(t, head, rest[i]);
        }
      }
      assert PassWrites(Cur(r1), rest, f) == PassWrites(t, rest, f)
          && PassLog(Cur(r1), rest, f, msg) == PassLog(t, rest, f, msg) by {
        assert Since(r1, r) == head;
        CurSince(r1, r);
        forall i | 0 <= i < |rest| ensures Anchored(t, rest[i]) && LastAt(head, rest[i], TextSlot).None? {
          assert rest[i] == hs[i + 1];
        }
        PassWritesFrame(t, head, rest, f, msg);
      }
      PassFrame(r1, rest, f, msg, r');
      PassCons(t, hs, f, msg);
      ConcatAssoc(r.trail, head, PassWrites(t, rest, f));
      ConcatAssoc(r.log, line, PassLog(t, rest, f, msg));
    }
  }

  /** Every value of a pass holds the last string the pass wrote there: the one
      its text in the starting document called for. */
  lemma {:induction false} PassLastWrite(t: Ref, hs: seq<Handle>, f: Rewrite, h: Handle)
    ensures LastAt(PassWrites(t, hs, f), h, TextSlot) == if h in hs then f(TextAt(t, h)) else None
    decreases |hs|
  {
    if hs != [] {
      PassCons(t, hs, f, "");
      LastAtConcat(PassWrites(t, [hs[0]], f), PassWrites(t, hs[1..], f), h, TextSlot);
      PassLastWrite(t, hs[1..], f, h);
      assert h in hs <==> h == hs[0] || h in hs[1..];
    }
  }

  /** The text of a value after a pass over distinct values: rewritten when the
      pass called for it and the value is an object, as before otherwise. */
  lemma PassResult(r: Run, hs: seq<Handle>, f: Rewrite, msg: string, h: Handle)
    requires Spread(Cur(r), hs) && Anchored(Cur(r), h)
    ensures var r' := Pass(r, hs, f, msg);
      ReadText(r', h) ==
        if h in hs && Val(Cur(r), h).Obj? && f(ReadText(r, h)).Some? then f(ReadText(r, h)) else ReadText(r, h)
  {
    var r' := Pass(r, hs, f, msg);
    PassFrame(r, hs, f, msg, r');
    assert Since(r', r) == PassWrites(Cur(r), hs, f);
    CurSince(r', r);
    TextAfterAll(Cur(r), PassWrites(Cur(r), hs, f), h);
    PassLastWrite(Cur(r), hs, f, h);
  }
}
