/** What the rewriter hands over at the end of a buffer, and how it goes on with the next one. */
module RewriterCarry {
  import opened Bytes
  import opened HttpRuns
  import opened HttpStream
  import opened RewriterFacts

  lemma RefillOffsets(v: View, p: Pos, t: seq<byte>)
    requires p.Ok() && OffsetsOk(v, p)
    ensures OffsetsOk(v.(text := t), p)
  {
  }

  lemma RefillToken(text: seq<byte>, more: seq<byte>, raw: seq<byte>, depth: nat)
    requires text <= raw && |text| == depth && more <= raw[depth..]
    ensures text + more <= raw
  {
    assert raw == raw[..depth] + raw[depth..];
  }

  /** The next bytes of the stream follow what is waiting. */
  lemma RefillStep(v: View, p: Pos, more: seq<byte>, emitted: seq<byte>, dirty: bool)
    requires Tied(v, p, |v.text|, emitted, dirty) && more <= Coming(p)
    requires p.at.Live() ==> v.token == 0
    requires !p.at.Live() ==> v.text == []
    ensures Tied(v.(text := v.text + more), p, |v.text|, emitted, dirty)
  {
    var t := v.text + more;
    assert v.text[0..] == v.text && t[0..] == t && t[..0] == v.text[..0];
    RefillOffsets(v, p, t);
    if p.at.Live() {
      RefillToken(v.text, more, p.at.Raw(), p.Depth());
    } else {
      assert t == more && v.text[..0] == v.text;
    }
  }

  /** Everything in front of the unfinished token is handed over. */
  ghost function Rebased(v: View): View
    requires 0 <= v.token <= |v.text|
  {
    View(v.text[v.token..], 0, v.tokenEnd - v.token, v.field - v.token, v.fieldEnd - v.token,
         v.value - v.token, v.valueEnd - v.token, v.state, v.history)
  }

  lemma RebaseOffsets(v: View, p: Pos)
    requires p.Ok() && p.at.Live() && 0 <= v.token <= |v.text| && OffsetsOk(v, p)
    ensures OffsetsOk(Rebased(v), p)
  {
  }

  lemma RebaseStep(v: View, p: Pos, emitted: seq<byte>, dirty: bool)
    requires Tied(v, p, |v.text|, emitted, dirty) && p.at.Live()
    ensures 0 <= v.token <= |v.text|
    ensures Tied(Rebased(v), p, |v.text| - v.token, emitted + v.text[..v.token], dirty)
    ensures |v.text| - v.token == p.Depth()
    ensures dirty || emitted + v.text == Output(p)
  {
    hide OffsetsOk, MessagesOk, RawAll, RawHead, FromHeader, AfterFirst;
    RebaseOffsets(v, p);
    var w, head := Rebased(v), v.text[..v.token];
    assert w.text[0..] == w.text && w.text[..0] == [];
    assert (emitted + head) + [] == emitted + head;
    assert w.text == p.at.Raw()[..p.Depth()] && v.text == head + w.text;
    Assoc(emitted, head, w.text);
  }

  /** Nothing is waiting: everything is handed over. */
  lemma HandoverStep(v: View, p: Pos, emitted: seq<byte>, dirty: bool)
    requires Tied(v, p, |v.text|, emitted, dirty) && !p.at.Live()
    ensures Tied(v.(text := []), p, 0, emitted + v.text, dirty)
    ensures v.token == |v.text| || (v.text == [] && 0 <= v.token)
    ensures dirty || emitted + v.text == Output(p)
  {
    assert v.text[..|v.text|] == v.text;
    var none: seq<byte> := [];
    assert none[..0] == none && (emitted + v.text) + none == emitted + v.text;
    assert p.acc.out + [] == p.acc.out;
  }
}
