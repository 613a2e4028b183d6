/**
 Many goroutines writing frames to one connection (sendFrame in micro/net/server.go and
 writeFrame in micro/net/frame.go). A writer takes the connection's write lock, then
 issues up to three writes: the fixed header, the header bytes and the body bytes, each
 of which the connection may accept piece by piece. Writes succeed.
 */
module FrameStream {
  import opened Common
  import opened Bytes
  import opened FrameCodec

  /** The write in progress: who holds the lock, for which frame, and what is still to be written. */
  datatype Job = Job(t: nat, frame: Frame, chunks: seq<seq<byte>>)

  datatype Wire = Wire(lim: Limits, bytes: seq<byte>, holder: Option<Job>, sent: seq<Frame>)

  datatype Step =
    | Lock(t: nat, f: Frame)      // takes the lock; a frame that fails validation is given up at once
    | Write(t: nat, n: nat)       // the connection accepts n bytes of the current write
    | Unlock(t: nat)

  /** The writes of one frame; empty parts are skipped. */
  function Chunks(f: Frame): seq<seq<byte>> {
    [FixedHeader(f)] + (if f.header == [] then [] else [f.header]) + (if f.body == [] then [] else [f.body])
  }

  function Flatten(chunks: seq<seq<byte>>): seq<byte> {
    if chunks == [] then [] else chunks[0] + Flatten(chunks[1..])
  }

  /** A step that is not possible in this state leaves it unchanged. */
  function Do(w: Wire, step: Step): Wire {
    match step
    case Lock(t, f) =>
      if w.holder.Some? || Validate(f, w.lim).Some? then w else w.(holder := Some(Job(t, f, Chunks(f))))
    case Write(t, n) =>
      if w.holder.None? || w.holder.value.t != t || w.holder.value.chunks == [] then w
      else
        var job := w.holder.value;
        var cur, later := job.chunks[0], job.chunks[1..];
        if n > |cur| then w
        else w.(bytes := w.bytes + cur[..n],
                holder := Some(job.(chunks := if n == |cur| then later else [cur[n..]] + later)))
    case Unlock(t) =>
      if w.holder.None? || w.holder.value.t != t || w.holder.value.chunks != [] then w
      else w.(holder := None, sent := w.sent + [w.holder.value.frame])
  }

  function Exec(lim: Limits, steps: seq<Step>): Wire {
    if steps == [] then Wire(lim, [], None, []) else Do(Exec(lim, steps[..|steps| - 1]), steps[|steps| - 1])
  }

  /** Frames a reader can take: the magic and the version are set, and the lengths fit their fields. */
  ghost predicate AllCanonical(fs: seq<Frame>) {
    forall i :: 0 <= i < |fs| ==> Canonical(fs[i])
  }

  ghost predicate AllValid(fs: seq<Frame>, lim: Limits) {
    forall i :: 0 <= i < |fs| ==> Validate(fs[i], lim).None?
  }

  /** What has been written and what is still to be written make up whole frames, in lock order. */
  ghost predicate Inv(w: Wire) {
    && AllValid(w.sent, w.lim)
    && (w.holder.None? ==> w.bytes == EncodeAll(w.sent))
    && (w.holder.Some? ==>
          && Validate(w.holder.value.frame, w.lim).None?
          && w.bytes + Flatten(w.holder.value.chunks) == EncodeAll(w.sent) + Encode(w.holder.value.frame)
          && |EncodeAll(w.sent)| <= |w.bytes|)
  }

  /** The three writes carry exactly the bytes of the one-buffer encoding. */
  lemma ThreeWritesAreOneFrame(f: Frame)
    ensures Flatten(Chunks(f)) == Encode(f)
  {
    hide FixedHeader;
    var tail := if f.body == [] then [] else [f.body];
    assert Flatten(tail) == f.body;
    var mid := (if f.header == [] then [] else [f.header]) + tail;
    assert Flatten(mid) == f.header + f.body by {
      if f.header == [] { assert mid == tail; } else { assert mid[1..] == tail; }
    }
    assert Chunks(f) == [FixedHeader(f)] + mid;
    assert Chunks(f)[1..] == mid;
  }

  lemma FlattenFront(c: seq<byte>, later: seq<seq<byte>>)
    ensures Flatten([c] + later) == c + Flatten(later)
  {
    assert ([c] + later)[1..] == later;
  }

  /** Accepting n bytes moves them from what is left to what is written. */
  lemma BytesMove(bytes: seq<byte>, cur: seq<byte>, n: nat, later: seq<seq<byte>>)
    requires n <= |cur|
    ensures bytes + Flatten([cur] + later)
         == (bytes + cur[..n]) + Flatten(if n == |cur| then later else [cur[n..]] + later)
  {
    FlattenFront(cur, later);
    FlattenFront(cur[n..], later);
    hide Flatten;
    assert cur == cur[..n] + cur[n..];
    assert bytes + (cur + Flatten(later)) == (bytes + cur[..n]) + (cur[n..] + Flatten(later));
    if n == |cur| { assert cur[n..] + Flatten(later) == Flatten(later); }
  }

  lemma InvWrite(w: Wire, t: nat, n: nat)
    requires Inv(w)
    ensures Inv(Do(w, Write(t, n)))
  {
    hide Encode, EncodeAll, Flatten;
    var w' := Do(w, Write(t, n));
    if w' != w {
      var chunks := w.holder.value.chunks;
      assert chunks == [chunks[0]] + chunks[1..];
      BytesMove(w.bytes, chunks[0], n, chunks[1..]);
    }
  }

  lemma InvDo(w: Wire, step: Step)
    requires Inv(w)
    ensures Inv(Do(w, step))
  {
    hide Encode, EncodeAll;
    match step {
      case Lock(t, f) => ThreeWritesAreOneFrame(f);
      case Write(t, n) => InvWrite(w, t, n);
      case Unlock(t) =>
        if Do(w, step) != w {
          var f := w.holder.value.frame;
          assert w.bytes + Flatten([]) == w.bytes;
          SentAppend(w.sent, f);
        }
    }
  }

  lemma SentAppend(sent: seq<Frame>, f: Frame)
    ensures EncodeAll(sent + [f]) == EncodeAll(sent) + Encode(f)
  {
    assert (sent + [f])[..|sent|] == sent;
  }

  lemma {:induction false} InvAlways(lim: Limits, steps: seq<Step>)
    ensures Inv(Exec(lim, steps)) && Exec(lim, steps).lim == lim
  {
    if steps != [] {
      InvAlways(lim, steps[..|steps| - 1]);
      InvDo(Exec(lim, steps[..|steps| - 1]), steps[|steps| - 1]);
    }
  }

  lemma NothingFromNothing(lim: Limits)
    ensures Decode([], lim).Err?
  {
  }

  /** What a reader of the bytes written so far gets. */
  ghost predicate Intact(w: Wire) {
    if w.holder.None? then DecodeAll(w.bytes, w.lim) == (w.sent, [])
    else
      || DecodeAll(w.bytes, w.lim) == (w.sent + [w.holder.value.frame], [])
      || exists n :: 0 <= n < |Encode(w.holder.value.frame)|
                     && DecodeAll(w.bytes, w.lim) == (w.sent, Encode(w.holder.value.frame)[..n])
  }

  /** The frames the reader takes begin with those sent. */
  ghost predicate Delivered(w: Wire) {
    var got := DecodeAll(w.bytes, w.lim).0;
    |w.sent| <= |got| && got[..|w.sent|] == w.sent
  }

  /**
   Byte-stream integrity: whatever the interleaving, a reader of the connection takes the frames
   sent so far, in the order of the lock, if and only if each has its magic and version set and
   fits the length fields; the check before writing ensures neither. When no frame is being
   written the reader then takes nothing else and leaves nothing.
   */
  lemma StreamIsIntactExactly(lim: Limits, steps: seq<Step>)
    ensures var w := Exec(lim, steps);
            && w.lim == lim
            && (Delivered(w) <==> AllCanonical(w.sent))
            && (w.holder.None? ==> (DecodeAll(w.bytes, lim) == (w.sent, []) <==> AllCanonical(w.sent)))
  {
    InvAlways(lim, steps);
    hide Exec, DecodeAll, Canonical;
    var w := Exec(lim, steps);
    DecodeAllIsSendable(w.bytes, lim);
    if AllCanonical(w.sent) { AllSent(w); }
    var got := DecodeAll(w.bytes, lim).0;
    assert got == w.sent ==> got[..|w.sent|] == w.sent;
    if Delivered(w) {
      forall k | 0 <= k < |w.sent| ensures Canonical(w.sent[k]) { assert got[..|w.sent|][k] == got[k]; }
    }
  }

  lemma AllSent(w: Wire)
    requires Inv(w) && AllCanonical(w.sent)
    ensures AllSendable(w.sent, w.lim) && Delivered(w)
    ensures w.holder.None? ==> DecodeAll(w.bytes, w.lim) == (w.sent, [])
  {
    hide Encode, EncodeAll, DecodeAll, Decode, Flatten, Canonical, Validate;
    if w.holder.None? {
      WholeDecodes(w.lim, w.sent);
    } else {
      var f, done := w.holder.value.frame, EncodeAll(w.sent);
      Cut(w.bytes, Flatten(w.holder.value.chunks), done, Encode(f));
      DecodeAllConcat(w.sent, w.lim, Encode(f)[..|w.bytes| - |done|]);
    }
  }

  /** While such a frame is being written the reader is left with a beginning of it, or has it once it is all out. */
  lemma PartIsIntact(lim: Limits, steps: seq<Step>)
    ensures var w := Exec(lim, steps);
            AllCanonical(w.sent) && (w.holder.Some? ==> Canonical(w.holder.value.frame)) ==> Intact(w)
  {
    InvAlways(lim, steps);
    hide Exec, Inv, Intact, Canonical;
    var w := Exec(lim, steps);
    if AllCanonical(w.sent) && (w.holder.Some? ==> Canonical(w.holder.value.frame)) { IntactIf(w); }
  }

  /** A frame sent without magic or version ends what the reader takes, whatever is sent after it. */
  lemma ReaderStops(lim: Limits, steps: seq<Step>, k: nat)
    ensures var w := Exec(lim, steps);
            k < |w.sent| && AllCanonical(w.sent[..k]) && (w.sent[k].magic == 0 || w.sent[k].version == 0) ==>
              DecodeAll(w.bytes, lim).0 == w.sent[..k]
  {
    InvAlways(lim, steps);
    hide Exec, Canonical, DecodeAll, Decode, Encode, EncodeAll, Flatten;
    var w := Exec(lim, steps);
    if k < |w.sent| && AllCanonical(w.sent[..k]) && (w.sent[k].magic == 0 || w.sent[k].version == 0) {
      var part := if w.holder.None? then [] else w.bytes[|EncodeAll(w.sent)|..];
      assert w.bytes == EncodeAll(w.sent) + part by {
        if w.holder.Some? {
          Cut(w.bytes, Flatten(w.holder.value.chunks), EncodeAll(w.sent), Encode(w.holder.value.frame));
        } else {
          assert EncodeAll(w.sent) + [] == EncodeAll(w.sent);
        }
      }
      EncodeAllSplit(w.sent, k);
      var rest := EncodeAll(w.sent[k + 1..]) + part;
      assert w.bytes == EncodeAll(w.sent[..k]) + (Encode(w.sent[k]) + rest);
      ZeroIsWrittenButRefused(w.sent[k], lim, rest);
      RefusedIsAll(Encode(w.sent[k]) + rest, lim);
      DecodeAllConcat(w.sent[..k], lim, Encode(w.sent[k]) + rest);
    }
  }

  lemma RefusedIsAll(s: seq<byte>, lim: Limits)
    requires Decode(s, lim).Err?
    ensures DecodeAll(s, lim) == ([], s)
  {
    hide Decode;
  }

  lemma {:induction false} EncodeAllSplit(fs: seq<Frame>, k: nat)
    requires k < |fs|
    ensures EncodeAll(fs) == EncodeAll(fs[..k]) + (Encode(fs[k]) + EncodeAll(fs[k + 1..]))
    decreases k
  {
    hide Encode, EncodeAll;
    assert fs == [fs[0]] + fs[1..];
    EncodeAllFront(fs[0], fs[1..]);
    if k == 0 {
      NoFrames();
      assert fs[..0] == [];
    } else {
      EncodeAllSplit(fs[1..], k - 1);
      assert fs[1..][..k - 1] == fs[1..k] && fs[1..][k..] == fs[k + 1..];
      assert fs[..k] == [fs[0]] + fs[1..k];
      EncodeAllFront(fs[0], fs[1..k]);
    }
  }

  lemma IntactIf(w: Wire)
    requires Inv(w) && AllCanonical(w.sent) && (w.holder.Some? ==> Canonical(w.holder.value.frame))
    ensures Intact(w)
  {
    hide Encode, EncodeAll, DecodeAll, Decode, Flatten, Canonical, Validate;
    if w.holder.None? {
      WholeDecodes(w.lim, w.sent);
    } else {
      var f, done := w.holder.value.frame, EncodeAll(w.sent);
      Cut(w.bytes, Flatten(w.holder.value.chunks), done, Encode(f));
      var n := |w.bytes| - |done|;
      PartDecodes(w.lim, w.sent, f, n);
      assert n < |Encode(f)| ==> DecodeAll(w.bytes, w.lim) == (w.sent, Encode(f)[..n]);
    }
  }

  lemma Cut(bytes: seq<byte>, left: seq<byte>, done: seq<byte>, frame: seq<byte>)
    requires bytes + left == done + frame && |done| <= |bytes|
    ensures |bytes| - |done| <= |frame| && bytes == done + frame[..|bytes| - |done|]
  {
    assert |bytes| + |left| == |done| + |frame|;
    assert bytes == (bytes + left)[..|bytes|] == (done + frame)[..|bytes|];
  }

  lemma WholeDecodes(lim: Limits, sent: seq<Frame>)
    requires AllSendable(sent, lim)
    ensures DecodeAll(EncodeAll(sent), lim) == (sent, [])
  {
    hide Encode, EncodeAll, DecodeAll, Decode, AllSendable;
    NothingFromNothing(lim);
    DecodeAllEncodeAll(sent, lim, []);
    assert EncodeAll(sent) + [] == EncodeAll(sent);
  }

  /** All frames sent and a part of the next one. */
  lemma PartDecodes(lim: Limits, sent: seq<Frame>, f: Frame, n: nat)
    requires AllSendable(sent, lim) && Sendable(f, lim) && n <= |Encode(f)|
    ensures DecodeAll(EncodeAll(sent) + Encode(f)[..n], lim)
         == if n == |Encode(f)| then (sent + [f], []) else (sent, Encode(f)[..n])
  {
    hide Encode, EncodeAll, DecodeAll, Decode;
    if n == |Encode(f)| {
      assert Encode(f)[..n] == Encode(f);
      SentAppend(sent, f);
      WholeDecodes(lim, sent + [f]);
    } else {
      TruncatedFrameIsShort(f, lim, n);
      DecodeAllEncodeAll(sent, lim, Encode(f)[..n]);
    }
  }

  // ---------------------------------------------------------------- who may write

  /** Only the holder of the lock writes or unlocks; the lock is taken exactly when free, for a valid frame. */
  lemma OnlyTheHolderWrites(w: Wire, step: Step)
    ensures step.Lock? ==>
              var w' := Do(w, step);
              && w'.bytes == w.bytes && w'.sent == w.sent
              && (w' != w <==> w.holder.None? && Validate(step.f, w.lim).None?)
              && (w' != w ==> w'.holder.Some? && w'.holder.value.t == step.t && w'.holder.value.frame == step.f)
    ensures !step.Lock? && Do(w, step) != w ==> w.holder.Some? && w.holder.value.t == step.t
  {
  }

  /** The steps of a writer that is not disturbed, each write accepted whole. */
  function Writes(t: nat, chunks: seq<seq<byte>>): seq<Step> {
    if chunks == [] then [] else [Write(t, |chunks[0]|)] + Writes(t, chunks[1..])
  }

  function Whole(t: nat, f: Frame): seq<Step> {
    [Lock(t, f)] + Writes(t, Chunks(f)) + [Unlock(t)]
  }

  function Continue(w: Wire, steps: seq<Step>): Wire
    decreases |steps|
  {
    if steps == [] then w else Continue(Do(w, steps[0]), steps[1..])
  }

  lemma {:induction false} ContinueConcat(w: Wire, a: seq<Step>, b: seq<Step>)
    ensures Continue(w, a + b) == Continue(Continue(w, a), b)
    decreases |a|
  {
    hide Do;
    if a == [] {
      assert a + b == b;
    } else {
      assert (a + b)[1..] == a[1..] + b;
      ContinueConcat(Do(w, a[0]), a[1..], b);
    }
  }

  lemma {:induction false} WritesOut(w: Wire, t: nat, f: Frame, chunks: seq<seq<byte>>)
    requires w.holder == Some(Job(t, f, chunks))
    ensures Continue(w, Writes(t, chunks))
         == w.(bytes := w.bytes + Flatten(chunks), holder := Some(Job(t, f, [])))
    decreases |chunks|
  {
    if chunks == [] {
      assert w.bytes + [] == w.bytes;
    } else {
      var w' := w.(bytes := w.bytes + chunks[0], holder := Some(Job(t, f, chunks[1..])));
      assert chunks[0][..|chunks[0]|] == chunks[0];
      assert Do(w, Write(t, |chunks[0]|)) == w';
      assert Writes(t, chunks)[1..] == Writes(t, chunks[1..]);
      WritesOut(w', t, f, chunks[1..]);
      assert w.bytes + chunks[0] + Flatten(chunks[1..]) == w.bytes + (chunks[0] + Flatten(chunks[1..]));
    }
  }

  /** An undisturbed writer with a valid frame puts exactly the frame's encoding on the wire and gives the lock back. */
  lemma WholeIsSent(w: Wire, t: nat, f: Frame)
    requires w.holder.None? && Validate(f, w.lim).None?
    ensures Continue(w, Whole(t, f)) == w.(bytes := w.bytes + Encode(f), sent := w.sent + [f])
  {
    ThreeWritesAreOneFrame(f);
    var w1 := Do(w, Lock(t, f));
    assert w1 == w.(holder := Some(Job(t, f, Chunks(f))));
    WritesOut(w1, t, f, Chunks(f));
    hide Encode, Flatten, Chunks, Validate;
    var body := Writes(t, Chunks(f)) + [Unlock(t)];
    assert Whole(t, f) == [Lock(t, f)] + body;
    assert Whole(t, f)[1..] == body;
    ContinueConcat(w1, Writes(t, Chunks(f)), [Unlock(t)]);
    var w2 := Continue(w1, Writes(t, Chunks(f)));
    assert [Unlock(t)][1..] == [];
    assert Continue(w2, [Unlock(t)]) == Do(w2, Unlock(t));
  }
}
