/**
 Batch parsing: every complete and valid frame of a buffer is delivered, invalid
 ones are skipped by resynchronising, and an unconsumed tail is handed back to be fed
 again in front of the next chunk.
 */
module Batch {
  import opened Bytes
  import opened Frames

  /** What one pass over a buffer delivers, and the tail it hands back. */
  datatype Outcome = Outcome(messages: seq<bytes>, tail: bytes)

  function Run(buf: bytes): Outcome
    decreases |buf|
  {
    if Recognise(buf).Incomplete? then Outcome([], buf)
    else
      NextOffsetAdvances(buf);
      var n := NextOffset(buf);
      var rest := Run(buf[n..]);
      if Recognise(buf).Valid? then Outcome([buf[..n]] + rest.messages, rest.tail) else rest
  }

  function Join(first: Outcome, second: Outcome): Outcome {
    Outcome(first.messages + second.messages, second.tail)
  }

  function Concat(parts: seq<bytes>): bytes {
    if |parts| == 0 then [] else parts[0] + Concat(parts[1..])
  }

  /** One turn of the batch loop. */
  lemma RunStep(buf: bytes)
    ensures Recognise(buf).Incomplete? ==> Run(buf) == Outcome([], buf)
    ensures !Recognise(buf).Incomplete? ==> 1 <= NextOffset(buf) <= |buf|
    ensures Recognise(buf).Invalid? ==> Run(buf) == Run(buf[NextOffset(buf)..])
    ensures Recognise(buf).Valid? ==>
              Run(buf) == Join(Outcome([buf[..NextOffset(buf)]], []), Run(buf[NextOffset(buf)..]))
  {
    if !Recognise(buf).Incomplete? {
      NextOffsetAdvances(buf);
    }
    hide Recognise, NextOffset;
  }

  // ----- the loops

  /** `for_each_message`; the callback's calls are the returned list. */
  method ForEachMessage(buf: bytes) returns (messages: seq<bytes>, tail: bytes)
    ensures Outcome(messages, tail) == Run(buf)
  {
    hide Recognise, Run, NextOffset, Join;
    messages := [];
    var r := new MessageReader(buf);
    JoinNothing(Run(buf), []);
    while r.isComplete
      invariant r.Abstract() == Recognise(r.buffer)
      invariant Run(buf) == Join(Outcome(messages, []), Run(r.buffer))
      decreases |r.buffer|
    {
      RunStep(r.buffer);
      if r.isValid {
        ValidSize(r.buffer);
        JoinOneMore(messages, r.buffer[..r.checkSumAt + 7], Run(r.buffer[r.checkSumAt + 7..]));
        messages := messages + [r.buffer[..r.checkSumAt + 7]];
      }
      r := r.NextMessageReader();
    }
    RunStep(r.buffer);
    JoinTail(messages, r.buffer);
    tail := r.buffer;
  }

  lemma JoinOneMore(messages: seq<bytes>, m: bytes, later: Outcome)
    ensures Join(Outcome(messages, []), Join(Outcome([m], []), later)) == Join(Outcome(messages + [m], []), later)
  {
    assert messages + ([m] + later.messages) == messages + [m] + later.messages;
  }

  lemma JoinTail(messages: seq<bytes>, tail: bytes)
    ensures Join(Outcome(messages, []), Outcome([], tail)) == Outcome(messages, tail)
  {
  }

  lemma ValidSize(buf: bytes)
    requires Recognise(buf).Valid?
    ensures NextOffset(buf) == Recognise(buf).frame.checkSumAt + 7 <= |buf|
  {
    FrameFits(buf);
  }

  /** The buffer from the first frame on that is not invalid. */
  function SkipInvalid(buf: bytes): (r: bytes)
    ensures |r| <= |buf| && !Recognise(r).Invalid? && Run(r) == Run(buf)
    decreases |buf|
  {
    if Recognise(buf).Invalid? then
      RunStep(buf);
      SkipInvalid(buf[NextOffset(buf)..])
    else buf
  }

  /** The iterator of a message range: it stands on a valid frame, or on the remainder. */
  class RangeIterator {
    var r: MessageReader

    ghost predicate Valid()
      reads this, r
    {
      r.Abstract() == Recognise(r.buffer) && !r.Abstract().Invalid?
    }

    constructor (buf: bytes)
      ensures Valid() && fresh(r) && r.buffer == SkipInvalid(buf)
    {
      r := new MessageReader(buf);
      new;
      SkipInvalidFrames();
    }

    method SkipInvalidFrames()
      requires r.Abstract() == Recognise(r.buffer)
      modifies this
      ensures Valid() && (fresh(r) || r == old(r)) && r.buffer == SkipInvalid(old(r.buffer))
    {
      hide Recognise, NextOffset;
      while r.isComplete && !r.isValid
        invariant r.Abstract() == Recognise(r.buffer) && (fresh(r) || r == old(r))
        invariant SkipInvalid(r.buffer) == SkipInvalid(old(r.buffer))
        decreases |r.buffer|
      {
        r := r.NextMessageReader();
      }
    }

    /** Whether the iterator equals the range's end. */
    predicate AtEnd()
      reads this, r
    {
      !r.isComplete
    }

    /** `operator++` */
    method Increment()
      requires Valid() && !AtEnd()
      modifies this
      ensures Valid() && fresh(r)
      ensures 1 <= NextOffset(old(r.buffer)) <= |old(r.buffer)|
      ensures r.buffer == SkipInvalid(old(r.buffer)[NextOffset(old(r.buffer))..])
    {
      hide Recognise, NextOffset;
      r := r.NextMessageReader();
      SkipInvalidFrames();
    }
  }

  /** A loop over `messages(buf)`: the same messages and the same remainder as the callback form. */
  method CollectRange(buf: bytes) returns (messages: seq<bytes>, remainder: bytes)
    ensures Outcome(messages, remainder) == Run(buf)
  {
    hide Recognise, Run, NextOffset, SkipInvalid;
    messages := [];
    var it := new RangeIterator(buf);
    assert [] + Run(buf).messages == Run(buf).messages;
    while !it.AtEnd()
      invariant it.Valid() && fresh(it) && fresh(it.r)
      invariant Run(buf) == Join(Outcome(messages, []), Run(it.r.buffer))
      decreases |it.r.buffer|
    {
      RunStep(it.r.buffer);
      ValidSize(it.r.buffer);
      ghost var before, frame := messages, it.r.buffer[..it.r.checkSumAt + 7];
      ghost var rest := it.r.buffer[it.r.checkSumAt + 7..];
      messages := messages + [it.r.buffer[..it.r.checkSumAt + 7]];
      assert before + ([frame] + Run(rest).messages) == messages + Run(rest).messages;
      it.Increment();
    }
    RunStep(it.r.buffer);
    remainder := it.r.buffer;
    assert messages + [] == messages;
  }

  // ----- conservation

  datatype Step = Delivered(message: bytes) | Skipped(garbage: bytes) {
    function Content(): bytes {
      if Delivered? then message else garbage
    }
  }

  /** The whole frame and nothing else. */
  predicate IsMessage(m: bytes) {
    Recognise(m).Valid? && Recognise(m).frame.Size() == |m|
  }

  /**
   A complete account of a buffer: messages and skipped stretches in order, then the
   tail. A skipped stretch starts an invalid frame, holds no later `8=FIX`, and ends
   at one, or ten bytes before the end of the buffer.
   */
  ghost predicate Accounts(buf: bytes, steps: seq<Step>, tail: bytes)
    decreases |steps|
  {
    if |steps| == 0 then tail == buf && Recognise(buf).Incomplete?
    else
      var x := steps[0].Content();
      && 1 <= |x| && x <= buf
      && (match steps[0]
          case Delivered(m) => IsMessage(m)
          case Skipped(g) =>
            && Recognise(buf).Invalid? && |g| + 10 <= |buf|
            && (forall i | 1 <= i < |g| :: !StartsFix(buf, i))
            && (StartsFix(buf, |g|) || |g| + 10 == |buf|))
      && Accounts(buf[|x|..], steps[1..], tail)
  }

  function Steps(buf: bytes): seq<Step>
    decreases |buf|
  {
    if Recognise(buf).Incomplete? then []
    else
      NextOffsetAdvances(buf);
      var n := NextOffset(buf);
      [if Recognise(buf).Valid? then Delivered(buf[..n]) else Skipped(buf[..n])] + Steps(buf[n..])
  }

  function Contents(steps: seq<Step>): bytes {
    if |steps| == 0 then [] else steps[0].Content() + Contents(steps[1..])
  }

  function Deliveries(steps: seq<Step>): seq<bytes> {
    if |steps| == 0 then []
    else (if steps[0].Delivered? then [steps[0].message] else []) + Deliveries(steps[1..])
  }

  lemma StepsStep(buf: bytes)
    ensures Recognise(buf).Incomplete? ==> Steps(buf) == []
    ensures !Recognise(buf).Incomplete? ==>
              && 1 <= NextOffset(buf) <= |buf|
              && Steps(buf) == [if Recognise(buf).Valid? then Delivered(buf[..NextOffset(buf)])
                                else Skipped(buf[..NextOffset(buf)])] + Steps(buf[NextOffset(buf)..])
  {
    if !Recognise(buf).Incomplete? {
      NextOffsetAdvances(buf);
    }
    hide Recognise, NextOffset;
  }

  lemma DeliveredIsMessage(buf: bytes)
    requires Recognise(buf).Valid?
    ensures NextOffset(buf) <= |buf| && IsMessage(buf[..NextOffset(buf)])
  {
    FrameFits(buf);
    FrameIsMinimal(buf, NextOffset(buf));
    hide Recognise;
  }

  lemma SkippedStretch(buf: bytes)
    requires Recognise(buf).Invalid?
    ensures var n := NextOffset(buf);
            1 <= n && n + 10 <= |buf|
            && (forall i | 1 <= i < n :: !StartsFix(buf, i)) && (StartsFix(buf, n) || n + 10 == |buf|)
  {
    VerdictNeedsEleven(buf);
    hide Recognise;
  }

  /**
   One pass conserves the buffer: messages, skipped stretches and tail account for
   every byte, in order, and the messages of the account are those delivered.
   */
  lemma {:induction false} RunConserves(buf: bytes)
    ensures Accounts(buf, Steps(buf), Run(buf).tail)
    ensures Contents(Steps(buf)) + Run(buf).tail == buf
    ensures Deliveries(Steps(buf)) == Run(buf).messages
    decreases |buf|
  {
    hide Recognise, NextOffset, IsMessage;
    StepsStep(buf);
    RunStep(buf);
    if Recognise(buf).Incomplete? {
      assert [] + buf == buf;
    } else {
      var n := NextOffset(buf);
      var rest := buf[n..];
      RunConserves(rest);
      if Recognise(buf).Valid? {
        DeliveredIsMessage(buf);
      } else {
        SkippedStretch(buf);
      }
      var step := if Recognise(buf).Valid? then Delivered(buf[..n]) else Skipped(buf[..n]);
      hide Run, Steps;
      AccountStep(buf, n, step, Steps(rest), Run(rest).tail);
    }
  }

  /** One more step in front of an account. */
  lemma AccountStep(buf: bytes, n: nat, step: Step, later: seq<Step>, tail: bytes)
    requires n <= |buf| && step.Content() == buf[..n]
    ensures ([step] + later)[1..] == later
    ensures Contents(later) + tail == buf[n..] ==> Contents([step] + later) + tail == buf
    ensures Deliveries([step] + later) == (if step.Delivered? then [step.message] else []) + Deliveries(later)
    ensures buf[..n] <= buf
  {
    assert ([step] + later)[1..] == later;
    if Contents(later) + tail == buf[n..] {
      assert buf[..n] + Contents(later) + tail == buf[..n] + (Contents(later) + tail) == buf;
    }
  }

  /** There is only one such account. */
  lemma {:induction false} AccountIsUnique(buf: bytes, steps: seq<Step>, tail: bytes)
    requires Accounts(buf, steps, tail)
    ensures steps == Steps(buf) && tail == Run(buf).tail
    decreases |steps|
  {
    hide Recognise, NextOffset;
    StepsStep(buf);
    RunStep(buf);
    if |steps| > 0 {
      var x := steps[0].Content();
      if steps[0].Delivered? {
        assert buf == x + buf[|x|..];
        VerdictStable(x, buf[|x|..]);
        ValidSize(buf);
      } else {
        SkippedStretch(buf);
      }
      assert |x| == NextOffset(buf);
      assert buf[..|x|] == x;
      AccountIsUnique(buf[|x|..], steps[1..], tail);
      assert steps == [steps[0]] + steps[1..];
    }
  }

  /** No byte still to come can turn a skipped position into the start of `8=FIX`. */
  lemma SkippedForGood(buf: bytes, ext: bytes, i: nat)
    requires Recognise(buf).Invalid? && 1 <= i < NextOffset(buf)
    ensures !StartsFix(buf + ext, i)
  {
    SkippedStretch(buf);
    assert !StartsFix(buf, i);
    assert (buf + ext)[i..i + 5] == buf[i..i + 5];
  }

  /** The tail starts an incomplete frame. */
  lemma {:induction false} TailIncomplete(buf: bytes)
    ensures Recognise(Run(buf).tail).Incomplete? && |Run(buf).tail| <= |buf|
    decreases |buf|
  {
    hide Recognise, NextOffset;
    RunStep(buf);
    if !Recognise(buf).Incomplete? {
      TailIncomplete(buf[NextOffset(buf)..]);
    }
  }

  // ----- chunks

  /** A resync of this pass ran off the end of the buffer: the tail is just its last ten bytes. */
  predicate FellOff(buf: bytes)
    decreases |buf|
  {
    if Recognise(buf).Incomplete? then false
    else
      NextOffsetAdvances(buf);
      var n := NextOffset(buf);
      (Recognise(buf).Invalid? && n + 10 == |buf|) || FellOff(buf[n..])
  }

  lemma FellOffStep(buf: bytes)
    ensures Recognise(buf).Incomplete? ==> !FellOff(buf)
    ensures !Recognise(buf).Incomplete? ==>
              && 1 <= NextOffset(buf) <= |buf|
              && (FellOff(buf) <==> (Recognise(buf).Invalid? && NextOffset(buf) + 10 == |buf|)
                                    || FellOff(buf[NextOffset(buf)..]))
  {
    if !Recognise(buf).Incomplete? {
      NextOffsetAdvances(buf);
    }
    hide Recognise, NextOffset;
  }

  /** What makes re-feeding the tail in front of `b` the same as having had `b` all along. */
  predicate ChunkSafe(a: bytes, b: bytes) {
    !FellOff(a) || |b| == 0 || StartsFix(Run(a).tail, 0) || Recognise(Run(a).tail + b).Invalid?
  }

  /** One byte of a resync scan. */
  lemma ResyncStep(buf: bytes, from: nat)
    requires |buf| >= 10
    ensures from + 10 >= |buf| ==> ResyncFrom(buf, from) == from
    ensures from + 10 < |buf| ==>
              ResyncFrom(buf, from) == if buf[from..from + 5] == FIX_START then from else ResyncFrom(buf, from + 1)
  {
  }

  /** Bytes behind a resync that found its `8=FIX` do not matter to it. */
  lemma {:induction false} ResyncStable(a: bytes, b: bytes, from: nat)
    requires |a| >= 10 && from + 10 <= |a|
    ensures ResyncFrom(a, from) + 10 < |a| ==> ResyncFrom(a + b, from) == ResyncFrom(a, from)
    ensures ResyncFrom(a, from) + 10 == |a| ==>
              ResyncFrom(a + b, from) == ResyncFrom(a + b, |a| - 10)
    decreases |a| - from
  {
    hide ResyncFrom;
    ResyncStep(a, from);
    ResyncStep(a + b, from);
    if from + 10 < |a| {
      assert (a + b)[from..from + 5] == a[from..from + 5];
      if a[from..from + 5] != FIX_START {
        ResyncStable(a, b, from + 1);
      }
    }
  }

  /** A scan from `n` on is a scan of the buffer cut there. */
  lemma {:induction false} ResyncShift(buf: bytes, n: nat, from: nat)
    requires n <= from && from + 10 <= |buf|
    ensures ResyncFrom(buf, from) == n + ResyncFrom(buf[n..], from - n)
    decreases |buf| - from
  {
    hide ResyncFrom;
    ResyncStep(buf, from);
    ResyncStep(buf[n..], from - n);
    assert buf[n..][from - n..from - n + 5] == buf[from..from + 5];
    if from + 10 < |buf| && buf[from..from + 5] != FIX_START {
      ResyncShift(buf, n, from + 1);
    }
  }

  /** Once on an `8=FIX`, or on a ten-byte rest, the first message to come starts with `8=FIX`. */
  lemma {:induction false} FirstMessageStartsFix(buf: bytes)
    requires StartsFix(buf, 0) || |buf| <= 10
    ensures |Run(buf).messages| == 0 || StartsFix(Run(buf).messages[0], 0)
    decreases |buf|
  {
    hide Recognise, NextOffset;
    RunStep(buf);
    VerdictNeedsEleven(buf);
    if Recognise(buf).Valid? {
      FrameFits(buf);
      ValidSize(buf);
      assert buf[..NextOffset(buf)][0..5] == buf[0..5];
    } else if Recognise(buf).Invalid? {
      SkippedStretch(buf);
      var n := NextOffset(buf);
      assert StartsFix(buf, n) ==> buf[n..][0..5] == buf[n..n + 5];
      FirstMessageStartsFix(buf[n..]);
    }
  }

  /** A pass that fell off: whether the ten-byte rest may be fed again in front of `b`. */
  lemma RefeedRest(rest: bytes, b: bytes)
    requires |rest| == 10
    ensures var whole := rest + b;
            Run(whole[ResyncFrom(whole, 0)..]) == Run(whole)
            <==> |b| == 0 || StartsFix(rest, 0) || Recognise(whole).Invalid?
  {
    hide Recognise;
    var whole := rest + b;
    assert whole[0..5] == rest[0..5];
    assert whole[0..] == whole;
    if |b| == 0 || StartsFix(rest, 0) {
      assert ResyncFrom(whole, 0) == 0;
    } else {
      var r := ResyncFrom(whole, 1);
      assert ResyncFrom(whole, 0) == r;
      assert r + 10 == |whole| || StartsFix(whole, r);
      assert Recognise(whole).Invalid? ==> NextOffset(whole) == r;
      hide ResyncFrom, NextOffset;
      RunStep(whole);
      if !Recognise(whole).Invalid? {
        NotTheSameRun(whole, r);
      }
    }
  }

  /** Starting later, at an `8=FIX` or in the last ten bytes, gives another outcome. */
  lemma NotTheSameRun(whole: bytes, r: nat)
    requires 1 <= r <= |whole| && !Recognise(whole).Invalid? && |whole| >= 10 && !StartsFix(whole, 0)
    requires r + 10 == |whole| || StartsFix(whole, r)
    ensures Run(whole[r..]) != Run(whole)
  {
    hide Recognise, NextOffset;
    var skipped := whole[r..];
    RunStep(whole);
    TailIncomplete(skipped);
    if Recognise(whole).Valid? {
      ValidSize(whole);
      FrameFits(whole);
      var first := whole[..NextOffset(whole)];
      assert Run(whole).messages[0] == first;
      assert first[0..5] == whole[0..5];
      assert StartsFix(whole, r) ==> skipped[0..5] == whole[r..r + 5];
      FirstMessageStartsFix(skipped);
    }
  }

  lemma JoinCons(m: bytes, x: Outcome, y: Outcome)
    ensures Join(Outcome([m], []), x) == Join(Outcome([m], []), y) <==> x == y
    ensures Join(Outcome([m], []), x).tail == x.tail
  {
    if Join(Outcome([m], []), x) == Join(Outcome([m], []), y) {
      assert ([m] + x.messages)[1..] == x.messages && ([m] + y.messages)[1..] == y.messages;
    }
  }

  lemma JoinAssociative(x: Outcome, y: Outcome, z: Outcome)
    ensures Join(Join(x, y), z) == Join(x, Join(y, z))
  {
    assert x.messages + y.messages + z.messages == x.messages + (y.messages + z.messages);
  }

  lemma JoinNothing(x: Outcome, tail: bytes)
    ensures Join(Outcome([], tail), x) == x
  {
  }

  /**
   Cutting a buffer in two and re-feeding the tail gives the same messages and the
   same tail as one pass, exactly when the cut is safe: no resync of the first pass
   ran off the end, or nothing follows, or the ten-byte tail it left starts with
   `8=FIX` or starts an invalid frame when the second chunk is behind it.
   */
  lemma {:induction false} ChunkingExact(a: bytes, b: bytes)
    ensures Run(a + b) == Join(Run(a), Run(Run(a).tail + b)) <==> ChunkSafe(a, b)
    decreases |a|
  {
    hide Recognise, NextOffset;
    RunStep(a);
    FellOffStep(a);
    if Recognise(a).Incomplete? {
      assert [] + Run(a + b).messages == Run(a + b).messages;
    } else {
      var n := NextOffset(a);
      VerdictStable(a, b);
      RunStep(a + b);
      if Recognise(a).Valid? {
        ChunkAfterMessage(a, b);
        ChunkingExact(a[n..], b);
      } else {
        GarbageOffsets(a, b);
        if n + 10 < |a| {
          ChunkAfterGarbage(a, b);
          ChunkingExact(a[n..], b);
        } else {
          ChunkAfterLastGarbage(a, b);
        }
      }
    }
  }

  lemma ChunkAfterMessage(a: bytes, b: bytes)
    requires Recognise(a).Valid? && Recognise(a + b) == Recognise(a)
    ensures var n := NextOffset(a);
            n <= |a| && ChunkSafe(a, b) == ChunkSafe(a[n..], b)
            && (Run(a + b) == Join(Run(a), Run(Run(a).tail + b))
                <==> Run(a[n..] + b) == Join(Run(a[n..]), Run(Run(a[n..]).tail + b)))
  {
    hide *;
    ValidSize(a);
    ValidSize(a + b);
    RunStep(a);
    RunStep(a + b);
    var n := NextOffset(a);
    var m, rest := a[..n], a[n..];
    assert (a + b)[n..] == rest + b && (a + b)[..n] == m;
    SafeAfterMessage(a, b);
    TailOf(m, Run(rest));
    var later := Run(Run(rest).tail + b);
    JoinAssociative(Outcome([m], []), Run(rest), later);
    JoinCons(m, Run(rest + b), Join(Run(rest), later));
  }

  lemma TailOf(m: bytes, later: Outcome)
    ensures Join(Outcome([m], []), later).tail == later.tail
  {
  }

  lemma SafeAfterMessage(a: bytes, b: bytes)
    requires Recognise(a).Valid?
    ensures NextOffset(a) <= |a| && ChunkSafe(a, b) == ChunkSafe(a[NextOffset(a)..], b)
  {
    hide Recognise, NextOffset, Run, FellOff, StartsFix;
    RunStep(a);
    FellOffStep(a);
  }

  /** Where the resync of the first chunk goes, alone and with the second chunk behind it. */
  lemma GarbageOffsets(a: bytes, b: bytes)
    requires Recognise(a).Invalid? && Recognise(a + b) == Recognise(a)
    ensures var n := NextOffset(a);
            && 1 <= n && n + 10 <= |a|
            && (n + 10 < |a| ==> NextOffset(a + b) == n)
            && (n + 10 == |a| ==> NextOffsetIs(a + b, n))
  {
    SkippedStretch(a);
    SkippedStretch(a + b);
    hide Recognise;
    ResyncStable(a, b, 1);
    hide ResyncFrom;
  }

  lemma ChunkAfterGarbage(a: bytes, b: bytes)
    requires Recognise(a).Invalid? && Recognise(a + b) == Recognise(a)
    requires NextOffset(a) + 10 < |a|
    ensures var n := NextOffset(a);
            && 1 <= n <= |a| && ChunkSafe(a, b) == ChunkSafe(a[n..], b)
            && Run(a + b) == Run(a[n..] + b) && Run(a) == Run(a[n..])
  {
    hide Recognise;
    GarbageOffsets(a, b);
    hide NextOffset;
    RunStep(a);
    RunStep(a + b);
    FellOffStep(a);
    hide Run, FellOff;
    assert (a + b)[NextOffset(a)..] == a[NextOffset(a)..] + b;
  }

  lemma ChunkAfterLastGarbage(a: bytes, b: bytes)
    requires Recognise(a).Invalid? && Recognise(a + b) == Recognise(a)
    requires NextOffset(a) + 10 == |a|
    ensures Run(a + b) == Join(Run(a), Run(Run(a).tail + b)) <==> ChunkSafe(a, b)
  {
    hide Recognise;
    GarbageOffsets(a, b);
    hide NextOffset;
    RunStep(a);
    FellOffStep(a);
    hide Run, FellOff, NextOffsetIs, Join;
    GarbageToTheEnd(a, b, NextOffset(a));
  }

  lemma GarbageToTheEnd(a: bytes, b: bytes, n: nat)
    requires n + 10 == |a| && NextOffsetIs(a + b, n)
    requires Run(a) == Run(a[n..])
    ensures Run(a).tail == a[n..]
    ensures Run(a + b) == Join(Run(a), Run(Run(a).tail + b))
            <==> |b| == 0 || StartsFix(a[n..], 0) || Recognise(a[n..] + b).Invalid?
  {
    hide *;
    var rest := a[n..];
    VerdictNeedsEleven(rest);
    RunStep(rest);
    RunFromThere(a, b, n);
    RefeedRest(rest, b);
    JoinNothing(Run(rest + b), rest);
  }

  /** The resync of the whole goes where one from the ten-byte rest goes. */
  lemma RunFromThere(a: bytes, b: bytes, n: nat)
    requires n + 10 == |a| && NextOffsetIs(a + b, n)
    ensures var whole := a[n..] + b;
            ResyncFrom(whole, 0) <= |whole| && Run(a + b) == Run(whole[ResyncFrom(whole, 0)..])
  {
    hide Recognise, Run, ResyncFrom, NextOffset;
    var whole := a[n..] + b;
    RunStep(a + b);
    assert (a + b)[n..] == whole;
    ResyncShift(a + b, n, n);
    var r := ResyncFrom(whole, 0);
    assert (a + b)[n + r..] == whole[r..];
  }

  /** The resync of an invalid buffer goes where a scan from `n` goes. */
  predicate NextOffsetIs(buf: bytes, n: nat) {
    |buf| >= 10 && Recognise(buf).Invalid? && NextOffset(buf) == ResyncFrom(buf, n)
  }

  /**
   An unsafe cut: behind fourteen bytes of garbage, of which the pass keeps the last
   ten, one more garbage byte is not skipped but waited upon.
   */
  lemma UnsafeCut()
    ensures var a, b := seq(14, _ => 0x78 as byte), [0x78 as byte];
            !ChunkSafe(a, b) && Run(a + b) != Join(Run(a), Run(Run(a).tail + b))
  {
    var a, b := seq(14, _ => 0x78 as byte), [0x78 as byte];
    assert PrefixScan(a, 12) == Bad && PrefixScan(a, 9) == Bad by {
      assert PrefixScan(a, 11) == Bad;
    }
    SkippedStretch(a);
    RunStep(a);
    FellOffStep(a);
    var rest := a[4..];
    forall i | 0 <= i <= 9
      ensures !StartsFix(a, i)
    {
      assert a[i..i + 5][0] == a[i];
    }
    assert NextOffset(a) == 4 by {
      assert ResyncFrom(a, 3) == 4;
      assert ResyncFrom(a, 1) == 4;
    }
    VerdictNeedsEleven(rest);
    RunStep(rest);
    assert PrefixScan(rest + b, 11) == More;
    assert PrefixScan(rest + b, 9) == More;
    hide Run, FellOff, Recognise;
    ChunkingExact(a, b);
  }

  /** Feeding chunks one after the other, each behind the tail the pass before left. */
  function Feed(tail: bytes, chunks: seq<bytes>): Outcome
    decreases |chunks|
  {
    if |chunks| == 0 then Outcome([], tail)
    else
      var pass := Run(tail + chunks[0]);
      Join(pass, Feed(pass.tail, chunks[1..]))
  }

  /** One more chunk at the end of a feed. */
  lemma {:induction false} FeedOneMore(tail: bytes, chunks: seq<bytes>, chunk: bytes)
    ensures Feed(tail, chunks + [chunk]) == Join(Feed(tail, chunks), Run(Feed(tail, chunks).tail + chunk))
    decreases |chunks|
  {
    hide Run;
    if |chunks| == 0 {
      var pass := Run(tail + chunk);
      assert chunks + [chunk] == [chunk] && [chunk][1..] == [];
      assert Join(pass, Outcome([], pass.tail)) == pass && Join(Outcome([], tail), pass) == pass;
    } else {
      var pass := Run(tail + chunks[0]);
      FeedOneMore(pass.tail, chunks[1..], chunk);
      assert (chunks + [chunk])[1..] == chunks[1..] + [chunk];
      JoinAssociative(pass, Feed(pass.tail, chunks[1..]), Run(Feed(pass.tail, chunks[1..]).tail + chunk));
    }
  }

  lemma {:induction false} ConcatOneMore(chunks: seq<bytes>, chunk: bytes)
    ensures Concat(chunks + [chunk]) == Concat(chunks) + chunk
  {
    if |chunks| > 0 {
      ConcatOneMore(chunks[1..], chunk);
      assert (chunks + [chunk])[1..] == chunks[1..] + [chunk];
    }
  }

  /**
   The re-feed loop over an input, through a buffer of fixed size: each round reads as
   much as fits, at most `chunkSize`, behind the tail the round before left, and nothing
   read ends the loop. That is the end of the input, or a buffer that the tail fills.
   */
  method FeedChunks(input: bytes, capacity: nat, chunkSize: nat)
    returns (messages: seq<bytes>, tail: bytes, ghost chunks: seq<bytes>)
    requires chunkSize > 0
    ensures Outcome(messages, tail) == Feed([], chunks)
    ensures Concat(chunks) <= input && |tail| <= capacity
    ensures Concat(chunks) == input || |tail| == capacity
    ensures forall i | 0 <= i < |messages| :: |messages[i]| <= capacity
  {
    hide Run, Recognise, Feed;
    messages, tail, chunks := [], [], [];
    var at := 0;
    FeedNothing();
    while true
      invariant 0 <= at <= |input| && |tail| <= capacity
      invariant Concat(chunks) == input[..at]
      invariant Outcome(messages, tail) == Feed([], chunks)
      invariant forall i | 0 <= i < |messages| :: |messages[i]| <= capacity
      decreases |input| - at
    {
      var fred := if capacity - |tail| < chunkSize then capacity - |tail| else chunkSize;
      fred := if |input| - at < fred then |input| - at else fred;
      if fred == 0 {
        break;
      }
      var chunk := input[at..at + fred];
      FeedOneMore([], chunks, chunk);
      ConcatOneMore(chunks, chunk);
      assert input[..at + fred] == input[..at] + chunk;
      TailIncomplete(tail + chunk);
      MessagesFit(tail + chunk);
      var delivered, rest := ForEachMessage(tail + chunk);
      messages, tail, chunks, at := messages + delivered, rest, chunks + [chunk], at + fred;
    }
    assert input[..|input|] == input;
  }

  /** What a pass delivers comes out of its buffer. */
  lemma {:induction false} MessagesFit(buf: bytes)
    ensures forall i | 0 <= i < |Run(buf).messages| :: |Run(buf).messages[i]| <= |buf|
    decreases |buf|
  {
    hide Recognise, NextOffset, Run;
    RunStep(buf);
    if !Recognise(buf).Incomplete? {
      MessagesFit(buf[NextOffset(buf)..]);
    }
  }

  lemma FeedNothing()
    ensures Feed([], []) == Outcome([], []) && Concat([]) == []
  {
  }

  /** No pass of the feed leaves a tail that is unsafe to put in front of what is still to come. */
  predicate FeedSafe(tail: bytes, chunks: seq<bytes>)
    decreases |chunks|
  {
    |chunks| == 0
    || (ChunkSafe(tail + chunks[0], Concat(chunks[1..])) && FeedSafe(Run(tail + chunks[0]).tail, chunks[1..]))
  }

  /** Any number of safe cuts, at any places, change nothing. */
  lemma {:induction false} FeedIsOnePass(tail: bytes, chunks: seq<bytes>)
    requires Recognise(tail).Incomplete? && FeedSafe(tail, chunks)
    ensures Feed(tail, chunks) == Run(tail + Concat(chunks))
    decreases |chunks|
  {
    hide Recognise, Run, ChunkSafe;
    if |chunks| == 0 {
      assert tail + [] == tail;
      RunStep(tail);
    } else {
      var first, later := tail + chunks[0], Concat(chunks[1..]);
      ChunkingExact(first, later);
      assert first + later == tail + Concat(chunks);
      TailIncomplete(first);
      FeedIsOnePass(Run(first).tail, chunks[1..]);
    }
  }

  ghost predicate IsStream(frames: seq<bytes>) {
    forall i | 0 <= i < |frames| :: IsMessage(frames[i])
  }

  /** A pass over a stretch of a stream of valid frames delivers the frames that end in it. */
  lemma {:induction false} StreamPass(frames: seq<bytes>, x: bytes, y: bytes) returns (k: nat)
    requires IsStream(frames) && x + y == Concat(frames)
    ensures k <= |frames| && Run(x).messages == frames[..k] && Run(x).tail + y == Concat(frames[k..])
    decreases |frames|
  {
    hide Recognise, NextOffset;
    RunStep(x);
    k := 0;
    if |frames| == 0 {
      VerdictNeedsEleven(x);
    } else {
      var f, later := frames[0], frames[1..];
      StreamHead(f, Concat(later), x);
      if |x| >= |f| {
        var rest := x[|f|..];
        assert rest + y == Concat(later) by {
          assert (x + y)[|f|..] == rest + y && (f + Concat(later))[|f|..] == Concat(later);
        }
        assert IsStream(later);
        k := StreamPass(later, rest, y);
        assert x[..|f|] == f by {
          assert (x + y)[..|f|] == x[..|f|] && (f + Concat(later))[..|f|] == f;
        }
        assert frames[..k + 1] == [f] + later[..k];
        assert frames[k + 1..] == later[k..];
        k := k + 1;
      }
    }
  }

  /** A stretch of a stream that begins at a frame is incomplete, or starts with just that frame. */
  lemma StreamHead(f: bytes, later: bytes, x: bytes)
    requires IsMessage(f) && x <= f + later
    ensures |x| < |f| ==> Recognise(x).Incomplete?
    ensures |x| >= |f| ==> Recognise(x).Valid? && NextOffset(x) == |f|
  {
    if |x| < |f| {
      FrameIsMinimal(f, |x|);
      assert f[..|x|] == x;
    } else {
      VerdictStable(f, x[|f|..]);
      assert f + x[|f|..] == x;
    }
    hide Recognise;
  }

  /**
   Chunking a stream of valid frames does not matter: however it is cut, the feed
   delivers exactly its frames and leaves no tail.
   */
  lemma {:induction false} StreamFeed(frames: seq<bytes>, tail: bytes, chunks: seq<bytes>)
    requires IsStream(frames) && Recognise(tail).Incomplete? && tail + Concat(chunks) == Concat(frames)
    ensures Feed(tail, chunks) == Outcome(frames, [])
    decreases |chunks|
  {
    hide Recognise, Run, IsMessage;
    if |chunks| == 0 {
      if |frames| > 0 {
        StreamHead(frames[0], Concat(frames[1..]), tail);
      }
    } else {
      var x, y := tail + chunks[0], Concat(chunks[1..]);
      assert x + y == tail + Concat(chunks);
      var k := StreamPass(frames, x, y);
      TailIncomplete(x);
      assert IsStream(frames[k..]);
      StreamFeed(frames[k..], Run(x).tail, chunks[1..]);
      assert frames[..k] + frames[k..] == frames;
    }
  }

  /**
   Over a stream of valid frames the loop delivers exactly its frames if and only if none
   of them is longer than the buffer; it then reads everything and keeps no tail.
   */
  lemma LoopDelivers(frames: seq<bytes>, capacity: nat, chunks: seq<bytes>, messages: seq<bytes>, tail: bytes)
    requires IsStream(frames)
    requires Outcome(messages, tail) == Feed([], chunks)
    requires Concat(chunks) <= Concat(frames)
    requires Concat(chunks) == Concat(frames) || |tail| == capacity
    requires forall i | 0 <= i < |messages| :: |messages[i]| <= capacity
    ensures messages == frames <==> forall i | 0 <= i < |frames| :: |frames[i]| <= capacity
    ensures messages == frames ==> tail == []
  {
    hide Recognise, Run, IsMessage, Feed, Concat;
    VerdictNeedsEleven([]);
    var y := Concat(frames)[|Concat(chunks)|..];
    assert [] + Concat(chunks) + y == Concat(frames);
    var k := FeedPrefix(frames, [], chunks, y);
    assert tail + y == Concat(frames[k..]);
    if k < |frames| {
      ConcatFrom(frames, k);
      TailIsShort(frames[k], Concat(frames[k + 1..]), tail);
      assert |messages| == k < |frames|;
    } else {
      assert frames[..k] == frames;
      ConcatNothing(frames[k..]);
    }
  }

  lemma ConcatFrom(frames: seq<bytes>, k: nat)
    requires k < |frames|
    ensures Concat(frames[k..]) == frames[k] + Concat(frames[k + 1..])
  {
    assert frames[k..][1..] == frames[k + 1..];
  }

  lemma ConcatNothing(frames: seq<bytes>)
    requires |frames| == 0
    ensures Concat(frames) == []
  {
  }

  /** A feed of the first bytes of a stream delivers its first frames, and is left inside the next. */
  lemma {:induction false} FeedPrefix(frames: seq<bytes>, tail: bytes, chunks: seq<bytes>, y: bytes) returns (k: nat)
    requires IsStream(frames) && Recognise(tail).Incomplete? && tail + Concat(chunks) + y == Concat(frames)
    ensures k <= |frames| && Feed(tail, chunks).messages == frames[..k]
    ensures Feed(tail, chunks).tail + y == Concat(frames[k..]) && Recognise(Feed(tail, chunks).tail).Incomplete?
    decreases |chunks|
  {
    if |chunks| == 0 {
      hide Recognise, IsMessage;
      assert tail + [] + y == tail + y;
      k := 0;
    } else {
      hide *;
      var x, later := tail + chunks[0], Concat(chunks[1..]);
      FeedStep(tail, chunks);
      Regroup(tail, chunks[0], later, y);
      var j := StreamPass(frames, x, later + y);
      var rest := Run(x).tail;
      TailIncomplete(x);
      StreamFrom(frames, j);
      Regroup([], rest, later, y);
      k := FeedPrefix(frames[j..], rest, chunks[1..], y);
      JoinParts(Run(x), Feed(rest, chunks[1..]));
      FramesCut(frames, j, k);
      k := j + k;
    }
  }

  lemma Regroup(a: bytes, b: bytes, c: bytes, d: bytes)
    ensures a + (b + c) + d == (a + b) + (c + d) && [] + b + (c + d) == b + (c + d) && b + c + d == b + (c + d)
  {
  }

  lemma JoinParts(x: Outcome, y: Outcome)
    ensures Join(x, y).messages == x.messages + y.messages && Join(x, y).tail == y.tail
  {
  }

  lemma FeedStep(tail: bytes, chunks: seq<bytes>)
    requires |chunks| > 0
    ensures var pass := Run(tail + chunks[0]); Feed(tail, chunks) == Join(pass, Feed(pass.tail, chunks[1..]))
    ensures Concat(chunks) == chunks[0] + Concat(chunks[1..])
  {
    hide Run;
  }

  lemma StreamFrom(frames: seq<bytes>, j: nat)
    requires IsStream(frames) && j <= |frames|
    ensures IsStream(frames[j..])
  {
    hide IsMessage;
  }

  lemma FramesCut(frames: seq<bytes>, j: nat, k: nat)
    requires j + k <= |frames|
    ensures frames[..j] + frames[j..][..k] == frames[..j + k] && frames[j..][k..] == frames[j + k..]
  {
  }

  /** An incomplete start of a stream is shorter than its first frame. */
  lemma TailIsShort(f: bytes, later: bytes, tail: bytes)
    requires IsMessage(f) && tail <= f + later && Recognise(tail).Incomplete?
    ensures |tail| < |f|
  {
    StreamHead(f, later, tail);
  }

  /** A stream in one pass. */
  lemma StreamOnePass(frames: seq<bytes>)
    requires IsStream(frames)
    ensures Run(Concat(frames)) == Outcome(frames, [])
  {
    hide Recognise, Run, IsMessage;
    var x := Concat(frames);
    assert x + [] == x && [] + Concat([x]) == x by { assert Concat([x]) == x + Concat([x][1..]); }
    VerdictNeedsEleven([]);
    StreamFeed(frames, [], [x]);
    var pass := Run([] + x);
    assert [] + x == x && Feed([], [x]) == Join(pass, Feed(pass.tail, [x][1..]));
    assert Feed(pass.tail, [x][1..]) == Outcome([], pass.tail);
  }

  /**
   Resynchronising recovers: garbage in front of a stream whose first frame starts with
   `8=FIX` is skipped and every frame of the stream is delivered, if the garbage makes an
   invalid frame and no `8=FIX` starts in it.
   */
  lemma Recovers(garbage: bytes, frames: seq<bytes>)
    requires IsStream(frames) && |frames| > 0 && StartsFix(frames[0], 0) && |garbage| > 0
    requires Recognise(garbage + Concat(frames)).Invalid?
    requires forall i | 1 <= i < |garbage| :: !StartsFix(garbage + Concat(frames), i)
    ensures Run(garbage + Concat(frames)) == Outcome(frames, [])
  {
    hide *;
    var stream := Concat(frames);
    var whole := garbage + stream;
    StreamStart(frames);
    ShiftedStart(garbage, stream);
    SkippedStretch(whole);
    RunStep(whole);
    assert whole[|garbage|..] == stream;
    StreamOnePass(frames);
  }

  lemma StreamStart(frames: seq<bytes>)
    requires IsStream(frames) && |frames| > 0 && StartsFix(frames[0], 0)
    ensures |Concat(frames)| >= 24 && StartsFix(Concat(frames), 0)
  {
    FrameFits(frames[0]);
    hide Recognise;
    assert Concat(frames)[..5] == frames[0][..5];
  }

  lemma ShiftedStart(garbage: bytes, stream: bytes)
    requires StartsFix(stream, 0)
    ensures StartsFix(garbage + stream, |garbage|)
  {
    assert (garbage + stream)[|garbage|..|garbage| + 5] == stream[..5];
  }

  /** The same in the middle of a stream: the frames before and behind the garbage are delivered. */
  lemma {:induction false} RecoversWithin(before: seq<bytes>, garbage: bytes, frames: seq<bytes>)
    requires IsStream(before) && IsStream(frames) && |frames| > 0 && StartsFix(frames[0], 0) && |garbage| > 0
    requires Recognise(garbage + Concat(frames)).Invalid?
    requires forall i | 1 <= i < |garbage| :: !StartsFix(garbage + Concat(frames), i)
    ensures Run(Concat(before) + (garbage + Concat(frames))) == Outcome(before + frames, [])
    decreases |before|
  {
    hide Recognise, Run, IsMessage, StartsFix, IsStream, Concat, Join;
    var rest := garbage + Concat(frames);
    if |before| == 0 {
      ConcatNothing(before);
      assert [] + rest == rest && before + frames == frames;
      Recovers(garbage, frames);
    } else {
      var f, later := before[0], Concat(before[1..]) + rest;
      ConcatFrom(before, 0);
      assert before[0..] == before;
      assert (f + Concat(before[1..])) + rest == f + later;
      FirstOfStream(before);
      AfterFrame(f, later);
      StreamFrom(before, 1);
      RecoversWithin(before[1..], garbage, frames);
      JoinFirst(f, before[1..] + frames);
      assert [f] + (before[1..] + frames) == before + frames;
    }
  }

  lemma FirstOfStream(frames: seq<bytes>)
    requires IsStream(frames) && |frames| > 0
    ensures IsMessage(frames[0])
  {
  }

  lemma JoinFirst(f: bytes, messages: seq<bytes>)
    ensures Join(Outcome([f], []), Outcome(messages, [])) == Outcome([f] + messages, [])
  {
  }

  /** A pass over a frame with something behind it delivers the frame first. */
  lemma AfterFrame(f: bytes, later: bytes)
    requires IsMessage(f)
    ensures Run(f + later) == Join(Outcome([f], []), Run(later))
  {
    hide Recognise, Run, IsMessage, Join, NextOffset;
    StreamHead(f, later, f + later);
    RunStep(f + later);
    assert (f + later)[..|f|] == f && (f + later)[|f|..] == later;
  }
}
