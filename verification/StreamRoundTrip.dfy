/**
 Streams of written messages: with garbage in front of them, or cut into chunks, they are
 delivered as they were written.
 */
module StreamRoundTrip {
  import opened Bytes
  import opened MessageModel
  import opened Frames
  import opened RoundTrip
  import Batch

  /** A header-first run with MsgType first, of a BeginString that starts with `FIX`. */
  datatype Sent = Sent(beginString: bytes, msgType: bytes, fields: seq<Push>, checksummed: bool)

  ghost predicate IsSent(sent: Sent, m: bytes) {
    && Written(m, sent.beginString, sent.msgType, sent.fields, sent.checksummed)
    && 7 <= |sent.beginString| <= 10
    && sent.beginString[0] == 0x46 && sent.beginString[1] == 0x49 && sent.beginString[2] == 0x58
  }

  ghost predicate AreSent(sent: seq<Sent>, messages: seq<bytes>) {
    |sent| == |messages| && forall i | 0 <= i < |sent| :: IsSent(sent[i], messages[i])
  }

  /** A written message opens with `8=` and its BeginString. */
  lemma WrittenOpens(m: bytes, v: bytes, msgType: bytes, fields: seq<Push>, checksummed: bool)
    requires Written(m, v, msgType, fields, checksummed)
    ensures |m| >= |v| + 2 && m[0] == 0x38 && m[1] == 0x3D && forall i | 0 <= i < |v| :: m[i + 2] == v[i]
  {
    hide Written, FullBody, Body, BodyLength, Checksum, TrailerText, Head, InThree, OpensWith;
    var digits, body, sum := Layout(m, v, msgType, fields, checksummed);
    PiecesAt(m, Head(v, digits), body, TrailerText(sum));
    HeadOpens(v, digits);
    var head := Head(v, digits);
    forall i | 0 <= i < |v| + 2
      ensures m[i] == head[i]
    {
      TextBytes(m, 0, head, i);
    }
  }

  lemma HeadOpens(v: bytes, digits: bytes)
    ensures var head := Head(v, digits);
            |head| >= |v| + 2 && head[0] == 0x38 && head[1] == 0x3D && forall i | 0 <= i < |v| :: head[i + 2] == v[i]
  {
  }

  /** A written message is one whole valid frame that starts with `8=FIX`. */
  lemma SentIsMessage(sent: Sent, m: bytes)
    requires IsSent(sent, m)
    ensures Batch.IsMessage(m) && StartsFix(m, 0)
  {
    hide Written, Recognise, StartsFix, ReadyToWalk;
    var _ := WrittenIsReady(m, sent.beginString, sent.msgType, sent.fields, sent.checksummed);
    WrittenOpens(m, sent.beginString, sent.msgType, sent.fields, sent.checksummed);
    FixStart(m, 0);
  }

  lemma SentAreStream(sent: seq<Sent>, messages: seq<bytes>)
    requires AreSent(sent, messages)
    ensures Batch.IsStream(messages)
    ensures |messages| > 0 ==> StartsFix(messages[0], 0)
  {
    hide IsSent, StartsFix, Batch.IsMessage;
    forall i | 0 <= i < |messages|
      ensures Batch.IsMessage(messages[i]) && StartsFix(messages[i], 0)
    {
      SentIsMessage(sent[i], messages[i]);
    }
  }

  /** No `8=FIX` starts behind the first byte of the garbage, in the garbage. */
  ghost predicate NoStartWithin(whole: bytes, garbage: nat) {
    forall i | 1 <= i < garbage && i + 5 <= |whole| ::
      !(whole[i] == 0x38 && whole[i + 1] == 0x3D && whole[i + 2] == 0x46 && whole[i + 3] == 0x49 && whole[i + 4] == 0x58)
  }

  /**
   Garbage between written messages: if what starts at the garbage is invalid and no `8=FIX`
   starts within it, all messages in front and behind are delivered, as they were written.
   */
  lemma SentAroundGarbage(early: seq<Sent>, first: seq<bytes>, garbage: bytes, late: seq<Sent>, second: seq<bytes>)
    requires AreSent(early, first) && AreSent(late, second) && |second| > 0 && |garbage| > 0
    requires Recognise(garbage + Batch.Concat(second)).Invalid?
    requires NoStartWithin(garbage + Batch.Concat(second), |garbage|)
    ensures Batch.Run(Batch.Concat(first) + (garbage + Batch.Concat(second))) == Batch.Outcome(first + second, [])
  {
    hide Recognise, StartsFix, Batch.Run, Batch.Concat, Batch.IsStream, AreSent;
    SentAreStream(early, first);
    SentAreStream(late, second);
    var whole := garbage + Batch.Concat(second);
    forall i | 1 <= i < |garbage|
      ensures !StartsFix(whole, i)
    {
      FixStart(whole, i);
    }
    Batch.RecoversWithin(first, garbage, second);
  }

  /** However a stream of written messages is cut, the feed delivers exactly those messages. */
  lemma SentInChunks(sent: seq<Sent>, messages: seq<bytes>, chunks: seq<bytes>)
    requires AreSent(sent, messages) && Batch.Concat(chunks) == Batch.Concat(messages)
    ensures Batch.Feed([], chunks) == Batch.Outcome(messages, [])
  {
    hide Recognise, Batch.Feed, AreSent, Batch.IsStream;
    SentAreStream(sent, messages);
    VerdictNeedsEleven([]);
    assert [] + Batch.Concat(chunks) == Batch.Concat(chunks);
    Batch.StreamFeed(messages, [], chunks);
  }
}
