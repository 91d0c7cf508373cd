/**
 The packed field index: parallel arrays of tags and (position, length) words, built
 in one walk over a frame or a group entry, and searched with a carried hint. An
 authoritative index answers every sequence of searches as the iterator does.
 */
module FieldIndex {
  import opened Bytes
  import opened Frames
  import opened FieldIterator
  import opened FieldStream
  import opened RoundTrip

  const MAX_UINT32: nat := 0xFFFF_FFFF

  /** `(uint64(pos) << 32) | uint32(len)`; the two halves do not overlap, so or is plus. */
  function Pack(pos: int, len: int): (r: nat)
    ensures r < TWO_TO_THE_64
  {
    pos * TWO_TO_THE_32 % TWO_TO_THE_64 + len % TWO_TO_THE_32
  }

  function PackedPos(word: nat): nat {
    word / TWO_TO_THE_32
  }

  function PackedLen(word: nat): nat {
    word % TWO_TO_THE_32
  }

  /** Packing loses nothing exactly while both halves fit 32 bits. */
  lemma PackLossless(pos: nat, len: nat)
    ensures PackedPos(Pack(pos, len)) == pos && PackedLen(Pack(pos, len)) == len
            <==> pos <= MAX_UINT32 && len <= MAX_UINT32
  {
    var high := pos * TWO_TO_THE_32 % TWO_TO_THE_64;
    assert high == pos % TWO_TO_THE_32 * TWO_TO_THE_32;
  }

  /** A read-only index over the first fields of a range; positions count from `base`. */
  datatype Index = Index(base: nat, tags: seq<int>, posLen: seq<nat>, truncated: bool, overflowed: bool) {
    predicate Authoritative() {
      !truncated && !overflowed
    }

    predicate WellFormed() {
      |tags| == |posLen|
    }

    /** `value_at`: the range of the value in the message. */
    function ValueAt(i: nat): (nat, nat)
      requires WellFormed() && i < |tags|
    {
      var begin := base + PackedPos(posLen[i]);
      (begin, begin + PackedLen(posLen[i]))
    }
  }

  /** `find_tag_in_index` */
  function FirstIndex(tags: seq<int>, from: nat, end: nat, tag: int): (k: nat)
    requires from <= end <= |tags|
    ensures from <= k <= end && (k < end ==> tags[k] == tag)
    ensures forall i | from <= i < k :: tags[i] != tag
    decreases end - from
  {
    if from == end || tags[from] == tag then from else FirstIndex(tags, from + 1, end, tag)
  }

  method FindTagInIndex(tags: seq<int>, from: nat, n: nat, tag: int) returns (i: nat)
    requires from + n <= |tags|
    ensures from + i == FirstIndex(tags, from, from + n, tag)
  {
    i := 0;
    while i < n
      invariant 0 <= i <= n
      invariant FirstIndex(tags, from + i, from + n, tag) == FirstIndex(tags, from, from + n, tag)
    {
      if tags[from + i] == tag {
        return i;
      }
      i := i + 1;
    }
    return n;
  }

  /** The slot an indexed search ends in. */
  function Lookup(idx: Index, tag: int, hint: nat): (k: Option<nat>)
    ensures k.Some? ==> k.value < |idx.tags|
  {
    var start := if hint > |idx.tags| then 0 else hint;
    var after := FirstIndex(idx.tags, start, |idx.tags|, tag);
    if after < |idx.tags| then Some(after)
    else
      var before := FirstIndex(idx.tags, 0, start, tag);
      if before < start then Some(before) else None
  }

  ghost predicate IndexFits(m: bytes, idx: Index) {
    idx.WellFormed() && forall i | 0 <= i < |idx.tags| :: idx.ValueAt(i).1 <= |m|
  }

  /** What one search reports: the value bytes, or nothing; and where the hint is then. */
  datatype Answer = Answer(entry: Option<Entry>, hint: nat)

  function IndexAnswer(m: bytes, idx: Index, hint: nat, tag: int): Answer
    requires IndexFits(m, idx)
  {
    match Lookup(idx, tag, hint)
    case None => Answer(None, if hint > |idx.tags| then 0 else hint)
    case Some(k) =>
      var (begin, end) := idx.ValueAt(k);
      Answer(Some(Entry(tag, m[begin..end])), k)
  }

  /** `find_with_hint` on the index. (A hint past the end starts over at 0, and stays there on a miss.) */
  method FindIndexed(idx: Index, tag: int, hint: nat) returns (value: Option<(nat, nat)>, hint': nat)
    requires idx.WellFormed()
    ensures value.Some? <==> Lookup(idx, tag, hint).Some?
    ensures value.Some? ==> hint' == Lookup(idx, tag, hint).value && value.value == idx.ValueAt(hint')
    ensures value.None? ==> hint' == if hint > |idx.tags| then 0 else hint
    ensures forall m | IndexFits(m, idx) :: IndexAnswer(m, idx, hint, tag) ==
              Answer(if value.None? then None else Some(Entry(tag, m[value.value.0..value.value.1])), hint')
  {
    var n := |idx.tags|;
    hint' := hint;
    if hint' > n {
      hint' := 0;
    }
    var suffix := n - hint';
    var i := FindTagInIndex(idx.tags, hint', suffix, tag);
    if i != suffix {
      hint' := hint' + i;
      return Some(idx.ValueAt(hint')), hint';
    }
    var j := FindTagInIndex(idx.tags, 0, hint', tag);
    if j != hint' {
      hint' := j;
      return Some(idx.ValueAt(hint')), hint';
    }
    return None, hint';
  }

  // ----- building

  function Tags(fields: seq<Cursor>): (r: seq<int>)
    ensures |r| == |fields| && forall i | 0 <= i < |r| :: r[i] == fields[i].tag
  {
    seq(|fields|, i requires 0 <= i < |fields| => fields[i].tag)
  }

  function PackField(c: Cursor, base: nat): nat {
    Pack(c.valueBegin - base, c.valueEnd - c.valueBegin)
  }

  function PosLens(fields: seq<Cursor>, base: nat): (r: seq<nat>)
    ensures |r| == |fields| && forall i | 0 <= i < |r| :: r[i] == PackField(fields[i], base)
  {
    seq(|fields|, i requires 0 <= i < |fields| => PackField(fields[i], base))
  }

  function Indexed(fields: seq<Cursor>, base: nat, capacity: nat): Index {
    var n := Held(fields, capacity);
    Index(base, Tags(fields[..n]), PosLens(fields[..n], base), n < |fields|, false)
  }

  const NO_INDEX: Index := Index(0, [], [], false, false)

  /** The index of a frame's fields. */
  function MessageIndex(cfg: Config, buf: bytes, capacity: nat): Index {
    if !Recognise(buf).Valid? then NO_INDEX
    else if Recognise(buf).frame.Size() > MAX_UINT32 then NO_INDEX.(overflowed := true)
    else Indexed(Fields(cfg, buf), 0, capacity)
  }

  /** A field too far from the entry's first byte, or too long, for 32 bits. */
  predicate TooFar(c: Cursor, base: nat) {
    !(0 <= c.valueBegin - base <= MAX_UINT32) || !(0 <= c.valueEnd - c.valueBegin <= MAX_UINT32)
  }

  /** How many of the fields an index of this capacity takes up. */
  function Held(fields: seq<Cursor>, capacity: nat): (n: nat)
    ensures n <= |fields| && n <= capacity
  {
    if |fields| < capacity then |fields| else capacity
  }

  /** The index of a range; with `checked`, empty and flagged when a field to hold is out of reach. */
  function RangeIndex(fields: seq<Cursor>, base: nat, checked: bool, capacity: nat): Index {
    if checked && exists i :: 0 <= i < Held(fields, capacity) && TooFar(fields[i], base)
    then Index(base, [], [], false, true)
    else Indexed(fields, base, capacity)
  }

  /** The index of a group entry's fields, against the entry's first byte. */
  function EntryIndex(fields: seq<Cursor>, capacity: nat): Index {
    if |fields| == 0 then NO_INDEX else RangeIndex(fields, fields[0].at, true, capacity)
  }

  /** `build_field_index` on a reader. */
  method BuildMessageIndex(cfg: Config, reader: MessageReader, tags: array<int>, posLen: array<nat>)
    returns (idx: Index)
    requires tags.Length == posLen.Length && reader.Abstract() == Recognise(reader.buffer)
    modifies tags, posLen
    ensures reader.isComplete ==> idx == MessageIndex(cfg, reader.buffer, tags.Length)
  {
    hide Next, Walk, Recognise;
    if !(reader.isComplete && reader.isValid) {
      return NO_INDEX;
    }
    ghost var buf := reader.buffer;
    MessageOf(buf);
    var f := Frame(reader.prefixEnd, reader.msgTypeAt, reader.msgTypeEnd, reader.checkSumAt);
    if f.Size() > MAX_UINT32 {
      return NO_INDEX.(overflowed := true);
    }
    FieldsAreChain(cfg, buf);
    IterationTerminates(cfg, buf);
    ghost var fields := Fields(cfg, buf);
    var m := reader.buffer[..f.Size()];
    idx := BuildRange(cfg, m, BeginCursor(f), EndCursor(m), 0, false, tags, posLen, fields, 0, |fields|);
    assert fields[0..] == fields;
  }

  /**
   The building loop over the fields from `begin` to `end`; `checked` is the group
   entry's test of every position and length.
   */
  method BuildRange(cfg: Config, m: bytes, begin: Cursor, end: Cursor, base: nat, checked: bool,
                    tags: array<int>, posLen: array<nat>,
                    ghost fields: seq<Cursor>, ghost lo: nat, ghost hi: nat)
    returns (idx: Index)
    requires tags.Length == posLen.Length
    requires Chain(cfg, m, fields) && lo <= hi && Stands(m, fields, lo, begin) && Stands(m, fields, hi, end)
    modifies tags, posLen
    ensures idx == RangeIndex(fields[lo..hi], base, checked, tags.Length)
  {
    hide *;
    var it := new FieldIterator(cfg, m, begin);
    var count := 0;
    BeginIndexing(it, end, base, checked, tags, posLen, fields, lo, hi);
    while it.Where().at != end.at && count < tags.Length
      invariant fresh(it) && count <= tags.Length && Indexing(it, end, base, checked, tags, posLen, count, fields, lo, hi)
      decreases tags.Length - count
    {
      if checked && TooFarToPack(it, base) {
        StopIndexing(it, end, base, tags, posLen, count, fields, lo, hi);
        return Index(base, [], [], false, true);
      }
      IndexOne(it, end, base, checked, tags, posLen, count, fields, lo, hi);
      count := count + 1;
    }
    EndIndexing(it, end, base, checked, tags, posLen, count, fields, lo, hi);
    idx := Index(base, tags[..count], posLen[..count], it.Where().at != end.at, false);
  }

  /** The state of the building loop: `it` stands on the next field, the slots before hold the ones before. */
  ghost predicate Indexing(it: FieldIterator, end: Cursor, base: nat, checked: bool, tags: array<int>, posLen: array<nat>,
                           count: nat, fields: seq<Cursor>, lo: nat, hi: nat)
    reads it, tags, posLen
  {
    && Chain(it.cfg, it.message, fields) && Stands(it.message, fields, hi, end)
    && count <= tags.Length == posLen.Length && lo + count <= hi <= |fields|
    && Stands(it.message, fields, lo + count, it.Where())
    && Filled(tags[..count], posLen[..count], fields[lo..hi], base, checked)
  }

  lemma BeginIndexing(it: FieldIterator, end: Cursor, base: nat, checked: bool, tags: array<int>, posLen: array<nat>,
                      fields: seq<Cursor>, lo: nat, hi: nat)
    requires Chain(it.cfg, it.message, fields) && lo <= hi && tags.Length == posLen.Length
    requires Stands(it.message, fields, lo, it.Where()) && Stands(it.message, fields, hi, end)
    ensures Indexing(it, end, base, checked, tags, posLen, 0, fields, lo, hi)
  {
    hide Chain, Filled;
    FillMore([], [], fields[lo..hi], base, checked);
    assert tags[..0] == [] && posLen[..0] == [];
  }

  lemma StopIndexing(it: FieldIterator, end: Cursor, base: nat, tags: array<int>, posLen: array<nat>,
                     count: nat, fields: seq<Cursor>, lo: nat, hi: nat)
    requires Indexing(it, end, base, true, tags, posLen, count, fields, lo, hi)
    requires it.Where().at != end.at && count < tags.Length && TooFar(it.Where(), base)
    ensures lo <= hi <= |fields|
    ensures RangeIndex(fields[lo..hi], base, true, tags.Length) == Index(base, [], [], false, true)
  {
    hide Chain, Filled, RangeIndex, TooFar, FieldIterator.Where;
    SamePlace(it.cfg, it.message, fields, lo + count, it.Where(), hi, end);
    OutOfReach(fields[lo..hi], base, tags.Length, count);
  }

  lemma EndIndexing(it: FieldIterator, end: Cursor, base: nat, checked: bool, tags: array<int>, posLen: array<nat>,
                    count: nat, fields: seq<Cursor>, lo: nat, hi: nat)
    requires Indexing(it, end, base, checked, tags, posLen, count, fields, lo, hi)
    requires it.Where().at == end.at || count == tags.Length
    ensures lo <= hi <= |fields| && count <= tags.Length == posLen.Length
    ensures RangeIndex(fields[lo..hi], base, checked, tags.Length)
            == Index(base, tags[..count], posLen[..count], it.Where().at != end.at, false)
  {
    hide Chain, Filled, RangeIndex, FieldIterator.Where;
    SamePlace(it.cfg, it.message, fields, lo + count, it.Where(), hi, end);
    Finished(fields[lo..hi], base, checked, tags.Length, tags[..count], posLen[..count]);
  }

  /** The loop body: fill a slot, move on. */
  method IndexOne(it: FieldIterator, end: Cursor, base: nat, checked: bool, tags: array<int>, posLen: array<nat>,
                  count: nat, ghost fields: seq<Cursor>, ghost lo: nat, ghost hi: nat)
    requires Indexing(it, end, base, checked, tags, posLen, count, fields, lo, hi)
    requires it.Where().at != end.at && count < tags.Length && (checked ==> !TooFar(it.Where(), base))
    modifies it, tags, posLen
    ensures Indexing(it, end, base, checked, tags, posLen, count + 1, fields, lo, hi)
  {
    hide Chain, Filled, TooFar, PackField, Next, FieldIterator.Where;
    SamePlace(it.cfg, it.message, fields, lo + count, it.Where(), hi, end);
    FillMore(tags[..count], posLen[..count], fields[lo..hi], base, checked);
    StepStands(it.cfg, it.message, fields, lo + count, it.Where());
    FillSlot(it, tags, posLen, count, base);
    ChainBytes(it.cfg, it.message, fields);
    it.Increment();
  }

  lemma ChainBytes(cfg: Config, m: bytes, fields: seq<Cursor>)
    requires Chain(cfg, m, fields)
    ensures IsMessageBytes(m)
  {
  }

  method FillSlot(it: FieldIterator, tags: array<int>, posLen: array<nat>, count: nat, base: nat)
    requires count < tags.Length == posLen.Length
    modifies tags, posLen
    ensures tags[..count + 1] == old(tags[..count]) + [it.Where().tag]
    ensures posLen[..count + 1] == old(posLen[..count]) + [PackField(it.Where(), base)]
  {
    hide PackField;
    tags[count] := it.tag;
    posLen[count] := PackField(it.Where(), base);
  }

  predicate TooFarToPack(it: FieldIterator, base: nat)
    reads it
    ensures TooFarToPack(it, base) == TooFar(it.Where(), base)
  {
    var pos, len := it.valueBegin - base, it.valueEnd - it.valueBegin;
    pos < 0 || pos > MAX_UINT32 || len < 0 || len > MAX_UINT32
  }

  /** The slots filled so far hold the first fields of the range. */
  ghost predicate Filled(tags: seq<int>, posLen: seq<nat>, fields: seq<Cursor>, base: nat, checked: bool) {
    && |tags| == |posLen| <= |fields|
    && (forall i | 0 <= i < |tags| :: tags[i] == fields[i].tag && posLen[i] == PackField(fields[i], base))
    && (checked ==> forall i | 0 <= i < |tags| :: !TooFar(fields[i], base))
  }

  lemma FillMore(tags: seq<int>, posLen: seq<nat>, fields: seq<Cursor>, base: nat, checked: bool)
    ensures Filled([], [], fields, base, checked)
    ensures Filled(tags, posLen, fields, base, checked) && |tags| < |fields|
            && (checked ==> !TooFar(fields[|tags|], base))
            ==> Filled(tags + [fields[|tags|].tag], posLen + [PackField(fields[|tags|], base)], fields, base, checked)
  {
    hide PackField, TooFar;
  }

  lemma OutOfReach(fields: seq<Cursor>, base: nat, capacity: nat, count: nat)
    requires count < Held(fields, capacity) && TooFar(fields[count], base)
    ensures RangeIndex(fields, base, true, capacity) == Index(base, [], [], false, true)
  {
  }

  lemma Finished(fields: seq<Cursor>, base: nat, checked: bool, capacity: nat, tags: seq<int>, posLen: seq<nat>)
    requires |tags| == Held(fields, capacity) && Filled(tags, posLen, fields, base, checked)
    ensures RangeIndex(fields, base, checked, capacity) == Index(base, tags, posLen, |tags| < |fields|, false)
  {
    hide PackField;
    assert tags == Tags(fields[..|tags|]);
    assert posLen == PosLens(fields[..|tags|], base);
  }

  /** `build_field_index` on a group entry: the fields from `lo` to `hi`. */
  method BuildEntryIndex(cfg: Config, m: bytes, begin: Cursor, end: Cursor, tags: array<int>, posLen: array<nat>,
                         ghost fields: seq<Cursor>, ghost lo: nat, ghost hi: nat)
    returns (idx: Index)
    requires tags.Length == posLen.Length
    requires Chain(cfg, m, fields) && lo <= hi && Stands(m, fields, lo, begin) && Stands(m, fields, hi, end)
    modifies tags, posLen
    ensures idx == EntryIndex(fields[lo..hi], tags.Length)
  {
    SamePlace(cfg, m, fields, lo, begin, hi, end);
    if begin.at == end.at {
      return NO_INDEX;
    }
    idx := BuildRange(cfg, m, begin, end, begin.at, true, tags, posLen, fields, lo, hi);
  }

  // ----- the index refines the scan

  lemma {:induction false} FirstIndexIsFirstTag(fields: seq<Cursor>, n: nat, from: nat, end: nat, tag: int)
    requires from <= end <= n <= |fields|
    ensures FirstIndex(Tags(fields[..n]), from, end, tag) == FirstTag(fields, from, end, tag)
    decreases end - from
  {
    if from < end && fields[from].tag != tag {
      FirstIndexIsFirstTag(fields, n, from + 1, end, tag);
    }
  }

  /** An index of any capacity answers as a scan over the fields it holds. */
  lemma LookupIsSearch(fields: seq<Cursor>, base: nat, capacity: nat, hint: nat, tag: int)
    requires hint <= |fields| && hint <= capacity
    ensures var n := Held(fields, capacity);
            Lookup(Indexed(fields, base, capacity), tag, hint) == Search(fields, 0, n, hint, tag)
  {
    var n := Held(fields, capacity);
    FirstIndexIsFirstTag(fields, n, hint, n, tag);
    FirstIndexIsFirstTag(fields, n, 0, hint, tag);
  }

  function ScanAnswer(m: bytes, fields: seq<Cursor>, hint: nat, tag: int): Answer
    requires hint <= |fields| && (forall i | 0 <= i < |fields| :: InMessage(m, fields[i]))
  {
    match Search(fields, 0, |fields|, hint, tag)
    case None => Answer(None, hint)
    case Some(k) => Answer(Some(EntryAt(m, fields[k])), k)
  }

  /** The answers of a sequence of scans, each starting from the hint the one before left. */
  function ScanAll(m: bytes, fields: seq<Cursor>, hint: nat, queries: seq<int>): seq<Answer>
    requires hint <= |fields| && (forall i | 0 <= i < |fields| :: InMessage(m, fields[i]))
    decreases |queries|
  {
    if |queries| == 0 then []
    else
      var a := ScanAnswer(m, fields, hint, queries[0]);
      [a] + ScanAll(m, fields, a.hint, queries[1..])
  }

  function IndexAll(m: bytes, idx: Index, hint: nat, queries: seq<int>): seq<Answer>
    requires IndexFits(m, idx)
    decreases |queries|
  {
    if |queries| == 0 then []
    else
      var a := IndexAnswer(m, idx, hint, queries[0]);
      [a] + IndexAll(m, idx, a.hint, queries[1..])
  }

  /** The index's value ranges are the fields' own. */
  lemma IndexedValues(m: bytes, fields: seq<Cursor>, base: nat, capacity: nat)
    requires forall i | 0 <= i < |fields| :: InMessage(m, fields[i]) && !TooFar(fields[i], base)
    ensures var idx := Indexed(fields, base, capacity);
            && IndexFits(m, idx)
            && (forall i | 0 <= i < |idx.tags| :: idx.ValueAt(i) == (fields[i].valueBegin, fields[i].valueEnd))
  {
    var idx := Indexed(fields, base, capacity);
    forall i | 0 <= i < |idx.tags|
      ensures idx.ValueAt(i) == (fields[i].valueBegin, fields[i].valueEnd)
    {
      PackLossless(fields[i].valueBegin - base, fields[i].valueEnd - fields[i].valueBegin);
      hide Pack, PackedPos, PackedLen;
    }
    hide Pack, PackedPos, PackedLen;
  }

  /** Sequences of searches agree: by tag, by value bytes, and by where the hint ends up. */
  lemma {:induction false} AnswersAgree(m: bytes, fields: seq<Cursor>, base: nat, capacity: nat, hint: nat,
                                        queries: seq<int>)
    requires |fields| <= capacity && hint <= |fields|
    requires forall i | 0 <= i < |fields| :: InMessage(m, fields[i]) && !TooFar(fields[i], base)
    ensures IndexFits(m, Indexed(fields, base, capacity))
    ensures IndexAll(m, Indexed(fields, base, capacity), hint, queries) == ScanAll(m, fields, hint, queries)
    decreases |queries|
  {
    hide Lookup, Search, Indexed, Index.ValueAt, InMessage, TooFar, IndexFits, IndexAnswer;
    IndexedValues(m, fields, base, capacity);
    if |queries| > 0 {
      AnswerAgrees(m, fields, base, capacity, hint, queries[0]);
      AnswersAgree(m, fields, base, capacity, ScanAnswer(m, fields, hint, queries[0]).hint, queries[1..]);
    }
  }

  lemma AnswerAgrees(m: bytes, fields: seq<Cursor>, base: nat, capacity: nat, hint: nat, tag: int)
    requires |fields| <= capacity && hint <= |fields|
    requires forall i | 0 <= i < |fields| :: InMessage(m, fields[i]) && !TooFar(fields[i], base)
    ensures IndexFits(m, Indexed(fields, base, capacity))
    ensures IndexAnswer(m, Indexed(fields, base, capacity), hint, tag) == ScanAnswer(m, fields, hint, tag)
  {
    IndexedValues(m, fields, base, capacity);
    LookupIsSearch(fields, base, capacity, hint, tag);
    hide Lookup, Search, Indexed, Index.ValueAt, TooFar;
  }

  /**
   The index refines the scan over whole runs: if the index of a valid frame is
   authoritative, every sequence of searches with a carried hint, started at 0, gives
   the same fields and hints as the same searches on the iterator started at the
   frame's first field.
   */
  lemma IndexRefinesScan(cfg: Config, buf: bytes, capacity: nat, queries: seq<int>)
    requires Recognise(buf).Valid? && MessageIndex(cfg, buf, capacity).Authoritative()
    ensures Recognise(buf).frame.Size() <= |buf|
    ensures var m := buf[..Recognise(buf).frame.Size()];
            var idx := MessageIndex(cfg, buf, capacity);
            && (forall i | 0 <= i < |Fields(cfg, buf)| :: InMessage(m, Fields(cfg, buf)[i]))
            && IndexFits(m, idx)
            && IndexAll(m, idx, 0, queries) == ScanAll(m, Fields(cfg, buf), 0, queries)
  {
    hide Recognise, Walk, Next;
    MessageOf(buf);
    IterationTerminates(cfg, buf);
    var m := buf[..Recognise(buf).frame.Size()];
    var fields := Fields(cfg, buf);
    hide Fields, Iterate;
    assert |m| <= MAX_UINT32;
    AnswersAgree(m, fields, 0, capacity, 0, queries);
  }

  /**
   What an index holds: the tags and value ranges of the first fields of a valid frame, as
   many as there are slots; nothing for a frame of 2^32 bytes or more, or for no valid frame.
   */
  lemma IndexHolds(cfg: Config, buf: bytes, capacity: nat)
    ensures var idx := MessageIndex(cfg, buf, capacity);
            if !Recognise(buf).Valid? then idx.tags == [] && idx.posLen == [] && !idx.truncated && !idx.overflowed
            else if Recognise(buf).frame.Size() >= 0x1_0000_0000 then
              idx.tags == [] && idx.posLen == [] && !idx.truncated && idx.overflowed
            else
              var fields := Fields(cfg, buf);
              && !idx.overflowed && (idx.truncated <==> |fields| > capacity)
              && |idx.tags| == |idx.posLen| == (if |fields| <= capacity then |fields| else capacity)
              && forall i | 0 <= i < |idx.tags| ::
                   idx.tags[i] == fields[i].tag && idx.ValueAt(i) == (fields[i].valueBegin, fields[i].valueEnd)
  {
    hide Recognise, Walk, Next;
    if Recognise(buf).Valid? && Recognise(buf).frame.Size() <= MAX_UINT32 {
      MessageOf(buf);
      IterationTerminates(cfg, buf);
      hide Fields, Iterate;
      IndexedValues(buf[..Recognise(buf).frame.Size()], Fields(cfg, buf), 0, capacity);
    }
  }

  /**
   When a message is not too long, its index is authoritative exactly when every field
   found a slot.
   */
  lemma AuthoritativeWhen(cfg: Config, buf: bytes, capacity: nat)
    requires Recognise(buf).Valid?
    ensures MessageIndex(cfg, buf, capacity).Authoritative()
            <==> Recognise(buf).frame.Size() <= MAX_UINT32 && |Fields(cfg, buf)| <= capacity
  {
    hide Recognise, Fields;
  }

  /**
   The index of a group entry refines the scan over that entry's fields in the same way,
   and is authoritative exactly when every field found a slot and is in reach of 32 bits.
   */
  lemma EntryIndexRefinesScan(m: bytes, fields: seq<Cursor>, capacity: nat, queries: seq<int>)
    requires forall i | 0 <= i < |fields| :: InMessage(m, fields[i])
    ensures EntryIndex(fields, capacity).Authoritative() <==>
            |fields| <= capacity && forall i | 0 <= i < |fields| :: !TooFar(fields[i], fields[0].at)
    ensures EntryIndex(fields, capacity).Authoritative() ==>
              && IndexFits(m, EntryIndex(fields, capacity))
              && IndexAll(m, EntryIndex(fields, capacity), 0, queries) == ScanAll(m, fields, 0, queries)
  {
    hide InMessage, TooFar, IndexFits, IndexAll, ScanAll;
    var base := if |fields| == 0 then 0 else fields[0].at;
    if |fields| <= capacity && forall i | 0 <= i < |fields| :: !TooFar(fields[i], base) {
      assert EntryIndex(fields, capacity) == Indexed(fields, base, capacity);
      AnswersAgree(m, fields, base, capacity, 0, queries);
    }
  }
}
