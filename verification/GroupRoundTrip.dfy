/**
 Repeating groups through writer and reader: a count field, entries that each start with
 the delimiter, and other fields around them come back as a view of those entries.
 */
module GroupRoundTrip {
  import opened Bytes
  import opened Digits
  import opened IntegerCodec
  import opened MessageModel
  import opened Frames
  import opened FieldIterator
  import opened FieldStream
  import opened RoundTrip
  import opened Groups

  function Flatten(entries: seq<seq<Push>>): (r: seq<Push>) {
    if |entries| == 0 then [] else entries[0] + Flatten(entries[1..])
  }

  ghost predicate WithoutTag(pushes: seq<Push>, tag: int) {
    forall i | 0 <= i < |pushes| :: pushes[i].IsField() && pushes[i].tag != tag
  }

  /** The pushes of one entry: the delimiter first, and nowhere else. */
  ghost predicate IsPushedEntry(entry: seq<Push>, delimiter: int) {
    && |entry| > 0 && entry[0].IsField() && entry[0].tag == delimiter
    && WithoutTag(entry[1..], delimiter)
  }

  ghost predicate ArePushedEntries(entries: seq<seq<Push>>, delimiter: int) {
    forall i | 0 <= i < |entries| :: IsPushedEntry(entries[i], delimiter)
  }

  /** Where the entries stand among the fields, the last one extended to the end of the range. */
  function EntryRanges(entries: seq<seq<Push>>, from: nat, hi: nat): (r: seq<(nat, nat)>)
    ensures |r| == |entries|
  {
    if |entries| == 0 then []
    else if |entries| == 1 then [(from, hi)]
    else [(from, from + |entries[0]|)] + EntryRanges(entries[1..], from + |entries[0]|, hi)
  }

  /** The fields from `from` on carry the tags of the pushes. */
  ghost predicate TagsAt(fields: seq<Cursor>, from: nat, pushes: seq<Push>) {
    && from + |pushes| <= |fields|
    && forall i | 0 <= i < |pushes| :: pushes[i].IsField() && fields[from + i].tag == pushes[i].tag
  }

  lemma TagsSplit(fields: seq<Cursor>, from: nat, a: seq<Push>, b: seq<Push>)
    requires TagsAt(fields, from, a + b)
    ensures TagsAt(fields, from, a) && TagsAt(fields, from + |a|, b)
  {
    assert forall i | 0 <= i < |a| :: a[i] == (a + b)[i];
    assert forall i | 0 <= i < |b| :: b[i] == (a + b)[|a| + i];
  }

  lemma FirstTagIs(fields: seq<Cursor>, lo: nat, hi: nat, tag: int, k: nat)
    requires lo <= k <= hi <= |fields| && forall i | lo <= i < k :: fields[i].tag != tag
    requires k < hi ==> fields[k].tag == tag
    ensures FirstTag(fields, lo, hi, tag) == k
  {
  }

  lemma NoTagAt(fields: seq<Cursor>, from: nat, pushes: seq<Push>, tag: int)
    requires TagsAt(fields, from, pushes) && WithoutTag(pushes, tag)
    ensures forall i | from <= i < from + |pushes| :: fields[i].tag != tag
  {
    forall i | from <= i < from + |pushes|
      ensures fields[i].tag != tag
    {
      assert fields[from + (i - from)].tag == pushes[i - from].tag;
    }
  }

  /** An entry's fields: the delimiter at its first, and at no other. */
  lemma EntryTags(fields: seq<Cursor>, from: nat, entry: seq<Push>, delimiter: int)
    requires TagsAt(fields, from, entry) && IsPushedEntry(entry, delimiter)
    ensures fields[from].tag == delimiter
    ensures forall i | from < i < from + |entry| :: fields[i].tag != delimiter
  {
    assert entry == [entry[0]] + entry[1..];
    TagsSplit(fields, from, [entry[0]], entry[1..]);
    assert fields[from + 0].tag == entry[0].tag;
    NoTagAt(fields, from + 1, entry[1..], delimiter);
  }

  /** Cutting the fields of pushed entries gives back those entries. */
  lemma {:induction false} EntriesPushed(fields: seq<Cursor>, from: nat, entries: seq<seq<Push>>, behind: seq<Push>,
                                         delimiter: int)
    requires TagsAt(fields, from, Flatten(entries) + behind)
    requires from + |Flatten(entries)| + |behind| == |fields|
    requires ArePushedEntries(entries, delimiter) && WithoutTag(behind, delimiter)
    ensures EntriesFrom(fields, from, |fields|, delimiter, |entries|) == EntryRanges(entries, from, |fields|)
    decreases |entries|
  {
    hide TagsAt, IsPushedEntry, WithoutTag, EntriesFrom, FirstTag;
    var hi := |fields|;
    EntriesStop(fields, from, hi, delimiter, |entries|);
    if |entries| > 0 {
      var entry, rest := entries[0], entries[1..];
      assert IsPushedEntry(entry, delimiter);
      assert Flatten(entries) + behind == entry + (Flatten(rest) + behind);
      TagsSplit(fields, from, entry, Flatten(rest) + behind);
      EntryTags(fields, from, entry, delimiter);
      EntryNotEmpty(entry, delimiter);
      var end := from + |entry|;
      Groups.EntriesStep(fields, from, hi, delimiter, |entries|);
      if |rest| == 0 {
        assert Flatten(rest) + behind == behind;
        NoTagAt(fields, end, behind, delimiter);
        FirstTagIs(fields, from + 1, hi, delimiter, hi);
        EntriesStop(fields, hi, hi, delimiter, 0);
      } else {
        NextEntry(fields, end, rest, behind, delimiter);
        FirstTagIs(fields, from + 1, hi, delimiter, end);
        EntriesPushed(fields, end, rest, behind, delimiter);
      }
    }
  }

  lemma EntryNotEmpty(entry: seq<Push>, delimiter: int)
    requires IsPushedEntry(entry, delimiter)
    ensures |entry| > 0
  {
  }

  /** Behind an entry the next one starts, with a delimiter. */
  lemma NextEntry(fields: seq<Cursor>, from: nat, entries: seq<seq<Push>>, behind: seq<Push>, delimiter: int)
    requires TagsAt(fields, from, Flatten(entries) + behind) && |entries| > 0 && ArePushedEntries(entries, delimiter)
    ensures from < |fields| && fields[from].tag == delimiter
  {
    var entry, rest := entries[0], entries[1..];
    assert IsPushedEntry(entry, delimiter);
    assert Flatten(entries) + behind == entry + (Flatten(rest) + behind);
    TagsSplit(fields, from, entry, Flatten(rest) + behind);
    EntryTags(fields, from, entry, delimiter);
  }

  lemma {:induction false} EntriesIndex(m: bytes, fields: seq<Cursor>, i: nat)
    requires (forall j | 0 <= j < |fields| :: InMessage(m, fields[j])) && i < |fields|
    ensures Entries(m, fields)[i] == EntryAt(m, fields[i])
  {
    hide EntryAt, InMessage;
    if i > 0 {
      EntriesIndex(m, fields[1..], i - 1);
    }
  }

  /** The fields of a written message, one by one. */
  lemma FieldsOfMessage(cfg: Config, m: bytes, v: bytes, msgType: bytes, pushes: seq<Push>, checksummed: bool)
    requires Written(m, v, msgType, pushes, checksummed) && 7 <= |v| <= 10 && AllReadable(cfg, pushes)
    ensures forall i | 0 <= i < |pushes| :: pushes[i].IsField()
    ensures Recognise(m).Valid? && |Fields(cfg, m)| == |pushes| + 1
    ensures forall i | 0 <= i < |Fields(cfg, m)| :: InMessage(m, Fields(cfg, m)[i])
    ensures EntryAt(m, Fields(cfg, m)[0]) == Entry(MSG_TYPE_TAG, msgType)
    ensures forall i | 0 <= i < |pushes| :: EntryAt(m, Fields(cfg, m)[i + 1]) == PushedEntry(pushes[i])
  {
    hide Written, Recognise, Fields, Entries, PushedEntries, ReadyToWalk, InMessage, EntryAt, Iterate;
    var _ := WrittenIsReady(m, v, msgType, pushes, checksummed);
    MessageFields(cfg, m, v, msgType, pushes, checksummed);
    IterationTerminates(cfg, m);
    var fields := Fields(cfg, m);
    assert Entries(m, fields) == [Entry(MSG_TYPE_TAG, msgType)] + PushedEntries(pushes);
    EntriesIndex(m, fields, 0);
    forall i | 0 <= i < |pushes|
      ensures EntryAt(m, fields[i + 1]) == PushedEntry(pushes[i])
    {
      EntriesIndex(m, fields, i + 1);
      PushedAt(pushes, i);
    }
  }

  /** Cutting among tags alone: the count field is found, and the entries behind it are the pushed ones. */
  lemma GroupAmongFields(m: bytes, fields: seq<Cursor>, before: seq<Push>, count: Push, entries: seq<seq<Push>>,
                         behind: seq<Push>, delimiter: int)
    requires forall i | 0 <= i < |fields| :: InMessage(m, fields[i])
    requires count.IsField() && IntegerOf(count.Value(), UINT64) == Some(|entries|)
    requires var pushes := before + [count] + (Flatten(entries) + behind);
             |fields| == |pushes| + 1 && TagsAt(fields, 1, pushes)
    requires fields[0].tag != count.tag && WithoutTag(before, count.tag)
    requires EntryAt(m, fields[|before| + 1]) == PushedEntry(count)
    requires ArePushedEntries(entries, delimiter) && WithoutTag(behind, delimiter)
    ensures GroupEntries(m, fields, 0, |fields|, count.tag, delimiter)
            == EntryRanges(entries, |before| + 2, |fields|)
  {
    hide TagsAt, WithoutTag, IsPushedEntry, ArePushedEntries, EntriesFrom, IntegerOf, Push.Value, FirstTag;
    var hi, k, rest := |fields|, |before| + 1, Flatten(entries) + behind;
    TagsSplit(fields, 1, before + [count], rest);
    TagsSplit(fields, 1, before, [count]);
    NoTagAt(fields, 1, before, count.tag);
    assert fields[k].tag == count.tag;
    FirstTagIs(fields, 0, hi, count.tag, k);
    assert GroupRange(m, fields, 0, hi, count.tag) == (k + 1, |entries|);
    EntriesPushed(fields, k + 1, entries, behind, delimiter);
    if |entries| > 0 {
      NextEntry(fields, k + 1, entries, behind, delimiter);
      FirstTagIs(fields, k + 1, hi, delimiter, k + 1);
    } else {
      EntriesStop(fields, FirstTag(fields, k + 1, hi, delimiter), hi, delimiter, 0);
    }
  }

  /**
   The round trip of a repeating group. A message is written with a count field whose value
   reads as n, then n entries that each start with the delimiter and have no other, and other
   fields in front and behind, without a further delimiter behind. The reader's view of the
   group is exactly those entries, field by field, the last one extended to the end.
   */
  lemma GroupWriteThenRead(cfg: Config, m: bytes, v: bytes, msgType: bytes, before: seq<Push>, count: Push,
                           entries: seq<seq<Push>>, behind: seq<Push>, checksummed: bool, delimiter: int)
    requires var pushes := before + [count] + (Flatten(entries) + behind);
             Written(m, v, msgType, pushes, checksummed) && AllReadable(cfg, pushes)
    requires 7 <= |v| <= 10
    requires count.IsField() && count.tag != MSG_TYPE_TAG && IntegerOf(count.Value(), UINT64) == Some(|entries|)
    requires WithoutTag(before, count.tag)
    requires ArePushedEntries(entries, delimiter) && WithoutTag(behind, delimiter)
    ensures Recognise(m).Valid? && forall i | 0 <= i < |Fields(cfg, m)| :: InMessage(m, Fields(cfg, m)[i])
    ensures var fields := Fields(cfg, m);
            var pushes := before + [count] + (Flatten(entries) + behind);
            && |fields| == |pushes| + 1
            && (forall i | 0 <= i < |pushes| ::
                  pushes[i].IsField() && EntryAt(m, fields[i + 1]) == PushedEntry(pushes[i]))
            && GroupEntries(m, fields, 0, |fields|, count.tag, delimiter)
               == EntryRanges(entries, |before| + 2, |fields|)
  {
    hide Written, AllReadable, Recognise, Fields, InMessage, WithoutTag, ArePushedEntries, IntegerOf, Push.Value;
    var pushes := before + [count] + (Flatten(entries) + behind);
    FieldsOfMessage(cfg, m, v, msgType, pushes, checksummed);
    var fields := Fields(cfg, m);
    forall i | 0 <= i < |pushes|
      ensures fields[i + 1].tag == pushes[i].tag
    {
      assert EntryAt(m, fields[i + 1]).tag == pushes[i].tag;
    }
    assert pushes[|before|] == count;
    hide EntryAt, PushedEntry, GroupEntries;
    GroupAmongFields(m, fields, before, count, entries, behind, delimiter);
  }

  /** An integer pushed as count reads as that count. */
  lemma PushedCount(tag: int, n: nat, ty: IntType)
    requires n <= UINT64.max
    ensures IntegerOf(Integer(tag, n, ty).Value(), UINT64) == Some(n)
  {
    StandardTypes();
    hide IntegerOf, Itoa;
    IntegerRoundTrip(n, UINT64);
  }

  const ONE: bytes := [0x31]

  /**
   A message whose one declared entry takes in the field behind the group: NoPartyIDs is 1,
   PartyID opens the entry, and Text, which is no field of the group, is its last field.
   */
  lemma LeakingView(cfg: Config, m: bytes, v: bytes, msgType: bytes, checksummed: bool)
    requires Written(m, v, msgType, [Text(453, ONE), Text(448, [0x41]), Text(58, [0x42])], checksummed)
    requires 7 <= |v| <= 10 && 453 !in cfg.lengthTags && 448 !in cfg.lengthTags && 58 !in cfg.lengthTags
    ensures Recognise(m).Valid? && |Fields(cfg, m)| == 4 && Fields(cfg, m)[3].tag == 58
    ensures forall i | 0 <= i < |Fields(cfg, m)| :: InMessage(m, Fields(cfg, m)[i])
    ensures GroupEntries(m, Fields(cfg, m), 0, 4, 453, 448) == [(2, 4)]
  {
    var count, entry, behind := Text(453, ONE), [Text(448, [0x41])], [Text(58, [0x42])];
    var pushes := [] + [count] + (Flatten([entry]) + behind);
    LeakingPushes(cfg);
    hide Written, AllReadable, Recognise, Fields, InMessage, IntegerOf, Flatten, GroupEntries, WithoutTag,
      ArePushedEntries, Push.Value;
    assert pushes == [count, entry[0], behind[0]];
    GroupWriteThenRead(cfg, m, v, msgType, [], count, [entry], behind, checksummed, 448);
    assert EntryAt(m, Fields(cfg, m)[3]) == PushedEntry(pushes[2]);
  }

  lemma LeakingPushes(cfg: Config)
    requires 453 !in cfg.lengthTags && 448 !in cfg.lengthTags && 58 !in cfg.lengthTags
    ensures Flatten([[Text(448, [0x41])]]) == [Text(448, [0x41])]
    ensures AllReadable(cfg, [Text(453, ONE), Text(448, [0x41]), Text(58, [0x42])])
    ensures IntegerOf(Text(453, ONE).Value(), UINT64) == Some(1)
    ensures WithoutTag([], 453) && WithoutTag([Text(58, [0x42])], 448)
    ensures ArePushedEntries([[Text(448, [0x41])]], 448)
  {
    assert Flatten([[Text(448, [0x41])]][1..]) == [];
    assert IsPushedEntry([Text(448, [0x41])], 448);
    hide IntegerOf;
  }
}
