/**
 Repeating groups: a view over the fields behind a count field, cut into entries at
 every delimiter and bounded by the declared count. Groups nest: an entry is again a
 range of fields to look for a group in.
 */
module Groups {
  import opened Bytes
  import opened IntegerCodec
  import opened FieldIterator
  import opened FieldStream

  // ----- the reference: entries as ranges of field numbers

  /** Entries from a delimiter at `from` on: each runs to the next delimiter or to the end of the range. */
  function EntriesFrom(fields: seq<Cursor>, from: nat, hi: nat, delimiter: int, count: nat): seq<(nat, nat)>
    requires from <= hi <= |fields|
    decreases hi - from
  {
    if count == 0 || from == hi then []
    else
      var end := FirstTag(fields, from + 1, hi, delimiter);
      [(from, end)] + EntriesFrom(fields, end, hi, delimiter, count - 1)
  }

  /** The entries of a view over the fields from `lo` to `hi`. */
  function ViewEntries(fields: seq<Cursor>, lo: nat, hi: nat, delimiter: int, count: nat): seq<(nat, nat)>
    requires lo <= hi <= |fields|
  {
    EntriesFrom(fields, FirstTag(fields, lo, hi, delimiter), hi, delimiter, count)
  }

  /** How many fields of the range carry the tag. */
  function Occurrences(fields: seq<Cursor>, lo: nat, hi: nat, tag: int): nat
    requires lo <= hi <= |fields|
    decreases hi - lo
  {
    if lo == hi then 0 else (if fields[lo].tag == tag then 1 else 0) + Occurrences(fields, lo + 1, hi, tag)
  }

  /** Skipping to the first occurrence skips none. */
  lemma {:induction false} SkipToFirst(fields: seq<Cursor>, lo: nat, hi: nat, tag: int)
    requires lo <= hi <= |fields|
    ensures var k := FirstTag(fields, lo, hi, tag);
            Occurrences(fields, lo, hi, tag) == Occurrences(fields, k, hi, tag)
    decreases hi - lo
  {
    if lo < hi && fields[lo].tag != tag {
      SkipToFirst(fields, lo + 1, hi, tag);
    }
  }

  /** One entry of a group: it opens with the delimiter and holds no other. */
  ghost predicate IsEntry(fields: seq<Cursor>, e: (nat, nat), delimiter: int) {
    && e.0 < e.1 <= |fields| && fields[e.0].tag == delimiter
    && forall i | e.0 < i < e.1 :: fields[i].tag != delimiter
  }

  /** Entries one after the other, from `from`, without a gap; the last ends at a delimiter or at `hi`. */
  ghost predicate Contiguous(fields: seq<Cursor>, entries: seq<(nat, nat)>, from: nat, hi: nat, delimiter: int) {
    && (|entries| > 0 ==> entries[0].0 == from)
    && (forall i | 0 <= i < |entries| - 1 :: entries[i].1 == entries[i + 1].0)
    && (forall i | 0 <= i < |entries| :: entries[i].1 <= hi <= |fields|)
    && (forall i | 0 <= i < |entries| :: entries[i].1 == hi || fields[entries[i].1].tag == delimiter)
  }

  lemma {:induction false} EntriesFromShape(fields: seq<Cursor>, from: nat, hi: nat, delimiter: int, count: nat)
    requires from <= hi <= |fields| && (from < hi ==> fields[from].tag == delimiter)
    ensures var entries := EntriesFrom(fields, from, hi, delimiter, count);
            var total := Occurrences(fields, from, hi, delimiter);
            && |entries| == (if count < total then count else total)
            && (forall i | 0 <= i < |entries| :: IsEntry(fields, entries[i], delimiter))
            && Contiguous(fields, entries, from, hi, delimiter)
    decreases hi - from
  {
    if count > 0 && from < hi {
      var end := FirstTag(fields, from + 1, hi, delimiter);
      EntriesFromShape(fields, end, hi, delimiter, count - 1);
      SkipToFirst(fields, from + 1, hi, delimiter);
      EntriesStep(fields, from, hi, delimiter, count);
      ShapeGrows(fields, from, end, EntriesFrom(fields, end, hi, delimiter, count - 1), hi, delimiter);
    }
  }

  /** One more entry in front of a contiguous list. */
  lemma ShapeGrows(fields: seq<Cursor>, from: nat, end: nat, rest: seq<(nat, nat)>, hi: nat, delimiter: int)
    requires from < end <= hi <= |fields| && IsEntry(fields, (from, end), delimiter)
    requires end == hi || fields[end].tag == delimiter
    requires Contiguous(fields, rest, end, hi, delimiter)
    requires forall i | 0 <= i < |rest| :: IsEntry(fields, rest[i], delimiter)
    ensures var entries := [(from, end)] + rest;
            && (forall i | 0 <= i < |entries| :: IsEntry(fields, entries[i], delimiter))
            && Contiguous(fields, entries, from, hi, delimiter)
  {
    hide IsEntry;
    var entries := [(from, end)] + rest;
    assert forall i | 1 <= i < |entries| :: entries[i] == rest[i - 1];
  }

  /**
   A view yields the smaller of the declared count and the number of delimiters in its
   range. Every entry opens with the delimiter and holds no other, and together they
   are one stretch of the field stream from the first delimiter on.
   */
  lemma ViewShape(fields: seq<Cursor>, lo: nat, hi: nat, delimiter: int, count: nat)
    requires lo <= hi <= |fields|
    ensures var entries := ViewEntries(fields, lo, hi, delimiter, count);
            var total := Occurrences(fields, lo, hi, delimiter);
            && |entries| == (if count < total then count else total)
            && (forall i | 0 <= i < |entries| :: IsEntry(fields, entries[i], delimiter))
            && Contiguous(fields, entries, FirstTag(fields, lo, hi, delimiter), hi, delimiter)
  {
    SkipToFirst(fields, lo, hi, delimiter);
    EntriesFromShape(fields, FirstTag(fields, lo, hi, delimiter), hi, delimiter, count);
  }

  /** Behind the last delimiter there is none to find. */
  lemma {:induction false} NoneBehind(fields: seq<Cursor>, k: nat, hi: nat, tag: int)
    requires k <= hi <= |fields| && forall i | k <= i < hi :: fields[i].tag != tag
    ensures FirstTag(fields, k, hi, tag) == hi && Occurrences(fields, k, hi, tag) == 0
    decreases hi - k
  {
    if k < hi {
      NoneBehind(fields, k + 1, hi, tag);
    }
  }

  /** An entry that starts at a delimiter ends before `g` exactly when another delimiter follows. */
  lemma EntryEnd(fields: seq<Cursor>, from: nat, g: nat, hi: nat, delimiter: int)
    requires from < g <= hi <= |fields| && forall i | g <= i < hi :: fields[i].tag != delimiter
    ensures FirstTag(fields, from + 1, hi, delimiter) < g || FirstTag(fields, from + 1, hi, delimiter) == hi
    ensures FirstTag(fields, from + 1, hi, delimiter) == hi <==> Occurrences(fields, from + 1, hi, delimiter) == 0
  {
    var end := FirstTag(fields, from + 1, hi, delimiter);
    if end == hi {
      NoneBehind(fields, from + 1, hi, delimiter);
    }
    SkipToFirst(fields, from + 1, hi, delimiter);
  }

  lemma {:induction false} EntriesWithin(fields: seq<Cursor>, from: nat, g: nat, hi: nat, delimiter: int, count: nat)
    requires from <= hi && g <= hi <= |fields| && forall i | g <= i < hi :: fields[i].tag != delimiter
    requires from == hi || (from < g && fields[from].tag == delimiter)
    ensures (forall i | 0 <= i < |EntriesFrom(fields, from, hi, delimiter, count)| ::
               EntriesFrom(fields, from, hi, delimiter, count)[i].1 <= g) <==>
            g == hi || count == 0 || Occurrences(fields, from, hi, delimiter) == 0
            || count < Occurrences(fields, from, hi, delimiter)
    decreases hi - from
  {
    hide EntriesFrom, Occurrences, FirstTag;
    EntriesStop(fields, from, hi, delimiter, count);
    OccurrencesStep(fields, from, hi, delimiter);
    if from < hi && count > 0 {
      var end := FirstTag(fields, from + 1, hi, delimiter);
      OccurrencesStep(fields, end, hi, delimiter);
      EntryEnd(fields, from, g, hi, delimiter);
      SkipToFirst(fields, from + 1, hi, delimiter);
      EntriesStep(fields, from, hi, delimiter, count);
      EntriesWithin(fields, end, g, hi, delimiter, count - 1);
      FirstAndRest((from, end), EntriesFrom(fields, end, hi, delimiter, count - 1), g);
      EntriesStop(fields, end, hi, delimiter, count - 1);
    }
  }

  lemma OccurrencesStep(fields: seq<Cursor>, from: nat, hi: nat, tag: int)
    requires from <= hi <= |fields|
    ensures from == hi ==> Occurrences(fields, from, hi, tag) == 0
    ensures from < hi ==> Occurrences(fields, from, hi, tag) ==
                          (if fields[from].tag == tag then 1 else 0) + Occurrences(fields, from + 1, hi, tag)
  {
  }

  lemma FirstAndRest(e: (nat, nat), rest: seq<(nat, nat)>, g: nat)
    ensures (forall i | 0 <= i < |[e] + rest| :: ([e] + rest)[i].1 <= g) <==>
            e.1 <= g && forall i | 0 <= i < |rest| :: rest[i].1 <= g
  {
    assert ([e] + rest)[0] == e && forall i | 0 <= i < |rest| :: ([e] + rest)[i + 1] == rest[i];
  }

  /**
   When nothing behind a group leaks into its entries. With no delimiter from `g` on, all
   entries end at or before `g` exactly when there is nothing behind `g`, or no entry at
   all, or more delimiters than the declared count: the count bounds the number of
   entries, not where the last delimiter's entry ends.
   */
  lemma NothingLeaks(fields: seq<Cursor>, lo: nat, g: nat, hi: nat, delimiter: int, count: nat)
    requires lo <= g <= hi <= |fields| && forall i | g <= i < hi :: fields[i].tag != delimiter
    ensures var entries := ViewEntries(fields, lo, hi, delimiter, count);
            (forall i | 0 <= i < |entries| :: entries[i].1 <= g) <==>
            g == hi || count == 0 || Occurrences(fields, lo, hi, delimiter) == 0
            || count < Occurrences(fields, lo, hi, delimiter)
  {
    hide EntriesFrom, Occurrences, FirstTag;
    var k := FirstTag(fields, lo, hi, delimiter);
    SkipToFirst(fields, lo, hi, delimiter);
    EntriesWithin(fields, k, g, hi, delimiter, count);
    assert ViewEntries(fields, lo, hi, delimiter, count) == EntriesFrom(fields, k, hi, delimiter, count);
  }

  /** Where the group with a count field in the range from `lo` to `hi` starts, and its declared count. */
  function GroupRange(m: bytes, fields: seq<Cursor>, lo: nat, hi: nat, countTag: int): (r: (nat, nat))
    requires lo <= hi <= |fields| && (forall i | 0 <= i < |fields| :: InMessage(m, fields[i]))
    ensures lo <= r.0 <= hi
  {
    match Search(fields, lo, hi, lo, countTag)
    case None => (hi, 0)
    case Some(k) =>
      assert InMessage(m, fields[k]);
      match IntegerOf(m[fields[k].valueBegin..fields[k].valueEnd], UINT64)
      case None => (hi, 0)
      case Some(n) => (k + 1, n)
  }

  /** The entries of the group with that count field in the range. */
  function GroupEntries(m: bytes, fields: seq<Cursor>, lo: nat, hi: nat, countTag: int, delimiter: int): seq<(nat, nat)>
    requires lo <= hi <= |fields| && (forall i | 0 <= i < |fields| :: InMessage(m, fields[i]))
  {
    var (from, count) := GroupRange(m, fields, lo, hi, countTag);
    ViewEntries(fields, from, hi, delimiter, count)
  }

  /**
   A group looked up in an entry sees nothing but that entry's fields: all its entries
   lie inside the entry, behind the count field.
   */
  lemma InnerGroupConfined(m: bytes, fields: seq<Cursor>, lo: nat, hi: nat, countTag: int, delimiter: int)
    requires lo <= hi <= |fields| && (forall i | 0 <= i < |fields| :: InMessage(m, fields[i]))
    ensures var inner := GroupEntries(m, fields, lo, hi, countTag, delimiter);
            forall i | 0 <= i < |inner| :: lo < inner[i].0 < inner[i].1 <= hi
  {
    var (from, count) := GroupRange(m, fields, lo, hi, countTag);
    ViewShape(fields, from, hi, delimiter, count);
    var inner := ViewEntries(fields, from, hi, delimiter, count);
    if |inner| > 0 {
      EntriesAscend(fields, inner, FirstTag(fields, from, hi, delimiter), hi, delimiter);
    }
  }

  lemma {:induction false} EntriesAscend(fields: seq<Cursor>, entries: seq<(nat, nat)>, from: nat, hi: nat, delimiter: int)
    requires Contiguous(fields, entries, from, hi, delimiter)
    requires forall i | 0 <= i < |entries| :: IsEntry(fields, entries[i], delimiter)
    ensures forall i | 0 <= i < |entries| :: from <= entries[i].0
    decreases |entries|
  {
    if |entries| > 1 {
      var shorter := entries[..|entries| - 1];
      assert forall i | 0 <= i < |shorter| :: shorter[i] == entries[i];
      EntriesAscend(fields, shorter, from, hi, delimiter);
      var last := |entries| - 1;
      assert entries[last - 1].1 == entries[last].0;
      assert from <= shorter[last - 1].0;
    }
  }

  // ----- the iterators

  datatype View = View(begin: Cursor, end: Cursor, count: nat, delimiter: int)

  /** Iterator pairs that stand for a list of entries. */
  ghost predicate PairsStand(m: bytes, fields: seq<Cursor>, pairs: seq<(Cursor, Cursor)>, entries: seq<(nat, nat)>) {
    && |pairs| == |entries|
    && forall i | 0 <= i < |pairs| ::
         Stands(m, fields, entries[i].0, pairs[i].0) && Stands(m, fields, entries[i].1, pairs[i].1)
  }

  /** Advancing at least once and up to the next delimiter or the end. */
  method NextDelimiter(cfg: Config, m: bytes, from: Cursor, end: Cursor, delimiter: int,
                       ghost fields: seq<Cursor>, ghost k: nat, ghost hi: nat)
    returns (j: Cursor)
    requires Chain(cfg, m, fields) && k < hi <= |fields| && Stands(m, fields, k, from) && Stands(m, fields, hi, end)
    ensures Stands(m, fields, FirstTag(fields, k + 1, hi, delimiter), j)
  {
    hide Next, Stands;
    var it := new FieldIterator(cfg, m, from);
    StepStands(cfg, m, fields, k, from);
    assert IsMessageBytes(m);
    hide Chain;
    it.Increment();
    j := FindIf(cfg, m, it.Where(), end, delimiter, fields, k + 1, hi);
  }

  /** The iterator over a group's entries. */
  class GroupIterator {
    const cfg: Config
    const message: bytes
    const groupEnd: Cursor
    const delimiter: int
    var entryBegin: Cursor
    var entryEnd: Cursor
    var remaining: nat

    /** It stands on the entry of fields from `k`, with `remaining` still to give out, or past the last. */
    ghost predicate At(fields: seq<Cursor>, k: nat, hi: nat)
      reads this
    {
      && Chain(cfg, message, fields) && k <= hi <= |fields| && Stands(message, fields, hi, groupEnd)
      && Stands(message, fields, k, entryBegin) && (k == hi <==> remaining == 0)
      && Stands(message, fields, if k == hi then hi else FirstTag(fields, k + 1, hi, delimiter), entryEnd)
    }

    constructor (cfg: Config, message: bytes, begin: Cursor, groupEnd: Cursor, delimiter: int, count: nat,
                 ghost fields: seq<Cursor>, ghost k: nat, ghost hi: nat)
      requires Chain(cfg, message, fields) && k <= hi <= |fields|
      requires Stands(message, fields, k, begin) && Stands(message, fields, hi, groupEnd)
      ensures this.cfg == cfg && this.message == message && this.groupEnd == groupEnd && this.delimiter == delimiter
      ensures At(fields, if count == 0 then hi else k, hi) && (k < hi ==> remaining == count)
    {
      this.cfg, this.message, this.groupEnd, this.delimiter := cfg, message, groupEnd, delimiter;
      entryBegin, entryEnd, remaining := begin, begin, count;
      new;
      hide Chain, Stands, Next;
      SamePlace(cfg, message, fields, k, begin, hi, groupEnd);
      if remaining == 0 || entryBegin.at == groupEnd.at {
        entryBegin, entryEnd, remaining := groupEnd, groupEnd, 0;
      } else {
        entryEnd := NextDelimiter(cfg, message, entryBegin, groupEnd, delimiter, fields, k, hi);
      }
    }

    /** Whether the iterator equals the view's end. */
    predicate AtEnd()
      reads this
    {
      entryBegin.at == groupEnd.at && remaining == 0
    }

    /** `operator++` */
    method Increment(ghost fields: seq<Cursor>, ghost k: nat, ghost hi: nat)
      requires At(fields, k, hi) && k < hi
      modifies this
      ensures var next := FirstTag(fields, k + 1, hi, delimiter);
              At(fields, if old(remaining) == 1 then hi else next, hi)
              && (old(remaining) > 1 && next < hi ==> remaining == old(remaining) - 1)
    {
      hide Chain, Stands, Next;
      ghost var next := FirstTag(fields, k + 1, hi, delimiter);
      SamePlace(cfg, message, fields, next, entryEnd, hi, groupEnd);
      remaining := remaining - 1;
      if remaining == 0 || entryEnd.at == groupEnd.at {
        entryBegin, entryEnd, remaining := groupEnd, groupEnd, 0;
      } else {
        entryBegin := entryEnd;
        entryEnd := NextDelimiter(cfg, message, entryBegin, groupEnd, delimiter, fields, next, hi);
      }
    }
  }

  /** A loop over a view's entries. */
  method CollectEntries(cfg: Config, m: bytes, view: View, ghost fields: seq<Cursor>, ghost lo: nat, ghost hi: nat)
    returns (pairs: seq<(Cursor, Cursor)>)
    requires Chain(cfg, m, fields) && lo <= hi <= |fields|
    requires Stands(m, fields, lo, view.begin) && Stands(m, fields, hi, view.end)
    ensures PairsStand(m, fields, pairs, ViewEntries(fields, lo, hi, view.delimiter, view.count))
  {
    hide Chain, Stands, Next, EntriesFrom, FirstTag, PairsStand, ViewEntries;
    var first := FindIf(cfg, m, view.begin, view.end, view.delimiter, fields, lo, hi);
    ghost var k := FirstTag(fields, lo, hi, view.delimiter);
    ghost var whole := EntriesFrom(fields, k, hi, view.delimiter, view.count);
    PairsBegin(m, fields, lo, hi, view.delimiter, view.count);
    var it := new GroupIterator(cfg, m, first, view.end, view.delimiter, view.count, fields, k, hi);
    EntriesStop(fields, k, hi, view.delimiter, view.count);
    k := if view.count == 0 then hi else k;
    pairs := [];
    ghost var done: seq<(nat, nat)> := [];
    EntriesStop(fields, k, hi, view.delimiter, it.remaining);
    SamePlace(cfg, m, fields, k, it.entryBegin, hi, it.groupEnd);
    while !it.AtEnd()
      invariant it.cfg == cfg && it.message == m && it.groupEnd == view.end && it.delimiter == view.delimiter
      invariant fresh(it) && it.At(fields, k, hi) && (it.AtEnd() <==> k == hi)
      invariant whole == done + EntriesFrom(fields, k, hi, view.delimiter, it.remaining)
      invariant PairsStand(m, fields, pairs, done)
      decreases hi - k
    {
      ghost var next := FirstTag(fields, k + 1, hi, view.delimiter);
      EntriesStep(fields, k, hi, view.delimiter, it.remaining);
      PairsGrow(m, fields, pairs, done, (it.entryBegin, it.entryEnd), (k, next));
      pairs := pairs + [(it.entryBegin, it.entryEnd)];
      ghost var left := it.remaining - 1;
      done := done + [(k, next)];
      it.Increment(fields, k, hi);
      EntriesStop(fields, next, hi, view.delimiter, left);
      k := if left == 0 then hi else next;
      EntriesStop(fields, k, hi, view.delimiter, it.remaining);
      SamePlace(cfg, m, fields, k, it.entryBegin, hi, it.groupEnd);
    }
    EntriesStop(fields, k, hi, view.delimiter, it.remaining);
    assert done + [] == done;
  }

  lemma EntriesStop(fields: seq<Cursor>, from: nat, hi: nat, delimiter: int, count: nat)
    requires from <= hi <= |fields|
    ensures count == 0 || from == hi ==> EntriesFrom(fields, from, hi, delimiter, count) == []
  {
  }

  lemma EntriesStep(fields: seq<Cursor>, from: nat, hi: nat, delimiter: int, count: nat)
    requires from < hi <= |fields| && count > 0
    ensures var end := FirstTag(fields, from + 1, hi, delimiter);
            EntriesFrom(fields, from, hi, delimiter, count)
            == [(from, end)] + EntriesFrom(fields, end, hi, delimiter, count - 1)
  {
  }

  lemma PairsBegin(m: bytes, fields: seq<Cursor>, lo: nat, hi: nat, delimiter: int, count: nat)
    requires lo <= hi <= |fields|
    ensures PairsStand(m, fields, [], [])
    ensures ViewEntries(fields, lo, hi, delimiter, count) ==
            EntriesFrom(fields, FirstTag(fields, lo, hi, delimiter), hi, delimiter, count)
  {
  }

  lemma PairsGrow(m: bytes, fields: seq<Cursor>, pairs: seq<(Cursor, Cursor)>, entries: seq<(nat, nat)>,
                  pair: (Cursor, Cursor), entry: (nat, nat))
    requires PairsStand(m, fields, pairs, entries)
    requires Stands(m, fields, entry.0, pair.0) && Stands(m, fields, entry.1, pair.1)
    ensures PairsStand(m, fields, pairs + [pair], entries + [entry])
  {
    hide Stands;
  }

  /** The same scan written out by hand: skip to the first delimiter, then cut at each one. */
  method HandScan(cfg: Config, m: bytes, begin: Cursor, end: Cursor, delimiter: int, count: nat,
                  ghost fields: seq<Cursor>, ghost lo: nat, ghost hi: nat)
    returns (pairs: seq<(Cursor, Cursor)>)
    requires Chain(cfg, m, fields) && lo <= hi <= |fields|
    requires Stands(m, fields, lo, begin) && Stands(m, fields, hi, end)
    ensures PairsStand(m, fields, pairs, ViewEntries(fields, lo, hi, delimiter, count))
  {
    hide Chain, Stands, Next, EntriesFrom, FirstTag, PairsStand, ViewEntries;
    var it := FindIf(cfg, m, begin, end, delimiter, fields, lo, hi);
    ghost var k: nat := FirstTag(fields, lo, hi, delimiter);
    ghost var whole := EntriesFrom(fields, k, hi, delimiter, count);
    PairsBegin(m, fields, lo, hi, delimiter, count);
    pairs := [];
    ghost var done: seq<(nat, nat)> := [];
    ghost var left: nat := count;
    var seen: nat := 0;
    SamePlace(cfg, m, fields, k, it, hi, end);
    while seen < count && it.at != end.at
      invariant seen + left == count && k <= hi && Stands(m, fields, k, it) && (it.at == end.at <==> k == hi)
      invariant whole == done + EntriesFrom(fields, k, hi, delimiter, left)
      invariant PairsStand(m, fields, pairs, done)
      decreases left
    {
      ghost var next := FirstTag(fields, k + 1, hi, delimiter);
      EntriesStep(fields, k, hi, delimiter, left);
      var entryBegin := it;
      it := NextDelimiter(cfg, m, it, end, delimiter, fields, k, hi);
      PairsGrow(m, fields, pairs, done, (entryBegin, it), (k, next));
      left := left - 1;
      pairs, done, k, seen := pairs + [(entryBegin, it)], done + [(k, next)], next, seen + 1;
      SamePlace(cfg, m, fields, k, it, hi, end);
    }
    EntriesStop(fields, k, hi, delimiter, left);
    assert done + [] == done;
  }

  /** What a group's range is, by what the search for its count field finds. */
  lemma RangeCases(m: bytes, fields: seq<Cursor>, lo: nat, hi: nat, countTag: int)
    requires lo <= hi <= |fields| && (forall i | 0 <= i < |fields| :: InMessage(m, fields[i]))
    ensures var k := Search(fields, lo, hi, lo, countTag);
            && (k.None? ==> GroupRange(m, fields, lo, hi, countTag) == (hi, 0))
            && (k.Some? ==>
                  InMessage(m, fields[k.value]) &&
                  var n := IntegerOf(m[fields[k.value].valueBegin..fields[k.value].valueEnd], UINT64);
                  GroupRange(m, fields, lo, hi, countTag) == if n.None? then (hi, 0) else (k.value + 1, n.value))
  {
    hide Search, IntegerOf;
  }

  /** `group` on a reader or on a group entry: the fields from `begin` to `end` are searched for the count field. */
  method Group(cfg: Config, m: bytes, begin: Cursor, end: Cursor, countTag: int, delimiter: int,
               ghost fields: seq<Cursor>, ghost lo: nat, ghost hi: nat)
    returns (view: View)
    requires Chain(cfg, m, fields) && lo <= hi <= |fields|
    requires Stands(m, fields, lo, begin) && Stands(m, fields, hi, end)
    ensures forall i | 0 <= i < |fields| :: InMessage(m, fields[i])
    ensures var (from, count) := GroupRange(m, fields, lo, hi, countTag);
            view.count == count && view.delimiter == delimiter
            && Stands(m, fields, from, view.begin) && Stands(m, fields, hi, view.end)
  {
    assert IsMessageBytes(m) && forall i | 0 <= i < |fields| :: InMessage(m, fields[i]);
    RangeCases(m, fields, lo, hi, countTag);
    hide Chain, Next, IntegerOf, Search, GroupRange;
    var found, it := FindWithHint(cfg, m, begin, end, countTag, begin, fields, lo, hi, lo);
    if !found {
      return View(end, end, 0, delimiter);
    }
    StandardTypes();
    ghost var k := Search(fields, lo, hi, lo, countTag).value;
    var count := TryAtou(m[it.valueBegin..it.valueEnd], UINT64);
    if count.None? {
      return View(end, end, 0, delimiter);
    }
    StepStands(cfg, m, fields, k, it);
    var after := new FieldIterator(cfg, m, it);
    after.Increment();
    view := View(after.Where(), end, count.value, delimiter);
  }
}
