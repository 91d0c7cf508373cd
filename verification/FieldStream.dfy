/**
 The fields of a frame as a stream that iterators walk over, and the search with a
 carried hint: forward from the hint to the end, then from the beginning to the hint.
 */
module FieldStream {
  import opened Bytes
  import opened Frames
  import opened FieldIterator

  /** `fields` is what increments visit one after the other until they land on the CheckSum. */
  ghost predicate Chain(cfg: Config, m: bytes, fields: seq<Cursor>) {
    && IsMessageBytes(m) && Ordered(m, fields)
    && (forall i | 0 <= i < |fields| :: !AtEnd(m, fields[i]))
    && (forall i | 0 <= i < |fields| - 1 :: Next(cfg, m, fields[i]) == fields[i + 1])
    && (|fields| > 0 ==> AtEnd(m, Next(cfg, m, fields[|fields| - 1])))
  }

  lemma {:induction false} WalkIsChain(cfg: Config, m: bytes, c: Cursor)
    requires IsMessageBytes(m) && InMessage(m, c)
    ensures Chain(cfg, m, Walk(cfg, m, c))
    decreases if AtEnd(m, c) then 0 else |m| + 2 - c.valueEnd
  {
    hide Next, Walk, Ordered;
    WalkOrdered(cfg, m, c);
    WalkStep(cfg, m, c);
    if !AtEnd(m, c) {
      NextAdvances(cfg, m, c);
      var n := Next(cfg, m, c);
      WalkIsChain(cfg, m, n);
      WalkStep(cfg, m, n);
    }
  }

  /** The fields of every valid frame form a chain. */
  lemma FieldsAreChain(cfg: Config, buf: bytes)
    requires Recognise(buf).Valid?
    ensures Chain(cfg, buf[..Recognise(buf).frame.Size()], Fields(cfg, buf))
  {
    MessageOf(buf);
    WalkIsChain(cfg, buf[..Recognise(buf).frame.Size()], BeginCursor(Recognise(buf).frame));
    hide Walk, Next, Recognise;
  }

  /** The iterator `c` stands on field `k`; on the CheckSum when there is no such field. */
  ghost predicate Stands(m: bytes, fields: seq<Cursor>, k: nat, c: Cursor) {
    |m| >= 8 && k <= |fields| && (if k < |fields| then c == fields[k] else AtEnd(m, c))
  }

  /** An increment steps to the next field. */
  lemma StepStands(cfg: Config, m: bytes, fields: seq<Cursor>, k: nat, c: Cursor)
    requires Chain(cfg, m, fields) && k < |fields| && Stands(m, fields, k, c)
    ensures Stands(m, fields, k + 1, Next(cfg, m, c))
  {
    hide Next;
  }

  /** Iterators are compared by position alone, and that is enough. */
  lemma SamePlace(cfg: Config, m: bytes, fields: seq<Cursor>, i: nat, a: Cursor, j: nat, b: Cursor)
    requires Chain(cfg, m, fields) && Stands(m, fields, i, a) && Stands(m, fields, j, b)
    ensures a.at == b.at <==> i == j
  {
    hide Next;
  }

  /** The first field from `lo` on with the tag, `hi` when there is none before it. */
  function FirstTag(fields: seq<Cursor>, lo: nat, hi: nat, tag: int): (k: nat)
    requires lo <= hi <= |fields|
    ensures lo <= k <= hi && (k < hi ==> fields[k].tag == tag)
    ensures forall i | lo <= i < k :: fields[i].tag != tag
    decreases hi - lo
  {
    if lo == hi || fields[lo].tag == tag then lo else FirstTag(fields, lo + 1, hi, tag)
  }

  /** What a search with a hint finds among the fields from `lo` to `hi`. */
  function Search(fields: seq<Cursor>, lo: nat, hi: nat, hint: nat, tag: int): (k: Option<nat>)
    requires lo <= hint <= hi <= |fields|
    ensures k.Some? <==> exists i :: lo <= i < hi && fields[i].tag == tag
    ensures k.Some? ==> lo <= k.value < hi && fields[k.value].tag == tag
  {
    var after := FirstTag(fields, hint, hi, tag);
    if after < hi then Some(after)
    else
      var before := FirstTag(fields, lo, hint, tag);
      if before < hint then Some(before) else None
  }

  /** A search finds the first field with the tag at or behind the hint; only if there is none the
      first one in front of it. */
  lemma SearchNearest(fields: seq<Cursor>, lo: nat, hi: nat, hint: nat, tag: int, k: nat)
    requires lo <= hint <= hi <= |fields|
    ensures Search(fields, lo, hi, hint, tag) == Some(k) <==>
            && lo <= k < hi && fields[k].tag == tag
            && (if k >= hint then forall i | hint <= i < k :: fields[i].tag != tag
                else (forall i | hint <= i < hi :: fields[i].tag != tag) && forall i | lo <= i < k :: fields[i].tag != tag)
  {
    var found := Search(fields, lo, hi, hint, tag);
    if lo <= k < hi && fields[k].tag == tag {
      assert found.Some?;
    }
  }

  /** A search from the beginning finds the first occurrence. */
  lemma SearchFromBegin(fields: seq<Cursor>, lo: nat, hi: nat, tag: int)
    requires lo <= hi <= |fields|
    ensures var k := Search(fields, lo, hi, lo, tag);
            k.Some? ==> forall i | lo <= i < k.value :: fields[i].tag != tag
  {
  }

  /** `std::find_if` with `tag_equal`: a copy of the iterator moves on until it meets tag or end. */
  method FindIf(cfg: Config, m: bytes, from: Cursor, end: Cursor, tag: int,
                ghost fields: seq<Cursor>, ghost lo: nat, ghost hi: nat)
    returns (j: Cursor)
    requires Chain(cfg, m, fields) && lo <= hi && Stands(m, fields, lo, from) && Stands(m, fields, hi, end)
    ensures Stands(m, fields, FirstTag(fields, lo, hi, tag), j)
  {
    hide Next;
    var it := new FieldIterator(cfg, m, from);
    ghost var k := lo;
    SamePlace(cfg, m, fields, k, from, hi, end);
    while it.at != end.at && it.tag != tag
      invariant it.message == m && it.cfg == cfg && fresh(it)
      invariant lo <= k <= hi && Stands(m, fields, k, it.Where())
      invariant FirstTag(fields, k, hi, tag) == FirstTag(fields, lo, hi, tag)
      invariant it.at == end.at <==> k == hi
      decreases hi - k
    {
      StepStands(cfg, m, fields, k, it.Where());
      it.Increment();
      k := k + 1;
      SamePlace(cfg, m, fields, k, it.Where(), hi, end);
    }
    j := it.Where();
  }

  /** `find_with_hint`: the hint moves to the field found, or stays where it was. */
  method FindWithHint(cfg: Config, m: bytes, begin: Cursor, end: Cursor, tag: int, i: Cursor,
                      ghost fields: seq<Cursor>, ghost lo: nat, ghost hi: nat, ghost hint: nat)
    returns (found: bool, j: Cursor)
    requires Chain(cfg, m, fields) && lo <= hint <= hi
    requires Stands(m, fields, lo, begin) && Stands(m, fields, hi, end) && Stands(m, fields, hint, i)
    ensures found == Search(fields, lo, hi, hint, tag).Some?
    ensures found ==> Stands(m, fields, Search(fields, lo, hi, hint, tag).value, j)
    ensures !found ==> j == i
  {
    hide Next, Chain;
    j := FindIf(cfg, m, i, end, tag, fields, hint, hi);
    SamePlace(cfg, m, fields, FirstTag(fields, hint, hi, tag), j, hi, end);
    if j.at != end.at {
      return true, j;
    }
    j := FindIf(cfg, m, begin, i, tag, fields, lo, hint);
    SamePlace(cfg, m, fields, FirstTag(fields, lo, hint, tag), j, hint, i);
    if j.at != i.at {
      return true, j;
    }
    return false, i;
  }
}
