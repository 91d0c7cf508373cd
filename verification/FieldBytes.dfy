/**
 One increment of the field iterator, said byte by byte: what `=`, SOH and digits
 in front of the cursor make of the next field, well-formed or not.
 */
module FieldBytes {
  import opened Bytes
  import opened Digits
  import opened FieldIterator
  import opened RoundTrip

  /** The tag a digit string stands for, in 32-bit arithmetic. */
  lemma TagOfDigits(s: bytes, charSigned: bool)
    requires AllDigits(s)
    ensures TagValue(s, charSigned) == ToInt32(DigitsValue(s))
  {
    hide DigitsValue, Accumulated;
    AccumulatedDigits(s, TWO_TO_THE_32, charSigned);
    DigitsValueNonNegative(s);
    SameInt32(DigitsValue(s));
  }

  lemma SameInt32(x: nat)
    ensures ToInt32(x % TWO_TO_THE_32) == ToInt32(x)
  {
  }

  /** The tag scan stops at the first `=` or SOH. */
  lemma {:induction false} StopsAt(m: bytes, p: nat, stop: nat, soh: bool)
    requires p <= stop < |m| && (m[stop] == 0x3D || (soh && m[stop] == 0x01))
    requires forall i | p <= i < stop :: m[i] != 0x3D && (soh ==> m[i] != 0x01)
    ensures TagStop(m, p, soh) == stop
    decreases stop - p
  {
    if p < stop {
      StopsAt(m, p + 1, stop, soh);
    }
  }

  lemma DigitsAreNoStop(m: bytes, p: nat, stop: nat)
    requires p <= stop <= |m| && AllDigits(m[p..stop])
    ensures forall i | p <= i < stop :: m[i] != 0x3D && m[i] != 0x01
  {
    forall i | p <= i < stop ensures m[i] != 0x3D && m[i] != 0x01 {
      assert IsDigit(m[p..stop][i - p]);
    }
  }

  /** Digits and then an SOH: a field of that tag with an empty value. */
  lemma EmptyFieldNext(cfg: Config, m: bytes, c: Cursor, stop: nat)
    requires IsMessageBytes(m) && c.valueEnd + 1 <= stop < |m|
    requires AllDigits(m[c.valueEnd + 1..stop]) && m[stop] == 0x01
    ensures Next(cfg, m, c) == Cursor(c.valueEnd + 1, ToInt32(DigitsValue(m[c.valueEnd + 1..stop])), stop, stop)
  {
    hide TagValue, TagStop, DigitsValue;
    DigitsAreNoStop(m, c.valueEnd + 1, stop);
    StopsAt(m, c.valueEnd + 1, stop, true);
    TagOfDigits(m[c.valueEnd + 1..stop], cfg.charSigned);
  }

  /** Digits, `=`, a value and an SOH: that field, if the tag is no length tag. */
  lemma PlainFieldNext(cfg: Config, m: bytes, c: Cursor, stop: nat, end: nat)
    requires IsMessageBytes(m) && c.valueEnd + 1 <= stop < end < |m|
    requires AllDigits(m[c.valueEnd + 1..stop]) && m[stop] == 0x3D
    requires (forall i | stop < i < end :: m[i] != 0x01) && m[end] == 0x01
    requires ToInt32(DigitsValue(m[c.valueEnd + 1..stop])) !in cfg.lengthTags
    ensures Next(cfg, m, c) == Cursor(c.valueEnd + 1, ToInt32(DigitsValue(m[c.valueEnd + 1..stop])), stop + 1, end)
  {
    hide TagValue, TagStop, DigitsValue;
    DigitsAreNoStop(m, c.valueEnd + 1, stop);
    StopsAt(m, c.valueEnd + 1, stop, true);
    TagOfDigits(m[c.valueEnd + 1..stop], cfg.charSigned);
    hide FirstSoh;
    assert FirstSoh(m, stop + 1, |m|) == end;
  }

  /** A field without `=` is not the last: the field behind it is the next but one. */
  lemma BehindEmptyField(cfg: Config, m: bytes, c: Cursor, soh: nat, stop: nat, end: nat)
    requires IsMessageBytes(m) && c.valueEnd + 1 <= soh < stop < end < |m|
    requires AllDigits(m[c.valueEnd + 1..soh]) && m[soh] == 0x01
    requires AllDigits(m[soh + 1..stop]) && m[stop] == 0x3D
    requires (forall i | stop < i < end :: m[i] != 0x01) && m[end] == 0x01
    requires ToInt32(DigitsValue(m[soh + 1..stop])) !in cfg.lengthTags
    ensures Iterate(cfg, m, c, 2) == Cursor(soh + 1, ToInt32(DigitsValue(m[soh + 1..stop])), stop + 1, end)
  {
    var empty := Next(cfg, m, c);
    EmptyFieldNext(cfg, m, c, soh);
    PlainFieldNext(cfg, m, empty, stop, end);
    hide Next, DigitsValue;
    assert Iterate(cfg, m, c, 2) == Iterate(cfg, m, empty, 1);
    assert Iterate(cfg, m, Next(cfg, m, empty), 0) == Next(cfg, m, empty);
  }

  /** Nothing in front of the cursor: the CheckSum. */
  lemma NothingNext(cfg: Config, m: bytes, c: Cursor)
    requires IsMessageBytes(m) && c.valueEnd + 1 >= |m|
    ensures Next(cfg, m, c) == Cursor(|m| - 7, 10, |m| - 4, |m| - 1)
  {
  }

  /** The value of a length field in 64-bit arithmetic. */
  function LengthValue(s: bytes): (r: nat) {
    DigitsValue(s) % 0x1_0000_0000_0000_0000
  }

  /** A length field at the cursor: digits, `=`, digits, SOH. */
  ghost predicate LengthFieldAt(cfg: Config, m: bytes, p: nat, stop: nat, end: nat) {
    && p <= stop < end < |m|
    && AllDigits(m[p..stop]) && m[stop] == 0x3D && AllDigits(m[stop + 1..end]) && m[end] == 0x01
    && ToInt32(DigitsValue(m[p..stop])) in cfg.lengthTags
  }

  lemma LengthFieldNext(cfg: Config, m: bytes, c: Cursor, stop: nat, end: nat)
    requires IsMessageBytes(m) && LengthFieldAt(cfg, m, c.valueEnd + 1, stop, end)
    ensures Next(cfg, m, c) == NextData(cfg, m, stop + 1, end)
    ensures Accumulated(m[stop + 1..end], TWO_TO_THE_64, cfg.charSigned) == LengthValue(m[stop + 1..end])
  {
    hide TagValue, TagStop, DigitsValue, NextData, Accumulated;
    DigitsAreNoStop(m, c.valueEnd + 1, stop);
    DigitsAreNoStop(m, stop + 1, end);
    StopsAt(m, c.valueEnd + 1, stop, true);
    TagOfDigits(m[c.valueEnd + 1..stop], cfg.charSigned);
    AccumulatedDigits(m[stop + 1..end], TWO_TO_THE_64, cfg.charSigned);
    hide FirstSoh;
    assert FirstSoh(m, stop + 1, |m|) == end;
  }

  /** Behind a length field no `=` is found: the CheckSum. */
  lemma LengthWithoutData(cfg: Config, m: bytes, c: Cursor, stop: nat, end: nat)
    requires IsMessageBytes(m) && LengthFieldAt(cfg, m, c.valueEnd + 1, stop, end)
    requires forall i | end < i < |m| :: m[i] != 0x3D
    ensures Next(cfg, m, c) == Cursor(|m| - 7, 10, |m| - 4, |m| - 1)
  {
    LengthFieldNext(cfg, m, c, stop, end);
    hide Next, TagStop, Accumulated, TagValue;
  }

  lemma DataAt(cfg: Config, m: bytes, begin: nat, end: nat, eq: nat, length: nat)
    requires IsMessageBytes(m) && begin <= end < eq < |m| && TagStop(m, end + 1, false) == eq
    requires Accumulated(m[begin..end], TWO_TO_THE_64, cfg.charSigned) == length
    ensures NextData(cfg, m, begin, end) ==
            if eq + 1 + length > |m| then Cursor(|m| - 7, 10, |m| - 4, |m| - 1)
            else Cursor(end + 1, TagValue(m[end + 1..eq], cfg.charSigned), eq + 1, eq + 1 + length)
  {
    hide TagStop, Accumulated, TagValue;
  }

  /** The data field behind a length field has exactly the length said, or too much is said: the CheckSum. */
  lemma DataFieldNext(cfg: Config, m: bytes, c: Cursor, stop: nat, end: nat, eq: nat)
    requires IsMessageBytes(m) && LengthFieldAt(cfg, m, c.valueEnd + 1, stop, end)
    requires end < eq < |m| && m[eq] == 0x3D && forall i | end < i < eq :: m[i] != 0x3D
    ensures var length := LengthValue(m[stop + 1..end]);
            var next := Next(cfg, m, c);
            if eq + 1 + length > |m| then next == Cursor(|m| - 7, 10, |m| - 4, |m| - 1)
            else
              && next.at == end + 1 && next.valueBegin == eq + 1 && next.valueEnd == eq + 1 + length
              && (AllDigits(m[end + 1..eq]) ==> next.tag == ToInt32(DigitsValue(m[end + 1..eq])))
  {
    LengthFieldNext(cfg, m, c, stop, end);
    StopsAt(m, end + 1, eq, false);
    if AllDigits(m[end + 1..eq]) {
      TagOfDigits(m[end + 1..eq], cfg.charSigned);
    }
    hide *;
    DataAt(cfg, m, stop + 1, end, eq, LengthValue(m[stop + 1..end]));
  }
}
