/** The incremental-sync cursor "<unixmillis>-<discussion_id>": its text form, and the order on
    positions it stands for.  Times are nanoseconds since the Unix epoch. */
module SinceCursor {
  import opened Order
  import opened Text

  const NANOS_PER_MILLI := 1_000_000
  const MAX_INT64 := 0x7FFF_FFFF_FFFF_FFFF
  /** Go's zero time.Time, midnight of 1 January of year 1. */
  const ZERO_TIME := -62_135_596_800_000_000_000

  datatype Cursor = Cursor(time: int, id: string)

  datatype Decoded = Position(cursor: Cursor) | Malformed

  function UnixMilli(t: int): int {
    t / NANOS_PER_MILLI
  }

  function FromMilli(millis: int): int {
    millis * NANOS_PER_MILLI
  }

  // ---------------------------------------------------------------- text form

  function DigitOf(d: nat): char
    requires d < 10
  {
    ['0', '1', '2', '3', '4', '5', '6', '7', '8', '9'][d]
  }

  function NatText(n: nat): string {
    if n < 10 then [DigitOf(n)] else NatText(n / 10) + [DigitOf(n % 10)]
  }

  /** The %d verb. */
  function IntText(n: int): string {
    if n < 0 then "-" + NatText(-n) else NatText(n)
  }

  datatype Parsed = Number(value: int) | NotANumber

  /** strconv.ParseInt(s, 10, 64): an optional sign, at least one digit, within the int64 range. */
  function ParseInt(s: string): Parsed {
    var negative := s != "" && s[0] == '-';
    var digits := if s != "" && (s[0] == '-' || s[0] == '+') then s[1..] else s;
    if digits == "" || !AllDigits(digits) then NotANumber
    else
      var magnitude: int := DigitsValue(digits);
      var v := if negative then -magnitude else magnitude;
      if -MAX_INT64 - 1 <= v <= MAX_INT64 then Number(v) else NotANumber
  }

  /** strings.IndexByte(s, '-'), or -1. */
  function FirstDash(s: string): (i: int)
    ensures -1 <= i < |s|
    ensures i >= 0 ==> s[i] == '-'
    ensures forall k :: 0 <= k < (if i < 0 then |s| else i) ==> s[k] != '-'
  {
    if s == "" then -1
    else if s[0] == '-' then 0
    else
      var rest := FirstDash(s[1..]);
      if rest < 0 then -1 else rest + 1
  }

  function Encode(t: int, id: string): string {
    IntText(UnixMilli(t)) + "-" + id
  }

  function Decode(s: string): Decoded {
    var dash := FirstDash(s);
    if dash <= 0 then Malformed
    else
      var millis := ParseInt(s[..dash]);
      if millis.NotANumber? || millis.value < 0 then Malformed
      else if s[dash + 1..] == "" then Malformed
      else Position(Cursor(FromMilli(millis.value), s[dash + 1..]))
  }

  lemma {:induction false} NatTextIsDecimal(n: nat)
    ensures NatText(n) != "" && AllDigits(NatText(n)) && DigitsValue(NatText(n)) == n
  {
    if n >= 10 {
      NatTextIsDecimal(n / 10);
      var head := NatText(n / 10);
      assert (head + [DigitOf(n % 10)])[..|head|] == head;
      assert DigitValue(DigitOf(n % 10)) == n % 10 && n == 10 * (n / 10) + n % 10;
    }
  }

  /** The first dash of a text splits it where the digits end. */
  lemma FirstDashAfterDigits(head: string, tail: string)
    requires AllDigits(head)
    ensures FirstDash(head + "-" + tail) == |head|
  {
    var s := head + "-" + tail;
    assert s[|head|] == '-';
    assert forall k :: 0 <= k < |head| ==> s[k] == head[k];
  }

  /** Round trip, both ways round: an encoded position decodes exactly when its millisecond is not
      before the epoch and its id is not empty, and then to the millisecond floor and the same id. */
  lemma DecodeEncode(t: int, id: string)
    requires UnixMilli(t) <= MAX_INT64
    ensures Decode(Encode(t, id)).Position? <==> UnixMilli(t) >= 0 && id != ""
    ensures Decode(Encode(t, id)).Position? ==> Decode(Encode(t, id)).cursor == Cursor(FromMilli(UnixMilli(t)), id)
  {
    var n := UnixMilli(t);
    var s := Encode(t, id);
    if n < 0 {
      assert s[0] == '-';
    } else {
      NatTextIsDecimal(n);
      FirstDashAfterDigits(NatText(n), id);
      assert s[..|NatText(n)|] == NatText(n);
      assert s[|NatText(n)| + 1..] == id;
      assert IsDigit(NatText(n)[0]);
    }
  }

  /** Whatever text a client sends, re-encoding the position it decodes to names that position. */
  lemma EncodeDecode(s: string)
    requires Decode(s).Position?
    ensures Decode(Encode(Decode(s).cursor.time, Decode(s).cursor.id)) == Decode(s)
  {
    var c := Decode(s).cursor;
    assert UnixMilli(c.time) == ParseInt(s[..FirstDash(s)]).value;
    DecodeEncode(c.time, c.id);
  }

  /** A position as a client may write it: digits, perhaps after a plus, a dash, and an id. */
  predicate Written(s: string, sign: string, digits: string, id: string) {
    && s == sign + digits + "-" + id && (sign == "" || sign == "+")
    && digits != "" && AllDigits(digits) && DigitsValue(digits) <= 0x7FFF_FFFF_FFFF_FFFF && id != ""
  }

  lemma CutAtFirstDash(head: string, tail: string)
    requires '-' !in head
    ensures FirstDash(head + "-" + tail) == |head|
    ensures (head + "-" + tail)[..|head|] == head && (head + "-" + tail)[|head| + 1..] == tail
  {
    var s := head + "-" + tail;
    assert s[|head|] == '-' && forall k :: 0 <= k < |head| ==> s[k] == head[k];
  }

  lemma NoDashInDigits(sign: string, digits: string)
    requires (sign == "" || sign == "+") && AllDigits(digits)
    ensures '-' !in sign + digits
  {
  }

  lemma DigitsParse(s: string)
    requires s != "" && AllDigits(s) && DigitsValue(s) <= 0x7FFF_FFFF_FFFF_FFFF
    ensures ParseInt(s) == Number(DigitsValue(s))
  {
    assert IsDigit(s[0]);
  }

  lemma PlusDigitsParse(s: string, digits: string)
    requires s != "" && s[0] == '+' && s[1..] == digits
    requires digits != "" && AllDigits(digits) && DigitsValue(digits) <= 0x7FFF_FFFF_FFFF_FFFF
    ensures ParseInt(s) == Number(DigitsValue(digits))
  {
  }

  lemma WrittenIsDecoded(s: string, sign: string, digits: string, id: string)
    requires Written(s, sign, digits, id)
    ensures Decode(s) == Position(Cursor(1_000_000 * DigitsValue(digits), id))
  {
    NoDashInDigits(sign, digits);
    CutAtFirstDash(sign + digits, id);
    if sign == "+" {
      PlusDigitsParse(sign + digits, digits);
    } else {
      assert sign + digits == digits;
      DigitsParse(digits);
    }
  }

  lemma DecodedIsWritten(s: string) returns (sign: string, digits: string, id: string)
    requires Decode(s).Position?
    ensures Written(s, sign, digits, id)
  {
    var dash := FirstDash(s);
    var head := s[..dash];
    assert head[0] == s[0] != '-';
    sign := if head[0] == '+' then "+" else "";
    digits := if head[0] == '+' then head[1..] else head;
    id := s[dash + 1..];
    assert s == head + "-" + id;
  }

  /** A text decodes exactly when it is a position so written, and then to that millisecond and that id. */
  lemma DecodesExactly(s: string, c: Cursor)
    ensures Decode(s) == Position(c)
      <==> exists sign, digits :: Written(s, sign, digits, c.id) && c.time == 1_000_000 * DigitsValue(digits)
  {
    if Decode(s) == Position(c) {
      var sign, digits, id := DecodedIsWritten(s);
      WrittenIsDecoded(s, sign, digits, id);
    }
    if sign, digits :| Written(s, sign, digits, c.id) && c.time == 1_000_000 * DigitsValue(digits) {
      WrittenIsDecoded(s, sign, digits, c.id);
    }
  }

  lemma {:induction false} NoLeadingZero(n: nat)
    ensures NatText(n) != "" && (NatText(n)[0] == '0' ==> n == 0)
  {
    if n >= 10 {
      NoLeadingZero(n / 10);
    }
  }

  /** A time after the epoch is written as the decimal number of its whole milliseconds, without leading zeroes. */
  lemma EncodesAs(t: int, id: string) returns (digits: string)
    requires t >= 0
    ensures Encode(t, id) == digits + "-" + id
    ensures digits != "" && AllDigits(digits) && DigitsValue(digits) == t / 1_000_000
    ensures digits[0] == '0' ==> t < 1_000_000
  {
    digits := NatText(t / 1_000_000);
    NatTextIsDecimal(t / 1_000_000);
    NoLeadingZero(t / 1_000_000);
  }

  // ---------------------------------------------------------------- order

  /** Truncate(time.Millisecond): the zero time is a whole millisecond, so this is the floor. */
  function TruncateMilli(t: int): int {
    t - t % NANOS_PER_MILLI
  }

  predicate SinceAfter(updatedAt: int, id: string, sinceTime: int, sinceID: string) {
    var floor := TruncateMilli(updatedAt);
    if floor != sinceTime then floor > sinceTime else Less(sinceID, id)
  }

  /** Positions compare by whole millisecond, then by id. */
  predicate Before(s: Cursor, t: Cursor) {
    UnixMilli(s.time) < UnixMilli(t.time) || (UnixMilli(s.time) == UnixMilli(t.time) && Less(s.id, t.id))
  }

  /** For the whole-millisecond cursors Decode yields, sinceAfter is exactly the order on positions. */
  lemma SinceAfterIsPositionOrder(updatedAt: int, id: string, since: Cursor)
    requires since.time % NANOS_PER_MILLI == 0
    ensures SinceAfter(updatedAt, id, since.time, since.id) <==> Before(since, Cursor(updatedAt, id))
  {
    assert TruncateMilli(updatedAt) == NANOS_PER_MILLI * UnixMilli(updatedAt);
    assert since.time == NANOS_PER_MILLI * UnixMilli(since.time);
  }

  lemma DecodedCursorsAreWholeMillis(s: string)
    requires Decode(s).Position?
    ensures Decode(s).cursor.time % NANOS_PER_MILLI == 0
  {
    var millis := ParseInt(s[..FirstDash(s)]).value;
    assert (millis * NANOS_PER_MILLI) % NANOS_PER_MILLI == 0;
  }

  /** Before is a strict total order on (millisecond, id). */
  lemma BeforeIsStrictTotalOrder(a: Cursor, b: Cursor, c: Cursor)
    ensures !Before(a, a)
    ensures Before(a, b) && Before(b, c) ==> Before(a, c)
    ensures Before(a, b) || Before(b, a) || (UnixMilli(a.time) == UnixMilli(b.time) && a.id == b.id)
  {
    Irreflexive(a.id);
    Total(a.id, b.id);
    if Less(a.id, b.id) && Less(b.id, c.id) {
      Transitive(a.id, b.id, c.id);
    }
  }

  /** A row is never past the cursor its own position encodes to, however fine its timestamp. */
  lemma NeverPastOwnCursor(updatedAt: int, id: string)
    requires 0 <= UnixMilli(updatedAt) <= MAX_INT64 && id != ""
    ensures var own := Decode(Encode(updatedAt, id));
            own.Position? && !SinceAfter(updatedAt, id, own.cursor.time, own.cursor.id)
  {
    DecodeEncode(updatedAt, id);
    var own := Cursor(FromMilli(UnixMilli(updatedAt)), id);
    assert UnixMilli(own.time) == UnixMilli(updatedAt);
    assert own.time % NANOS_PER_MILLI == 0;
    SinceAfterIsPositionOrder(updatedAt, id, own);
    Irreflexive(id);
  }
}
