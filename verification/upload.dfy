/**
 * The field parsing of the CSV teacher upload: the weekly hour limit and the
 * `|`-separated list of available days, which becomes one availability row
 * from 7 to 22 per kept day.
 */
module Upload {
  import opened Wrappers
  import opened Schedule
  import opened Text
  import Endpoint

  /** The weekly hour limit used when the column is missing or not an integer. */
  const DefaultHoursMax := 15

  /** The one-digit texts of the six days. */
  const DayDigits: seq<string> := ["0", "1", "2", "3", "4", "5"]

  /** The value read when the `dias_disponibles` column is missing: "0|1|2|3|4|5". */
  const DefaultDaysField := Join(DayDigits, '|')

  /** Every day the upload accepts, Monday (0) to Saturday (5). */
  const AllDays: seq<int> := [0, 1, 2, 3, 4, 5]

  /** Each uploaded day is available from 7 to 22. */
  const UploadStart := 7
  const UploadEnd := 22

  /**
   * One cell of a CSV row as `csv.DictReader` hands it over: the header has
   * no such column (`row.get` then returns its default), the row is shorter
   * than the header (the reader fills in `None`), or the cell's text.
   */
  datatype Cell = Absent | NoValue | Text(text: string)

  /**
   * `horas_max_semana`: the column's text read as an integer; a missing
   * column or a text that is not an integer gives 15. A `None` cell makes
   * `int()` raise `TypeError`, which the row's outer handler records as an
   * error: no teacher is created for the row, modelled as `None`.
   */
  function HoursMax(field: Cell): (r: Option<int>)
    ensures r.None? <==> field.NoValue?
    ensures field.Absent? ==> r == Some(DefaultHoursMax)
    ensures field.Text? && ParseInt(field.text).None? ==> r == Some(DefaultHoursMax)
    ensures field.Text? && ParseInt(field.text).Some? ==> r == ParseInt(field.text)
  {
    ParseDefault();
    match field
    case Absent => ParseInt(DefaultHoursText)
    case NoValue => None
    case Text(t) => Some(ParseInt(t).GetOr(DefaultHoursMax))
  }

  /** The text a missing column reads as, "15": the default limit written in decimal. */
  const DefaultHoursText := IntToString(DefaultHoursMax)

  lemma {:induction false} ParseDefault()
    ensures ParseInt(DefaultHoursText) == Some(DefaultHoursMax)
  {
    ParseFormatRoundTrip(DefaultHoursMax);
  }

  /** Any integer written in the column is read back unchanged. */
  lemma {:induction false} HoursMaxRoundTrip(i: int)
    ensures HoursMax(Text(IntToString(i))) == Some(i)
  {
    ParseFormatRoundTrip(i);
  }

  /** The day a piece of the days column names: its trimmed text as an integer, kept when in 0..5. */
  function PieceDay(piece: string): (r: Option<int>)
    ensures r.Some? ==> 0 <= r.value <= 5
    ensures r.Some? <==> ParseInt(Trim(piece)).Some? && 0 <= ParseInt(Trim(piece)).value <= 5
    ensures r.Some? ==> r.value == ParseInt(Trim(piece)).value
  {
    var v := ParseInt(Trim(piece));
    if v.Some? && 0 <= v.value <= 5 then v else None
  }

  /** Some piece names the accepted day `d`. */
  predicate Named(pieces: seq<string>, d: int) {
    exists i :: 0 <= i < |pieces| && PieceDay(pieces[i]) == Some(d)
  }

  /** The reading of every piece, in order. */
  function PieceDays(pieces: seq<string>): (r: seq<Option<int>>)
    ensures |r| == |pieces|
    ensures forall d :: Some(d) in r <==> Named(pieces, d)
  {
    var r := seq(|pieces|, i requires 0 <= i < |pieces| => PieceDay(pieces[i]));
    assert forall i :: 0 <= i < |pieces| ==> r[i] == PieceDay(pieces[i]);
    r
  }

  /** The days read, in order, skipping the pieces that named none; a day named twice is kept twice. */
  function KeptDays(readings: seq<Option<int>>): (r: seq<int>)
    ensures |r| <= |readings|
    ensures forall d :: d in r <==> Some(d) in readings
    ensures forall d :: multiset(r)[d] == multiset(readings)[Some(d)]
    ensures |readings| == 1 ==> r == if readings[0].Some? then [readings[0].value] else []
  {
    if |readings| == 0 then []
    else
      var init := readings[..|readings| - 1];
      var x := readings[|readings| - 1];
      assert readings == init + [x];
      var prev := KeptDays(init);
      match x
      case Some(d) => prev + [d]
      case None => prev
  }

  /** Keeping distributes over concatenation, so the kept days follow the pieces' order. */
  lemma {:induction false} KeptDaysAppend(a: seq<Option<int>>, b: seq<Option<int>>)
    ensures KeptDays(a + b) == KeptDays(a) + KeptDays(b)
    decreases |b|
  {
    if |b| == 0 {
      assert a + b == a;
    } else {
      var init := b[..|b| - 1];
      var x := b[|b| - 1];
      assert a + b == (a + init) + [x];
      assert b == init + [x];
      KeptDaysSnoc(a + init, x);
      KeptDaysSnoc(init, x);
      KeptDaysAppend(a, init);
    }
  }

  lemma {:induction false} KeptDaysSnoc(init: seq<Option<int>>, x: Option<int>)
    ensures KeptDays(init + [x]) == KeptDays(init) + (if x.Some? then [x.value] else [])
  {
    assert (init + [x])[..|init|] == init;
  }

  /**
   * The days of a `dias_disponibles` text: none for the empty text;
   * otherwise the days the pieces name, or all six days when no piece names
   * one.
   */
  function DaysOf(text: string): (r: seq<int>)
    ensures r == [] <==> text == ""
    ensures forall d :: d in r ==> 0 <= d <= 5
    ensures text != "" && (exists d :: Named(Split(text, '|'), d)) ==>
      forall d :: d in r <==> Named(Split(text, '|'), d)
    ensures text != "" && (forall d :: !Named(Split(text, '|'), d)) ==> r == AllDays
    ensures text != "" && (exists d :: Named(Split(text, '|'), d)) ==>
      forall d :: multiset(r)[d] == multiset(PieceDays(Split(text, '|')))[Some(d)]
  {
    if text == "" then []
    else
      var readings := PieceDays(Split(text, '|'));
      var kept := KeptDays(readings);
      if kept == [] then AllDays
      else
        assert kept[0] in kept;
        kept
  }

  /**
   * The days of the `dias_disponibles` column: a missing column reads as
   * "0|1|2|3|4|5", and a `None` cell, like empty text, gives no days.
   */
  function Days(field: Cell): (r: seq<int>)
    ensures field.NoValue? ==> r == []
    ensures field.Text? ==> r == DaysOf(field.text)
    ensures field.Absent? ==> r == DaysOf(DefaultDaysField)
  {
    match field
    case Absent => DaysOf(DefaultDaysField)
    case NoValue => []
    case Text(t) => DaysOf(t)
  }

  /** A missing days column reads as every day, Monday to Saturday. */
  lemma {:induction false} MissingDaysColumn()
    ensures forall d :: d in Days(Absent) <==> 0 <= d <= 5
  {
    var pieces := Split(DefaultDaysField, '|');
    DefaultPieces();
    EveryDayNamed(pieces);
    assert Split("", '|') == [""];
  }

  /** The default text splits back into the six one-digit pieces, each naming its day. */
  lemma {:induction false} DefaultPieces()
    ensures Split(DefaultDaysField, '|') == DayDigits
    ensures forall d :: 0 <= d <= 5 ==> PieceDay(DayDigits[d]) == Some(d)
  {
    DefaultSplit();
    forall d | 0 <= d <= 5 ensures PieceDay(DayDigits[d]) == Some(d) {
      DigitPiece(d);
    }
  }

  lemma {:induction false} DefaultSplit()
    ensures Split(DefaultDaysField, '|') == DayDigits
  {
    forall i | 0 <= i < |DayDigits| ensures '|' !in DayDigits[i] {
      DigitPieceShape(i);
    }
    SplitJoin(DayDigits, '|');
  }

  lemma {:induction false} DigitPieceShape(d: int)
    requires 0 <= d <= 5
    ensures DayDigits[d] == [DigitChar(d)]
  {
  }

  lemma {:induction false} DigitPiece(d: int)
    requires 0 <= d <= 5
    ensures PieceDay(DayDigits[d]) == Some(d)
  {
    DigitPieceShape(d);
    DigitDay(d);
  }

  /** Six pieces naming the days 0..5 in order name exactly those days. */
  lemma {:induction false} EveryDayNamed(pieces: seq<string>)
    requires |pieces| == 6
    requires forall d :: 0 <= d <= 5 ==> PieceDay(pieces[d]) == Some(d)
    ensures forall d :: Named(pieces, d) <==> 0 <= d <= 5
  {
    forall d | 0 <= d <= 5 ensures Named(pieces, d) {
      assert PieceDay(pieces[d]) == Some(d);
    }
  }

  /** A one-digit piece names its day. */
  lemma {:induction false} DigitDay(d: int)
    requires 0 <= d <= 5
    ensures PieceDay([DigitChar(d)]) == Some(d)
  {
    var p := [DigitChar(d)];
    TrimOfNonSpaceEnds(p);
    assert Trim(p) == p;
    assert DigitsValue(p) == DigitsValue([]) * 10 + DigitValue(p[0]);
  }

  /** One availability row per day, from 7 to 22. */
  function DayRows(days: seq<int>): (r: seq<AvailabilityRow>)
    ensures |r| == |days|
    ensures forall i :: 0 <= i < |r| ==> r[i].day == days[i] && r[i].start == UploadStart && r[i].end == UploadEnd
  {
    seq(|days|, i requires 0 <= i < |days| => AvailabilityRow(days[i], UploadStart, UploadEnd))
  }

  /** The rows the upload stores for a teacher. */
  function UploadRows(daysField: Cell): (r: seq<AvailabilityRow>)
    ensures |r| == |Days(daysField)|
    ensures forall i :: 0 <= i < |r| ==> r[i] == AvailabilityRow(Days(daysField)[i], UploadStart, UploadEnd)
  {
    DayRows(Days(daysField))
  }

  /** Rows from 7 to 22 add up to 15 hours each. */
  lemma {:induction false} SpanRowsHours(rows: seq<AvailabilityRow>)
    requires forall i :: 0 <= i < |rows| ==> rows[i].start == UploadStart && rows[i].end == UploadEnd
    ensures Endpoint.RowHours(rows) == 15 * |rows|
  {
    if |rows| > 0 {
      SpanRowsHours(rows[..|rows| - 1]);
    }
  }

  /**
   * An uploaded teacher passes the endpoint's availability check exactly when
   * the days column is not empty text.
   */
  lemma {:induction false} UploadedTeacherAvailable(daysField: Cell)
    ensures Endpoint.RowHours(UploadRows(daysField)) == 15 * |Days(daysField)|
    ensures Endpoint.RowHours(UploadRows(daysField)) != 0 <==> daysField != Text("") && daysField != NoValue
  {
    SpanRowsHours(UploadRows(daysField));
  }

  /**
   * Read by start hour only, an uploaded teacher is available at 7 and at no
   * other hour of its days, though its rows cover 7 to 22.
   */
  lemma {:induction false} UploadedSeenAtSeven(daysField: Cell, d: int, h: int)
    ensures (d, h) in Endpoint.StartHours(UploadRows(daysField)) <==> d in Days(daysField) && h == UploadStart
    ensures (d, h) in Endpoint.CoveredHours(UploadRows(daysField)) <==> d in Days(daysField) && UploadStart <= h < UploadEnd
  {
    var rows := UploadRows(daysField);
    var days := Days(daysField);
    if d in days {
      var i :| 0 <= i < |days| && days[i] == d;
      assert rows[i].day == d;
    }
  }
}
