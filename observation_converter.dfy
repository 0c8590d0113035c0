/** `ObservationToDtoCoverter`: flattens an HL7 FHIR R4 Observation into an
    `ObservationDto`. The source casts `Observation.value[x]` and
    `Observation.effective[x]` without checking them, dereferences elements
    that may be null, and converts the dateTime text to a `DateTimeOffset`;
    here every such step is an explicit case of a tagged union, and each way
    it throws on a non-null observation is a `ConversionError`, except the
    range overflow of `ToOffset` at the ends of the calendar. */
module ObservationConverter {
  import opened Base

  datatype Coding = Coding(system: Option<string>, code: Option<string>, display: Option<string>)

  /** `CodeableConcept`: its `Coding` list is never null (the SDK's getter
      allocates it on first read), so it is a plain sequence here. */
  datatype CodeableConcept = CodeableConcept(coding: seq<Coding>, text: Option<string>)

  /** `Quantity`: `Value` is a nullable decimal, modelled as an exact real. */
  datatype Quantity = Quantity(value: Option<real>, unit: Option<string>, system: Option<string>, code: Option<string>)

  /** A FHIR `dateTime`; its text is kept as it is (no calendar arithmetic). */
  datatype FhirDateTime = FhirDateTime(value: Option<string>)

  datatype Period = Period(start: Option<FhirDateTime>, end: Option<FhirDateTime>)

  /** The choice type `Observation.value[x]` of FHIR R4. */
  datatype ObservationValue =
    | ValueQuantity(quantity: Quantity)
    | ValueCodeableConcept(concept: CodeableConcept)
    | ValueString(text: string)
    | ValueBoolean(flag: bool)
    | ValueInteger(number: int)
    | ValueRange(low: Option<Quantity>, high: Option<Quantity>)
    | ValueRatio(numerator: Option<Quantity>, denominator: Option<Quantity>)
    | ValueSampledData
    | ValueTime(time: string)
    | ValueDateTime(dateTime: FhirDateTime)
    | ValuePeriod(period: Period)

  /** The choice type `Observation.effective[x]` of FHIR R4. */
  datatype ObservationEffective =
    | EffectiveDateTime(dateTime: FhirDateTime)
    | EffectivePeriod(period: Period)
    | EffectiveTiming
    | EffectiveInstant(instant: string)

  datatype Observation = Observation(
    id: Option<string>,
    code: Option<CodeableConcept>,
    value: Option<ObservationValue>,
    effective: Option<ObservationEffective>)

  /** A `DateTimeOffset`: the point in time and the offset it is shown in. */
  datatype DateTimeOffset = DateTimeOffset(dateTime: string, offsetMinutes: int)

  /** The fixed offset the converter applies: `new TimeSpan(1, 0, 0)`. */
  const EffectiveOffsetMinutes: int := 60

  datatype ObservationDto = ObservationDto(
    id: Option<string>,
    system: Option<string>,
    code: Option<string>,
    name: Option<string>,
    unit: Option<string>,
    value: real,
    effective: DateTimeOffset)

  /** Each way in which `Convert` throws, in the order the source meets them. */
  datatype ConversionError =
    | CodeMissing           // `observation.Code` is null: NullReferenceException
    | ValueNotQuantity      // `(Quantity)observation.Value`: InvalidCastException
    | EffectiveNotDateTime  // `(FhirDateTime)observation.Effective`: InvalidCastException
    | CodingMissing         // `FirstOrDefault()` gave null, read by `coding.System`
    | ValueMissing          // the value was null, read by `value.Code`
    | QuantityValueMissing  // `(decimal)value.Value` of a null decimal
    | EffectiveMissing      // the effective element was null
    | DateTimeValueMissing  // the dateTime has no value to convert
    | DateTimeUnparseable   // the dateTime text is not a date and time: FormatException

  predicate IsQuantity(v: ObservationValue) {
    v.ValueQuantity?
  }

  predicate IsDateTime(e: ObservationEffective) {
    e.EffectiveDateTime?
  }

  // ---------------------------------------------------------------------
  // The text `ToDateTimeOffset` accepts: the FHIR R4 `dateTime` syntax with
  // the zone after a time made optional (YYYY, YYYY-MM, YYYY-MM-DD, or
  // YYYY-MM-DDThh:mm:ss[.f+][zone]), on a real calendar date and with
  // seconds a `DateTimeOffset` can hold.

  predicate IsDecimalDigit(c: char) {
    '0' <= c <= '9'
  }

  predicate AllDecimalDigits(s: string) {
    forall i :: 0 <= i < |s| ==> IsDecimalDigit(s[i])
  }

  function DigitOf(c: char): int {
    c as int - '0' as int
  }

  /** The number a string of decimal digits denotes. */
  function DecimalValue(s: string): (n: nat)
    requires AllDecimalDigits(s)
  {
    if s == [] then 0
    else DecimalValue(s[..|s| - 1]) * 10 + DigitOf(s[|s| - 1])
  }

  /** `s` is a field of exactly `width` digits whose value lies in `lo..hi`. */
  predicate Field(s: string, width: nat, lo: nat, hi: nat) {
    |s| == width && AllDecimalDigits(s) && lo <= DecimalValue(s) <= hi
  }

  predicate IsLeapYear(y: nat) {
    y % 4 == 0 && (y % 100 != 0 || y % 400 == 0)
  }

  function DaysInMonth(y: nat, m: nat): (d: nat)
    ensures 28 <= d <= 31
  {
    if m == 2 then (if IsLeapYear(y) then 29 else 28)
    else if m == 4 || m == 6 || m == 9 || m == 11 then 30
    else 31
  }

  /** A zone offset `+hh:mm` or `-hh:mm`, at most 14 hours. */
  predicate IsZoneOffset(z: string) {
    && |z| == 6 && (z[0] == '+' || z[0] == '-') && z[3] == ':'
    && ((Field(z[1..3], 2, 0, 13) && Field(z[4..6], 2, 0, 59)) || z[1..] == "14:00")
  }

  /** Optional fraction of a second: empty, or a dot and at least one digit. */
  predicate IsFraction(f: string) {
    f == [] || (|f| >= 2 && f[0] == '.' && AllDecimalDigits(f[1..]))
  }

  /** `[.f+]`, optionally followed by `Z` or an offset. */
  predicate IsFractionAndZone(r: string) {
    || IsFraction(r)
    || (|r| >= 1 && r[|r| - 1] == 'Z' && IsFraction(r[..|r| - 1]))
    || (|r| >= 6 && IsZoneOffset(r[|r| - 6..]) && IsFraction(r[..|r| - 6]))
  }

  /** `hh:mm:ss[.f+][zone]` after the `T`. */
  predicate IsTimeOfDay(t: string) {
    && |t| >= 8
    && Field(t[..2], 2, 0, 23) && t[2] == ':' && Field(t[3..5], 2, 0, 59) && t[5] == ':'
    && Field(t[6..8], 2, 0, 59) && IsFractionAndZone(t[8..])
  }

  /** Whether `FhirDateTime.ToDateTimeOffset` can convert this text. */
  predicate ParsesAsDateTime(t: string) {
    && |t| >= 4 && Field(t[..4], 4, 1, 9999)
    && (|t| == 4
        || (&& |t| >= 7 && t[4] == '-' && Field(t[5..7], 2, 1, 12)
            && (|t| == 7
                || (&& |t| >= 10 && t[7] == '-'
                    && Field(t[8..10], 2, 1, DaysInMonth(DecimalValue(t[..4]), DecimalValue(t[5..7])))
                    && (|t| == 10 || (t[10] == 'T' && IsTimeOfDay(t[11..])))))))
  }

  /** Whether `Convert` returns a DTO for `o`: a code with at least one
      coding, a Quantity value that has a number, and a point-in-time
      effective dateTime whose text is a date and time. */
  predicate Convertible(o: Observation) {
    && o.code.Some? && |o.code.value.coding| > 0
    && o.value.Some? && IsQuantity(o.value.value) && o.value.value.quantity.value.Some?
    && o.effective.Some? && IsDateTime(o.effective.value) && o.effective.value.dateTime.value.Some?
    && ParsesAsDateTime(o.effective.value.dateTime.value.value)
  }

  /** `Convert(Observation)`. */
  function Convert(o: Observation): (r: Result<ObservationDto, ConversionError>)
    ensures r.Success? <==> Convertible(o)
    ensures r.Success? ==>
      && r.value.id == o.id
      && r.value.system == o.code.value.coding[0].system
      && r.value.code == o.code.value.coding[0].code
      && r.value.name == o.code.value.text
      && r.value.unit == o.value.value.quantity.code
      && Some(r.value.value) == o.value.value.quantity.value
      && r.value.effective == DateTimeOffset(o.effective.value.dateTime.value.value, EffectiveOffsetMinutes)
    ensures o.code.None? ==> r == Failure(CodeMissing)
    ensures o.code.Some? && o.value.Some? && !IsQuantity(o.value.value) ==> r == Failure(ValueNotQuantity)
    ensures (&& o.code.Some? && (o.value.None? || IsQuantity(o.value.value))
             && o.effective.Some? && !IsDateTime(o.effective.value))
            ==> r == Failure(EffectiveNotDateTime)
  {
    if o.code.None? then Failure(CodeMissing)
    else if o.value.Some? && !o.value.value.ValueQuantity? then Failure(ValueNotQuantity)
    else if o.effective.Some? && !o.effective.value.EffectiveDateTime? then Failure(EffectiveNotDateTime)
    else if |o.code.value.coding| == 0 then Failure(CodingMissing)
    else if o.value.None? then Failure(ValueMissing)
    else if o.value.value.quantity.value.None? then Failure(QuantityValueMissing)
    else if o.effective.None? then Failure(EffectiveMissing)
    else if o.effective.value.dateTime.value.None? then Failure(DateTimeValueMissing)
    else if !ParsesAsDateTime(o.effective.value.dateTime.value.value) then Failure(DateTimeUnparseable)
    else
      var coding := o.code.value.coding[0];
      var quantity := o.value.value.quantity;
      Success(ObservationDto(
        o.id, coding.system, coding.code, o.code.value.text,
        quantity.code, quantity.value.value,
        DateTimeOffset(o.effective.value.dateTime.value.value, EffectiveOffsetMinutes)))
  }

  /** `Convert(IList<Observation>)`: `Select(Convert).ToList()`. The list is
      built front to back, so the first observation that throws decides the
      exception, and no partial list is returned. */
  function ConvertAll(os: seq<Observation>): (r: Result<seq<ObservationDto>, ConversionError>)
    ensures r.Success? <==> forall i :: 0 <= i < |os| ==> Convert(os[i]).Success?
    ensures r.Success? ==> |r.value| == |os| && forall i :: 0 <= i < |os| ==> Convert(os[i]) == Success(r.value[i])
    ensures r.Failure? ==> exists i :: 0 <= i < |os| && Convert(os[i]) == Failure(r.error)
                                       && forall j :: 0 <= j < i ==> Convert(os[j]).Success?
  {
    if os == [] then Success([])
    else
      match Convert(os[0])
      case Failure(e) => Failure(e)
      case Success(dto) =>
        match ConvertAll(os[1..])
        case Failure(e) =>
          var k :| 0 <= k < |os[1..]| && Convert(os[1..][k]) == Failure(e)
                   && forall j :: 0 <= j < k ==> Convert(os[1..][j]).Success?;
          assert Convert(os[k + 1]) == Failure(e);
          assert forall j :: 0 <= j < k + 1 ==> Convert(os[j]).Success? by {
            forall j | 0 <= j < k + 1 ensures Convert(os[j]).Success? {
              if j > 0 { assert os[j] == os[1..][j - 1]; }
            }
          }
          Failure(e)
        case Success(rest) =>
          assert forall i :: 1 <= i < |os| ==> os[i] == os[1..][i - 1];
          Success([dto] + rest)
  }

  lemma DecimalValueOfTwo(s: string)
    requires |s| == 2 && AllDecimalDigits(s)
    ensures DecimalValue(s) == 10 * DigitOf(s[0]) + DigitOf(s[1])
  {
    var p := s[..1];
    assert AllDecimalDigits(p) && p[..0] == [] && p[0] == s[0];
    assert DecimalValue(p) == DigitOf(s[0]);
  }

  lemma DecimalValueOfFour(s: string)
    requires |s| == 4 && AllDecimalDigits(s)
    ensures DecimalValue(s) == 1000 * DigitOf(s[0]) + 100 * DigitOf(s[1]) + 10 * DigitOf(s[2]) + DigitOf(s[3])
  {
    var p3, p2 := s[..3], s[..2];
    assert AllDecimalDigits(p3) && AllDecimalDigits(p2);
    assert p3[..2] == p2 && p2[0] == s[0] && p2[1] == s[1];
    DecimalValueOfTwo(p2);
    assert DecimalValue(p3) == DecimalValue(p2) * 10 + DigitOf(s[2]);
  }

  /** A full dateTime is a date, a `T` and a time of day. */
  lemma DateTimeOfParts(y: string, m: string, d: string, time: string)
    requires |y| == 4 && |m| == 2 && |d| == 2
    ensures ParsesAsDateTime(y + "-" + m + "-" + d + "T" + time) <==>
              && Field(y, 4, 1, 9999) && Field(m, 2, 1, 12)
              && (AllDecimalDigits(y) && AllDecimalDigits(m) ==> Field(d, 2, 1, DaysInMonth(DecimalValue(y), DecimalValue(m))))
              && IsTimeOfDay(time)
  {
    var t := y + "-" + m + "-" + d + "T" + time;
    assert t[..4] == y && t[5..7] == m && t[8..10] == d && t[11..] == time;
    assert t[4] == '-' && t[7] == '-' && t[10] == 'T';
  }

  /** A time of day is `hh:mm:ss` followed by an optional fraction and an
      optional zone. */
  lemma TimeOfParts(h: string, mi: string, sec: string, rest: string)
    requires |h| == 2 && |mi| == 2 && |sec| == 2
    ensures IsTimeOfDay(h + ":" + mi + ":" + sec + rest) <==>
              Field(h, 2, 0, 23) && Field(mi, 2, 0, 59) && Field(sec, 2, 0, 59) && IsFractionAndZone(rest)
  {
    var u := h + ":" + mi + ":" + sec + rest;
    assert u[..2] == h && u[3..5] == mi && u[6..8] == sec && u[8..] == rest;
    assert u[2] == ':' && u[5] == ':';
  }

  /** A year alone and a year with a month are admitted. */
  lemma PartialDates()
    ensures ParsesAsDateTime("2021")
    ensures ParsesAsDateTime("2021-03")
  {
    DecimalValueOfFour("2021");
    DecimalValueOfTwo("03");
    assert "2021"[..4] == "2021";
    assert "2021-03"[..4] == "2021" && "2021-03"[5..7] == "03";
  }

  /** February 29th exists in a leap year ... */
  lemma LeapDayInLeapYear()
    ensures ParsesAsDateTime("2020-02-29")
  {
    DecimalValueOfFour("2020");
    DecimalValueOfTwo("02");
    DecimalValueOfTwo("29");
    assert "2020-02-29"[..4] == "2020" && "2020-02-29"[5..7] == "02" && "2020-02-29"[8..10] == "29";
  }

  /** ... and not in any other year. */
  lemma NoLeapDayInCommonYear()
    ensures !ParsesAsDateTime("2021-02-29")
  {
    DecimalValueOfFour("2021");
    DecimalValueOfTwo("02");
    DecimalValueOfTwo("29");
    assert "2021-02-29"[..4] == "2021" && "2021-02-29"[5..7] == "02" && "2021-02-29"[8..10] == "29";
  }

  /** A thirteenth month, a two-digit year and free text are rejected. */
  lemma DateTimeRejections()
    ensures !ParsesAsDateTime("2021-13")
    ensures !ParsesAsDateTime("21")
    ensures !ParsesAsDateTime("not a date")
  {
    DecimalValueOfTwo("13");
    assert "2021-13"[5..7] == "13";
  }

  /** A time of day without a zone is accepted, with or without a fraction
      of a second. */
  lemma TimeWithoutZoneAccepted(h: string, mi: string, sec: string, fraction: string)
    requires Field(h, 2, 0, 23) && Field(mi, 2, 0, 59) && Field(sec, 2, 0, 59)
    requires IsFraction(fraction)
    ensures IsTimeOfDay(h + ":" + mi + ":" + sec + fraction)
  {
    TimeOfParts(h, mi, sec, fraction);
  }

  /** An observation that is convertible in every other respect but whose
      dateTime text is not a date fails with `DateTimeUnparseable`. */
  lemma UnparseableDateTimeFails(o: Observation)
    requires o.code.Some? && |o.code.value.coding| > 0
    requires o.value.Some? && IsQuantity(o.value.value) && o.value.value.quantity.value.Some?
    requires o.effective.Some? && IsDateTime(o.effective.value) && o.effective.value.dateTime.value.Some?
    requires !ParsesAsDateTime(o.effective.value.dateTime.value.value)
    ensures Convert(o) == Failure(DateTimeUnparseable)
  {
  }

  /** Codings after the first do not affect the DTO. */
  lemma LaterCodingsIgnored(o: Observation, later: seq<Coding>)
    requires o.code.Some? && |o.code.value.coding| > 0
    ensures var c := o.code.value;
            Convert(o.(code := Some(c.(coding := [c.coding[0]] + later)))) == Convert(o)
  {
  }
}
