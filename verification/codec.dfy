/** The attribute value codec of src/adldap/ad_utils.cpp: datetimes in the
    LargeInteger (FILETIME) form, the "never" sentinels, booleans and the
    RID of a SID's text form.

    A datetime is a count of milliseconds since `QDateTime(ntfs_epoch)`,
    midnight of 1601-01-01, the epoch of the directory's 100-nanosecond
    ticks.  Time zones are not modelled: the epoch and every datetime are
    read in one and the same zone. */
module Codec {
  import opened Wrappers
  import opened Decimal
  import Text

  /** One millisecond in 100-nanosecond ticks. */
  const MillisTo100Nanos: int := 10000

  /** The two LargeInteger values that mean "never expires". */
  const LargeIntegerDatetimeNever1: string := "0"
  const LargeIntegerDatetimeNever2: string := "9223372036854775807"

  /** The directory's boolean literals. */
  const LdapBoolTrue: string := "TRUE"
  const LdapBoolFalse: string := "FALSE"

  /** The schema's classification of an attribute, as far as the codec
      looks at it. */
  datatype AttributeType = LargeInteger | UtcTime | GeneralizedTime | OtherType

  datatype LargeIntegerSubtype = DatetimeSubtype | OtherSubtype

  /** The schema lookup of the configuration object: it classifies every
      attribute name. */
  datatype AdConfig = AdConfig(
    attributeType: string -> AttributeType,
    largeIntegerSubtype: string -> LargeIntegerSubtype)

  /** The two text layouts, handed to Qt's QDateTime formatting and
      parsing: "yyMMddhhmmss.zZ" for UTCTime and "yyyyMMddhhmmss.zZ" for
      GeneralizedTime. */
  datatype TimeFormat = UtcTimeFormat | GeneralizedTimeFormat

  /** A QDateTime: invalid, or milliseconds after the 1601 epoch. */
  datatype DateTime = InvalidDateTime | DateTime(millis: int)

  /** The LargeInteger text of a datetime: milliseconds times 10000 as a
      signed 64-bit product, written in decimal. */
  function LargeIntegerFromMillis(millis: int): (raw: string)
    ensures InInt64(millis * MillisTo100Nanos) ==> ToLongLong(raw) == millis * MillisTo100Nanos
  {
    var hundredNanos := WrapInt64(millis * MillisTo100Nanos);
    NumberRoundTrip(hundredNanos);
    NumberToString(hundredNanos)
  }

  /** The milliseconds of a LargeInteger text: the ticks divided by 10000,
      rounding toward zero; text that is not a 64-bit number reads as 0. */
  function LargeIntegerToMillis(raw: string): (millis: int)
    ensures var ticks := ToLongLong(raw);
      && (ticks >= 0 ==> 0 <= millis * MillisTo100Nanos <= ticks < millis * MillisTo100Nanos + MillisTo100Nanos)
      && (ticks < 0 ==> millis * MillisTo100Nanos - MillisTo100Nanos < ticks <= millis * MillisTo100Nanos <= 0)
  {
    TruncDiv(ToLongLong(raw), MillisTo100Nanos)
  }

  /** QDateTime::msecsTo from the epoch: 0 when the datetime is invalid. */
  function MillisSinceEpoch(dt: DateTime): (millis: int)
  {
    match dt
    case InvalidDateTime => 0
    case DateTime(m) => m
  }

  /** datetime_qdatetime_to_string.  Without a configuration the result is
      empty; the UTCTime and GeneralizedTime layouts go through `format`,
      standing for QDateTime::toString.  An invalid datetime is 0 ms from
      the epoch, so as a LargeInteger it is written as the first "never"
      sentinel. */
  function DatetimeToString(attribute: string, dt: DateTime, config: Option<AdConfig>,
                            format: (DateTime, TimeFormat) -> string): (raw: string)
    ensures config.None? ==> raw == ""
    ensures config.Some? && config.value.attributeType(attribute) == OtherType ==> raw == ""
    ensures config.Some? && config.value.attributeType(attribute) == LargeInteger && dt.DateTime?
         && InInt64(dt.millis * MillisTo100Nanos)
         ==> ToLongLong(raw) == dt.millis * MillisTo100Nanos
    ensures config.Some? && config.value.attributeType(attribute) == LargeInteger && dt.InvalidDateTime?
         ==> raw == LargeIntegerDatetimeNever1
  {
    match config
    case None => ""
    case Some(adconfig) =>
      match adconfig.attributeType(attribute)
      case LargeInteger =>
        var millis := MillisSinceEpoch(dt);
        if dt.InvalidDateTime? then InvalidIsEpoch(); LargeIntegerFromMillis(millis)
        else LargeIntegerFromMillis(millis)
      case UtcTime => format(dt, UtcTimeFormat)
      case GeneralizedTime => format(dt, GeneralizedTimeFormat)
      case OtherType => ""
  }

  lemma InvalidIsEpoch()
    ensures LargeIntegerFromMillis(0) == LargeIntegerDatetimeNever1
  {
    assert NumberToString(0) == "0";
  }

  /** Out of the 64-bit range the product wraps: 2^60 milliseconds, about
      36 million years after the epoch, are 625 * 2^64 ticks and are written
      as the "never" text "0". */
  lemma WrappedNeverExample(millis: int)
    requires millis == 0x1000_0000_0000_0000
    ensures !InInt64(millis * MillisTo100Nanos)
    ensures LargeIntegerFromMillis(millis) == LargeIntegerDatetimeNever1
  {
    assert millis * MillisTo100Nanos == 625 * 0x1_0000_0000_0000_0000;
    assert WrapInt64(millis * MillisTo100Nanos) == 0;
    assert NumberToString(0) == "0";
  }

  /** datetime_string_to_qdatetime.  A LargeInteger attribute whose subtype
      is not a datetime leaves the `switch` through its `break` and gives
      the invalid datetime; it is never parsed as GeneralizedTime.  The
      UTCTime and GeneralizedTime layouts go through `parse`, standing for
      QDateTime::fromString. */
  function DatetimeFromString(attribute: string, raw: string, config: Option<AdConfig>,
                              parse: (string, TimeFormat) -> DateTime): (dt: DateTime)
    ensures config.None? ==> dt == InvalidDateTime
    ensures config.Some? && config.value.attributeType(attribute) == OtherType ==> dt == InvalidDateTime
    ensures config.Some? && config.value.attributeType(attribute) == LargeInteger
         && config.value.largeIntegerSubtype(attribute) != DatetimeSubtype
         ==> dt == InvalidDateTime
    ensures config.Some? && config.value.attributeType(attribute) == LargeInteger
         && config.value.largeIntegerSubtype(attribute) == DatetimeSubtype
         ==> dt.DateTime? && InInt64(dt.millis * MillisTo100Nanos)
    ensures config.Some? && config.value.attributeType(attribute) == LargeInteger
         && config.value.largeIntegerSubtype(attribute) == DatetimeSubtype
         ==> dt == DateTime(LargeIntegerToMillis(raw))
    ensures config.Some? && config.value.attributeType(attribute) == LargeInteger
         && config.value.largeIntegerSubtype(attribute) == DatetimeSubtype && ParseLongLong(raw).None?
         ==> dt == DateTime(0)
  {
    match config
    case None => InvalidDateTime
    case Some(adconfig) =>
      match adconfig.attributeType(attribute)
      case LargeInteger =>
        if adconfig.largeIntegerSubtype(attribute) == DatetimeSubtype then
          DateTime(LargeIntegerToMillis(raw))
        else
          InvalidDateTime
      case GeneralizedTime => parse(raw, GeneralizedTimeFormat)
      case UtcTime => parse(raw, UtcTimeFormat)
      case OtherType => InvalidDateTime
  }

  /** Writing a datetime and reading it back is exact to the millisecond. */
  lemma {:induction false} LargeIntegerRoundTrip(millis: int)
    requires InInt64(millis * MillisTo100Nanos)
    ensures LargeIntegerToMillis(LargeIntegerFromMillis(millis)) == millis
  {
    var back := LargeIntegerToMillis(LargeIntegerFromMillis(millis));
    if millis >= 0 {
      CancelTicks(back, millis);
    } else {
      CancelTicks(-back, -millis);
    }
  }

  /** Whole milliseconds are recovered from ticks within one millisecond. */
  lemma {:induction false} CancelTicks(a: int, b: int)
    requires a * MillisTo100Nanos <= b * MillisTo100Nanos < a * MillisTo100Nanos + MillisTo100Nanos
    ensures a == b
  {
    var d := b - a;
    assert b * MillisTo100Nanos == a * MillisTo100Nanos + d * MillisTo100Nanos;
    assert 0 <= d * MillisTo100Nanos < MillisTo100Nanos;
  }

  /** Reading ticks and writing them back rounds them toward zero to whole
      milliseconds: less than one millisecond is lost, never more. */
  lemma {:induction false} LargeIntegerTruncates(ticks: int)
    requires InInt64(ticks)
    ensures var back := ToLongLong(LargeIntegerFromMillis(LargeIntegerToMillis(NumberToString(ticks))));
      && back % MillisTo100Nanos == 0
      && (ticks >= 0 ==> 0 <= ticks - back < MillisTo100Nanos)
      && (ticks < 0 ==> 0 <= back - ticks < MillisTo100Nanos)
  {
    NumberRoundTrip(ticks);
    var millis := LargeIntegerToMillis(NumberToString(ticks));
    var product := millis * MillisTo100Nanos;
    assert InInt64(product);
    var back := ToLongLong(LargeIntegerFromMillis(millis));
    assert back == product;
    WholeMillis(millis);
  }

  lemma {:induction false} WholeMillis(millis: int)
    ensures (millis * MillisTo100Nanos) % MillisTo100Nanos == 0
  {
  }

  /** For a LargeInteger datetime attribute, decoding what was encoded gives
      the same instant. */
  lemma {:induction false} DatetimeRoundTrip(attribute: string, millis: int, adconfig: AdConfig,
                          format: (DateTime, TimeFormat) -> string, parse: (string, TimeFormat) -> DateTime)
    requires adconfig.attributeType(attribute) == LargeInteger
    requires adconfig.largeIntegerSubtype(attribute) == DatetimeSubtype
    requires InInt64(millis * MillisTo100Nanos)
    ensures DatetimeFromString(attribute, DatetimeToString(attribute, DateTime(millis), Some(adconfig), format),
                               Some(adconfig), parse) == DateTime(millis)
  {
    LargeIntegerRoundTrip(millis);
  }

  /** large_integer_datetime_is_never. */
  predicate LargeIntegerDatetimeIsNever(value: string)
  {
    value == LargeIntegerDatetimeNever1 || value == LargeIntegerDatetimeNever2
  }

  /** Of all encoded datetimes only the epoch itself reads as "never": the
      first sentinel is the encoding of 0 ms, and the second is not a
      multiple of 10000 ticks. */
  lemma {:induction false} NeverOnlyAtEpoch(millis: int)
    requires InInt64(millis * MillisTo100Nanos)
    ensures LargeIntegerDatetimeIsNever(LargeIntegerFromMillis(millis)) <==> millis == 0
  {
    FromMillisInRange(millis);
    if millis == 0 {
      EpochIsNever();
    } else {
      TicksOfNonZero(millis);
      NonZeroTicksNotNever(millis * MillisTo100Nanos);
    }
  }

  lemma FromMillisInRange(millis: int)
    requires InInt64(millis * MillisTo100Nanos)
    ensures LargeIntegerFromMillis(millis) == NumberToString(millis * MillisTo100Nanos)
  {
  }

  lemma EpochIsNever()
    ensures LargeIntegerDatetimeIsNever(NumberToString(0 * MillisTo100Nanos))
  {
    assert NumberToString(0) == "0";
  }

  lemma TicksOfNonZero(millis: int)
    requires millis != 0
    ensures millis * MillisTo100Nanos != 0 && (millis * MillisTo100Nanos) % 10 == 0
  {
    assert millis * MillisTo100Nanos == (millis * 1000) * 10;
  }

  lemma {:induction false} NonZeroTicksNotNever(ticks: int)
    requires InInt64(ticks) && ticks != 0 && ticks % 10 == 0
    ensures !LargeIntegerDatetimeIsNever(NumberToString(ticks))
  {
    var raw := NumberToString(ticks);
    LastDigitOfNumber(ticks);
    assert (if ticks < 0 then -ticks else ticks) % 10 == 0;
    assert raw[|raw| - 1] == '0';
    assert LargeIntegerDatetimeNever2[|LargeIntegerDatetimeNever2| - 1] == '7';
    if raw == LargeIntegerDatetimeNever1 {
      assert NumberToString(0) == LargeIntegerDatetimeNever1;
      NumberToStringInjective(ticks, 0);
    }
  }

  /** The last character of a number is its last decimal digit. */
  lemma {:induction false} LastDigitOfNumber(n: int)
    ensures var s := NumberToString(n);
      s[|s| - 1] == DigitChar((if n < 0 then -n else n) % 10)
  {
  }

  /** ad_string_to_bool: only the exact literal `TRUE` is true. */
  function AdStringToBool(value: string): (b: bool)
  {
    value == LdapBoolTrue
  }

  /** The boolean literal written for `b`. */
  function BoolToAdString(b: bool): (value: string)
  {
    if b then LdapBoolTrue else LdapBoolFalse
  }

  /** The two literals are read back as what they were written for, and
      they are the only texts that survive reading and writing again. */
  lemma {:induction false} BoolRoundTrip(b: bool, value: string)
    ensures AdStringToBool(BoolToAdString(b)) == b
    ensures BoolToAdString(AdStringToBool(value)) == value <==> value == LdapBoolTrue || value == LdapBoolFalse
  {
    assert LdapBoolTrue[0] != LdapBoolFalse[0];
  }

  /** The RID step of extract_rid_from_sid: the text after the last `-` of
      the SID's display form (all of it when there is no `-`). */
  function RidFromSidString(sid: string): (rid: string)
    ensures '-' !in rid
    ensures '-' in sid ==> |rid| < |sid| && sid == sid[..|sid| - |rid| - 1] + "-" + rid
    ensures '-' !in sid ==> rid == sid
  {
    var cutIndex := Text.LastIndexOf(sid, '-') + 1;
    var rid := Text.Mid(sid, cutIndex, -1);
    assert rid == sid[cutIndex..];
    if cutIndex > 0 then
      assert sid == sid[..cutIndex - 1] + "-" + rid;
      rid
    else
      rid
  }
}
