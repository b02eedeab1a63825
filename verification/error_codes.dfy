/**
  The public error-code vocabulary of the violation-list normalizer: the fixed,
  ordered table from Symfony constraint error codes to wire codes, the default wire
  code, and the two lookups the normalizer does on it (by key when normalizing, by
  value when denormalizing).

  The Symfony constraint codes are UUID strings defined by the validator library and
  not visible here; each is represented by a stand-in string that names the constant.
  Nothing below depends on their text beyond their being pairwise distinct, non-empty
  (a null code reads the key "", see WireCode) and declared in this order.
 */
module ErrorCodes {
  import opened Wrappers

  /** An ordered PHP array from constraint codes to wire codes. */
  type CodeTable = seq<(string, string)>

  const DefaultErrorCode: string := "validation.invalid"

  const GreaterThanOrEqualTooLow: string := "GreaterThanOrEqual::TOO_LOW_ERROR"
  const LessThanOrEqualTooHigh: string := "LessThanOrEqual::TOO_HIGH_ERROR"
  const IsFalseNotFalse: string := "IsFalse::NOT_FALSE_ERROR"
  const IsTrueNotTrue: string := "IsTrue::NOT_TRUE_ERROR"
  const DateInvalidDate: string := "Date::INVALID_DATE_ERROR"
  const DateInvalidFormat: string := "Date::INVALID_FORMAT_ERROR"
  const EmailInvalidFormat: string := "Email::INVALID_FORMAT_ERROR"
  const IpInvalidIp: string := "Ip::INVALID_IP_ERROR"
  const LessThanTooHigh: string := "LessThan::TOO_HIGH_ERROR"
  const FileTooLarge: string := "File::TOO_LARGE_ERROR"
  const LengthTooLong: string := "Length::TOO_LONG_ERROR"
  const GreaterThanTooLow: string := "GreaterThan::TOO_LOW_ERROR"
  const FileEmpty: string := "File::EMPTY_ERROR"
  const LengthTooShort: string := "Length::TOO_SHORT_ERROR"
  const CollectionMissingField: string := "Collection::MISSING_FIELD_ERROR"
  const UniqueIsNotUnique: string := "Unique::IS_NOT_UNIQUE"
  const UrlInvalidUrl: string := "Url::INVALID_URL_ERROR"
  const TimezoneIdentifier: string := "Timezone::TIMEZONE_IDENTIFIER_ERROR"
  const TimezoneIdentifierInCountry: string := "Timezone::TIMEZONE_IDENTIFIER_IN_COUNTRY_ERROR"
  const TimezoneIdentifierInZone: string := "Timezone::TIMEZONE_IDENTIFIER_IN_ZONE_ERROR"
  const TimezoneIdentifierIntl: string := "Timezone::TIMEZONE_IDENTIFIER_INTL_ERROR"

  /** ZEBRA_ERROR_CODES, in declaration order: 21 entries onto 15 wire codes. */
  const ZebraErrorCodes: CodeTable := [
    (GreaterThanOrEqualTooLow, "validation.numeric_between"),
    (LessThanOrEqualTooHigh, "validation.numeric_between"),
    (IsFalseNotFalse, "validation.boolean"),
    (IsTrueNotTrue, "validation.boolean"),
    (DateInvalidDate, "validation.date"),
    (DateInvalidFormat, "validation.date"),
    (EmailInvalidFormat, "validation.email"),
    (IpInvalidIp, "validation.ip"),
    (LessThanTooHigh, "validation.numeric_max"),
    (FileTooLarge, "validation.filesize_max"),
    (LengthTooLong, "validation.length_max"),
    (GreaterThanTooLow, "validation.numeric_min"),
    (FileEmpty, "validation.filesize_min"),
    (LengthTooShort, "validation.length_min"),
    (CollectionMissingField, "validation.required"),
    (UniqueIsNotUnique, "validation.exists"),
    (UrlInvalidUrl, "validation.url"),
    (TimezoneIdentifier, "validation.timezone"),
    (TimezoneIdentifierInCountry, "validation.timezone"),
    (TimezoneIdentifierInZone, "validation.timezone"),
    (TimezoneIdentifierIntl, "validation.timezone")
  ]

  /** The keys of a PHP array are unique. */
  predicate KeysDistinct(t: CodeTable) {
    forall i, j :: 0 <= i < j < |t| ==> t[i].0 != t[j].0
  }

  predicate IsKey(t: CodeTable, k: string) {
    exists i :: 0 <= i < |t| && t[i].0 == k
  }

  predicate IsValue(t: CodeTable, w: string) {
    exists i :: 0 <= i < |t| && t[i].1 == w
  }

  /** Entry i holds the first occurrence of its wire code. */
  predicate FirstWithValue(t: CodeTable, i: int) {
    0 <= i < |t| && forall j :: 0 <= j < i ==> t[j].1 != t[i].1
  }

  /** `$t[$k]` on an array with unique keys: the value stored under k, if any. */
  function Lookup(t: CodeTable, k: string): (r: Option<string>)
    requires KeysDistinct(t)
    ensures r.None? <==> !IsKey(t, k)
    ensures forall i :: 0 <= i < |t| && t[i].0 == k ==> r == Some(t[i].1)
  {
    if t == [] then None
    else if t[0].0 == k then Some(t[0].1)
    else
      var r := Lookup(t[1..], k);
      assert forall i :: 1 <= i < |t| ==> t[i] == t[1..][i - 1];
      r
  }

  /** `array_search($w, $t, true)`: the key of the first entry whose value is w. */
  function ArraySearch(t: CodeTable, w: string): (r: Option<string>)
    ensures r.None? <==> !IsValue(t, w)
    ensures r.Some? ==> exists i :: FirstWithValue(t, i) && t[i] == (r.value, w)
  {
    if t == [] then None
    else if t[0].1 == w then
      assert FirstWithValue(t, 0);
      Some(t[0].0)
    else
      var r := ArraySearch(t[1..], w);
      assert forall i :: 1 <= i < |t| ==> t[i] == t[1..][i - 1];
      assert forall i :: FirstWithValue(t[1..], i) && t[1..][i].1 == w ==> FirstWithValue(t, i + 1);
      r
  }

  /** PHP `empty()` on an optional string: null, "" and "0" are empty. */
  predicate IsEmpty(v: Option<string>) {
    v.None? || v.value == "" || v.value == "0"
  }

  lemma TableKeysDistinct()
    ensures KeysDistinct(ZebraErrorCodes)
  {
  }

  /** No key is the empty string, the key a null code reads. */
  lemma NoEmptyKey()
    ensures !IsKey(ZebraErrorCodes, "")
  {
  }

  /**
    The wire code of a violation's code: the table value for that key, otherwise the
    default. A null code reads the key "" (PHP's reading of a null array index), which
    is not in the table.
   */
  function WireCode(code: Option<string>): (w: string)
    ensures w == DefaultErrorCode || IsValue(ZebraErrorCodes, w)
    ensures code.None? || !IsKey(ZebraErrorCodes, code.value) ==> w == DefaultErrorCode
  {
    TableKeysDistinct();
    NoEmptyKey();
    var key := if code.None? then "" else code.value;
    Lookup(ZebraErrorCodes, key).GetOr(DefaultErrorCode)
  }

  /** A key of the table reads the wire code stored under it. */
  lemma WireCodeOfKey(i: int)
    requires 0 <= i < |ZebraErrorCodes|
    ensures WireCode(Some(ZebraErrorCodes[i].0)) == ZebraErrorCodes[i].1
  {
    TableKeysDistinct();
  }

  /**
    The constraint code a wire code denormalizes to: for a non-empty wire code that is
    a table value, the first key in declaration order carrying it; otherwise null.
   */
  function ResolveCode(code: Option<string>): (k: Option<string>)
    ensures k.Some? <==> !IsEmpty(code) && IsValue(ZebraErrorCodes, code.value)
    ensures k.Some? ==> exists i :: FirstWithValue(ZebraErrorCodes, i) &&
                                    ZebraErrorCodes[i] == (k.value, code.value)
  {
    if !IsEmpty(code) && IsValue(ZebraErrorCodes, code.value) then
      ArraySearch(ZebraErrorCodes, code.value)
    else None
  }

  /** "validation.invalid" is no table value, so it resolves to null. */
  lemma DefaultIsNotTableValue()
    ensures !IsValue(ZebraErrorCodes, DefaultErrorCode)
    ensures ResolveCode(Some(DefaultErrorCode)) == None
  {
  }

  /** No table value is PHP-empty. */
  lemma TableValuesNonEmpty(w: string)
    requires IsValue(ZebraErrorCodes, w)
    ensures !IsEmpty(Some(w))
  {
  }

  /**
    Wire code round trip: denormalizing a wire code and normalizing the result gives
    the code back when it is a table value, and the default otherwise.
   */
  lemma CodeRoundTrip(w: Option<string>)
    ensures WireCode(ResolveCode(w)) ==
            if w.Some? && IsValue(ZebraErrorCodes, w.value) then w.value else DefaultErrorCode
  {
    if w.Some? && IsValue(ZebraErrorCodes, w.value) {
      TableValuesNonEmpty(w.value);
    }
  }

  /** A constraint code is canonical when it is the first key carrying its wire code. */
  ghost predicate IsCanonicalKey(k: string) {
    exists i :: FirstWithValue(ZebraErrorCodes, i) && ZebraErrorCodes[i].0 == k
  }

  /**
    Constraint code round trip: normalizing a code and denormalizing the wire code
    gives the code back exactly when it is canonical; a code outside the table comes
    back as null.
   */
  lemma KeyRoundTrip(k: string)
    ensures IsCanonicalKey(k) ==> ResolveCode(Some(WireCode(Some(k)))) == Some(k)
    ensures !IsKey(ZebraErrorCodes, k) ==> ResolveCode(Some(WireCode(Some(k)))) == None
    ensures IsKey(ZebraErrorCodes, k) && !IsCanonicalKey(k) ==>
              ResolveCode(Some(WireCode(Some(k)))) != Some(k)
  {
    TableKeysDistinct();
    DefaultIsNotTableValue();
    if IsKey(ZebraErrorCodes, k) {
      var i :| 0 <= i < |ZebraErrorCodes| && ZebraErrorCodes[i].0 == k;
      var w := ZebraErrorCodes[i].1;
      WireCodeOfKey(i);
      TableValuesNonEmpty(w);
      var r := ResolveCode(Some(w));
      var j :| FirstWithValue(ZebraErrorCodes, j) && ZebraErrorCodes[j] == (r.value, w);
      if IsCanonicalKey(k) {
        var c :| FirstWithValue(ZebraErrorCodes, c) && ZebraErrorCodes[c].0 == k;
        assert c == i;
        assert j == i;
      } else {
        assert !FirstWithValue(ZebraErrorCodes, i);
        assert j != i;
        assert r.value != k;
      }
    }
  }

  /**
    The table's duplicated wire codes: every entry except the second numeric_between,
    boolean and date keys and the last three timezone keys is the first with its wire
    code, so the 21 keys carry 15 distinct wire codes.
   */
  lemma CanonicalEntries()
    ensures forall i :: 0 <= i < |ZebraErrorCodes| ==>
              (FirstWithValue(ZebraErrorCodes, i) <==> i !in {1, 3, 5, 18, 19, 20})
  {
    var t := ZebraErrorCodes;
    assert t[1].1 == t[0].1 && t[3].1 == t[2].1 && t[5].1 == t[4].1;
    assert t[18].1 == t[17].1 && t[19].1 == t[17].1 && t[20].1 == t[17].1;
    forall i | 0 <= i < |t| && i !in {1, 3, 5, 18, 19, 20}
      ensures FirstWithValue(t, i)
    {
    }
  }

  /**
    The reverse lookup follows declaration order: "validation.numeric_between" comes
    back as the GreaterThanOrEqual code, not the LessThanOrEqual one.
   */
  lemma NumericBetweenResolvesToFirstKey()
    ensures ResolveCode(Some("validation.numeric_between")) == Some(GreaterThanOrEqualTooLow)
  {
    var w := "validation.numeric_between";
    assert ZebraErrorCodes[0] == (GreaterThanOrEqualTooLow, w);
    assert ArraySearch(ZebraErrorCodes, w) == Some(GreaterThanOrEqualTooLow);
  }
}
