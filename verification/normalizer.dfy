/**
  The unified constraint-violation-list normalizer: turns a list of validation
  violations into the wire format `{errors: [{message, code, field}, ...]}` and reads
  that format back into violations, translating codes through the table of
  ErrorCodes and, when a name converter was injected, property paths through
  FieldNameConverter.
 */
module Normalizer {
  import opened Wrappers
  import opened ErrorCodes
  import FieldNameConverter

  /** A constraint violation as far as this normalizer reads or builds one. */
  datatype Violation = Violation(message: string, propertyPath: string, code: Option<string>)

  /** One normalized error. */
  datatype WireError = WireError(message: string, code: string, field: string)

  /** The normalized list, `['errors' => [...]]`. */
  datatype WireErrorList = WireErrorList(errors: seq<WireError>)

  /** One decoded input entry; a missing key and a null value are both None. */
  datatype WireEntry = WireEntry(message: Option<string>, code: Option<string>, field: Option<string>)

  /** What the decoded payload holds under the key 'errors'. */
  datatype ErrorsValue = Missing | Null | Entries(entries: seq<WireEntry>)

  /** The decoded array handed to denormalize. */
  datatype Payload = Payload(errors: ErrorsValue)

  /** The values the serializer may offer to the applicability guards. */
  datatype Data =
    | ViolationList(violations: seq<Violation>)
    | ArrayData(payload: Payload)
    | OtherValue

  /** The class name requested from the denormalizer. */
  datatype TargetType =
    | ConstraintViolationListClass
    | ViolationListSubclass(name: string)
    | UnrelatedClass(name: string)

  /** `is_a($type, ConstraintViolationList::class, true)`. */
  predicate IsViolationListType(t: TargetType) {
    t.ConstraintViolationListClass? || t.ViolationListSubclass?
  }

  /** The wire field of a property path: converted when a converter is set, raw otherwise. */
  function FieldOf(convertNames: bool, path: string): string {
    if convertNames then FieldNameConverter.Normalize(path) else path
  }

  /** The property path of a wire field: converted when a converter is set, raw otherwise. */
  function PathOf(convertNames: bool, field: string): string {
    if convertNames then FieldNameConverter.Denormalize(field) else field
  }

  /** The error normalize emits for one violation. */
  function ToWireError(convertNames: bool, v: Violation): WireError {
    WireError(v.message, WireCode(v.code), FieldOf(convertNames, v.propertyPath))
  }

  /** A normalized error as it arrives back after encoding and decoding. */
  function AsEntry(e: WireError): WireEntry {
    WireEntry(Some(e.message), Some(e.code), Some(e.field))
  }

  /** Entries that denormalize skips: the message or the field is PHP-empty. */
  predicate Skipped(e: WireEntry) {
    IsEmpty(e.message) || IsEmpty(e.field)
  }

  /** The violation denormalize builds from an entry it keeps. */
  function ToViolation(convertNames: bool, e: WireEntry): Violation
    requires !Skipped(e)
  {
    Violation(e.message.value, PathOf(convertNames, e.field.value), ResolveCode(e.code))
  }

  /**
    A denormalized violation carries a canonical constraint code, and carries none
    exactly when the wire code is empty or not in the table.
   */
  lemma ToViolationCode(convertNames: bool, e: WireEntry)
    requires !Skipped(e)
    ensures ToViolation(convertNames, e).code.Some? ==> IsCanonicalKey(ToViolation(convertNames, e).code.value)
    ensures ToViolation(convertNames, e).code.None? <==> IsEmpty(e.code) || !IsValue(ZebraErrorCodes, e.code.value)
  {
  }

  /** The violations denormalize builds from a list of entries, in order. */
  function Survivors(convertNames: bool, entries: seq<WireEntry>): (vs: seq<Violation>)
    ensures |vs| <= |entries|
    ensures (forall i :: 0 <= i < |entries| ==> Skipped(entries[i])) ==> vs == []
    decreases |entries|
  {
    if entries == [] then []
    else
      var init := entries[..|entries| - 1];
      var last := entries[|entries| - 1];
      var front := Survivors(convertNames, init);
      assert forall i :: 0 <= i < |init| ==> init[i] == entries[i];
      front + (if Skipped(last) then [] else [ToViolation(convertNames, last)])
  }

  class UnifiedConstraintViolationListNormalizer {
    /** Whether a name converter was injected; the converter of this bundle is FieldNameConverter. */
    const convertNames: bool

    constructor (convertNames: bool)
      ensures this.convertNames == convertNames
    {
      this.convertNames := convertNames;
    }

    /**
      One error per violation, in the same order: the message verbatim, the table's
      wire code or the default, and the converted (or raw) property path.
     */
    method Normalize(violations: seq<Violation>) returns (r: WireErrorList)
      ensures |r.errors| == |violations|
      ensures forall i :: 0 <= i < |violations| ==>
                r.errors[i] == ToWireError(convertNames, violations[i])
    {
      var errors: seq<WireError> := [];
      for i := 0 to |violations|
        invariant |errors| == i
        invariant forall j :: 0 <= j < i ==> errors[j] == ToWireError(convertNames, violations[j])
      {
        var violation := violations[i];
        var propertyPath := FieldOf(convertNames, violation.propertyPath);
        var error := WireError(violation.message, WireCode(violation.code), propertyPath);
        errors := errors + [error];
      }
      return WireErrorList(errors);
    }

    /** Normalization applies to a violation list headed for JSON. */
    function SupportsNormalization(data: Data, format: Option<string>): bool {
      data.ViolationList? && format == Some("json")
    }

    /**
      The violations of the entries under 'errors', skipping entries without a usable
      message or field; nothing when 'errors' is missing, null or empty.
     */
    method Denormalize(data: Payload) returns (list: seq<Violation>)
      ensures !data.errors.Entries? ==> list == []
      ensures data.errors.Entries? ==> list == Survivors(convertNames, data.errors.entries)
    {
      list := [];
      if data.errors.Missing? || data.errors.Null? || data.errors.entries == [] {
        return;
      }
      var entries := data.errors.entries;
      for i := 0 to |entries|
        invariant list == Survivors(convertNames, entries[..i])
      {
        var error := entries[i];
        assert entries[..i + 1][..i] == entries[..i];
        if IsEmpty(error.message) || IsEmpty(error.field) {
          continue;
        }
        var propertyPath := PathOf(convertNames, error.field.value);
        var code := ResolveCode(error.code);
        list := list + [Violation(error.message.value, propertyPath, code)];
      }
      assert entries[..|entries|] == entries;
    }

    /** Denormalization applies to an array with an 'errors' key, into the violation-list class. */
    function SupportsDenormalization(data: Data, targetType: TargetType): bool {
      data.ArrayData? && !data.payload.errors.Missing? && IsViolationListType(targetType)
    }
  }

  // ---------------------------------------------------------------------------
  // Denormalize handles each entry on its own

  /** Denormalizing a concatenation denormalizes the parts. */
  lemma {:induction false} SurvivorsAppend(convertNames: bool, a: seq<WireEntry>, b: seq<WireEntry>)
    ensures Survivors(convertNames, a + b) == Survivors(convertNames, a) + Survivors(convertNames, b)
    decreases |b|
  {
    if b != [] {
      var b' := b[..|b| - 1];
      SurvivorsAppend(convertNames, a, b');
      assert (a + b)[..|a + b| - 1] == a + b';
      assert (a + b)[|a + b| - 1] == b[|b| - 1];
    } else {
      assert a + b == a;
    }
  }

  /** A skipped entry leaves the violations of its siblings as they were. */
  lemma SkippedEntryIgnored(convertNames: bool, a: seq<WireEntry>, e: WireEntry, b: seq<WireEntry>)
    requires Skipped(e)
    ensures Survivors(convertNames, a + [e] + b) == Survivors(convertNames, a + b)
  {
    SurvivorsAppend(convertNames, a, [e]);
    assert Survivors(convertNames, [e]) == [];
    assert Survivors(convertNames, a + [e]) == Survivors(convertNames, a);
    SurvivorsAppend(convertNames, a + [e], b);
    SurvivorsAppend(convertNames, a, b);
  }

  /** A kept entry contributes exactly its own violation, in its place. */
  lemma KeptEntryInPlace(convertNames: bool, a: seq<WireEntry>, e: WireEntry, b: seq<WireEntry>)
    requires !Skipped(e)
    ensures Survivors(convertNames, a + [e] + b) ==
            Survivors(convertNames, a) + [ToViolation(convertNames, e)] + Survivors(convertNames, b)
  {
    SurvivorsAppend(convertNames, a, [e]);
    assert [e][..0] == [];
    assert Survivors(convertNames, [e]) == [ToViolation(convertNames, e)];
    SurvivorsAppend(convertNames, a + [e], b);
  }

  /** v is the violation built from some entry that denormalize keeps. */
  ghost predicate BuiltFromKept(convertNames: bool, entries: seq<WireEntry>, v: Violation) {
    exists i :: 0 <= i < |entries| && !Skipped(entries[i]) && v == ToViolation(convertNames, entries[i])
  }

  /** Every violation denormalize yields was built from an entry it kept. */
  lemma {:induction false} SurvivorsFromKeptEntries(convertNames: bool, entries: seq<WireEntry>)
    ensures forall v :: v in Survivors(convertNames, entries) ==> BuiltFromKept(convertNames, entries, v)
    decreases |entries|
  {
    if entries != [] {
      var init := entries[..|entries| - 1];
      var last := entries[|entries| - 1];
      var front := Survivors(convertNames, init);
      SurvivorsFromKeptEntries(convertNames, init);
      assert Survivors(convertNames, entries) ==
             front + (if Skipped(last) then [] else [ToViolation(convertNames, last)]);
      forall v | v in Survivors(convertNames, entries)
        ensures BuiltFromKept(convertNames, entries, v)
      {
        if v in front {
          var i :| 0 <= i < |init| && !Skipped(init[i]) && v == ToViolation(convertNames, init[i]);
          assert init[i] == entries[i];
        } else {
          assert !Skipped(entries[|entries| - 1]);
        }
      }
    }
  }

  /** With nothing to skip, entry i yields violation i. */
  lemma {:induction false} NoneSkipped(convertNames: bool, entries: seq<WireEntry>)
    requires forall i :: 0 <= i < |entries| ==> !Skipped(entries[i])
    ensures |Survivors(convertNames, entries)| == |entries|
    ensures forall i :: 0 <= i < |entries| ==>
              Survivors(convertNames, entries)[i] == ToViolation(convertNames, entries[i])
    decreases |entries|
  {
    if entries != [] {
      var init := entries[..|entries| - 1];
      var last := entries[|entries| - 1];
      NoneSkipped(convertNames, init);
      var front := Survivors(convertNames, init);
      assert !Skipped(last);
      assert Survivors(convertNames, entries) == front + [ToViolation(convertNames, last)];
      forall i | 0 <= i < |init|
        ensures Survivors(convertNames, entries)[i] == ToViolation(convertNames, entries[i])
      {
        assert init[i] == entries[i];
      }
    }
  }

  // ---------------------------------------------------------------------------
  // Round trips

  /** A violation that survives normalize followed by denormalize unchanged. */
  ghost predicate Transportable(convertNames: bool, v: Violation) {
    && !IsEmpty(Some(v.message))
    && !IsEmpty(Some(FieldOf(convertNames, v.propertyPath)))
    && (v.code.None? || IsCanonicalKey(v.code.value))
    && (convertNames ==>
          exists segs :: |segs| >= 1 && FieldNameConverter.PlainSegments(segs) &&
                         v.propertyPath == FieldNameConverter.BracketPath(segs))
  }

  lemma ViolationRoundTrip(convertNames: bool, v: Violation)
    requires Transportable(convertNames, v)
    ensures !Skipped(AsEntry(ToWireError(convertNames, v)))
    ensures ToViolation(convertNames, AsEntry(ToWireError(convertNames, v))) == v
  {
    var e := AsEntry(ToWireError(convertNames, v));
    if convertNames {
      var segs :| |segs| >= 1 && FieldNameConverter.PlainSegments(segs) &&
                  v.propertyPath == FieldNameConverter.BracketPath(segs);
      FieldNameConverter.DenormalizeNormalize(segs);
    }
    if v.code.Some? {
      KeyRoundTrip(v.code.value);
    } else {
      DefaultIsNotTableValue();
    }
  }

  /**
    Violations to wire and back: normalizing a list of transportable violations and
    denormalizing the decoded result gives the same list.
   */
  lemma {:induction false} NormalizeDenormalizeRoundTrip(
    convertNames: bool, vs: seq<Violation>, errors: seq<WireError>)
    requires forall i :: 0 <= i < |vs| ==> Transportable(convertNames, vs[i])
    requires |errors| == |vs|
    requires forall i :: 0 <= i < |vs| ==> errors[i] == ToWireError(convertNames, vs[i])
    ensures Survivors(convertNames, seq(|errors|, i requires 0 <= i < |errors| => AsEntry(errors[i]))) == vs
  {
    var entries := seq(|errors|, i requires 0 <= i < |errors| => AsEntry(errors[i]));
    forall i | 0 <= i < |vs|
      ensures !Skipped(entries[i]) && ToViolation(convertNames, entries[i]) == vs[i]
    {
      ViolationRoundTrip(convertNames, vs[i]);
    }
    NoneSkipped(convertNames, entries);
  }

  /**
    Wire to violation and back: a kept entry comes back with its message and field,
    and with its code when that is a table value, the default code otherwise.
   */
  lemma EntryRoundTrip(convertNames: bool, e: WireEntry)
    requires !Skipped(e)
    requires convertNames ==> FieldNameConverter.BracketFree(e.field.value)
    ensures ToWireError(convertNames, ToViolation(convertNames, e)) ==
            WireError(e.message.value,
                      if e.code.Some? && IsValue(ZebraErrorCodes, e.code.value) then e.code.value
                      else DefaultErrorCode,
                      e.field.value)
  {
    CodeRoundTrip(e.code);
    if convertNames {
      FieldNameConverter.NormalizeDenormalize(e.field.value);
    }
  }

  /**
    A violation on the property path "[0]" (the first item of a collection) is written
    with the field "0", which PHP's empty() treats as empty, so denormalize drops it.
   */
  lemma ZeroPathIsDropped(v: Violation)
    requires v.propertyPath == "[0]"
    ensures ToWireError(true, v).field == "0"
    ensures Skipped(AsEntry(ToWireError(true, v)))
  {
    FieldNameConverter.ReplaceSeparatorsAtOther(']', "");
    FieldNameConverter.ReplaceSeparatorsAtOther('0', "]");
    FieldNameConverter.ReplaceSeparatorsOpen("0]");
    assert FieldNameConverter.ReplaceSeparators("[0]") == "[" + "0" + "]";
    FieldNameConverter.TrimWrapped("0");
  }

  // ---------------------------------------------------------------------------
  // The cases the bundle's tests exercise

  /** Each table key, on the path "[d][e]", normalizes to its wire code and the field "d.e". */
  lemma NormalizeTableKey(i: int)
    requires 0 <= i < |ZebraErrorCodes|
    ensures ToWireError(true, Violation("a", "[d][e]", Some(ZebraErrorCodes[i].0))) ==
            WireError("a", ZebraErrorCodes[i].1, "d.e")
  {
    FieldNameConverter.NormalizeExample();
    WireCodeOfKey(i);
  }

  /**
    Each wire code, with the field "b.c", denormalizes to the first key carrying it and
    the path "[b][c]".
   */
  lemma DenormalizeWireCode(i: int)
    requires FirstWithValue(ZebraErrorCodes, i)
    ensures Survivors(true, [WireEntry(Some("a"), Some(ZebraErrorCodes[i].1), Some("b.c"))]) ==
            [Violation("a", "[b][c]", Some(ZebraErrorCodes[i].0))]
  {
    var e := WireEntry(Some("a"), Some(ZebraErrorCodes[i].1), Some("b.c"));
    FieldNameConverter.DenormalizeExample();
    TableKeysDistinct();
    TableValuesNonEmpty(ZebraErrorCodes[i].1);
    var k := ResolveCode(e.code);
    var j :| FirstWithValue(ZebraErrorCodes, j) && ZebraErrorCodes[j] == (k.value, ZebraErrorCodes[i].1);
    assert j == i;
    assert [e][..0] == [];
  }

  /** No value is offered to both directions: the guards never both accept. */
  lemma GuardsExclusive(n: UnifiedConstraintViolationListNormalizer, data: Data,
                        format: Option<string>, targetType: TargetType)
    ensures !(n.SupportsNormalization(data, format) && n.SupportsDenormalization(data, targetType))
  {
  }

  /**
    What normalize emits, once decoded, is accepted by supportsDenormalization for the
    violation-list class and any subclass, and refused for any other class.
   */
  lemma NormalizedOutputAccepted(n: UnifiedConstraintViolationListNormalizer, errors: seq<WireError>,
                                 targetType: TargetType)
    ensures var decoded := seq(|errors|, i requires 0 <= i < |errors| => AsEntry(errors[i]));
            n.SupportsDenormalization(ArrayData(Payload(Entries(decoded))), targetType) <==>
            !targetType.UnrelatedClass?
  {
  }

  /** The guard answers the bundle's tests expect. */
  lemma GuardExamples(n: UnifiedConstraintViolationListNormalizer)
    ensures n.SupportsDenormalization(ArrayData(Payload(Entries([]))), ConstraintViolationListClass)
    ensures !n.SupportsDenormalization(ArrayData(Payload(Missing)), ConstraintViolationListClass)
    ensures n.SupportsNormalization(ViolationList([]), Some("json"))
    ensures !n.SupportsNormalization(OtherValue, Some("json"))
  {
  }
}
