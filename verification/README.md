# Error normalizer bundle: a Dafny model

This project models the two classes that make up the serialization core of the
error-normalizer bundle:

- `FieldNameConverter` rewrites Symfony property paths. `normalize` turns the
  validator's bracket notation (`[d][e]`) into the dot notation used on the wire
  (`d.e`). `denormalize` does the reverse (`b.c` becomes `[b][c]`).
- `UnifiedConstraintViolationListNormalizer` turns a list of validation violations
  into `{"errors": [{"message", "code", "field"}, ...]}` and reads that shape back
  into violations. It translates Symfony constraint codes into public wire codes
  through the ordered table `ZEBRA_ERROR_CODES`. A code the table does not hold
  becomes `validation.invalid`.

Files:

- `wrappers.dfy`: `Option` (PHP `null` against a present value).
- `field_name_converter.dfy`: module `FieldNameConverter`. The two conversions are
  total functions over `string`. They are built from models of `str_replace`, `trim`,
  `explode` and `implode`. The lemmas prove that the conversions are inverse on
  well-formed paths.
- `error_codes.dfy`: module `ErrorCodes`. It holds:
  - the 21-entry table, in declaration order;
  - the default code;
  - the forward lookup `$table[$code] ?? default`;
  - the reverse lookup `in_array`/`array_search`;
  - round-trip lemmas for codes.
- `normalizer.dfy`: module `Normalizer`. It holds:
  - the violation and wire datatypes;
  - the class `UnifiedConstraintViolationListNormalizer`, whose `normalize` and
    `denormalize` are loop methods. Each is proved against a specification function:
    `ToWireError` per violation, and `Survivors` for the list of kept entries;
  - the two applicability guards;
  - the list-level round-trip lemmas.

Some members model PHP code directly but carry no contract of their own, so they
have no row below:
- `Implode` models `implode`;
- `IsEmpty` models PHP `empty()` on a string at lines 183 and 190 of the normalizer;
  `empty($data['errors'])` at line 179 is the early-return test of the `Denormalize`
  method (missing, null or an empty list);
- `ToWireError` models one array built inside the normalize loop;
- `ToViolation` models one violation built inside the denormalize loop;
- `SupportsNormalization` models `supportsNormalization`;
- `SupportsDenormalization` models `supportsDenormalization`.
Lemmas about these members appear in the table.

Modelling choices:

- The injected name converter is a `bool` field. When it is set, the converter is
  `FieldNameConverter`, which is the only converter this bundle ships.
- A `ConstraintViolationList` is a sequence of violations.
- A violation holds only the three attributes the normalizer reads or sets: message,
  property path and code.
- PHP `empty()` on an optional string is true for null, `""` and `"0"`.
- A null constraint code reads the array key `""` (PHP's reading of `$a[null]`). That
  key is not in the table, so a null code becomes the default wire code.
- The real constraint codes are UUID strings defined in the Symfony validator. Each
  is represented by a stand-in string. The proofs use only three facts about them:
  they are pairwise distinct, none is empty, and they are declared in this order.
  Non-emptiness matters because a null code reads the key `""` (`NoEmptyKey`).

## Model

| member | source | states |
|---|---|---|
| FieldNameConverter.ReplaceSeparators | NameConverter/FieldNameConverter.php:14 | `str_replace('][', '.', s)` never makes the result longer. It replaces a leading separator by '.' and leaves no "][" anywhere in its result. |
| FieldNameConverter.Trim | NameConverter/FieldNameConverter.php:14 | `trim(s, '[]')` leaves no bracket at either end. It keeps a separator-free string separator-free and leaves a bracket-free string unchanged. |
| FieldNameConverter.TrimLeft | NameConverter/FieldNameConverter.php:14 | The left half of `trim`. The result is a suffix of s, and every dropped character is a bracket. |
| FieldNameConverter.TrimRight | NameConverter/FieldNameConverter.php:14 | The right half of `trim`. The result is a prefix of s, and every dropped character is a bracket. |
| FieldNameConverter.Explode | NameConverter/FieldNameConverter.php:24 | `explode('.', s)` has one more piece than s has dots, and no piece holds the delimiter. |
| FieldNameConverter.Count | NameConverter/FieldNameConverter.php:24 | The number of occurrences of a character is at most the length, and it is zero exactly when the character is absent. |
| FieldNameConverter.Normalize | NameConverter/FieldNameConverter.php:12-15 | normalize never lengthens a path. Its result has no bracket at either end and holds no "][". |
| FieldNameConverter.Denormalize | NameConverter/FieldNameConverter.php:20-26 | denormalize adds two characters plus one per dot. It starts with '[', ends with ']' and leaves no '.'. |
| FieldNameConverter.ImplodeExplode | NameConverter/FieldNameConverter.php:24 | Joining the pieces of `explode(d, s)` with sep equals replacing every d in s by sep. |
| FieldNameConverter.ExplodeImplodeRoundTrip | NameConverter/FieldNameConverter.php:24 | `explode(d, implode(d, parts)) == parts` when there is at least one part and no part holds d. |
| FieldNameConverter.ExplodePrefix | NameConverter/FieldNameConverter.php:24 | Exploding `pre + s`, with no d in pre, puts pre at the front of the first piece. |
| FieldNameConverter.ReplaceCharLength | NameConverter/FieldNameConverter.php:24 | Replacing each d by a two-character separator adds one character per occurrence. |
| FieldNameConverter.ReplaceCharRemovesAll | NameConverter/FieldNameConverter.php:24 | No d is left after replacing every d by a separator without d. |
| FieldNameConverter.ImplodeBracketFree | NameConverter/FieldNameConverter.php:24 | Joining bracket-free parts with a bracket-free separator gives a bracket-free string. |
| FieldNameConverter.ReplaceSeparatorsOpen | NameConverter/FieldNameConverter.php:14 | Step lemma, one unfolding of `str_replace`: a leading '[' is passed over. |
| FieldNameConverter.ReplaceSeparatorsAtSeparator | NameConverter/FieldNameConverter.php:14 | Step lemma, one unfolding of `str_replace`: a leading "][" becomes '.' and the scan goes on after it. |
| FieldNameConverter.ReplaceSeparatorsAtOther | NameConverter/FieldNameConverter.php:14 | Step lemma, one unfolding of `str_replace`: any other leading character is kept and the scan goes on after it. |
| FieldNameConverter.ReplaceSeparatorsExpanded | NameConverter/FieldNameConverter.php:14-24 | For a bracket-free w followed by ']', `str_replace('][', '.')` undoes expanding the dots of w into "][". |
| FieldNameConverter.ExpandReplacedSeparators | NameConverter/FieldNameConverter.php:14-24 | On a path without dots, expanding the dots of `str_replace('][', '.', s)` back into "][" restores s. |
| FieldNameConverter.TrimWrapped | NameConverter/FieldNameConverter.php:14 | `trim('[' + w + ']', '[]') == w` for a bracket-free w. |
| FieldNameConverter.DenormalizeExpandsDots | NameConverter/FieldNameConverter.php:22-25 | denormalize(w) is w with every dot replaced by "][", wrapped in one pair of brackets. |
| FieldNameConverter.NormalizeDenormalize | NameConverter/FieldNameConverter.php:12-26 | normalize(denormalize(w)) == w for every bracket-free w. This includes "" and paths with empty segments. |
| FieldNameConverter.BracketPath | NameConverter/FieldNameConverter.php:22-25 | An internal path "[s1]...[sn]" starts with '[' and ends with ']'. |
| FieldNameConverter.NormalizeBracketPath | NameConverter/FieldNameConverter.php:12-15 | normalize of "[s1]...[sn]" is the segments joined with "." when no segment holds '.', '[' or ']'. |
| FieldNameConverter.DenormalizeNormalize | NameConverter/FieldNameConverter.php:12-26 | denormalize(normalize(p)) == p for every such bracket path with at least one segment. |
| FieldNameConverter.NormalizeExample | tests/Normalizer/ConstraintViolationListNormalizerTest.php:92-103 | normalize("[d][e]") == "d.e". |
| FieldNameConverter.DenormalizeExample | tests/Normalizer/ConstraintViolationListNormalizerTest.php:35-45 | denormalize("b.c") == "[b][c]". |
| ErrorCodes.Lookup | Normalizer/UnifiedConstraintViolationListNormalizer.php:142 | `$table[$k]` on an array with unique keys is null exactly when k is not a key. Otherwise it is the value stored under k. |
| ErrorCodes.ArraySearch | Normalizer/UnifiedConstraintViolationListNormalizer.php:190-191 | Strict `array_search` is null exactly when w is not a value. Otherwise it is the key of the first entry holding w. |
| ErrorCodes.TableKeysDistinct | Normalizer/UnifiedConstraintViolationListNormalizer.php:18-117 | The 21 keys of ZEBRA_ERROR_CODES are pairwise distinct. |
| ErrorCodes.WireCode | Normalizer/UnifiedConstraintViolationListNormalizer.php:142 | The wire code is a table value or `validation.invalid`. It is the default for a null code or any code that is not a key. |
| ErrorCodes.NoEmptyKey | Normalizer/UnifiedConstraintViolationListNormalizer.php:142 | No key is the empty string, so a null code, which reads the key "", gets the default. |
| ErrorCodes.WireCodeOfKey | Normalizer/UnifiedConstraintViolationListNormalizer.php:142 | Each key of the table is emitted as the wire code stored under it. |
| ErrorCodes.ResolveCode | Normalizer/UnifiedConstraintViolationListNormalizer.php:190-192 | A wire code resolves to a constraint code exactly when it is non-empty and a table value. The key returned is the first key in declaration order that carries it. |
| ErrorCodes.DefaultIsNotTableValue | Normalizer/UnifiedConstraintViolationListNormalizer.php:17-117 | `validation.invalid` is not a table value, so it resolves to null. |
| ErrorCodes.TableValuesNonEmpty | Normalizer/UnifiedConstraintViolationListNormalizer.php:18-117 | No table value is PHP-empty. |
| ErrorCodes.CodeRoundTrip | Normalizer/UnifiedConstraintViolationListNormalizer.php:142-192 | Resolving a wire code and normalizing the result gives the code back when it is a table value. Otherwise it gives the default. |
| ErrorCodes.KeyRoundTrip | Normalizer/UnifiedConstraintViolationListNormalizer.php:142-192 | Normalizing a constraint code and resolving the result gives the code back exactly when the code is canonical. A code outside the table comes back null. |
| ErrorCodes.CanonicalEntries | Normalizer/UnifiedConstraintViolationListNormalizer.php:39-116 | Every entry is the first with its wire code except entries 1, 3, 5, 18, 19 and 20. These are the second numeric_between, boolean and date keys and the last three timezone keys. |
| ErrorCodes.NumericBetweenResolvesToFirstKey | Normalizer/UnifiedConstraintViolationListNormalizer.php:39-40 | "validation.numeric_between" resolves to the GreaterThanOrEqual code, which is declared first. |
| Normalizer.ToViolationCode | Normalizer/UnifiedConstraintViolationListNormalizer.php:190-194 | A denormalized violation carries a canonical code. It carries none exactly when the wire code is empty or not in the table. |
| Normalizer.Survivors | Normalizer/UnifiedConstraintViolationListNormalizer.php:182-205 | The list denormalize builds is no longer than its input, and it is empty when every entry is skipped. |
| Normalizer.UnifiedConstraintViolationListNormalizer.constructor | Normalizer/UnifiedConstraintViolationListNormalizer.php:122-125 | Records whether a name converter was injected. |
| Normalizer.UnifiedConstraintViolationListNormalizer.Normalize | Normalizer/UnifiedConstraintViolationListNormalizer.php:130-148 | Emits one error per violation, in order. Each error holds the message, the table code or the default, and the converted or raw path. |
| Normalizer.UnifiedConstraintViolationListNormalizer.Denormalize | Normalizer/UnifiedConstraintViolationListNormalizer.php:176-208 | Returns an empty list when 'errors' is missing, null or empty. Otherwise it returns exactly the violations of the kept entries, in input order. |
| Normalizer.SurvivorsAppend | Normalizer/UnifiedConstraintViolationListNormalizer.php:182-205 | Denormalizing a concatenation concatenates the results. |
| Normalizer.SkippedEntryIgnored | Normalizer/UnifiedConstraintViolationListNormalizer.php:183-185 | An entry with an empty message or field leaves the result for its siblings unchanged. |
| Normalizer.KeptEntryInPlace | Normalizer/UnifiedConstraintViolationListNormalizer.php:186-204 | A kept entry contributes exactly its own violation, at its position. |
| Normalizer.SurvivorsFromKeptEntries | Normalizer/UnifiedConstraintViolationListNormalizer.php:182-205 | Every violation denormalize returns was built from some kept entry. |
| Normalizer.NoneSkipped | Normalizer/UnifiedConstraintViolationListNormalizer.php:182-205 | When no entry is skipped, entry i yields violation i and the lengths agree. |
| Normalizer.ViolationRoundTrip | Normalizer/UnifiedConstraintViolationListNormalizer.php:136-203 | A violation comes back unchanged from normalize then denormalize when three conditions hold: its message and field are non-empty, its code is null or canonical, and (with the converter) its path is a plain bracket path. |
| Normalizer.NormalizeDenormalizeRoundTrip | Normalizer/UnifiedConstraintViolationListNormalizer.php:130-208 | A list of such violations, normalized and decoded, denormalizes to the same list. |
| Normalizer.EntryRoundTrip | Normalizer/UnifiedConstraintViolationListNormalizer.php:136-203 | A kept wire entry comes back from denormalize then normalize with its message and field when, with the converter, the field holds no '[' or ']'. Its code is kept when it is a table value and becomes the default otherwise. |
| Normalizer.ZeroPathIsDropped | Normalizer/UnifiedConstraintViolationListNormalizer.php:136-183 | With the converter, a violation on the path "[0]" gets the field "0", which PHP's empty() treats as empty, so denormalize drops it. |
| Normalizer.NormalizeTableKey | tests/Normalizer/ConstraintViolationListNormalizerTest.php:84-121 | Every table key on the path "[d][e]" normalizes to its wire code with the field "d.e". |
| Normalizer.DenormalizeWireCode | tests/Normalizer/ConstraintViolationListNormalizerTest.php:28-70 | Every wire code, on the field "b.c", denormalizes to the first key carrying it with the path "[b][c]". |
| Normalizer.GuardsExclusive | Normalizer/UnifiedConstraintViolationListNormalizer.php:153-223 | No value is accepted by both supportsNormalization and supportsDenormalization. |
| Normalizer.NormalizedOutputAccepted | Normalizer/UnifiedConstraintViolationListNormalizer.php:218-223 | The decoded output of normalize is accepted for denormalization into the violation-list class or a subclass, and refused for any other class. |
| Normalizer.GuardExamples | tests/Normalizer/ConstraintViolationListNormalizerTest.php:72-127 | Accepted: `['errors' => []]` for denormalization, and a violation list with format "json" for normalization. Refused: an array without 'errors' for denormalization, and any other value for normalization. |

## Left out

- `hasCacheableSupportsMethod` is not modelled. It compares the runtime class
  name with its own, which has no counterpart here.
- The bundle class and its dependency-injection wiring (`ErrorNormalizerBundle.php`)
  are not part of this model.
- Serializer dispatch and JSON encoding/decoding are left out. A normalized error
  reaches denormalize as the entry with the same three strings (`AsEntry`).
- The `$format`, `$context` and `$type` arguments of normalize/denormalize do not
  change the result, so they are not parameters of the methods.
- The Symfony constraint code values: each UUID is replaced by a distinct stand-in.
- ConstraintViolation attributes other than message, property path and code are
  left out: the template, parameters, root, invalid value, plural, constraint and cause. Denormalize
  sets them all to null or empty.
- PHP type juggling beyond strings and null is left out: non-string messages cast with
  `(string)`, non-array entries, and a non-array 'errors' value other than null.
  Entries are records of optional strings, and 'errors' is missing, null or a list.
- PHP's integer-string key cast (a code such as "12" read as key 12) is not modelled.
  No table key is numeric.
- Name converters other than `FieldNameConverter` are not modelled. The converter is
  a flag.
- A `ConstraintViolationList` is a value. The model does not capture object identity
  or later mutation of the returned list.
- `is_a($type, ConstraintViolationList::class, true)` is modelled by `TargetType`,
  which distinguishes the class, its subclasses and unrelated classes. Class
  hierarchy lookup itself is not modelled.
