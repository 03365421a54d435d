# Presidio core: validators, recognizer registry and recognizer store

This project models, in Dafny, the parts of Presidio that decide something
about a finding or keep the list of recognizers:

- the checksum validators of three pattern recognizers of the analyzer:
  - the credit-card validator (`CreditCard`): the separators are stripped,
    then the Luhn check of ISO/IEC 7812-1 Annex B is applied;
  - the IBAN validator (`Iban`): the check digits of ISO 13616, computed
    with MOD 97-10 of ISO/IEC 7064;
  - the Bitcoin address validator (`Crypto`): base-58 decoding into 25
    bytes, then a double SHA-256 checksum over the Base58Check layout;
- the analyzer's recognizer registry (`Registry`): it adds, removes and
  queries recognizers held in a list;
- the recognizers-store service (`RecognizersStore`): it keeps custom
  recognizers and a last-update timestamp under two keys of a key/value
  cache. It provides insert, update, get, get-all, delete and
  get-timestamp.

Modules and files:

- `wrappers.dfy`: the `Option` and `Result` types.
- `analyzer.dfy`: the mutable `RecognizerResult` whose `score` the
  validators write, and the Python exceptions they can raise.
- The other files hold one module each.

How each source maps to the model:

- The Python validators are pure, apart from writing the score. Each is
  modelled as specification functions plus:
  - a `method` for each loop, such as the Luhn sum and the base-58 Horner
    loop;
  - a `ValidateResult` method that updates `result.score`.
- The registry is a class whose `recognizers` field the methods reassign.
- The store is a class holding the cache as a map from keys to decoded
  values. Each Go function is:
  - a method that updates the map;
  - proved equal to an `...Outcome` function;
  - backed by lemmas about that function.

## Model

| member | source | states |
|---|---|---|
| Analyzer.RecognizerResult.constructor | presidio-analyzer/analyzer/recognizer_result.py:6-18 | a finding holds the entity type, span and score it was built with |
| CreditCard.Sanitize | presidio-analyzer/analyzer/predefined_recognizers/credit_card_recognizer.py:58-59 | `__sanitize_text`, the two chained `replace` calls; its properties are the `Sanitize...` and `RemoveChar...` lemmas below |
| CreditCard.RemoveCharRemoves | presidio-analyzer/analyzer/predefined_recognizers/credit_card_recognizer.py:58-59 | `replace(c, '')` leaves no `c` and adds no character |
| CreditCard.SanitizeRemovesSeparators | presidio-analyzer/analyzer/predefined_recognizers/credit_card_recognizer.py:58-59 | the sanitised text has no '-' or ' ' and only characters of the input |
| CreditCard.SanitizeAppend | presidio-analyzer/analyzer/predefined_recognizers/credit_card_recognizer.py:58-59 | sanitising distributes over concatenation |
| CreditCard.SanitizeChar | presidio-analyzer/analyzer/predefined_recognizers/credit_card_recognizer.py:58-59 | a separator is dropped and any other character is kept |
| CreditCard.SanitizeNoSeparators | presidio-analyzer/analyzer/predefined_recognizers/credit_card_recognizer.py:58-59 | a text without separators is unchanged |
| CreditCard.DigitsOf | presidio-analyzer/analyzer/predefined_recognizers/credit_card_recognizer.py:45-48 | `int(d)` per character: defined iff every character is an ASCII digit, giving each character's value in order |
| CreditCard.OddDigitsAt | presidio-analyzer/analyzer/predefined_recognizers/credit_card_recognizer.py:49 | `digits[-1::-2]` holds the digits at distance 0, 2, 4, ... from the right end |
| CreditCard.EvenDigitsAt | presidio-analyzer/analyzer/predefined_recognizers/credit_card_recognizer.py:50 | `digits[-2::-2]` holds the digits at distance 1, 3, 5, ... from the right end |
| CreditCard.OddEvenPartition | presidio-analyzer/analyzer/predefined_recognizers/credit_card_recognizer.py:48-50 | together the odd and even digits are exactly the digits, as a multiset |
| CreditCard.DoubledDigitSumValue | presidio-analyzer/analyzer/predefined_recognizers/credit_card_recognizer.py:54 | for a digit d, `sum(digits_of(d * 2))` is 2d when d < 5 and 2d - 9 otherwise |
| CreditCard.DoubledDigitSumInjective | presidio-analyzer/analyzer/predefined_recognizers/credit_card_recognizer.py:54 | distinct digits have distinct doubled digit sums |
| CreditCard.Luhn | presidio-analyzer/analyzer/predefined_recognizers/credit_card_recognizer.py:55 | the reference Luhn check value of ISO/IEC 7812-1 Annex B, the right-to-left weighted sum mod 10, in 0..9 |
| CreditCard.LuhnSumSplit | presidio-analyzer/analyzer/predefined_recognizers/credit_card_recognizer.py:48-55 | the odd/even split computes the Luhn sum of the right-to-left reference definition |
| CreditCard.LuhnChecksum | presidio-analyzer/analyzer/predefined_recognizers/credit_card_recognizer.py:44-55 | the loop returns the Luhn value (sum mod 10) of the digits, in 0..9 |
| CreditCard.CardScore | presidio-analyzer/analyzer/predefined_recognizers/credit_card_recognizer.py:32-41 | the score `validate_result` writes: defined iff the sanitised text is all digits, and then 0 or 1 (1 exactly when the Luhn value is 0, by `LuhnChecksum`) |
| CreditCard.ValidateResult | presidio-analyzer/analyzer/predefined_recognizers/credit_card_recognizer.py:32-41 | score becomes 1 when the Luhn value is 0 and 0 otherwise; ValueError on a non-digit, with the score untouched; the same object is returned |
| CreditCard.SeparatorInsertionKeepsScore | presidio-analyzer/analyzer/predefined_recognizers/credit_card_recognizer.py:34-35 | inserting a '-' or ' ' anywhere never changes the outcome |
| CreditCard.LuhnSumOneDigit | presidio-analyzer/analyzer/predefined_recognizers/credit_card_recognizer.py:48-55 | changing one digit changes the Luhn sum by exactly the change of that digit's term |
| CreditCard.SingleDigitErrorDetected | presidio-analyzer/analyzer/predefined_recognizers/credit_card_recognizer.py:36-39 | a valid number with one digit replaced by another digit scores 0 |
| CreditCard.GroupedNumberScore | presidio-analyzer/analyzer/predefined_recognizers/credit_card_recognizer.py:6 | four groups joined by '-', as the pattern admits, validate like the groups written together |
| CreditCard.ExampleDigitsLuhn | presidio-analyzer/tests/test_analyzer_engine.py:73-79 | the digits of the end-to-end test card have Luhn value 0 |
| CreditCard.ExampleDigitsValidate | presidio-analyzer/tests/test_analyzer_engine.py:73-79 | those digits score 1 |
| CreditCard.ExampleCardText | presidio-analyzer/tests/test_analyzer_engine.py:73-79 | any 19-character text spelling out the card with dashes scores 1 |
| CreditCard.ExampleCardValidates | presidio-analyzer/tests/test_analyzer_engine.py:73-79 | "4095-2609-9393-4932" scores 1.0, as the test expects |
| Iban.NatToStringValue | presidio-analyzer/analyzer/predefined_recognizers/iban_recognizer.py:44 | `str(n)` is digits with value n; below 100 it has at most two characters |
| Iban.Letters | presidio-analyzer/analyzer/predefined_recognizers/iban_recognizer.py:9-12 | the table maps '0'..'9' to themselves and 'A'..'Z' to "10".."35"; nothing else has an entry |
| Iban.TranslateDigits | presidio-analyzer/analyzer/predefined_recognizers/iban_recognizer.py:39 | a string of digits is unchanged by the translation |
| Iban.TranslateAllDigits | presidio-analyzer/analyzer/predefined_recognizers/iban_recognizer.py:39 | the translation is all digits iff every character is a digit or an upper-case letter |
| Iban.RotatePreserves | presidio-analyzer/analyzer/predefined_recognizers/iban_recognizer.py:39 | moving the first four characters to the end keeps length and characters |
| Iban.NumberIban | presidio-analyzer/analyzer/predefined_recognizers/iban_recognizer.py:38-39 | `__number_iban`, rotation then translation; proved about in `RotatePreserves`, `TranslateAllDigits` and `NumeralsSplit` |
| Iban.GenerateCheckDigits | presidio-analyzer/analyzer/predefined_recognizers/iban_recognizer.py:41-44 | `__generate_iban_check_digits`, None where `int()` raises; proved about in `CheckDigitsFormat`, `CheckDigitsIgnoreDeclared` and `CheckDigitsRaise` |
| Iban.ValidIban | presidio-analyzer/analyzer/predefined_recognizers/iban_recognizer.py:46-48 | `__valid_iban`, None where `int()` raises; tied to the check digits in `CheckDigitsImplyValid` and `ValidImpliesCheckDigits` |
| Iban.CheckDigitsFormat | presidio-analyzer/analyzer/predefined_recognizers/iban_recognizer.py:42-44 | generated check digits are two digits whose value is 98 - (n mod 97), in 02..98 |
| Iban.CheckDigitsIgnoreDeclared | presidio-analyzer/analyzer/predefined_recognizers/iban_recognizer.py:43 | generation reads only the characters outside positions 2 and 3 |
| Iban.CheckDigitsRaise | presidio-analyzer/analyzer/predefined_recognizers/iban_recognizer.py:42-44 | generation raises ValueError iff a character outside positions 2 and 3 is neither a digit nor an upper-case letter |
| Iban.ZeroedNumeral | presidio-analyzer/analyzer/predefined_recognizers/iban_recognizer.py:43 | the numeral of the zeroed code is the translation of `iban[4:] + iban[:2]` followed by "00" |
| Iban.NumeralsSplit | presidio-analyzer/analyzer/predefined_recognizers/iban_recognizer.py:38-48 | the numeral of the code and of its zeroed copy share the prefix and end in `iban[2:4]` and "00" |
| Iban.CheckValues | presidio-analyzer/analyzer/predefined_recognizers/iban_recognizer.py:42-48 | with digits at 2..3 both numerals parse or neither; they differ by the value of `iban[2:4]` |
| Iban.CheckDigitsImplyValid | presidio-analyzer/analyzer/predefined_recognizers/iban_recognizer.py:42-48 | matching check digits imply the MOD 97-10 test holds |
| Iban.ValidImpliesCheckDigits | presidio-analyzer/analyzer/predefined_recognizers/iban_recognizer.py:42-48 | a code passing MOD 97-10 with two declared digits of value 2..98 has exactly the generated digits |
| Iban.IbanScore | presidio-analyzer/analyzer/predefined_recognizers/iban_recognizer.py:29-35 | the score `validate_result` writes, with the `and` short-circuit; its outcomes are characterised in `IbanScoreOne` and `IbanScoreCases` |
| Iban.IbanScoreOne | presidio-analyzer/analyzer/predefined_recognizers/iban_recognizer.py:29-35 | score 1.0 iff MOD 97-10 holds and the declared digits are two digits of value 2..98; matching digits never raise |
| Iban.IbanScoreCases | presidio-analyzer/analyzer/predefined_recognizers/iban_recognizer.py:29-35 | the outcomes are a raise, 0 or 1.0; it raises iff a character outside positions 2 and 3 is neither a digit nor an upper-case letter |
| Iban.GeneratedCheckDigitsValidate | presidio-analyzer/analyzer/predefined_recognizers/iban_recognizer.py:42-44 | putting the generated check digits into positions 2 and 3 yields a code that scores 1.0 |
| Iban.ValidateResult | presidio-analyzer/analyzer/predefined_recognizers/iban_recognizer.py:29-35 | the score becomes the IBAN score and the object is returned; ValueError leaves the score untouched |
| Crypto.Digit58 | presidio-analyzer/analyzer/predefined_recognizers/crypto_recognizer.py:32 | a character's digit d is below 58 and the alphabet's character d is that character; None iff no digit maps to it |
| Crypto.AlphabetMember | presidio-analyzer/analyzer/predefined_recognizers/crypto_recognizer.py:32 | a character is in the alphabet iff it has a base-58 digit, and it sits at the position of that digit |
| Crypto.AlphabetShape | presidio-analyzer/analyzer/predefined_recognizers/crypto_recognizer.py:32 | the alphabet has 58 distinct characters; '0', 'O', 'I' and 'l' are not among them |
| Crypto.IndexOf | presidio-analyzer/analyzer/predefined_recognizers/crypto_recognizer.py:35 | `str.index`: the first position of the character; None (ValueError) iff it is absent |
| Crypto.IndexIsDigit | presidio-analyzer/analyzer/predefined_recognizers/crypto_recognizer.py:32-35 | `digits58.index(c)` is the digit of c |
| Crypto.Indices | presidio-analyzer/analyzer/predefined_recognizers/crypto_recognizer.py:34-35 | the digits of a string, defined iff every character is in the alphabet, one per character |
| Crypto.PositionalSnoc | presidio-analyzer/analyzer/predefined_recognizers/crypto_recognizer.py:35 | one Horner step `n * 58 + d` appends the digit d |
| Crypto.PositionalBound | presidio-analyzer/analyzer/predefined_recognizers/crypto_recognizer.py:35 | the value of k base-b digits is below b^k |
| Crypto.LeadingZeros | presidio-analyzer/analyzer/predefined_recognizers/crypto_recognizer.py:34-35 | leading zero digits do not change the value |
| Crypto.ToBytesValue | presidio-analyzer/analyzer/predefined_recognizers/crypto_recognizer.py:36 | `to_bytes(length, 'big')` gives length bytes whose big-endian value is n |
| Crypto.BytesOfValue | presidio-analyzer/analyzer/predefined_recognizers/crypto_recognizer.py:36 | round trip: bytes re-encoded from their own value are the same bytes |
| Crypto.DecodeBase58 | presidio-analyzer/analyzer/predefined_recognizers/crypto_recognizer.py:31-36 | the loop returns the base-58 value as length bytes; ValueError outside the alphabet; OverflowError when it does not fit |
| Crypto.Base58Decode | presidio-analyzer/analyzer/predefined_recognizers/crypto_recognizer.py:31-36 | what `__decode_base58` returns: `length` bytes on success; ValueError iff some character has no base-58 digit, that is, lies outside the alphabet (`AlphabetMember`); otherwise OverflowError when the value does not fit |
| Crypto.LeadingOnes | presidio-analyzer/analyzer/predefined_recognizers/crypto_recognizer.py:33-36 | leading '1' characters do not change the decoded bytes |
| Crypto.ShortCandidatesFit | presidio-analyzer/analyzer/predefined_recognizers/crypto_recognizer.py:9 | a string of at most 34 characters, as the pattern admits, never raises OverflowError for 25 bytes |
| Crypto.LongAddressOverflows | presidio-analyzer/analyzer/predefined_recognizers/crypto_recognizer.py:36 | a 35-character string with first digit at least 2 raises OverflowError |
| Crypto.Prefix4 | presidio-analyzer/analyzer/predefined_recognizers/crypto_recognizer.py:26 | `d[:4]` is a prefix of at most four bytes |
| Crypto.ValidateResult | presidio-analyzer/analyzer/predefined_recognizers/crypto_recognizer.py:22-28 | score becomes 1.0 when bytes 21..24 equal the first four bytes of the double hash of bytes 0..20, else it is kept; decoding errors propagate |
| Registry.AppendFreshName | presidio-analyzer/analyzer/recognizer_registry/recognizer_registry.py:45-51 | appending a recognizer of a new name keeps names unique |
| Registry.OthersLacksName | presidio-analyzer/analyzer/recognizer_registry/recognizer_registry.py:60-63 | the recognizers of other names, `Others`, are exactly those of the list not named `name` |
| Registry.RemoveByEnumeration | presidio-analyzer/analyzer/recognizer_registry/recognizer_registry.py:60-63 | the list left by popping matches during enumeration is no longer than the input |
| Registry.Enumerate | presidio-analyzer/analyzer/recognizer_registry/recognizer_registry.py:60-63 | the enumeration over the live list, from index `i`, as a function of the loop state; `EnumerateFrom` and `EnumerateRemoves` relate it to `RemoveByEnumeration` |
| Registry.EnumerateRemoves | presidio-analyzer/analyzer/recognizer_registry/recognizer_registry.py:60-63 | the index-by-index loop over the live list computes `RemoveByEnumeration` |
| Registry.RemoveKeepsOthers | presidio-analyzer/analyzer/recognizer_registry/recognizer_registry.py:60-63 | every recognizer of another name stays, in order |
| Registry.RemoveUnique | presidio-analyzer/analyzer/recognizer_registry/recognizer_registry.py:60-63 | with unique names exactly the named recognizer goes: one fewer, the rest in order, the name absent |
| Registry.NoMatchUnchanged | presidio-analyzer/analyzer/recognizer_registry/recognizer_registry.py:59-66 | without a match the list is unchanged |
| Registry.AddThenRemove | presidio-analyzer/tests/test_recognizer_registry.py:87-103 | removing the recognizer just added gives back the registry, which had unique names |
| Registry.AdjacentDuplicateSurvives | presidio-analyzer/analyzer/recognizer_registry/recognizer_registry.py:60-63 | of two adjacent recognizers of one name the second survives the removal |
| Registry.Supporting | presidio-analyzer/analyzer/recognizer_registry/recognizer_registry.py:91-93 | the per-entity subset is no longer than the registry |
| Registry.SupportingMembers | presidio-analyzer/analyzer/recognizer_registry/recognizer_registry.py:91-93 | a recognizer is in the subset iff it is registered, supports the entity and has the language |
| Registry.Matching | presidio-analyzer/tests/test_recognizer_registry.py:39-54 | the collection the tests expect: entity by entity, the recognizers supporting it in the language; characterised in `MatchingMembers` |
| Registry.MatchingMembers | presidio-analyzer/tests/test_recognizer_registry.py:39-54 | a recognizer is collected iff it is registered, has the language and supports one of the entities |
| Registry.RecognizerRegistry.constructor | presidio-analyzer/analyzer/recognizer_registry/recognizer_registry.py:15-19 | a missing list becomes the empty list, a given list is used as is |
| Registry.RecognizerRegistry.AddPatternRecognizer | presidio-analyzer/analyzer/recognizer_registry/recognizer_registry.py:36-51 | an existing name raises and keeps the list; otherwise it is appended; unique names are preserved |
| Registry.RecognizerRegistry.RemoveRecognizer | presidio-analyzer/analyzer/recognizer_registry/recognizer_registry.py:53-66 | the new list is `RemoveByEnumeration` of the old; ValueError iff no recognizer had the name |
| Registry.RecognizerRegistry.GetRecognizers | presidio-analyzer/analyzer/recognizer_registry/recognizer_registry.py:68-107 | no arguments: the whole list; one missing: ValueError; both given: always the empty list (as written) |
| Registry.RecognizerRegistry.GetRecognizersAsTested | presidio-analyzer/analyzer/recognizer_registry/recognizer_registry.py:89-107 | with the branches put right: the matching recognizers entity by entity, ValueError when none |
| Registry.MockRegistryQueries | presidio-analyzer/tests/test_recognizer_registry.py:23-48 | for German/PERSON the code answers [] where the test expects recognizer "2"; for an unknown language it answers [] where the test expects ValueError |
| RecognizersStore.FirstNamed | presidio-recognizers-store/cmd/presidio-recognizers-store/main.go:178-184 | the first record of the name, None iff no record has it |
| RecognizersStore.FirstNamedAt | presidio-recognizers-store/cmd/presidio-recognizers-store/main.go:178-184 | the record at the first index with the name is the one found |
| RecognizersStore.SetValueOutcome | presidio-recognizers-store/cmd/presidio-recognizers-store/main.go:84-98 | the cache and error after `setValue`: the list key, then the timestamp key, stopping at the first failing Set; properties in `SetValueOrder` |
| RecognizersStore.SetValueOrder | presidio-recognizers-store/cmd/presidio-recognizers-store/main.go:84-98 | the timestamp changes only after the list is written; success iff both Sets succeed; no other key changes |
| RecognizersStore.Existing | presidio-recognizers-store/cmd/presidio-recognizers-store/main.go:100-113 | `getExistingRecognizers` given the Get's result: a failed Get or "" is no records, records are returned, undecodable is an error |
| RecognizersStore.InsertOrUpdateOutcome | presidio-recognizers-store/cmd/presidio-recognizers-store/main.go:116-160 | the cache and error of `insertOrUpdateRecognizer`; properties in `AppendedIsFound`, `UpdateKeepsRecords`, `InsertThenGet`, `ConflictingInserts` |
| RecognizersStore.GetOutcome | presidio-recognizers-store/cmd/presidio-recognizers-store/main.go:163-189 | the result of `applyGet`, with no nil check on the cache; properties in `InsertThenGet` and `DeleteThenGet` |
| RecognizersStore.GetAllOutcome | presidio-recognizers-store/cmd/presidio-recognizers-store/main.go:192-225 | the result of `applyGetAll`, the ignored decode error reading as no records |
| RecognizersStore.AppendedIsFound | presidio-recognizers-store/cmd/presidio-recognizers-store/main.go:129-140 | an appended record of a new name is the one found and names stay unique |
| RecognizersStore.UpdateKeepsRecords | presidio-recognizers-store/cmd/presidio-recognizers-store/main.go:141-159 | a successful update writes back the list it read: only the timestamp changes |
| RecognizersStore.InsertThenGet | presidio-recognizers-store/cmd/presidio-recognizers-store/recognizers_store_test.go:22-46 | insert of a new name then get of it returns exactly the inserted record |
| RecognizersStore.ConflictingInserts | presidio-recognizers-store/cmd/presidio-recognizers-store/recognizers_store_test.go:61-90 | a second insert of the same name fails and the store keeps one record |
| RecognizersStore.DeleteFrom | presidio-recognizers-store/cmd/presidio-recognizers-store/main.go:260-267 | the range loop of `applyDelete` from index `i` over the original backing array, with the in-place shift, the stale last copy and the panic of `arr[i+1:]` past the slice |
| RecognizersStore.DeleteLoop | presidio-recognizers-store/cmd/presidio-recognizers-store/main.go:260-267 | that loop run from index 0 over a stored list; its cases are the `Delete...` lemmas below |
| RecognizersStore.DeleteFromNoMatch | presidio-recognizers-store/cmd/presidio-recognizers-store/main.go:260-267 | without a match from index i on, the delete loop returns the current slice |
| RecognizersStore.DeleteFromSkip | presidio-recognizers-store/cmd/presidio-recognizers-store/main.go:260-267 | indices without a match are skipped |
| RecognizersStore.DeleteUnique | presidio-recognizers-store/cmd/presidio-recognizers-store/main.go:260-267 | with unique names the loop removes exactly the named record, keeping the rest in order; no match keeps the list |
| RecognizersStore.DuplicateDeletePanics | presidio-recognizers-store/cmd/presidio-recognizers-store/main.go:261-266 | two records of one name at the end of the list, after records of other names, make the loop read the stale copy past the shortened slice: a runtime panic |
| RecognizersStore.AdjacentDuplicateKept | presidio-recognizers-store/cmd/presidio-recognizers-store/main.go:261-266 | two adjacent records of one name followed by other records do not panic: the second slides into the examined slot and stays, the rest kept |
| RecognizersStore.SeparatedDuplicatesRemoved | presidio-recognizers-store/cmd/presidio-recognizers-store/main.go:261-266 | two records of one name apart, with other records between and after them, are both removed, the others kept in order |
| RecognizersStore.DeleteOutcome | presidio-recognizers-store/cmd/presidio-recognizers-store/main.go:239-276 | the cache and error of `applyDelete`: missing cache, failed Get, no items, undecodable list, the loop's panic, or the loop's result written back by `setValue` |
| RecognizersStore.DeleteMissingRewrites | presidio-recognizers-store/cmd/presidio-recognizers-store/main.go:268-275 | deleting a missing name from a non-empty list succeeds and rewrites the timestamp |
| RecognizersStore.DeleteThenGet | presidio-recognizers-store/cmd/presidio-recognizers-store/recognizers_store_test.go:165-213 | after deleting a stored unique name, get fails and get-all has one record fewer |
| RecognizersStore.ParseUint64 | presidio-recognizers-store/cmd/presidio-recognizers-store/main.go:292 | `strconv.ParseUint` with its error dropped: a negative number reads as 0, one past 64 bits as the largest uint64 |
| RecognizersStore.TimestampOutcome | presidio-recognizers-store/cmd/presidio-recognizers-store/main.go:279-294 | the result of `applyGetTimestamp`: an error when the Get fails or the key is empty, else the parsed seconds |
| RecognizersStore.WrittenTimestampRead | presidio-recognizers-store/cmd/presidio-recognizers-store/main.go:279-294 | after a successful write the timestamp read back is the time written |
| RecognizersStore.Store.constructor | presidio-recognizers-store/cmd/presidio-recognizers-store/main.go:67-70 | the cache is configured or not, and empty |
| RecognizersStore.Store.Get | presidio-recognizers-store/cmd/presidio-recognizers-store/main.go:102 | the model of the cache's (Redis) Get, not a proved property: the stored value, "" for a missing key, or a failure the `Faults` parameter injects |
| RecognizersStore.Store.Set | presidio-recognizers-store/cmd/presidio-recognizers-store/main.go:85 | the model of the cache's (Redis) Set: it writes the key, or fails as `Faults` says and changes nothing |
| RecognizersStore.Store.SetValue | presidio-recognizers-store/cmd/presidio-recognizers-store/main.go:84-98 | the new cache and error are those of `SetValueOutcome` |
| RecognizersStore.Store.GetExistingRecognizers | presidio-recognizers-store/cmd/presidio-recognizers-store/main.go:100-113 | a failed Get or "" gives no records; stored records are returned; an undecodable value is an error |
| RecognizersStore.Store.InsertOrUpdateRecognizer | presidio-recognizers-store/cmd/presidio-recognizers-store/main.go:116-160 | the new cache and error are those of `InsertOrUpdateOutcome`: missing cache, duplicate insert, absent update, append, rewrite |
| RecognizersStore.Store.ApplyGet | presidio-recognizers-store/cmd/presidio-recognizers-store/main.go:163-189 | the result is `GetOutcome`: the first record of the name, or not found |
| RecognizersStore.Store.ApplyGetAll | presidio-recognizers-store/cmd/presidio-recognizers-store/main.go:192-225 | the result is `GetAllOutcome`: every stored record; an undecodable value reads as none |
| RecognizersStore.Store.ApplyDelete | presidio-recognizers-store/cmd/presidio-recognizers-store/main.go:239-276 | the new cache and error are those of `DeleteOutcome`, the loop being the in-place Go slice removal |
| RecognizersStore.Store.ApplyGetTimestamp | presidio-recognizers-store/cmd/presidio-recognizers-store/main.go:279-294 | the result is `TimestampOutcome`: the stored seconds as a uint64, an error when absent |
| RecognizersStore.StoreScenario | presidio-recognizers-store/cmd/presidio-recognizers-store/recognizers_store_test.go:22-229 | on a fresh cache: empty delete fails, insert is found by get and get-all, update of an absent name fails, delete succeeds, later get fails |

## Left out

- Unicode digits in the IBAN and crypto validators: Python's `int()` also accepts non-ASCII decimal digits, surrounding whitespace, signs and underscores. The IBAN and crypto candidate patterns use ASCII character classes only, so none of these reaches `int()` or `str.index` there.
- CreditCard.DigitsOf: non-ASCII decimal digits raise ValueError in the model, but the source accepts them. The card pattern's `\d` matches any Unicode decimal digit in a Python `str` pattern, and `int()` of such a digit is its value, so a candidate such as "4٠٩٥-2609-9393-4932" is scored by the source and raises in the model. Whitespace, signs and underscores cannot reach `int(d)`, which sees one character at a time.
- Regular expressions: the candidate patterns (`REGEX`) and the matching engine are not modelled. Only their length and alphabet bounds are used, in `Crypto.ShortCandidatesFit` and `CreditCard.GroupedNumberScore`.
- SHA-256: the digest is a function parameter of `Crypto.ValidateResult`; its internals are not modelled.
- Scores: Python's int-versus-float score (`1` versus `1.0`) and Go's float32 `Score` are both modelled as `real`.
- JSON and strconv: encoding is abstracted. The cache holds decoded values (`Value`). A partially decodable JSON string is collapsed into `Garbled`, and text formatting is not modelled.
- `time.Now()`: the clock is the `now` parameter.
- The cache implementation (Redis): modelled as a map. Its failures are the `Faults` parameter of each call.
- A nil cache: `applyGet`, and `getExistingRecognizers` called directly, dereference it. The model returns `Panicked`.
- RecognizersStore.Store.ApplyDelete: the Go slice's backing array is modelled as a sequence value (`backing`, `len`), not as shared memory.
- Registry.RecognizerRegistry.constructor: the caller's list is not aliased. Only the registry's copy is updated, since Dafny sequences are values.
- Registry.RecognizerRegistry.AddPatternRecognizer: `PatternRecognizer.from_dict` is not modelled. The method takes the recognizer already built.
- `load_recognizers`, the analyzer engine, the other predefined recognizers and `recognizers_store_api.py` are not part of this model. They load, call or fetch recognizers but decide nothing the core decides.
- Not modelled: the store's `main` function, the gRPC server methods, and `applyInsertOrUpdate`, which only marshals its request.
- Logging: every log call is dropped (main.go in `setValue`, `getExistingRecognizers`, `applyGet`, `applyGetAll`, `applyDelete` and `applyGetTimestamp`; the warning in `get_recognizers`). None changes a result. In two places a log call stands where an error return might be expected: the `found == false` branch of `applyDelete` and the non-empty-subset branch of `get_recognizers`.
- Behaviours of the source that the model keeps as they are:
  - a failed Get during an insert reads as an empty list, so the following write replaces the stored list;
  - an update writes the unchanged list back;
  - deleting a missing name from a non-empty list still rewrites both keys;
  - duplicate names can make delete panic: it panics when a matching record is read at an index past the shortened slice, as for two such records at the end of the list (`DuplicateDeletePanics`); an adjacent duplicate followed by other records survives (`AdjacentDuplicateKept`), and duplicates apart with records after them are both removed (`SeparatedDuplicatesRemoved`).

## Findings

| source | as written | input that shows it | evidently intended | confidence | as-written member | corrected member |
|---|---|---|---|---|---|---|
| presidio-analyzer/analyzer/recognizer_registry/recognizer_registry.py:95-105 | the branches on `subset` and on `to_return` are inverted: a non-empty subset is only logged, an empty one is appended, and a non-empty result would raise | the test registry with `entities=["PERSON"]`, `language="de"`: the code returns `[]`, the test expects recognizer "2"; with language "brrrr" it returns `[]` where the test expects ValueError | collect each non-empty subset, raise ValueError when nothing matched | not executed | Registry.RecognizerRegistry.GetRecognizers, Registry.MockRegistryQueries | Registry.RecognizerRegistry.GetRecognizersAsTested, Registry.MatchingMembers |
