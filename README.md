# type-union-test in Dafny

This project models `type-union-test.c`, a small C program built around a
tagged-union value, `VAL`. A value has a type tag (UNDEFINED, INT32, STRING
or OBJECT), a reference count and one payload per type. A table of default
operations acts on it:

- `set_type` makes the one allowed type transition;
- `copy_from_int32` and `copy_from_string` assign a payload, and the second
  parses text with `strtol` in base 0 when the value is an INT32;
- `move_from_key_val` moves a key and a value into an OBJECT;
- `is_equal` compares values type-strictly, and `VAL_is_equal` asks both
  sides;
- `debug_print` renders a value.

An OBJECT is an insertion-ordered array of key/value pairs. It has a length
and a capacity, starts with no storage and grows to 4 slots, then doubles.
Inserting a key equal to a stored one replaces that pair in place; any other
key is appended. The object owns every key and value it holds. Deleting the
last reference to it deletes each of them once. The driver, `main`, reads its
arguments in pairs:

- it turns each pair into an INT32 key and a STRING value;
- it moves them into one top-level OBJECT;
- it prints that object followed by a newline, then deletes it.

The Dafny modules follow the C file's parts:

- `Results` (results.dfy): the error codes, `result_ok`, `result_error_str`
  and the text `result_print` writes.
- `Text` (text.dfy): the decimal text `%d` produces, and `strtol` with base
  0 as section 7.22.1.4 of ISO/IEC 9899:2011 describes it, over unbounded
  integers. `ParseInt32` is the acceptance test of `copy_from_string`.
- `Values` (values.dfy): the class `Obj` (OBJECT, with an `array` of pairs,
  `len` and `cap`) and the class `Val` (VAL). Its methods change the fields
  in place, as the C functions do. `Val.Valid()` states the ownership
  invariant:
  - the stored keys and values are alive and well formed;
  - no two stored pairs share an object;
  - no two stored keys are equal under `VAL_is_equal`;
  - `len <= cap` and cap is 0, 4, 8, 16, …

  `Render` is the text `debug_print` produces, and `DebugPrint` is proved
  to produce it.
- `Driver` (driver.dfy): `main`'s loop, proved to produce exactly
  `Expected(args)`. `Expected(args)` runs the same loop over an
  association list of int keys and string values.

Behaviour of the C code worth noting:

- Keys are INT32 values, so a non-numeric key such as "a" aborts the run with
  `{error: "invalid integer"}` (`Driver.ExampleNonNumericKey`).
- `copy_from_string` checks only the one character after the number. `"42 x"`
  is accepted as 42 (`Text.TrailingTextAfterSpaceAccepted`).
- The empty text is accepted as 0, because `strtol` converts nothing and the
  character checked is the terminator (`Text.ParseExampleNoDigits`).
- Setting OBJECT on a value that is already an OBJECT installs a new empty
  object (`Values.Val.SetType`).
- `VAL_is_equal` reports FALSE, never UNIMPLEMENTED, when the two sides do
  not both say OK. Only the per-value `is_equal` reports UNIMPLEMENTED for
  mixed types (`Values.MixedTypesUnimplemented`).

## Model

| member | source | states |
|---|---|---|
| Results.ResultOk | type-union-test.c:76 | result_ok holds exactly for OK; ResultOkText shows this is exactly when the code's text reads "OK" |
| Results.ResultOkText | type-union-test.c:76-81 | a result is OK exactly when its diagnostic text reads "OK" |
| Results.ResultErrorStr | type-union-test.c:78-93 | every code has a non-empty text, and ErrorStrInjective shows no two codes share one |
| Results.ErrorStrInjective | type-union-test.c:78-93 | result_error_str gives each of the five codes its own text, so the text identifies the code |
| Results.ResultPrintNoValInjective | type-union-test.c:95-102 | the diagnostic result_print writes determines the code it reports |
| Text.DecimalText | type-union-test.c:166 | the `%d` text is non-empty, starts with '-' exactly for negative numbers, and is digits otherwise |
| Text.DecimalTextFits | type-union-test.c:165-168 | the text of any int32 has at most 11 characters, below MAX_INTSTRING_LEN (21), so the abort after snprintf never happens |
| Text.Strtol | type-union-test.c:183 | the strtol conversion ends within the text, and when nothing is converted the value is 0 and the end is the start |
| Text.ParseOutOfRange | type-union-test.c:182-187 | the text of every number outside INT_MIN..INT_MAX is rejected with INVALID_INTEGER |
| Text.ParseTrailingJunk | type-union-test.c:182-187 | a number followed directly by a character that is not alphanumeric, white space or NUL is rejected |
| Text.DecimalTextConversion | type-union-test.c:183 | strtol reads back the `%d` text of any integer, whatever non-alphanumeric text follows, and stops right after it |
| Text.ParseDecimalText | type-union-test.c:156-187 | copy_from_string on INT32 accepts the text copy_from_int32 writes for any int32 and gives back the same number |
| Text.TrailingTextAfterSpaceAccepted | type-union-test.c:184 | only the one character after the number is checked: a number, a space, then anything is accepted |
| Text.ParseExampleDecimal | type-union-test.c:182-187 | "42" is accepted as 42 |
| Text.ParseExampleHex | type-union-test.c:182-187 | "0x1f" is accepted as 31 (base 0 reads a hexadecimal prefix) |
| Text.ParseExampleOctal | type-union-test.c:182-187 | "010" is accepted as 8 (base 0 reads a leading 0 as octal) |
| Text.ParseExampleIntMin | type-union-test.c:182-187 | "-2147483648" (INT_MIN) is accepted |
| Text.ParseExampleSurroundingSpace | type-union-test.c:182-187 | "  42  " is accepted as 42 |
| Text.ParseExampleNoDigits | type-union-test.c:182-187 | "" and " x" are accepted as 0 (nothing converted, end at the start), while "a" and "-" are rejected |
| Text.ParseExampleTrailingLetter | type-union-test.c:182-187 | "42x" and "0x" are rejected |
| Text.ParseExampleOutOfRange | type-union-test.c:182-187 | "2147483648", one past INT_MAX, is rejected |
| Values.NextCapacityReachable | type-union-test.c:220-224 | growing from a reachable capacity (0, 4, 8, …) gives another reachable one, at least 4 and at least twice the old |
| Values.GrowKeepsShape | type-union-test.c:217-229 | growing full storage and appending keeps len <= cap, the reachable capacities 0, 4, 8, …, and more than half of the slots in use beyond 4 |
| Values.Obj.constructor | type-union-test.c:324-330 | OBJECT_new: no pairs, no capacity |
| Values.Obj.Grow | type-union-test.c:220-227 | the capacity becomes NextCapacity of the old one and the stored pairs move unchanged into new storage of that size |
| Values.Obj.Append | type-union-test.c:217-231 | the pair lands at index len and len grows by one; the storage grows only when len had reached cap |
| Values.Val.constructor | type-union-test.c:294-305 | VAL_new: UNDEFINED, one reference, empty payloads |
| Values.Val.SetType | type-union-test.c:140-154 | OK exactly from UNDEFINED or the same type, and the type becomes the target; otherwise UNIMPLEMENTED and nothing changes; OBJECT always installs a fresh empty object |
| Values.Val.CopyFromInt32 | type-union-test.c:156-174 | INT32 stores the number; STRING stores its decimal text, shorter than 21 characters; other types give INVALID_TYPE and nothing changes |
| Values.Val.CopyFromString | type-union-test.c:176-200 | INT32 stores ParseInt32's value or reports INVALID_INTEGER with the number unchanged; STRING stores a copy of the text; other types give INVALID_TYPE and nothing changes |
| Values.Val.Delete | type-union-test.c:307-322 | the count drops by one; when it reaches 0 on an OBJECT, the object and its storage keep their contents and every stored key and value loses one reference; when it reaches 0 on any other type, or references are left, nothing else changes |
| Values.DeleteObject | type-union-test.c:332-339 | OBJECT_delete deletes every stored key and value exactly once |
| Values.DeletePair | type-union-test.c:334-335 | one stored pair's key and value each lose one reference |
| Values.Val.MoveFromKeyVal | type-union-test.c:203-233 | on a non-OBJECT: INVALID_TYPE and nothing changes. With an equal stored key: the first such pair is overwritten in place, its old key and value are deleted, cap is kept and every other pair is untouched. Otherwise the pair is appended, and cap grows to NextCapacity exactly when the storage was full. The value stays Valid in every case |
| Values.Val.FindPair | type-union-test.c:207-216 | the search stops at the first stored key VAL_is_equal calls equal to the new key, or at len when there is none |
| Values.FindKey | type-union-test.c:207-216 | the first index at or after i whose key is equal to the searched key; every key before it is unequal |
| Values.Val.ReplacePair | type-union-test.c:209-231 | slot i takes the new pair; its old key and value lose a reference and leave what the value owns; the storage is unchanged |
| Values.Val.AppendPair | type-union-test.c:217-231 | the pair is appended after the stored ones, growing full storage, and the value stays Valid |
| Values.PairsOwnedReplace | type-union-test.c:209-231 | replacing a pair by one whose key is equal to the old key keeps the keys pairwise unequal and the footprints disjoint |
| Values.InsertLast | type-union-test.c:217-231 | appending a pair whose key equals no stored key keeps the keys pairwise unequal and the footprints disjoint |
| Values.ObjectInvariant | type-union-test.c:203-233 | every OBJECT value has len <= cap == the storage size, the storage shape, and no two stored keys that VAL_is_equal calls equal |
| Values.Val.DebugPrint | type-union-test.c:255-283 | debug_print always reports OK and produces exactly Render: `%d`, the quoted string, the pairs between braces, or `"undefined type"` |
| Values.Val.DebugPrintObject | type-union-test.c:265-277 | the OBJECT branch writes `{`, then the pairs in storage order separated by `, `, then `}` |
| Values.DebugPrintPair | type-union-test.c:270-274 | one pair is rendered as key, `: `, value |
| Values.RenderInt32RoundTrip | type-union-test.c:259-261 | the text an INT32 value prints is read back by copy_from_string as the same number |
| Values.RenderStringQuoted | type-union-test.c:262-264 | a STRING value prints as its text between double quotes, unescaped |
| Values.RenderEmptyObject | type-union-test.c:265-277 | an OBJECT with no pairs prints as `{}` |
| Values.RenderSinglePair | type-union-test.c:265-277 | an OBJECT with one pair prints as `{`, key, `: `, value, `}` |
| Values.DefaultIsEqual | type-union-test.c:235-253 | UNIMPLEMENTED exactly for different types, OBJECT or UNDEFINED; OK exactly for equal INT32 numbers or equal STRING texts; FALSE otherwise |
| Values.IsEqual | type-union-test.c:133-138 | VAL_is_equal only ever reports OK or FALSE |
| Values.IsEqualMeaning | type-union-test.c:133-138 | VAL_is_equal is OK exactly for two INT32 values with the same number or two STRING values with the same text |
| Values.IsEqualSymmetric | type-union-test.c:133-138 | asking both sides makes VAL_is_equal symmetric |
| Values.IsEqualCongruent | type-union-test.c:133-138 | two values VAL_is_equal calls equal compare alike with any third value |
| Values.MixedTypesUnimplemented | type-union-test.c:237-238 | an INT32 and a STRING value are UNIMPLEMENTED for is_equal and FALSE for VAL_is_equal, whatever they hold |
| Driver.AbortText | type-union-test.c:104-111 | the text result_unwrap writes before abort(); AbortTextInjective shows it identifies the error |
| Driver.AbortTextInjective | type-union-test.c:104-111 | two aborts with the same diagnostic had the same error code |
| Driver.InsertModelMeaning | type-union-test.c:203-233 | on the association list, insertion keeps keys distinct, maps the key to the new value, keeps every other pair in place, and grows the list exactly when the key is new |
| Driver.FindKeyCorresponds | type-union-test.c:207-216 | over INT32 keys, move_from_key_val's search finds the index of the first pair with the same number |
| Driver.RenderCorresponds | type-union-test.c:255-283 | an OBJECT whose pairs hold the list's numbers and texts renders as the list's pairs between braces |
| Driver.ExpectedStep | type-union-test.c:344-355 | a pair whose key text is accepted continues the run with that pair inserted |
| Driver.ExpectedTwoKeys | type-union-test.c:344-358 | two pairs with different keys print in the order given; with the same key, one pair with the second value prints |
| Driver.Run | type-union-test.c:341-362 | main's output is exactly Expected(args): the rendered object and a newline, or the invalid-integer diagnostic when a key is rejected |
| Driver.NewTop | type-union-test.c:342-343 | the top-level value starts as an OBJECT with no pairs and one reference |
| Driver.Step | type-union-test.c:345-354 | one iteration either reports INVALID_INTEGER for a rejected key, or moves the pair in, so the object holds the list with the pair inserted |
| Driver.MakePair | type-union-test.c:345-352 | the key is a new INT32 holding the parsed number and the value a new STRING holding the second text; a rejected key reports INVALID_INTEGER |
| Driver.InsertPair | type-union-test.c:354 | move_from_key_val of an INT32 key and a STRING value keeps the object corresponding to the list with the pair inserted |
| Driver.PrintAndDelete | type-union-test.c:357-360 | the final text is the list's pairs between braces, and the top-level value has no references left |
| Driver.ExampleNoPairs | type-union-test.c:344 | with no arguments, or one unpaired argument, `{}` and a newline are printed |
| Driver.ExampleInsertionOrder | type-union-test.c:341-362 | arguments 2 x 1 y print `{2: "x", 1: "y"}` |
| Driver.ExampleRepeatedKey | type-union-test.c:341-362 | arguments 1 a 1 b print `{1: "b"}`: the second value replaces the first in place |
| Driver.ExampleNonNumericKey | type-union-test.c:347-349 | arguments a 1 abort with `{error: "invalid integer"}` and a newline |

## Left out

- Output: `fprintf`, `printf` and `fflush` are modelled as returned strings. `debug_print` returns its text, and `main` returns an `Outcome`, either the printed text or the diagnostic written before `abort()`.
- Process termination: `abort()` in `result_unwrap` is the `Aborted` outcome. The abort after `snprintf` is shown unreachable (`Text.DecimalTextFits`). The aborts of `xmalloc` and `xrealloc` on allocation failure are not modelled, since allocation always succeeds in Dafny.
- Manual memory: `free` is not modelled, so a value whose count reaches 0 keeps its fields. `xrealloc` is a new array holding copies of the stored pairs.
- The operations table: only `VAL_OPS_template` is ever installed, so each operation calls the default implementation directly. `VAL_is_equal` still makes its two calls. The `ops` pointer is not a field.
- The `constant` and `owned_ptr` flags are never read and are not modelled.
- `isspace` is the "C" locale's white space. The width of `long` is unbounded, so the ERANGE test is subsumed by the INT_MIN..INT_MAX test.
- `len`, `cap` and `ref_count` are `size_t` in C but `nat` here: `cap *= 2` could wrap only far beyond any allocation that succeeds, and a `ref_count` below 1 belongs to a value already freed, so no reachable behaviour depends on the width.
- A STRING value that was never assigned holds a null pointer in C, which `debug_print` and `strcmp` would dereference. In the model it holds "".
- C strings end at their first NUL byte, while model strings are sequences of characters. Arguments and copied texts are assumed to hold no NUL.
- `result_print` with a value present is never reached from the program, so only the case without a value is modelled.
- The "unknown error" branch of `result_error_str` cannot be reached with the five codes of the model.
- Values.Val.Delete: states the decrement of each stored key and value of a deleted OBJECT, not the further cascade into the pairs those hold.
- Driver.Run: when a key is rejected, the top-level object and the new key and value are left undeleted, as the C process aborts without freeing them.
