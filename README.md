# SHSHchecker core in Dafny

SHSHchecker takes a device's ECID (its unique chip identifier) in decimal or
hexadecimal. It asks the signing server which firmware signing records
("blobs") it holds for that ECID. For every record it fetches the record's
build manifest, patches the ECID into it, posts the patched manifest for
signing, and saves a non-empty answer under `shsh/`.

This project models `main.cpp`:

- `text.dfy` (module `Text`): 64-bit bounds, decimal rendering (`std::to_string`)
  and its inverse, and substring search (`std::string::find`).
- `ecid.dfy` (module `Ecid`): `convert_ecid_to_decimal`. It includes the
  hexadecimal extraction of a `std::stringstream` in the "C" locale: white
  space, sign, `0x` prefix, longest digit run, overflow and failure.
- `json_fields.dfy` (module `JsonFields`): `json_str` over an abstract JSON value.
- `manifest.dfy` (module `Manifest`): the `$ecid` patch, including the case
  where `replace` is handed `npos` and throws.
- `paths.dfy` (module `Paths`): the inventory URL, the manifest URL, the
  signing URL, the blob directory and the blob path.
- `checker.dfy` (module `Checker`): `main`.
  - The specification functions `Records` and `Program` describe the run as
    an ordered list of effects (GET, create directory, POST, save) and a
    termination: an exit code, or an abort through an uncaught exception.
  - The methods `ProcessRecord`, `ProcessRecords` and `Execute` are the
    imperative loop. Each is proved equal to its specification function.
  - The network is an input. The caller supplies the inventory body, what
    the JSON parser made of it, and one `Reply` (manifest body, signing
    answer) per record. A record without a reply gets empty bodies, which
    is what a transfer that fails before any data arrives returns. A
    partial body or an error page is any other string a `Reply` can hold.

Behaviour worth noting:

- Any character other than `0`-`9` sends the ECID down the hexadecimal path
  (main.cpp:67). So `0x10` is read as hexadecimal although it has no letter.
- Input with no hexadecimal digit where one is expected becomes `"0"` and is
  not an error. White space alone is the exception (see Findings).
- The record keys are `chip` and `board` (main.cpp:104-105).
- The usage line names a second argument, the model, but only the first
  argument is read (main.cpp:79, 83).
- Records are not sorted or selected. Every record is handled in the order
  the server sent it.

## Model

| member | source | states |
|---|---|---|
| Text.DecimalString | main.cpp:74 | `std::to_string` of an unsigned value: a non-empty string of digits that starts with `0` only when it is exactly `"0"` |
| Text.DecimalRoundTrip | main.cpp:74 | reading the decimal rendering back gives the value |
| Text.DecimalCanonical | main.cpp:61 | a digit string without a leading zero is the rendering of its own value |
| Text.FindFrom | main.cpp:121 | `find` returns the first occurrence at or after the start, and None exactly when there is none |
| Text.Find | main.cpp:121 | `manifest.find(target)` gives an occurrence with none before it, and `npos` only when there is none anywhere |
| Text.ContainsIff | main.cpp:118 | `find(...) != npos` holds exactly when the pattern occurs somewhere |
| Text.FoundIfOccurs | main.cpp:118 | if the pattern occurs at `i`, then `find` succeeds at or before `i` |
| Ecid.HexRun | main.cpp:73 | extraction reads the longest prefix of hexadecimal digits and stops at the first other character |
| Ecid.SkipSpaceEmptyIff | main.cpp:73 | skipping leading white space leaves nothing exactly when the input is all white space |
| Ecid.ReadHex | main.cpp:72-73 | the extraction reads nothing at all exactly when the input is nothing but white space |
| Ecid.ReadMagnitude | main.cpp:73 | after the sign, the read fails exactly when no hexadecimal digit follows the optional `0x`/`0X`, and it always finds input |
| Ecid.StoredValue | main.cpp:70-73 | `dec_ecid` is left without a value exactly when the extraction found no input |
| Ecid.ConvertEcidAsWritten | main.cpp:66-75 | the conversion as written: an all-digit input comes back as it is; it is undefined exactly when the extraction finds no input; otherwise it is a decimal string whose value is what the extraction stored |
| Ecid.ConvertEcidToDecimal | main.cpp:66-75 | the output is all digits; an all-digit input (the empty one and leading zeros included) comes back unchanged; any other input gives a non-empty canonical decimal |
| Ecid.AsWrittenUndefinedIff | main.cpp:70-74 | the as-written conversion leaves `dec_ecid` unset exactly when the input is non-empty and all white space |
| Ecid.BlankEcidUndefined | main.cpp:70-74 | `" "` is such an input; the corrected conversion gives `"0"` for it |
| Ecid.ConvertHexValue | main.cpp:70-74 | when the hexadecimal read yields a value, the output is its decimal rendering and parses back to it |
| Ecid.ConvertUnreadable | main.cpp:72-74 | no digits, and white space alone (corrected), give `"0"`; a value of 2^64 or more gives 2^64 - 1 |
| Ecid.ReadHexDigits | main.cpp:72-73 | an optional `0x`/`0X`, then hexadecimal digits, then a non-digit reads as the digits' value, or as overflow from 2^64 up |
| Ecid.MagnitudeOfDigits | main.cpp:73 | after the sign, the digits that follow the prefix decide the value: overflow, a negated value, or the value itself |
| Ecid.MinusWraps | main.cpp:73 | a leading `-` negates modulo 2^64 |
| Ecid.NormalisesHexSpelling | main.cpp:66-75 | `0x` followed by the hexadecimal spelling of any 64-bit value normalises to that value's decimal spelling |
| Ecid.NormalisesUnprefixedHex | main.cpp:66-75 | `"1A2B"` normalises to `"6699"` |
| Ecid.NormalisesPrefixedHex | main.cpp:66-75 | `"0x10"` normalises to `"16"` |
| JsonFields.JsonStr | main.cpp:58-63 | a non-empty result comes only from a present field that is a string or a number |
| JsonFields.JsonStrCases | main.cpp:58-63 | a missing field, an object or another value gives `""`; a string gives itself; an integer gives exactly `std::to_string` of its `uint64_t` value (a negative one wraps to itself plus 2^64), which is all digits and reads back as that value |
| Manifest.PatchManifest | main.cpp:118-123 | the patch fails exactly when `$ecid` occurs but `<string>$ecid</string>` does not; a manifest without `$ecid` passes unchanged |
| Manifest.TargetHoldsPlaceholder | main.cpp:118-119 | wherever the whole tag occurs, `$ecid` occurs inside it, so the guard holds |
| Manifest.PatchReplacesFirstTarget | main.cpp:119-122 | only the first tag is replaced by `<integer>ECID</integer>`; the text before and after is unchanged, and the length changes by the difference |
| Paths.InventoryUrl | main.cpp:86 | the inventory URL is the check endpoint followed by the ECID |
| Paths.ManifestUrl | main.cpp:115 | the manifest URL starts with the manifest endpoint and ends with the board |
| Paths.BlobDir | main.cpp:107 | the record directory lies under `shsh/` and its name ends with `-` and the ECID |
| Paths.BlobFileName | main.cpp:110 | the file name starts with the ECID and `-`, and ends with `-`, the build and `.shsh` |
| Paths.BlobPath | main.cpp:111 | the blob path is the record directory, a `/`, then the file name |
| Paths.BlobPathLayout | main.cpp:107-111 | provided no field holds a `/`, the blob path `shsh/MODEL-ECID/ECID-MODEL-FIRMWARE-BUILD.shsh` has exactly three segments: `shsh`, `MODEL-ECID` and the file name |
| Paths.ManifestUrlLayout | main.cpp:115 | the last three segments of the manifest URL are the build, chip and board |
| Paths.InventoryUrlLayout | main.cpp:86 | the ECID is the last segment of the inventory URL |
| Checker.Records | main.cpp:100-139 | the loop ends either normally or by an abort |
| Checker.Program | main.cpp:77-139 | the exit code is 1 exactly when the argument is missing, the inventory body is empty, or it is not a JSON array; otherwise the run exits with 0 or aborts; with an argument, the first effect is the inventory GET for the ECID as the corrected conversion normalises it |
| Checker.FieldsOf | main.cpp:101-105 | a non-empty field comes from a present key of the same name (`chip` and `board` for the chip and board), and a record that is not an object has all fields empty |
| Checker.StepShape | main.cpp:101-136 | a record first creates its directory and fetches its manifest; it completes exactly when its manifest is not dangling, then posts the patched manifest and saves a non-empty answer at its path |
| Checker.AbortIsFinal | main.cpp:121-122 | once a record aborts, later records change nothing |
| Checker.CompletedStepOutputs | main.cpp:118-134 | a record whose patch succeeds posts its patched manifest and saves a non-empty answer at its path |
| Checker.AbortedStepOutputs | main.cpp:118-122 | a record whose patch throws posts and saves nothing |
| Checker.StepOutputs | main.cpp:101-136 | a record completes exactly when its manifest is not dangling, with the outputs above |
| Checker.AbortStep | main.cpp:100-123 | the run aborts at its last record exactly when it aborted before, or that record's manifest is dangling |
| Checker.AbortIff | main.cpp:100-123 | the loop aborts exactly when some record's manifest holds `$ecid` without the whole tag |
| Checker.NormalStep | main.cpp:100-137 | a loop that ends normally ended normally on the records before the last one, and the last one completed |
| Checker.PostsInArrayOrder | main.cpp:100-125 | a normal run posts once per record, in array order, each record's patched manifest |
| Checker.SavesFollowReplies | main.cpp:125-134 | a normal run writes exactly one file per record with a non-empty answer, in array order; an empty answer skips only its own record |
| Checker.AbortAtFirstDangling | main.cpp:100-123 | an abort happens at the first dangling manifest; the records before it were posted, each with its patched manifest in array order, and their files saved as expected; nothing after it is posted or saved |
| Checker.ProgramOutcome | main.cpp:94-139 | with an array inventory, the program aborts exactly when some manifest dangles; otherwise it exits with 0, having posted every record's patched manifest once, in array order, and saved the expected files |
| Checker.RecordsExtend | main.cpp:100-137 | one more record extends the effects by that record's step |
| Checker.AbortEndsRecords | main.cpp:121-122 | a record whose patch throws ends the loop with the effects so far |
| Checker.ProcessRecord | main.cpp:101-136 | the loop body, with the manifest patched in place, does exactly one specified step |
| Checker.ProcessRecords | main.cpp:100-137 | the `for` loop produces exactly the specified run |
| Checker.Execute | main.cpp:77-140 | `main`, with the corrected ECID conversion, produces exactly the specified program run |

## Left out

- `http_get`, `http_post` and the `write_to_string` callback (main.cpp:15-56) are network I/O through libcurl. What they return is an input to the model. A transfer that fails before any data arrives gives `""`. A partial body or an error page is any other string.
- `json::parse` (main.cpp:94) is a foreign library. Its result is an input, `Inventory`, and the model does not tie it to the inventory body.
- `fs::create_directories` and the `std::ofstream` write (main.cpp:108, 132-134) appear only as `MakeDir` and `Save` effects. The model does not capture the `filesystem_error` that `create_directories` throws on failure, or a write that fails silently.
- Console output (main.cpp:79, 90, 96, 113, 128, 136), `USER_AGENT` and the HTTP headers are left out. They are diagnostics and transport configuration.
- JsonFields.JsonStr: numbers the JSON library stores as floating point are `Other` here and read as `""`. These are numbers written with a fraction or an exponent (`1.0`, `1e3`), and integers below -2^63 or from 2^64 up. The source casts them to `uint64_t` (main.cpp:61), which truncates in range and is undefined out of range.
- Paths.BlobPathLayout, Paths.ManifestUrlLayout and Paths.InventoryUrlLayout state the segment layout only for fields without a `/`. The string equations they rest on hold for every field.
- The reply for each record is looked up by the record's position, not by the URL requested.
- An uncaught `std::out_of_range` is modelled as the termination `Abort`. What `std::terminate` prints and the signal it raises are not modelled.

## Findings

| source | as written | input that shows it | evidently intended | confidence | as-written member | corrected member |
|---|---|---|---|---|---|---|
| main.cpp:70-74 | `dec_ecid` is declared without an initial value. For a non-empty argument of white space only, `ss >> dec_ecid` fails before storing anything, and `std::to_string` then reads an indeterminate value. | `" "` (a single blank) | read as 0, like every other argument that holds no hexadecimal digit | medium, not executed | Ecid.ConvertEcidAsWritten (shown by Ecid.BlankEcidUndefined and Ecid.AsWrittenUndefinedIff) | Ecid.ConvertEcidToDecimal |
