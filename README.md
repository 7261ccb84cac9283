# volume-mount-options: mask construction and the kernel option codec

A Dafny model of two pieces of the Go package `volume-mount-options`.

- **`NewMountOptsMask`** builds the mount-option policy record `MountOptsMask`.
  It stores the allowed, ignored and mandatory keys, the defaults, the key
  permutations and the validators. A nil defaults map becomes an empty one.
  A `sloppy_mount` default is coerced to a string and parsed with
  `strconv.ParseBool`; that sets the `SloppyMount` flag, or construction
  fails with an error prefixed `Invalid sloppy_mount option`.
  `UserOptsValidationFunc.Validate` delegates to the wrapped function.
  This part is modelled as pure functions (`VolumeMountOptions`).
- **`ToKernelMountOptionString`** renders a resolved option map as the flat
  `key=value,flag,...` string of the mount utility's `-o` syntax.
  A value that `strconv.ParseInt(v, 10, 16)` accepts is re-rendered in
  canonical decimal, and an empty value becomes a bare flag. The fragments
  are sorted and joined with `,`.
- **`ParseOptionStringToMap`** reads such a string back. It splits on every
  `,` and each fragment on the first separator only; a later duplicate key
  overwrites an earlier one.

Both codec functions are imperative in Go: one appends to a slice in a loop
and sorts it in place, the other fills a map in a loop. They are Dafny
methods with loop invariants (`KernelMountOptions`), each proved equal to a
specification function of its input. The properties are proved about those
functions:

- the encoding is independent of map iteration order;
- it holds one fragment per entry, in ascending order;
- for keys that are non-empty and hold no `,` or `=`, and values that hold
  no `,`, parsing the encoding with `=` gives back the map with every 16-bit
  integer value normalized, and the map itself when the values are already
  canonical. Without these conditions the round trip fails: the key `a,b`
  with value `x` is encoded `a,b=x`, which parses to `{a: "", b: "x"}`.

Supporting modules model the library calls the core makes:

- `Strconv`: `ParseBool`, `FormatBool`, `ParseInt(s, 10, 16)` and `%d`.
- `GoStrings`: `Split`, `Index`, `SplitN(s, sep, 2)` and `Join`.
- `GoSort`: string order and `sort.Strings`.
- `TypeConversion`: the dynamic values of `map[string]interface{}`.

Construction does not coerce the defaults: the map is stored as given and
only the `sloppy_mount` value is coerced, to parse it
(volume_mount_options_mask.go:48,59-60). `DefaultsKeepSloppyMount` proves
the defaults are stored unchanged.

`NewMountOptsMask` is a Dafny function, so two calls with equal arguments
give equal results. `ToKernelMountOptionString` visits the map in an
arbitrary order, chosen nondeterministically as Go's `range` does. Its
result is still a function of the map, because its postcondition ties it to
`EncodeSpec`.

## Model

| member | source | states |
|---|---|---|
| VolumeMountOptions.Validate | volume_mount_options_mask.go:35-39 | `UserOptsValidationFunc(f).Validate(a, b)` returns exactly `f(a, b)` |
| VolumeMountOptions.NewMountOptsMask | volume_mount_options_mask.go:41-71 | construction fails exactly when a `sloppy_mount` default is present and its string form is not a `ParseBool` literal; a failure gives the zero mask and an error carrying that string; on success every argument is stored unchanged, a nil defaults map becomes the empty map, and `SloppyMount` holds exactly when the string form is a true literal |
| VolumeMountOptions.Message | volume_mount_options_mask.go:66 | the error text starts with `Invalid sloppy_mount option` |
| VolumeMountOptions.NoSloppyDefault | volume_mount_options_mask.go:55-59 | without a `sloppy_mount` default (nil map included) construction succeeds with the flag off |
| VolumeMountOptions.SloppyTrue | volume_mount_options_mask.go:59-63 | a default whose string form is a true literal succeeds with the flag on |
| VolumeMountOptions.SloppyFalse | volume_mount_options_mask.go:59-63 | a default whose string form is a false literal succeeds with the flag off |
| VolumeMountOptions.SloppyBool | volume_mount_options_mask.go:59-63 | a Go `bool` default sets the flag to that boolean |
| VolumeMountOptions.SloppyInvalid | volume_mount_options_mask.go:59-67 | any other string form gives the zero mask and an error whose text starts with `Invalid sloppy_mount option` |
| VolumeMountOptions.DefaultsKeepSloppyMount | volume_mount_options_mask.go:46-57 | on success a non-nil defaults map is stored as given, `sloppy_mount` included |
| TypeConversion.InterfaceToString | utils/type_conversion_test.go:34-37 | a string converts to itself and a boolean to its `FormatBool` text |
| Strconv.ParseBool | volume_mount_options_mask.go:63 | `Some(true)` exactly for the true literals, `Some(false)` exactly for the false literals, and an error for every other string |
| Strconv.FormatBool | utils/type_conversion_test.go:37 | the text is a true literal exactly when the boolean is true, and a false literal exactly when it is false |
| Strconv.ParseBoolFormatBool | volume_mount_options_mask.go:63 | `ParseBool` accepts what `FormatBool` writes and returns the same boolean |
| Strconv.ParseInt16 | utils/kernel_mount_options.go:16 | every accepted value lies in −32768..32767 |
| Strconv.ParseInt16Accepted | utils/kernel_mount_options.go:16 | an optional `+` or `-`, any number of zeros and the decimal form of `n` parse to `n` or `-n` whenever that is in range |
| Strconv.ParseInt16Shape | utils/kernel_mount_options.go:16 | conversely, every accepted string is an optional sign, zeros and the decimal form of its magnitude |
| Strconv.Normalize | utils/kernel_mount_options.go:16-21 | a value that is not an int16 is kept verbatim, and the re-rendered value parses to the same number as the original |
| Strconv.FormatNat | utils/kernel_mount_options.go:17 | `%d` of a natural number is a non-empty digit string with no leading zero |
| Strconv.FormatInt | utils/kernel_mount_options.go:17 | `%d` of an integer is non-empty, all digits after an optional leading `-` |
| Strconv.DigitsValueFormatNat | utils/kernel_mount_options.go:17 | reading back the digits of `%d` gives the number |
| Strconv.ParseInt16FormatInt | utils/kernel_mount_options.go:16-17 | every int16 written with `%d` parses back to itself |
| Strconv.NormalizeCanonical | utils/kernel_mount_options.go:16-21 | re-rendering a value is idempotent: its output is written back unchanged |
| Strconv.ParseInt16Accepts | utils/kernel_mount_options.go:16 | `"0123"` is 123, `"+5"` is 5, `"-32768"` is −32768 |
| Strconv.ParseInt16Rejects | utils/kernel_mount_options.go:16 | `"40000"`, `"32768"`, `""`, `"-"` and `"1_000"` are rejected |
| GoStrings.Join | utils/kernel_mount_options.go:26 | a join of at least one piece starts with the first piece |
| GoStrings.Split | utils/kernel_mount_options.go:36 | splitting on `,` gives at least one piece and no piece holds `,` |
| GoStrings.SplitJoin | utils/kernel_mount_options.go:26-36 | splitting a join of separator-free pieces gives back the pieces |
| GoStrings.JoinSplit | utils/kernel_mount_options.go:26-36 | joining the pieces of a split gives back the string |
| GoStrings.Index | utils/kernel_mount_options.go:39 | the result is the first occurrence of the separator, or none occurs |
| GoStrings.SplitN2 | utils/kernel_mount_options.go:39 | with a non-empty separator one or two segments; no segment exactly for an empty string and an empty separator |
| GoStrings.SplitN2Segments | utils/kernel_mount_options.go:39 | one segment is the whole string and the separator does not occur in it; two segments surround the first occurrence of the separator; an empty separator splits off the first character |
| GoStrings.IndexAfterPrefix | utils/kernel_mount_options.go:39 | for any separator: when it does not occur before the end of the key, it is first found at the key's length |
| GoSort.LessEq | utils/kernel_mount_options.go:25 | a prefix of a string comes before it |
| GoSort.LessEqTotal | utils/kernel_mount_options.go:25 | any two strings are comparable |
| GoSort.LessEqTransitive | utils/kernel_mount_options.go:25 | string order is transitive |
| GoSort.LessEqAntisymmetric | utils/kernel_mount_options.go:25 | string order is antisymmetric |
| GoSort.LessEqReflexive | utils/kernel_mount_options.go:25 | string order is reflexive |
| GoSort.Insert | utils/kernel_mount_options.go:25 | inserting adds exactly the one string |
| GoSort.InsertSorted | utils/kernel_mount_options.go:25 | inserting into a sorted list keeps it sorted |
| GoSort.SortBag | utils/kernel_mount_options.go:25 | the reference sort holds exactly the given strings |
| GoSort.SortBagSorted | utils/kernel_mount_options.go:25 | the reference sort is in ascending order |
| GoSort.SortedUnique | utils/kernel_mount_options.go:25 | two sorted lists with the same strings are equal, so a sort has only one possible result |
| GoSort.SortedIsSortBag | utils/kernel_mount_options.go:25 | any sorted list is the reference sort of its strings |
| GoSort.SortStrings | utils/kernel_mount_options.go:25 | `sort.Strings` leaves the slice sorted and a permutation of its old contents |
| GoSort.InsertLast | utils/kernel_mount_options.go:25 | one insertion step extends the sorted prefix by one, permutes the slice and leaves the elements after it unchanged |
| KernelMountOptions.Fragment | utils/kernel_mount_options.go:16-22 | the fragment starts with the key; it is the bare key exactly when the value is empty; otherwise `=` follows the key and then a canonical value, which parses to the same int16 as the given value, or is the given value verbatim when that is not an int16 |
| KernelMountOptions.FragmentMap | utils/kernel_mount_options.go:15-22 | there is one fragment per key of the map |
| KernelMountOptions.ToKernelMountOptionString | utils/kernel_mount_options.go:12-27 | the result is `EncodeSpec` of the map, whatever order the entries are visited in |
| KernelMountOptions.VisitOne | utils/kernel_mount_options.go:15-23 | moving one entry's fragment to the list keeps the fragments of list and unvisited map equal to those of the whole map |
| KernelMountOptions.VisitedAll | utils/kernel_mount_options.go:15-25 | after the loop the list holds exactly the fragments of the map |
| KernelMountOptions.EncodeEmpty | utils/kernel_mount_options.go:13-26 | the empty map encodes to `""` |
| KernelMountOptions.EncodeSingleton | utils/kernel_mount_options.go:15-26 | a one-entry map encodes to that entry's fragment |
| KernelMountOptions.EncodeFragments | utils/kernel_mount_options.go:15-26 | the encoding's fragments are sorted, one per entry, and are exactly the entries' fragments |
| KernelMountOptions.FragmentExamples | utils/kernel_mount_options.go:16-21 | `0123` is written `123`, `+5` is written `5`, an empty value is a bare flag, `40000` is written verbatim |
| KernelMountOptions.LeadingZerosDropped | utils/kernel_mount_options.go:16-17 | `opt1`/`0123` is written `opt1=123` |
| KernelMountOptions.PlusSignDropped | utils/kernel_mount_options.go:16-17 | `k`/`+5` is written `k=5` |
| KernelMountOptions.OutOfRangeVerbatim | utils/kernel_mount_options.go:20-21 | `k`/`40000` is written `k=40000` |
| KernelMountOptions.EncodeExamples | utils/kernel_mount_options.go:12-27 | the same examples for whole one-entry maps |
| KernelMountOptions.ParseFragment | utils/kernel_mount_options.go:39-45 | with a non-empty separator every fragment yields a key and a value |
| KernelMountOptions.ToMapKeys | utils/kernel_mount_options.go:41-45 | a key is in the map exactly when some fragment has it |
| KernelMountOptions.ToMapValue | utils/kernel_mount_options.go:41-45 | every value comes from a fragment with that key |
| KernelMountOptions.ToMapLastWins | utils/kernel_mount_options.go:41-45 | the last pair with a key decides its value |
| KernelMountOptions.Pairs | utils/kernel_mount_options.go:38-46 | one pair per fragment, and never a panic with a non-empty separator |
| KernelMountOptions.PairsFragments | utils/kernel_mount_options.go:38-46 | the fragments parse together exactly when each parses, and then in order |
| KernelMountOptions.ParseStep | utils/kernel_mount_options.go:39-45 | the segments of one more fragment add the pair the loop body stores, or end in a panic |
| KernelMountOptions.ParseOptionStringToMap | utils/kernel_mount_options.go:29-49 | the result is `ParseOptions` of the input: the empty map for `""`, else the fragments' pairs with later keys overwriting earlier ones, or a panic |
| KernelMountOptions.ParseEmpty | utils/kernel_mount_options.go:32-34 | parsing `""` gives the empty map |
| KernelMountOptions.ParseFragmentFlag | utils/kernel_mount_options.go:39-42 | for any non-empty separator, a fragment in which it does not occur maps its key to `""` |
| KernelMountOptions.ParseFragmentFirstSeparator | utils/kernel_mount_options.go:39-44 | for any non-empty separator, only its first occurrence splits a fragment; the value may contain more |
| KernelMountOptions.ParseFragmentsLastWins | utils/kernel_mount_options.go:38-46 | with a non-empty separator parsing never panics and a key takes the value of its last fragment |
| KernelMountOptions.FragmentParses | utils/kernel_mount_options.go:16-44 | an entry's fragment parses back to the key and the re-rendered value |
| KernelMountOptions.NormalizeAll | utils/kernel_mount_options.go:16-21 | re-rendering values keeps the keys |
| KernelMountOptions.RoundTrip | utils/kernel_mount_options.go:12-49 | for keys non-empty without `,` or `=` and values without `,`, parsing the encoding with `=` gives the map with its int16 values re-rendered |
| KernelMountOptions.RoundTripCanonical | utils/kernel_mount_options.go:12-49 | under the same conditions, with every value already canonical, parsing the encoding gives the map itself |
| KernelMountOptions.EncodingSplits | utils/kernel_mount_options.go:26-36 | splitting a non-empty encoding on `,` gives its sorted fragments |
| KernelMountOptions.EncodingPairs | utils/kernel_mount_options.go:36-46 | each fragment of the encoding parses to an entry of the normalized map, and every key is parsed from some fragment |
| KernelMountOptions.TwoFragments | utils/kernel_mount_options.go:36-46 | two fragments separated by `,` parse to the map of their two pairs, the second overwriting |
| KernelMountOptions.ParseTwoOptions | utils/kernel_mount_options_test.go:30-67 | `k1=v1,k2=v2` parses to `{k1: v1, k2: v2}`, `=` in `v2` included and the second value winning on equal keys |
| KernelMountOptions.ParseOptionAndFlag | utils/kernel_mount_options_test.go:43-54 | `k1=v1,k2` parses to `{k1: v1, k2: ""}` |
| KernelMountOptions.ParseEmptySeparator | utils/kernel_mount_options.go:39-42 | with an empty separator a fragment splits after its first character |
| KernelMountOptions.ParseEmptySeparatorPanics | utils/kernel_mount_options.go:39-44 | with an empty separator an empty fragment panics |

## Left out

- `NewMountOpts`, the resolution engine that applies a mask to user options: the file that defines it is not part of this model.
- `InterfaceToString` is pinned only for strings and booleans. Any other dynamic value (integers, floats, nil, unsupported types) carries the string the coercion gives it, because `utils/type_conversion.go` is not part of this model.
- Message: states only the `Invalid sloppy_mount option` prefix. It writes the rejected value between plain quotes, where Go applies `strconv.Quote` escaping. The rest of the text is library formatting.
- The text of Go's error values from `ParseBool` and `ParseInt`: a failed parse is `None`, and syntax and range errors are not told apart.
- Validators are caller-supplied, so they are arbitrary functions from key and value to an optional error message.
- Go stores the caller's slices and maps by reference. The model stores them as values, so neither sharing nor aliasing is modelled.
- Go's distinction between a nil and an empty slice is not modelled; a nil defaults map is `None`.
- `sort.Strings` is pattern-defeating quicksort in Go; the model sorts by insertion. Only the contract matters: `SortedUnique` proves the sorted result is the same.
- Go strings are byte sequences and the model uses Unicode code points. For valid UTF-8 the order and the splits agree; invalid UTF-8 is not modelled.
- A Go panic (index out of range, in `ParseOptionStringToMap` with an empty separator and an empty fragment) is the result `None`.
