# FCubed settings serializer, modelled in Dafny

SettingFileSerializer stores application settings in "FCubed", a flat text
format. Each entry is one line, `key=value;`, and lines are separated by
`'\n'`. An entry is a `ValueSet<object>`: a key and a boxed value of type
string, char, bool or int. `FCubedParser.WriteFCubed` renders an array of
entries as text, and `FCubedParser.ReadFCubed` reads text back into entries.
`ArgSet<object>` is an ordered array of entries with case-insensitive lookup.
`ArgValueSet<object>` is an entry that also owns an `ArgSet<object>` of
arguments. `ClassUtils.ToString` renders an array as one comma-separated line.

The model has these modules:

- `Wrappers`: `Option`, and `Result`, which stands for a call that either
  returns a value or throws one of the three .NET exceptions the code can
  raise (`NullReferenceException`, `IndexOutOfRangeException`,
  `FormatException`).
- `Text`: the .NET string operations the code relies on, over `seq<char>`.
  These are `String.Split(char)`, `String.Join`, `String.Replace(c, "")`,
  ASCII `ToLower`, case-insensitive equality, `Int32.ToString`,
  `Int32.TryParse` (an optional sign and decimal digits, range-checked to
  32 bits, over the `int32` newtype), `Boolean.ToString` and
  `Boolean.TryParse`.
- `Values`: the boxed object as a closed datatype.
  - `VString`, `VChar`, `VInt`, `VBool`: the four supported types.
  - `VNull`: `null`.
  - `VOther`: any other non-null object.
  - `Entry`: the key and value of a `ValueSet`.
  - `MakeEntry`: the constructor's empty-key rule.
- `ValueSets`: the classes `ValueSet`, `ArgSet` and `ArgValueSet`.
  - Their private fields are assigned once in the constructor and never again, so they are `const`.
  - The search loops of `GetValueByKey` and `GetValueByArgKey` are methods proved against the functions `Lookup` and `ArgLookup` over the entries the objects hold.
  - `HasValue` states `KeyHasValue`.
- `FCubed`: `WriteFCubed` and `ReadFCubed`.
  - Each is a loop, as in the source.
  - Each is proved against a specification function: `Encode` maps entries to the text or the exception; `Decode` maps text to entries or the exception.
- `FCubedProperties`: what is proved about `Encode` and `Decode`.
  - The written text has one line per entry, in order.
  - The read has one entry per line, and each line is read on its own.
  - No text ever reads back a bool.
  - What a write followed by a read gives back.
- `FCubedFixed`: the read as the code's comments say it should work, with
  the quotes stripped, and the round trip it then completes (see "Findings").
- `ClassUtils`: `ToString` as written, what it computes, and the corrected
  join (see "Findings").

The model follows the code where it departs from the format as its comments
describe it:
- `ReadFCubed` calls `Replace` to strip the quotes but drops the result
  (lines 72 and 87). Quoted strings therefore keep their quotes. The bool
  branch can never be taken. A quoted character such as `'a'` makes
  `char.Parse` throw.
- Every `;` in the value text is removed, not only the one at the end of the
  line.
- The empty text, and every empty line, throws `IndexOutOfRangeException`,
  because `x[1]` does not exist.
- The sentinel made for an empty key has a null value, so `WriteFCubed`
  throws on any array that holds one.

## Model

Several round-trip rows below hold for two classes of entries, which the
lemmas name `RoundTripSafe` and `FixedSafe`:
- a *plain* entry has a non-null value and a non-empty key without `=` or
  newline; a string value holds no `=` or newline, and a char value is not a
  newline;
- a *strict* entry is a plain entry whose string holds no `;` or `"` and is
  not a bool spelling (`true`/`false` in any letter case), and whose char is
  not `;`, `'` or `=`.

Outside these classes the format loses information: a `=` in a key or string
or a `;` in a string is cut out of the line, and a newline splits it.

| member | source | states |
|---|---|---|
| FCubed.WriteFCubed | SettingFileSerializer/Class1.cs:12-56 | the text built line by line is `Encode` of the entries: the kind-dispatched lines joined by `'\n'`, or `NullReferenceException` when a value is null |
| FCubed.LineShape | SettingFileSerializer/Class1.cs:17-51 | for a non-null value, every written line is the key (unchanged before a string, lower-cased otherwise), `=`, the value text (`"s"`, `'c'`, `"True"`/`"False"`, decimal, `[NONE]`) and `;` |
| FCubed.DecodeValue | SettingFileSerializer/Class1.cs:69-98 | with the quotes still on, a double-quoted text is always a String entry, never a Bool; a single-quoted text fails with `FormatException` unless it is the lone quote, which reads as the char `'`; unquoted text is an Int when `Int32.TryParse` accepts it and null otherwise |
| FCubed.DecodeLine | SettingFileSerializer/Class1.cs:64-67 | a line without `=` throws `IndexOutOfRangeException` |
| FCubed.ReadFCubed | SettingFileSerializer/Class1.cs:58-101 | on success, the entries of the ValueSets built are `Decode(data)`; on an exception, `Decode(data)` fails with that exception |
| FCubed.DecodeLinesPrefixFailure | SettingFileSerializer/Class1.cs:62-100 | once a line throws, the whole read throws with the same exception, whatever follows |
| FCubedProperties.EncodeEmpty | SettingFileSerializer/Class1.cs:14-55 | writing no entries gives `""` |
| FCubedProperties.EncodeSentinelFails | SettingFileSerializer/Class1.cs:17 | an array holding the empty-key sentinel makes the write throw `NullReferenceException` |
| FCubedProperties.LineHasNoNewline | SettingFileSerializer/Class1.cs:17-51 | no line holds a newline when its value is not null and its key and its string or char value hold none |
| FCubedProperties.EncodeLines | SettingFileSerializer/Class1.cs:14-55 | for one or more entries with non-null values and no newline in a key, string or char, splitting the written text at `'\n'` gives exactly the entries' lines in input order, with no trailing newline |
| FCubedProperties.EncodeExamples | SettingFileSerializer/Class1.cs:17-44 | `Name` with `"Alice"` writes `Name="Alice";`; `Active` with `true` writes `active="True";`; `Count` with `42` writes `count=42;` |
| FCubedProperties.DecodeLinesEach | SettingFileSerializer/Class1.cs:61-100 | the read succeeds exactly when every line does; it then has one entry per line, in line order, each the entry of its own line; otherwise the error is that of the first line that throws |
| FCubedProperties.DecodeLineParts | SettingFileSerializer/Class1.cs:64-68 | a line with `=` is read as the text before its first `=`, unchanged, and the text between its first and second `=` with every `;` removed |
| FCubedProperties.DecodeEmptyFails | SettingFileSerializer/Class1.cs:61-67 | reading `""` throws `IndexOutOfRangeException` |
| FCubedProperties.DecodeMissingSeparator | SettingFileSerializer/Class1.cs:64-67 | any line without `=` makes the whole read fail |
| FCubedProperties.DecodeStructure | SettingFileSerializer/Class1.cs:58-100 | a successful read has exactly one entry per `'\n'`-separated line; every line has an `=`; each entry is made from the key part and the value read from the value part |
| FCubedProperties.DecodeNeverBool | SettingFileSerializer/Class1.cs:69-82 | no text ever reads back an entry holding a bool |
| FCubedProperties.DecodeValueExamples | SettingFileSerializer/Class1.cs:69-98 | `"True"` reads as the string with its quotes; `'a'` throws `FormatException`; `[NONE]` and `hello` read as null |
| FCubedProperties.DecodeValueOverflow | SettingFileSerializer/Class1.cs:90-97 | a decimal number of 2^31 or more reads as null, not as an int, and does not throw |
| FCubedProperties.DecodeKeyValue | SettingFileSerializer/Class1.cs:64-68 | a non-empty key without `=`, then `=`, then a value text without `=`, reads as that key and the value read from that text without `;` |
| FCubedProperties.DecodeStringLine | SettingFileSerializer/Class1.cs:69-81 | under a non-empty key without `=`, a written string without `=` reads back as a String entry that keeps its quotes and loses every `;` |
| FCubedProperties.DecodeCharLine | SettingFileSerializer/Class1.cs:83-88 | under a non-empty key without `=`, a written char line, for any char but `=`, makes the read throw `FormatException` |
| FCubedProperties.DecodeEqualsCharLine | SettingFileSerializer/Class1.cs:64-88 | under a non-empty key without `=`, the written line for the char `=` splits into the lone quote, which reads as the char `'` |
| FCubedProperties.DecodePlainLine | SettingFileSerializer/Class1.cs:64-98 | under a non-empty key without `=`, a line whose value text holds no `;` or `=` reads as its key and the value read from that text |
| FCubedProperties.DecodeIntLine | SettingFileSerializer/Class1.cs:89-95 | under a non-empty key without `=`, a written int line reads back as the same int under the same key |
| FCubedProperties.DecodeLineOfLine | SettingFileSerializer/Class1.cs:12-101 | for a plain entry, reading the line written for it gives `ReadBack` of it, case by case |
| FCubedProperties.DecodeLinesOfLines | SettingFileSerializer/Class1.cs:12-101 | for plain entries, reading the written lines one by one gives each entry's `ReadBack` in order, or `FormatException` |
| FCubedProperties.DecodeEncode | SettingFileSerializer/Class1.cs:12-101 | for one or more plain entries, a write followed by a read succeeds exactly when no entry is a char other than `=`; it then gives `ReadBack` of each entry in order, and otherwise throws `FormatException` |
| FCubedProperties.DecodeEncodeIntOther | SettingFileSerializer/Class1.cs:12-101 | for one or more ints and unsupported values under non-empty keys without `=` or newline, a write followed by a read gives the lower-cased keys in order, the same ints, and null for each unsupported value |
| FCubedProperties.DecodeEncodeEmpty | SettingFileSerializer/Class1.cs:14-67 | writing nothing and reading it back throws `IndexOutOfRangeException` |
| FCubedProperties.DecodeOneLine | SettingFileSerializer/Class1.cs:61-100 | text without a newline reads as its one line |
| FCubedProperties.DecodeIntText | SettingFileSerializer/Class1.cs:41-95 | under a non-empty key without `=` or newline, a written int line read as a whole text gives back that one entry |
| FCubedProperties.DecodeExamples | SettingFileSerializer/Class1.cs:58-101 | `count=42;` reads as the one entry `count` holding 42 |
| Values.MakeEntry | SettingFileSerializer/Class1.cs:118-125 | a null or empty key gives the sentinel: key `""` with a null value, whatever value was given; otherwise the key and value are kept unchanged |
| Values.DefaultOf | SettingFileSerializer/Class1.cs:160 | `default(A)` is null for string and a value of type `A` for char, int and bool |
| ValueSets.ValueSet.constructor | SettingFileSerializer/Class1.cs:113-125 | the object holds `MakeEntry(key, value)`, and only the sentinel has the key `""` |
| ValueSets.ValueSet.GetKey | SettingFileSerializer/Class1.cs:127 | the key the object holds; when it is `""` the value is null |
| ValueSets.ValueSet.GetValue | SettingFileSerializer/Class1.cs:128 | the value the object holds; when it is not null the key is not `""` |
| ValueSets.ValueSetGetters | SettingFileSerializer/Class1.cs:118-128 | a ValueSet built from a non-empty key and a value gives back that key and that value through `GetKey` and `GetValue`; built from a null or empty key it gives back `""` and null |
| ValueSets.FirstIndex | SettingFileSerializer/Class1.cs:156-160 | the position found is the first that satisfies the test; none is found exactly when no element does |
| ValueSets.LookupFirst | SettingFileSerializer/Class1.cs:180-186 | the lookup gives the value of the first entry whose key matches case-insensitively |
| ValueSets.LookupMissing | SettingFileSerializer/Class1.cs:185 | the lookup gives null when no key matches |
| ValueSets.LookupIgnoresCase | SettingFileSerializer/Class1.cs:183 | keys that differ only in letter case look up the same value |
| ValueSets.HasValueTrue | SettingFileSerializer/Class1.cs:187-193 | `KeyHasValue` is true exactly when the first entry with the key holds a non-null value equal to the candidate |
| ValueSets.ArgLookupSkipsOtherKind | SettingFileSerializer/Class1.cs:156-159 | an entry with the key but a non-null value of another type is skipped |
| ValueSets.ArgLookupKindMismatch | SettingFileSerializer/Class1.cs:160 | when every entry with the key holds a non-null value of another type, the result is `default(A)`, with no exception |
| ValueSets.ArgLookupFirstOfKind | SettingFileSerializer/Class1.cs:154-161 | the result is the first value whose key matches and whose type is `A`, when no null value under that key comes first |
| ValueSets.ArgSet.constructor | SettingFileSerializer/Class1.cs:173-177 | the array is kept only when it is non-null and has elements; otherwise the field stays null |
| ValueSets.ArgSet.GetArgSet | SettingFileSerializer/Class1.cs:179 | the array the object holds, which is null or has at least one element |
| ValueSets.LookupInEmptyArgSet | SettingFileSerializer/Class1.cs:173-186 | an ArgSet built from an array of no entries keeps a null array, so `GetValueByKey` on it throws `NullReferenceException` for every key |
| ValueSets.ArgSet.GetValueByKey | SettingFileSerializer/Class1.cs:180-186 | the search returns `Lookup` of the entries, and throws on a null array |
| ValueSets.ArgSet.KeyHasValue | SettingFileSerializer/Class1.cs:187-193 | `HasValue` of the entries: `Equals` on the looked-up value, throwing when it or the array is null |
| ValueSets.ArgValueSet.constructor | SettingFileSerializer/Class1.cs:132-139 | the base entry is `MakeEntry(key, value)`; the given argument set is kept, and a null one is replaced by a fresh set with a null array |
| ValueSets.ArgValueSet.WithoutValue | SettingFileSerializer/Class1.cs:141-147 | as the other constructor, with `default(object)` (null) as the value |
| ValueSets.ArgValueSet.GetKey | SettingFileSerializer/Class1.cs:127 | the key of the inherited ValueSet part; when it is `""` the value is null |
| ValueSets.ArgValueSet.GetValue | SettingFileSerializer/Class1.cs:128 | the value of the inherited ValueSet part; when it is not null the key is not `""` |
| ValueSets.ArgValueSet.GetArgSet | SettingFileSerializer/Class1.cs:149 | the owned argument set, which keeps the ArgSet invariant: a null array or one with elements |
| ValueSets.ArgValueSet.IsArgSetEmpty | SettingFileSerializer/Class1.cs:151 | throws exactly when the argument array is null, and is never true |
| ValueSets.ArgValueSet.IsValueEmpty | SettingFileSerializer/Class1.cs:152 | true exactly when the value is null; always true for the empty-key sentinel |
| ValueSets.ArgValueSet.GetValueByArgKey | SettingFileSerializer/Class1.cs:154-162 | the search returns `ArgLookup`: the first entry matching the key and the type, else `default(A)`; it throws on a null array or a null value under a matching key |
| ValueSets.ArgValueSet.ContainsArgValue | SettingFileSerializer/Class1.cs:163-167 | `KeyHasValue` on the argument set |
| FCubedFixed.DecodeValueFixed | SettingFileSerializer/Class1.cs:69-98 | with the quotes stripped as intended: a double-quoted text reads as the bool `Boolean.TryParse` finds in it once its `"` are removed, and otherwise as the string that text is with its `"` removed; a single-quoted text with one character left once its `'` are removed reads as that char, and any other single-quoted text throws `FormatException`; unquoted text is an Int when `Int32.TryParse` accepts it and null otherwise |
| FCubedFixed.DecodeLineFixed | SettingFileSerializer/Class1.cs:64-67 | as in the code, a line without `=` throws `IndexOutOfRangeException` |
| FCubedFixed.RestoresValue | SettingFileSerializer/Class1.cs:17-98 | the value text written for a value reads back, with the quotes stripped, as that value, or null for an unsupported one; this holds for every int, bool and unsupported value, for every string except one holding `;` or `"` or spelling a bool, and for every char except `;` and `'` (null has no written text) |
| FCubedFixed.DecodeLineFixedOfLine | SettingFileSerializer/Class1.cs:12-101 | for a strict entry, reading its written line with the quotes stripped gives back the entry under the key as written, with null for an unsupported value |
| FCubedFixed.DecodeLinesFixedOfLines | SettingFileSerializer/Class1.cs:12-101 | for strict entries, reading the written lines with the quotes stripped gives back every entry, in order |
| FCubedFixed.DecodeFixedEncode | SettingFileSerializer/Class1.cs:12-101 | the intended round trip: for one or more strict entries, a write followed by the corrected read gives back every entry in order, with the keys of non-strings lower-cased and unsupported values as null |
| FCubedFixed.DecodeOneEntry | SettingFileSerializer/Class1.cs:12-101 | for a plain entry, the write gives its one line, and that line read as written gives its `ReadBack`; for a strict entry, read as intended it gives the entry back |
| FCubedFixed.BoolReadBack | SettingFileSerializer/Class1.cs:31-82 | under a non-empty key without `=` or newline, a written bool reads back, as written, as the string `"True"` or `"False"` with its quotes; as intended, as the bool |
| FCubedFixed.CharReadBack | SettingFileSerializer/Class1.cs:24-88 | under a non-empty key without `=` or newline, a written char other than `;`, `'`, `=` and newline reads back, as written, as `FormatException`; as intended, as the char |
| Text.SplitJoin | SettingFileSerializer/Class1.cs:61-64 | splitting a join of one or more separator-free pieces gives back the pieces |
| Text.JoinSplit | SettingFileSerializer/Class1.cs:61-64 | joining the pieces of a split with the separator gives back the text |
| Text.RemoveChar | SettingFileSerializer/Class1.cs:68 | `Replace(";", "")` leaves no `;` and adds no character |
| Text.ParseIntToString | SettingFileSerializer/Class1.cs:41-91 | `Int32.TryParse` reads back every 32-bit integer from its `ToString` form |
| Text.ParseIntOverflow | SettingFileSerializer/Class1.cs:91 | a decimal number of 2^31 or more does not parse as an `Int32` |
| Text.ParseBoolToString | SettingFileSerializer/Class1.cs:34-74 | `Boolean.TryParse` reads back `"True"` and `"False"` |
| ClassUtils.ToString | SettingFileSerializer/Class1.cs:207-218 | the loop computes `JoinAsWritten` of the items |
| ClassUtils.JoinAsWrittenEmpty | SettingFileSerializer/Class1.cs:209-216 | the text so far is empty exactly when every item so far is empty |
| ClassUtils.JoinAsWrittenDropsLeading | SettingFileSerializer/Class1.cs:207-218 | the loop computes the `", "`-join of the items once the empty items at the front are dropped |
| ClassUtils.JoinAsWrittenAgrees | SettingFileSerializer/Class1.cs:207-218 | without an empty first item the loop agrees with `String.Join(", ", items)` |
| ClassUtils.JoinAsWrittenDropsSeparator | SettingFileSerializer/Class1.cs:211-214 | on `["", "b"]` the loop gives `b` where the join gives `, b` |
| ClassUtils.JoinLength | SettingFileSerializer/Class1.cs:207-218 | the `", "`-join of one or more items is as long as the items together with one separator between each two |
| ClassUtils.JoinAt | SettingFileSerializer/Class1.cs:207-218 | cut between any two items, the `", "`-join is the join of the items before the cut, one separator, and the join of the items after it |
| ClassUtils.JoinItems | SettingFileSerializer/Class1.cs:207-218 | the corrected loop computes `String.Join(", ", items)` |

## Left out

- `ClassUtils.GetAttribute` (lines 198-202) is reflection over custom
  attributes, and reflection has no counterpart here.
- `ClassUtils.ToString(List<T>)` (lines 203-206) only converts the list to an
  array and calls the array overload. On `seq<string>` the two are the same
  member.
- ClassUtils.ToString: each item is taken as the text its own `ToString()`
  gives. The `NullReferenceException` thrown for a null item is not modelled.
- `ToLower`, `CurrentCultureIgnoreCase`, and the `StartsWith` and `EndsWith`
  tests for `"` and `'` (lines 69 and 83), are culture-dependent in .NET.
  Here they are ASCII lower-casing, equality after lower-casing, and a
  comparison of the first and last character (`Quoted`).
- `Int32.TryParse` here accepts an optional `+` or `-` and decimal digits,
  range-checked to 32 bits. Surrounding white space, culture sign symbols and
  thousands separators are not modelled.
- `Boolean.TryParse` here accepts `true` or `false` in any letter case. The
  white space it trims in .NET is not modelled.
- The type parameter `T` of `ValueSet<T>`, `ArgSet<T>` and `ArgValueSet<T>` is
  fixed at `object`. That is the only instantiation the codec and
  `ArgValueSet` use.
- ValueSets.ArgValueSet.GetValueByArgKey: the requested type `A` is one of
  string, char, int and bool. Asking for `object` or any other type is not
  modelled.
- Exceptions are the three kinds `NullReference`, `IndexOutOfRange` and
  `Format`, returned as `Failure`. Stack unwinding, messages and other
  exception types are not modelled.
- Arrays are `seq` values. A caller that mutates an array after handing it
  to `ArgSet` would change what `ArgSet` sees in .NET. This aliasing is not
  modelled.
- A null lookup key is not modelled. Null elements of an array, which throw
  on `GetKey` in .NET, are not modelled either.
- FCubed.WriteFCubed: the entries are a `seq<ValueSet>`, which is never null
  and holds no null element. The `NullReferenceException` that
  `WriteFCubed(null)` throws at line 15, and the one a null element throws
  at line 17, are not modelled. Only the null value inside a ValueSet is.
- FCubed.ReadFCubed: the text is a `string`, which is never null. The
  `NullReferenceException` that `ReadFCubed(null)` throws at line 61 is not
  modelled.
- ValueSets.HasValue: `Equals` between two values of an unsupported type
  (`VOther`) is taken as true, because reference identity of such objects is
  not modelled.
- Strings are sequences of Unicode scalar values here, where .NET strings
  are sequences of UTF-16 code units. A `VChar` can hold a character outside
  the Basic Multilingual Plane, which no .NET `char` can. The corrected reader
  `FCubedFixed.DecodeValueFixed` reads such a character between single quotes
  as a char, where `char.Parse` would throw `FormatException` on its two code
  units. The reader as written throws in both models.
- Carriage returns are ordinary characters here. `'\r'` before `'\n'` stays
  in the value text, as it does in .NET. Reading and writing files is not
  part of the code and is not modelled.
- Boxing and `GetType()` identity are replaced by the datatype tag of
  `Value`.

## Findings

| source | as written | input that shows it | evidently intended | confidence | as-written member | corrected member |
|---|---|---|---|---|---|---|
| SettingFileSerializer/Class1.cs:211-214 | the first item is recognised by the text built so far being `""`, so an empty item at the front makes the next item be written without the `", "` before it | items `["", "b"]`: the loop gives `b` | `String.Join(", ", items)`, which gives `, b` | medium; not executed | ClassUtils.JoinAsWrittenDropsSeparator | ClassUtils.JoinItems |
| SettingFileSerializer/Class1.cs:69-88 | `x2.Replace("\"", "")` and `x2.Replace("\'", "")` are called and their results dropped, so the quotes stay on the value text | the written line `active="True";` reads back as the string `"True"` with its quotes, and `c='a';` throws `FormatException` | `x2 = x2.Replace(...)`: `active` reads back as the bool true and `c` as the char `a` | high; not executed | FCubedFixed.BoolReadBack | FCubedFixed.DecodeFixedEncode |
