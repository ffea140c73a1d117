# Department create screen: a Dafny model

This project models the "create department" screen of a small React Native
app (`app/screens/criarDep.tsx`). Departments are JSON records kept in a
flat key-value store (AsyncStorage) under keys of the form
`department_<id>`. The screen has two pieces of logic:

- **The name rule.** This is the form schema for the `nome` field. The
  value must be present and, after `trim`, be 5 to 30 characters long.
- **`handleSave`.** It lists every key in the store and keeps the
  `department_` keys. It fetches those values and `JSON.parse`s each one.
  Then it uses `some` to ask whether any record's `nome`, trimmed and
  lower-cased, equals the trimmed, lower-cased input. If one does, it
  stops with an "already exists" alert. Otherwise it builds
  `{id, nome: nome.trim()}` and writes it with `setItem` under
  `department_<id>`. A failing write lands in a catch block.

The project has five modules:

- `Optional` (`optional.dfy`): JavaScript's `undefined` as `None`.
- `JsText` (`js_text.dfy`): `trim` as two index scans plus a slice,
  `toLowerCase` character by character, the fold `trim().toLowerCase()`
  used for comparing names, and `startsWith`.
- `NameRule` (`name_rule.dfy`): the schema as the predicate `ValidName`.
- `Departments` (`departments.dfy`): the pure part of the read pipeline,
  over a store of type `map<string, Stored>`. It covers the prefix filter,
  `multiGet`, the decoding `map`, and the `some` walk. It also defines the
  store-level facts the pipeline decides: a name is taken, a value is not
  JSON, a `nome` is not a string, the names are distinct. Lemmas relate
  the pipeline to those facts and state what a create does to them.
- `CreateDepartment` (`create_department.dfy`): the store as a class
  `KeyValueStore` with one `map` field. Its methods are `GetAllKeys` and
  `SetItem`. `multiGet` only reads, so it is the function
  `Departments.MultiGet` over that map. `HandleSave` is a method that
  changes the store in place. `Submit` is the form's `onSubmit`, which
  runs `HandleSave` only on a value the schema accepts.

A stored value is either `Unparsable` (not valid JSON) or a decoded
`Doc(id, nome)`. In a `Doc`, `nome` is `Absent` when `item?.nome` is
null or undefined, so the optional chain `?.trim()` stops and the record
is skipped. It is `Text(s)` when it is a string, and `NonText` when it is
anything else (a number, an object, a boolean); calling `.trim()` on a
`NonText` name throws.
`HandleSave` ends in one of five outcomes: `Duplicate`,
`Created(record)`, `Threw` (an exception escaped), `WriteFailed` (the
catch block ran), or, for `Submit` only, `Invalid`.

Three facts about the code shape the model:

- `handleSave` does not check the name's length; only the form schema
  does, which is what `Submit` models.
- The id is `Date.now()` alone, and the write does not look at what is
  already stored under the key, so a repeated id overwrites the earlier
  record. `Departments.CreateWritesOneKey` states this.
- One unparsable department value makes `JSON.parse` throw inside the
  `map`, which aborts the save with the store unchanged (`Threw`).

## Model

| member | source | states |
|---|---|---|
| JsText.LeadingFacts | app/screens/criarDep.tsx:49 | the forward scan of `trim` passes only whitespace and stops at a character that is not whitespace |
| JsText.TrailingFacts | app/screens/criarDep.tsx:49 | the backward scan of `trim` passes only whitespace and stops just after a character that is not whitespace |
| JsText.LeadingUnique | app/screens/criarDep.tsx:49 | the start of the trimmed text is the only index with whitespace before it and a non-whitespace character at it |
| JsText.TrailingUnique | app/screens/criarDep.tsx:49 | the end of the trimmed text is the only index with whitespace after it and a non-whitespace character just before it |
| JsText.TrimShape | app/screens/criarDep.tsx:49 | `trim` leaves no whitespace at either end, and it gives the empty string exactly when the input is all whitespace |
| JsText.TrimSplit | app/screens/criarDep.tsx:49 | every string is some whitespace, then its trimmed form, then more whitespace |
| JsText.TrimOfPadded | app/screens/criarDep.tsx:49 | whitespace around a non-empty string with no whitespace at its ends is exactly what `trim` removes |
| JsText.TrimFixesTrimmed | app/screens/criarDep.tsx:49 | `trim` leaves a string with no whitespace at its ends unchanged |
| JsText.TrimPadding | app/screens/criarDep.tsx:49 | the input is its trimmed form with some whitespace before it and some after it |
| JsText.TrimIdempotent | app/screens/criarDep.tsx:49 | trimming twice gives the same string as trimming once |
| JsText.Trim | app/screens/criarDep.tsx:49 | `trim`: never longer than its input; TrimSplit and TrimOfPadded together characterize it as cutting exactly the leading and trailing whitespace, and TrimShape states that the result has no whitespace at its ends |
| JsText.LowerChar | app/screens/criarDep.tsx:38 | `toLowerCase` on one character: an upper-case letter becomes its own small letter (32 code points on, so `A`-`Z` become `a`-`z`), which is not upper-case; any other character is kept |
| JsText.LowerCharCollides | app/screens/criarDep.tsx:38 | two characters lower-case alike exactly when they are equal or one is the other's capital, so distinct letters still compare as different |
| JsText.LowerKeepsWhitespace | app/screens/criarDep.tsx:38 | lower-casing a character never changes whether it is whitespace |
| JsText.Lower | app/screens/criarDep.tsx:38 | `toLowerCase` keeps the length, turns each upper-case letter into its own small letter in place, keeps every other character in its place, and leaves no modelled upper-case letter |
| JsText.LowerIdempotent | app/screens/criarDep.tsx:38 | lower-casing text that is already lower-cased changes nothing |
| JsText.Fold | app/screens/criarDep.tsx:38 | `trim().toLowerCase()`, the key names are compared by; FoldOfTrim, TrimIgnoresPadding and FoldIgnoresCase prove that it ignores surrounding whitespace and letter case and that the stored name keeps the key of the raw input |
| JsText.FoldOfTrim | app/screens/criarDep.tsx:49 | the stored, trimmed name folds to the same string as the raw input, so later comparisons see the same name |
| JsText.TrimIgnoresPadding | app/screens/criarDep.tsx:38 | whitespace added around a name changes neither its trimmed form nor its folded form |
| JsText.FoldIgnoresCase | app/screens/criarDep.tsx:38 | two strings that agree character by character after lower-casing fold to the same string |
| JsText.StartsWith | app/screens/criarDep.tsx:31 | `startsWith`; StartsWithMeansPrefix proves it holds exactly when the string is the prefix followed by something |
| JsText.StartsWithMeansPrefix | app/screens/criarDep.tsx:31 | `s.startsWith(prefix)` holds exactly when `s` is `prefix` followed by some string |
| NameRule.ValidName | app/screens/criarDep.tsx:17-23 | the schema: present, and 5 to 30 characters after `trim`; AcceptedNameShape, BlankNameRejected and PaddingKeepsVerdict prove what acceptance implies and that blank or padded input gets the verdict the schema gives |
| NameRule.AcceptedNameShape | app/screens/criarDep.tsx:17-23 | an accepted name is present, at least 5 characters long, and has a non-blank trimmed form with no whitespace at its ends |
| NameRule.BlankNameRejected | app/screens/criarDep.tsx:19-20 | a value made only of whitespace is refused, however long it is |
| NameRule.StoredNameRevalidates | app/screens/criarDep.tsx:17-23 | the trimmed form of an accepted name is accepted again and is its own trimmed form |
| NameRule.PaddingKeepsVerdict | app/screens/criarDep.tsx:18-19 | whitespace typed around a name never changes the schema's verdict |
| Departments.IsDepartmentKey | app/screens/criarDep.tsx:30-32 | a key is a department key when it starts with `department_`; DeptKey lands in this keyspace, and OtherKeysIrrelevant proves that keys outside it never affect a create |
| Departments.DeptKey | app/screens/criarDep.tsx:53-55 | the key for a record lies in the `department_` keyspace, and removing the prefix gives back the id |
| Departments.NewDepartment | app/screens/criarDep.tsx:47-50 | the new record carries the given id and a string name that is the raw input with only whitespace cut from its two ends (letter case kept): the input is whitespace, the name, whitespace, and the name has no whitespace at its ends (which, by TrimOfPadded, fixes it uniquely); the name folds like the raw input |
| Departments.StoredNameIsTrimmed | app/screens/criarDep.tsx:49 | trimming the stored name again gives the same string |
| Departments.DepartmentKeys | app/screens/criarDep.tsx:30-32 | the filter keeps exactly the keys that start with `department_`, and never adds any |
| Departments.ParseAll | app/screens/criarDep.tsx:34-36 | decoding throws exactly when some value is not JSON; otherwise it gives each value's document at the same position |
| Departments.SomeNameMatches | app/screens/criarDep.tsx:37-39 | `some` answers true only for a record whose string name folds to the target; false exactly when no name is a non-string and none matches; it throws only if some name is a non-string |
| Departments.SomeStopsAtFirst | app/screens/criarDep.tsx:37-39 | `some` walks in order and the first deciding record wins: true exactly when a matching name comes before every non-string name, a throw exactly when a non-string name comes before every matching name |
| Departments.ParseAgreesWithStore | app/screens/criarDep.tsx:33-36 | over a listing of the department keys, decoding throws exactly when some department value in the store is not JSON, and otherwise decodes each key's value |
| Departments.MatchMeansTaken | app/screens/criarDep.tsx:37-39 | a match found by `some` means the name is taken in the store |
| Departments.ThrowsMeansNonText | app/screens/criarDep.tsx:38 | an exception from `some` means some department in the store has a `nome` that is not a string |
| Departments.NoMatchIffFree | app/screens/criarDep.tsx:37-39 | `some` answers false exactly when the name is free and no department has a non-string `nome` |
| Departments.ScanAgreesWithStore | app/screens/criarDep.tsx:29-39 | for any listing of the store's keys, the whole read pipeline decides exactly the store-level facts: it throws while decoding iff a department value is not JSON, a match means the name is taken, and false means the name is free with no non-string `nome` |
| Departments.OtherKeysIrrelevant | app/screens/criarDep.tsx:29-33 | writing or deleting a key outside `department_` changes neither whether the name is taken nor whether the save would throw |
| Departments.AbsentNomeIgnored | app/screens/criarDep.tsx:38 | a department record without a `nome` never counts as a duplicate; the store answers as if the record were not there |
| Departments.CreatedNameIsTaken | app/screens/criarDep.tsx:37-56 | after a create, every name that folds like the created one is taken |
| Departments.SecondCreateRejected | app/screens/criarDep.tsx:37-56 | a create keeps the store free of non-JSON values and non-string names, and after it the same name in any spelling is taken, so a second save is a `Duplicate` |
| Departments.RespelledNameIsTaken | app/screens/criarDep.tsx:37-44 | the created name with its letters in other case and whitespace around it is taken |
| Departments.OtherNamesStayFree | app/screens/criarDep.tsx:37-56 | a create takes only its own name: a name that was free and folds differently stays free |
| Departments.CreatePreservesUniqueNames | app/screens/criarDep.tsx:37-56 | if the department names were pairwise distinct after trim and lower-case, and the new name was free, they still are after the create |
| Departments.CreatePreservesValidNames | app/screens/criarDep.tsx:17-56 | creating a name the schema accepts keeps every stored department name accepted by the schema and trimmed |
| Departments.AfterCreate | app/screens/criarDep.tsx:53-55 | the store after a successful write; CreateWritesOneKey proves that only `department_<id>` changes and holds the new record, and CreatePreservesUniqueNames and CreatePreservesValidNames prove what it keeps |
| Departments.CreateWritesOneKey | app/screens/criarDep.tsx:53-55 | the create writes the new record under `department_<id>` and leaves every other key and value as it was; the store grows by one key if the id is unused and keeps its size if the id is reused |
| CreateDepartment.KeyValueStore.GetAllKeys | app/screens/criarDep.tsx:29 | `getAllKeys` lists every key of the store exactly once |
| CreateDepartment.KeyValueStore.SetItem | app/screens/criarDep.tsx:53-56 | `setItem` writes the one key, or fails and leaves the store as it was |
| CreateDepartment.HandleSave | app/screens/criarDep.tsx:27-63 | a non-JSON department value makes the save throw; with no non-JSON value and no non-string name, the save is a `Duplicate` exactly when the name is taken; otherwise the new trimmed record is written, or the write fails; the store changes only by that one write; distinct names stay distinct |
| CreateDepartment.Submit | app/screens/criarDep.tsx:80-83 | the save runs exactly when the schema accepts the name; then it gives `HandleSave`'s guarantees: a non-JSON department value makes it throw, a throw or a duplicate has its cause in the store, a write happens only when the name is free and the store is clean, and the outcome on a clean store is decided as in `HandleSave`; it keeps stored names distinct, accepted by the schema and trimmed |

## Left out

- CreateDepartment.HandleSave: if the store holds both a taken name and a department whose `nome` is not a string, the contract allows either `Duplicate` or `Threw`. Which one happens depends on the order in which `getAllKeys` lists the keys, and the model leaves that order open.
- CreateDepartment.Submit: on an accepted name, with a taken name and a department whose `nome` is not a string both in the store, the contract allows either `Duplicate` or `Threw`, for the same reason as `HandleSave`: the outcome depends on the unspecified `getAllKeys` order.
- Rendering (`View`, `TextInput`, `TouchableOpacity`, `StyleSheet`) is UI and is not modelled.
- The Formik and Yup libraries are not modelled; only the predicate the schema computes is.
- `Alert.alert`, `router.replace`, `resetForm`, `console.log` and the cancel button are presentation and navigation only. The success branch is the `Created` outcome and the catch branch is `WriteFailed`.
- AsyncStorage is asynchronous, but the model runs `getAllKeys`, `multiGet` and `setItem` one after another with nothing in between. Two saves racing between the duplicate check and the write are not modelled.
- A rejected `getAllKeys` or `multiGet` is not modelled; only a failing `setItem` is, as a parameter.
- `Date.now()` is a parameter `id`.
- JSON text is not modelled: a stored value is its decoded document, so `JSON.stringify` followed by `JSON.parse` is taken to give the record back.
- `toLowerCase` is modelled for the ASCII letters and the Latin-1 upper-case letters only. Other Unicode case mappings, including those that change the length, are not modelled.
- Lengths are counted in Unicode scalar values. JavaScript counts UTF-16 code units, so names with characters outside the Basic Multilingual Plane measure differently.
- The departments list, edit and delete screen (`app/(tabs)/deps.tsx`) is not part of this model.
