# valec: secret collections and the `validate` command, in Dafny

This project models two parts of valec, a tool that keeps application
secrets as KMS-encrypted values in YAML files and synchronises them with a
remote store.

- `secrets.dfy` (module `Secrets`) models the `secret` package. It covers
  the `Secret` key/value record and the `Secrets` slice ordering
  (`Len`, `Less`, `Swap`), the sort they drive, and the conversions
  `ListToMap` and `MapToList`. It also covers the two-way diff
  `CompareList`, which yields the *upsert set* `added` and the *stale set*
  `deleted`.
- `validate.dfy` (module `Validate`) models the `validate CONFIGDIR`
  command. `Run` is `validateCmd.RunE`: it lists the directory, and its
  loop, `ValidateEntries`, skips dotfiles and names that are not YAML
  files and hands each remaining file to `ValidateFile`, stopping at the
  first file that fails. `ValidateFile`
  is `validateFile`: it loads the configs and tries to decrypt every one,
  reporting each failing key without stopping.

Modelling choices:

- A `*Secret` is an immutable datatype value. Nothing mutates a secret's
  fields, and `CompareList` only re-shares input elements.
- A `[]*Secret` is a `seq<Secret>`. The slice that `MapToList` sorts in
  place is an `array<Secret>`.
- Go's `<` on strings is `StrLess`. It compares character by character,
  and a proper prefix is smaller. Code-point order is the order of UTF-8
  encodings, so on valid UTF-8 this agrees with Go's bytewise comparison.
- `sort.Sort` is the method `Sort`. It sorts in place with `LessAt`
  (`Secrets.Less(i, j)`) and `Swap`, and its contract is "sorted and a
  permutation". `Len` is the array's length.
- Go's map iteration order is unspecified. In `MapToList` each next key
  is chosen with `:|`. `CanonicalUnique` proves that the result does not
  depend on that choice.
- The command's collaborators are fields of the `Env` datatype, as pure
  functions: `ioutil.ReadDir`, `filepath.Join`, `yamlExtRegexp`,
  `lib.LoadConfigYAML`, and the success of `aws.KMS().DecryptBase64`.
  Console output is modelled by the out-parameters `validated` (the
  entries handed to `validateFile`) and `reported` (the keys reported
  invalid).

Two behaviours of the code worth stating outright:

- `RunE` returns on the first file whose validation fails
  (`cmd/validate.go:38-40`). Later files are never validated, and there is
  no end-of-run aggregate error. `ValidateEntries` and `Run` model this.
- `CompareList` decides each element against the other list's map, so its
  own contract is element by element. `DiffByKey` adds the rule by key for
  a src with distinct keys; the stale set is `DiffByKey(dst, src, k)`.

## Model

| member | source | states |
|---|---|---|
| `Secrets.StrLess` | secret/secret.go:29-41 | Go's `<` on strings; a string is never less than itself (the full order laws are the `StrLess…` lemmas below) |
| `Secrets.StrLessIsLexicographic` | secret/secret.go:29-41 | the string order used by `Less` holds exactly when the strings agree up to a position where the first one ends and the second goes on, or where the first one has the smaller character |
| `Secrets.StrLessIrreflexive` | secret/secret.go:29-41 | no string is less than itself |
| `Secrets.StrLessAsymmetric` | secret/secret.go:29-41 | two strings are never each less than the other |
| `Secrets.StrLessTransitive` | secret/secret.go:29-41 | the string order is transitive |
| `Secrets.StrLessTrichotomy` | secret/secret.go:29-41 | any two strings are equal or ordered one way or the other |
| `Secrets.Less` | secret/secret.go:26-46 | the four comparisons of `Secrets.Less` on two secrets; a secret is never less than itself (its order laws are `LessIsLexicographic` and the `Less…` lemmas below) |
| `Secrets.LessIsLexicographic` | secret/secret.go:26-46 | `Less(a, b)` holds iff a's key is less than b's, or the keys are equal and a's value is less than b's |
| `Secrets.LessIrreflexive` | secret/secret.go:26-46 | a secret is never less than itself (the comparison falls through to false) |
| `Secrets.LessAsymmetric` | secret/secret.go:26-46 | `Less(a, b)` excludes `Less(b, a)` |
| `Secrets.LessTransitive` | secret/secret.go:26-46 | `Less` is transitive |
| `Secrets.LessConnected` | secret/secret.go:26-46 | any two different secrets are ordered one way or the other, so `Less` is a strict total order |
| `Secrets.NotLessTransitive` | secret/secret.go:26-46 | "not less than" is transitive, the fact each insertion step of the sort relies on |
| `Secrets.Len` | secret/secret.go:21-23 | the number of elements of the slice, the bound of the sort's loop |
| `Secrets.LessAt` | secret/secret.go:26-46 | `Secrets.Less(i, j)`: compares the elements at two positions; a true answer means two different positions holding different secrets |
| `Secrets.Swap` | secret/secret.go:48-51 | the slice after the call is the old one with positions i and j exchanged: same length, every other position unchanged, same multiset of elements |
| `Secrets.Sort` | secret/secret.go:113 | sorting through `Len`/`Less`/`Swap` leaves the slice non-decreasing under `Less` and a permutation of its old contents |
| `Secrets.ToMap` | secret/secret.go:76-84 | the map a list folds into has as its keys exactly the keys occurring in the list |
| `Secrets.ToMapLastWins` | secret/secret.go:76-84 | each key maps to the value of the last entry carrying that key |
| `Secrets.ToMapOfDistinct` | secret/secret.go:76-84 | for a list with distinct keys, every element is an entry of the resulting map |
| `Secrets.ListToMap` | secret/secret.go:76-84 | the loop inserting each secret in turn produces the last-write-wins fold `ToMap` of the list |
| `Secrets.EntriesRoundTrip` | secret/secret.go:103-116 | a list holding one secret per map entry, with distinct keys, has as many elements as the map has entries and converts back to exactly that map |
| `Secrets.PermutedEntries` | secret/secret.go:113 | rearranging a list of one secret per map entry, as the sort does, keeps it such a list |
| `Secrets.MapToList` | secret/secret.go:103-116 | the result has one secret per entry of the map, pairwise distinct keys, no other element and non-decreasing order under `Less`, and `ListToMap` of it gives back the map |
| `Secrets.CanonicalUnique` | secret/secret.go:103-116 | two sorted lists of the entries of the same map are equal, so `MapToList`'s result does not depend on map iteration order |
| `Secrets.StrictlySortedUnique` | secret/secret.go:103-116 | two strictly sorted lists of equal length with the same elements are equal |
| `Secrets.MapToListExample` | secret/secret.go:103-116 | converting {"b": "2", "a": "1"} gives [{a, 1}, {b, 2}] |
| `Secrets.Differing` | secret/secret.go:58-70 | an element of the list is kept iff its key is missing from the other map or maps there to a different value |
| `Secrets.DifferingIsSubsequence` | secret/secret.go:58-70 | the kept elements form a subsequence of the input list, in input order |
| `Secrets.CompareList` | secret/secret.go:54-73 | an element of src is in `added` iff its key is absent from dst's map or differs there, and `added` is a subsequence of src; the same holds for `deleted`, with dst against src's map |
| `Secrets.DiffByKey` | secret/secret.go:54-73 | for a src with distinct keys and any dst, a key occurs in `added` iff it is in src and is absent from dst or has another value there (with the roles swapped, the same for `deleted`) |
| `Secrets.SharedEntryInNeither` | secret/secret.go:54-73 | an entry with the same key and value in both lists (each with distinct keys) is in neither output |
| `Secrets.CompareWithSelf` | secret/secret.go:54-73 | comparing a list with distinct keys against itself gives no differences |
| `Secrets.DifferingNone` | secret/secret.go:58-70 | a list whose every element is an entry of the other map produces no differences |
| `Secrets.DifferingFromEmpty` | secret/secret.go:54-73 | against an empty list, every element of the other list is a difference, in order |
| `Secrets.CompareListExample` | secret/secret.go:54-73 | src [{a,1},{b,2}] and dst [{a,1},{c,3}] give added [{b,2}] and deleted [{c,3}] |
| `Validate.InvalidKeys` | cmd/validate.go:60-65 | a key is reported iff some config with that key fails decryption; nothing is reported iff every config decrypts |
| `Validate.InvalidKeysOnePerFailure` | cmd/validate.go:60-65 | there are exactly as many reports as configs that fail decryption |
| `Validate.InvalidKeysInConfigOrder` | cmd/validate.go:60-65 | the reported keys are a subsequence of the configs' keys, in config order |
| `Validate.FileResult` | cmd/validate.go:49-71 | a file validates iff it loads and every config decrypts; the load error is returned iff loading fails |
| `Validate.ValidateFile` | cmd/validate.go:49-71 | a failed load makes no decryption attempt; otherwise every config is tried in order, the failing keys are reported in config order, and the error is returned iff some key was reported |
| `Validate.Skipped` | cmd/validate.go:32-34 | an entry is skipped iff its name starts with `.` (`strings.HasPrefix`) or does not match the YAML-extension pattern |
| `Validate.QualifyingNames` | cmd/validate.go:31-34 | an entry takes part iff it is in the listing, does not start with `.` and matches the YAML-extension pattern |
| `Validate.QualifyingNamesOfPrefix` | cmd/validate.go:31-41 | the files met while scanning part of the listing are a prefix of all qualifying files |
| `Validate.ValidateEntries` | cmd/validate.go:31-45 | the files validated are a prefix of the qualifying files and include no skipped entry; all but the last validated file pass; on failure the last one fails and its error is returned; success iff every qualifying file validates, and then all of them were validated |
| `Validate.Run` | cmd/validate.go:20-46 | with no argument, or an unreadable directory, the command fails before any file is examined; otherwise it validates the qualifying files in order and no skipped entry; it stops at the first failing file and returns that file's error; it succeeds iff every qualifying file validates, and then it has validated all of them |

## Left out

- `LoadFromYAML` and `SaveAsYAML` (`secret/secret.go:86-130`): file I/O and YAML marshalling by an external library.
- The YAML-extension pattern, `lib.LoadConfigYAML`, `filepath.Join` and `ioutil.ReadDir`: they are defined elsewhere. They are abstract functions of `Env`.
- KMS decryption is a network call. Only its success or failure is modelled, as `Env.decrypts`, and the plaintext is discarded as in the source.
- Printing: file names, colours, the success message and the error wrapping texts. What gets printed is kept only as `validated` and `reported`.
- Cobra command registration (`init`) and argument parsing beyond "is there a first argument".
- `Sort`: the steps of Go's sort algorithm, and its instability, are not modelled. Only its contract is: sorted under `Less` and a permutation. Ties cannot occur in `MapToList`, because keys are distinct.
- Go strings are byte strings and may hold invalid UTF-8; a Dafny `string` cannot represent those, so `StrLess` agrees with Go's comparison only on valid UTF-8.
- Nil `*Secret` elements in a slice, which would make Go panic, are not representable. Out-of-range indices to `Less` and `Swap`, which would also panic, are excluded by their preconditions.
