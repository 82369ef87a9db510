# PassZen password core in Dafny

PassZen is a command-line password generator. It builds a password from random letters,
digits and symbols followed by a 4-character key chosen by the user. It then appends the
line `<key> - <password> (<strength>) ` to a text file of passwords. The same file can be
listed as a table, and the record of a key can be deleted from it.

This project models the core of `index.js` and proves properties of it:

- `Generator` (generator.dfy) covers password assembly:
  - the alphabets (index.js:12-15);
  - `passGenLogic` and `generatePassword` with the strong, medium and weak presets;
  - `generateRandomPassword` with its custom counts.

  Each random draw is a nondeterministic choice from its alphabet. A result is described
  by a layout: one alphabet per position. The methods promise that their result fits the
  layout, and lemmas turn that into the password's exact shape.
- `Store` (store.dfy) covers the password file, as class `PasswordFile` with a field
  `contents` that is absent while the file does not exist. It models:
  - `checkIfKeyExists`;
  - the file-changing part of `deleteKey`, including the regular expression
    `<key> - .* \(.*\)` with the `g` flag, written out by hand;
  - the listing branch of `checkFlags`.
- `Text` (text.dfy) models the JavaScript string operations these rely on: `slice`,
  `includes`, `split`, `join` and string truthiness.
- `Prompts` (prompts.dfy) models the answer checks of the key and count prompts.
- `Flow` (flow.dfy) chains the pieces the way the generate command does: validated answers,
  a generated password, the appended record, and what the listing then shows.

The model keeps these behaviours of the source as they are:

- The guard `strength === 'strong' || 'medium'` (index.js:87, 95) is always truthy. So weak
  passwords also get an uppercase letter and a symbol. A weak password is then cut to 6
  characters and keeps only the first two characters of its key.
- The existence test splits the whole file on single spaces. It reports a key as taken when
  any fragment merely contains it. For a non-empty key without spaces, that is a substring
  search of the whole file. It can hit another record's password or strength.
- Deleting leaves a `" \n"` line where the record was. Listing drops it because it skips
  lines that are empty or a single space.

## Model

| member | source | states |
|---|---|---|
| Generator.Draw | index.js:84-85 | a character drawn by a random index into a non-empty alphabet belongs to that alphabet |
| Generator.LoopLength | index.js:71 | each block has 2 draws for `strong` and 1 for any other strength |
| Generator.PassGenLogic | index.js:71-116 | the result is the joined draws and key cut to `passLength`: each position holds a character of the layout's alphabet for that position, and the length is `min(passLength, 4*loopLength + |key|)` |
| Generator.UpperAndSymbolSlots | index.js:87-99 | the guard of the uppercase and symbol draws, whose second operand is the truthy string `'medium'`, holds for every strength, weak included |
| Generator.GeneratePassword | index.js:118-132 | strong, medium and weak give a password of the preset layout cut to 12, 8 and 6; any other strength gives the string `Invalid Strength` |
| Generator.PresetLength | index.js:118-132 | strong, medium and weak, and only they, have a target length; it never exceeds the uncut length with a 4-character key, and equals it except for weak |
| Generator.PresetLayoutAt | index.js:72-113 | position `i` of an uncut preset password is drawn from lowercase, uppercase, digits or symbols in blocks of `loopLength` (2 for strong, 1 otherwise), then holds the key's character |
| Generator.PresetShape | index.js:72-131 | with a 4-character key a preset password has exactly 12/8/6 characters: blocks of lowercase, uppercase, digits and symbols in that order, then the prefix of the key that the cut leaves |
| Generator.DrawMany | index.js:153-179 | one counting loop yields exactly `count` characters, all from the loop's alphabet |
| Generator.GenerateRandomPassword | index.js:134-188 | the custom password fits the layout of `cap` uppercase, `small` lowercase, `num` digit and `sym` symbol slots followed by the key |
| Generator.CustomLayoutAt | index.js:181-185 | position `i` of a custom password is drawn from the alphabet of its block, or is the key's character |
| Generator.CustomShape | index.js:153-187 | a custom password has length `cap+small+num+sym+|key|`; its four blocks are drawn from their alphabets in order, and it ends with the whole key, uncut |
| Generator.PresetPasswordIsWord | index.js:12-15 | a preset password holds no space or line break unless its key does |
| Generator.CustomPasswordIsWord | index.js:12-15 | a custom password holds no space or line break unless its key does |
| Text.Prefix | index.js:115 | `slice(0, n)` gives a prefix of the input of length `min(n, |s|)` |
| Text.IsTruthy | index.js:208 | a string is truthy exactly when it is non-empty |
| Text.Contains | index.js:207 | `includes`: a string that occurs in another is no longer than it |
| Text.ContainsAt | index.js:207 | an occurrence at any position of the string counts as `includes` |
| Text.ContainsWitness | index.js:207 | every `includes` has a position where the string occurs; with `ContainsAt`, `includes` is exactly "occurs at some index" |
| Text.SplitOn | index.js:55 | `split` always gives at least one piece, even for the empty string |
| Text.SplitAtFirst | index.js:59 | where the separator first occurs at `p`, the first piece is the text before `p` and the rest is the split of the text after the separator |
| Text.SplitJoin | index.js:55 | splitting on a separator and joining with it again restores the string |
| Text.SplitConcat | index.js:206 | splitting on one character distributes over concatenation, gluing the last left piece to the first right piece |
| Store.FindContaining | index.js:207 | `find` with `includes`: no result means no fragment contains the key; a result is a fragment containing it, and it is the first fragment when that one matches |
| Store.FindContainingIsFirst | index.js:207 | the fragment `find` returns is at some index, and no fragment before that index contains the key |
| Store.KeyFound | index.js:205-208 | a key reported as taken occurs in the file |
| Store.OccurrenceInFragment | index.js:206-207 | every occurrence of a space-free key lies inside one fragment of the split on spaces |
| Store.KeyFoundIsSubstringSearch | index.js:205-208 | for a non-empty key without spaces, the existence test succeeds exactly when the key occurs anywhere in the file |
| Store.SpacedKeyNeverFound | index.js:206-208 | a key holding a space is never found, since no fragment of a split on spaces holds one |
| Store.EmptyKeyFound | index.js:206-208 | the empty key is found exactly when the file is non-empty and does not start with a space |
| Store.AppendedKeyFound | index.js:216-220 | after the record line of a non-empty, space-free key is appended, the existence test finds that key |
| Store.RecordLine | index.js:218 | the appended line starts with `<key> - `, holds 8 characters besides the key, password and strength, and ends with a newline |
| Store.PasswordFile.CheckIfKeyExists | index.js:203-229 | no file: the record line becomes the file and the answer is "not taken"; otherwise the answer is the existence test, and when not taken exactly the record line is appended, else the file is unchanged; a file of whole lines stays one |
| Store.LineEnd | index.js:420 | where a `.*` must stop: at most the length of the text, and a line terminator stands there unless it is the end |
| Store.LineEndIsFirst | index.js:420 | no line terminator comes before `LineEnd`, so `.` matches every character up to it |
| Store.LastIndexOf | index.js:420 | a found index holds the searched character |
| Store.LastIndexOfIsLast | index.js:420 | the found index is the last occurrence, and nothing is found only when the character does not occur; a greedy `\(.*\)` closes there |
| Store.TailMatch | index.js:420 | after the literal `<key> - `, the tail of a match is non-empty and stays within the first line; `TailMatchEnds` says where it ends |
| Store.TailMatchEnds | index.js:420 | where the tail ends and when it exists: just after a `)` with no `)` after it in the line and a ` (` before it; and no match when no ` (` in the line comes before a `)` of the line |
| Store.MatchAt | index.js:420 | a match starting here is longer than its literal head `<key> - `, lies within the text and ends with `)` |
| Store.MatchAtAcross | index.js:420 | for a key without line breaks, a match never depends on text after the first line terminator |
| Store.RemoveRecords | index.js:419-422 | the replacement never makes the text longer; what it removes is stated by the lemmas that follow |
| Store.RemoveKeepsLast | index.js:419-422 | since every match ends with `)`, the last character of the text survives the replacement unless it is a `)` |
| Store.RemoveKeepsWholeLines | index.js:419-422 | deleting keeps a file that is empty or ends with a newline in that form |
| Store.RemoveWithoutHead | index.js:419-422 | text in which `<key> - ` never occurs is left unchanged by the replacement |
| Store.RemoveAcrossLines | index.js:419-422 | the replacement acts line by line: removing from whole lines followed by more text is the same as removing from each part |
| Store.RemoveRecordLine | index.js:419-422 | the record line of the key is cut down to its trailing `" \n"` |
| Store.RemoveOnlyRecord | index.js:419-422 | when the key's only record sits among lines that never mention `<key> - `, everything else is kept and `" \n"` replaces the record |
| Store.PasswordFile.DeleteKey | index.js:408-438 | no file: nothing changes and the outcome is "no passwords yet"; key not found: nothing changes, "key missing"; otherwise every match of the pattern is removed and the outcome is "deleted"; a file of whole lines stays one |
| Store.ParseLine | index.js:59 | the listed key is a prefix of the line, and a line without ` - ` lists as itself with no password |
| Store.ParseLineAtFirst | index.js:59 | a line whose first ` - ` sits at `p` lists the text before it as the key and the text up to the next ` - ` as the password |
| Store.KeepLines | index.js:57 | exactly the lines that are neither empty nor a single space are kept, and never more lines than given |
| Store.ParseList | index.js:55-61 | at most one entry per line; a text without a newline lists as nothing when it is empty or one space, else as its one parsed line |
| Store.ParseLines | index.js:58-61 | each kept line gives one entry, in order, parsed by its split on ` - ` |
| Store.ParseListConcat | index.js:55-61 | the listing of whole lines followed by more text is the listing of each part, concatenated |
| Store.ParseRecordLine | index.js:55-61 | a stored record line lists as its key and `<password> (<strength>) ` |
| Store.AppendThenList | index.js:52-61 | appending a record adds exactly its entry at the end of the listing |
| Store.ListWithRecord | index.js:52-61 | a record between whole lines lists as its entry between the entries of those lines |
| Store.DeleteThenList | index.js:419-422 | deleting a key whose only record sits among unrelated lines removes exactly that entry from the listing |
| Store.ResidueNotListed | index.js:57 | the `" \n"` a deletion leaves lists as nothing |
| Store.PasswordFile.List | index.js:52-61 | there is a listing exactly when the file exists, and it is the parsed contents |
| Prompts.ValidateKey | index.js:258-263 | a key answer is accepted exactly when it has 4 characters, else rejected with `Please enter a 4 character key` |
| Prompts.ValidateCount | index.js:322-327 | a count answer is accepted exactly when it is greater than 0, else rejected with `Please enter a number greater than 0` |
| Flow.ValidatedKeyPresetLength | index.js:251-293 | with a key accepted by the prompt, a preset password has exactly 12, 8 or 6 characters |
| Flow.ValidatedCustomHasEveryClass | index.js:316-379 | with counts accepted by the prompts, a custom password holds at least one uppercase letter, lowercase letter, digit and symbol, at their block starts |
| Flow.PresetRoundTrip | index.js:267-293 | a preset password stored for a key without spaces or line breaks lists as the last entry, with that key and the password plus its strength suffix |
| Flow.CustomRoundTrip | index.js:373-381 | the same for a custom password, stored with the strength `custom` |

## Left out

- The prompts, colours, console output, clipboard copy and `setTimeout` message are not modelled. They are user interface only. The order of the prompts in `startProcess` is not modelled either; `Flow` states what the chained calls guarantee.
- The help and version branches of `checkFlags`, and command dispatch with `yargs` and `process.exit`, are not modelled. They print fixed text and exit.
- The file system is replaced by the `contents` field. The path under `$HOME` and the encoding argument play no part. So do `fs.existsSync` and its ignored second argument.
- `Math.random` is replaced by a free choice of index. Floating-point rounding, bias and the distribution of passwords are not modelled.
- Generator.GenerateRandomPassword: the counts are natural numbers. In the source they are the prompt's text answers, which JavaScript coerces in `i < count` and `value > 0`. Prompts.ValidateCount takes the number that coercion yields.
- Prompts.ValidateKey, Text.Prefix, Generator.PassGenLogic, Generator.GeneratePassword, Generator.PresetShape: lengths are counted in code points, while JavaScript counts UTF-16 code units, both for the key check and for `slice(0, passLength)` (index.js:115). The two differ only for characters outside the Basic Multilingual Plane: for a weak password with the key `a😀b`, the source keeps four drawn characters, `a` and a lone high surrogate, where the model keeps `a😀`.
- Store.RemoveRecords: the key is matched literally. The source puts the key into the pattern unescaped, so a key holding regular-expression metacharacters means a different pattern there. Its contract only bounds the length; its behaviour is stated by the `Remove…` lemmas for text without `<key> - `, for whole lines and for a record line.
- Store.PasswordFile.DeleteKey: does not model the error path of an invalid pattern. A key that is not a valid pattern, for example one with an unbalanced `(`, `)` or `[`, a leading `*`, `+` or `?`, or two quantifiers in a row such as `a**b`, makes `new RegExp` throw at index.js:420, so the write at index.js:424 never happens and the file stays unchanged. The model instead removes the literal matches and reports the key as deleted.
- Store.RemoveOnlyRecord: it assumes the key, password and strength hold no line breaks.
- Store.DeleteThenList, Store.AppendThenList, Store.ListWithRecord, Store.ParseRecordLine, Flow.PresetRoundTrip, Flow.CustomRoundTrip: they assume the key, password and strength hold no spaces or line breaks, and that the file holds whole lines (`WholeLines`, which `CheckIfKeyExists` and `DeleteKey` preserve). Generated passwords satisfy this whenever the key does (`PresetPasswordIsWord`, `CustomPasswordIsWord`).
- Store.PasswordFile.List: reading a missing file for the listing throws in the source (index.js:53); the model returns no listing in that case instead of modelling the exception.
- Concurrent runs of the tool on the same file are not modelled.
