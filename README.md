# goki core in Dafny

`goki` mints a random secret and stores it as a Go constant in a file that
declares `package keys`. This project models the tool's core in `main.go`:

- the secret generator `randString`. It uses rejection sampling of random
  bytes onto the 62-symbol alphabet `a–z A–Z 0–9`;
- the merge `writeOrAppendKey`. It creates the keys file, or appends one
  `const` line to an existing one;
- the two line scans the merge relies on: `looksLikeKeysPackage` (is this a
  `package keys` file?) and `keyExists` (does the file already declare this
  name?);
- the constants `defaultLen` and `alphabet`.

Layout:

- `wrappers.dfy` — `Option` and `Result`.
- `text.dfy` (module `Text`) — the pieces of Go's `strings` package the core
  uses: `TrimSpace`, `Split(s, "\n")`, `Fields`, and `HasPrefix` (Dafny's
  prefix test `p <= s`), restricted to ASCII white space. Also two generic
  line searches, `AnyLine` and `FirstLine`. They stand for the code's
  `for … range strings.Split(src, "\n")` loops that return early.
- `secret.dfy` (module `Secret`) — `randString`, written as the method
  `RandString` with the inner loop split out as `Absorb`. Both are proved
  against the specification function `Generate`. The operating system's
  entropy source is a parameter: a sequence of `Draw`s, one per call of
  `rand.Read`. Each draw is either a full buffer of bytes or a read error.
- `keys.dfy` (module `Keys`) — the merge as a pure function `Merge` from the
  file's contents to an `Outcome`. The input is `None` for a missing file.
  The `Outcome` holds the file afterwards and the reported error, if any.
  The two scans are the predicates `LooksLikeKeysPackage` and `KeyExists`.

On an accepted file, the second separator test (main.go:84, "the trimmed
contents are non-empty") always passes. An accepted file has a package line,
so it is not blank; `Keys.AcceptedSeparator` proves this. Appending therefore
always writes a blank line before the declaration: one newline after a
terminated last line, two after an unterminated one.

## Model

| member | source | states |
|---|---|---|
| Secret.RandString | main.go:128-155 | The result is exactly `Generate(n, draws)`. A non-positive length gives `InvalidLength`. A read error before `n` accepted bytes gives `EntropyFailure`. Otherwise the secret has `n` characters, and character `i` is `alphabet[b mod 62]` for the `i`-th accepted byte `b` in read order. An `EntropyFailure` result means some read failed. |
| Secret.Absorb | main.go:143-151 | One pass over a freshly read buffer appends the symbol of every byte below 248, in order. It stops as soon as `n` symbols are collected. The result is the encoding of the first `n` accepted bytes of everything read so far. |
| Secret.Constants | main.go:133-134 | `alphabetLen` is 62 and `maxMultiple` is 248 = 4·62; neither `byte` conversion truncates. |
| Secret.AlphabetLayout | main.go:15 | The alphabet has 62 symbols: `a`–`z`, then `A`–`Z`, then `0`–`9`. |
| Secret.AlphabetIsAlnum | main.go:15 | Every alphabet symbol is an ASCII letter or digit, and no two positions hold the same symbol. |
| Secret.Index | main.go:147 | `b % alphabetLen` is always a valid alphabet position. |
| Secret.Accept | main.go:144-146 | Rejection keeps only bytes below 248. It never yields more bytes than it was given. |
| Secret.AcceptAppend | main.go:139-151 | Rejection works byte by byte: the bytes accepted from two reads are those of the first read followed by those of the second. |
| Secret.Encode | main.go:147 | Each accepted byte becomes exactly one symbol at the same position. |
| Secret.GenerateShape | main.go:136-154 | A successful secret has exactly `n` characters, all from the alphabet. |
| Secret.GenerateMapping | main.go:143-147 | Character `i` of the secret is the symbol of the `i`-th accepted byte. |
| Secret.GenerateErrors | main.go:129-142 | `InvalidLength` occurs exactly when `n <= 0`. `EntropyFailure` occurs exactly when `n > 0` and fewer than `n` bytes are accepted from the reads before the first failing one (from all reads, if none fails). |
| Secret.EntropyFailureIsReadError | main.go:139-142 | On a source that does not run dry (`Supplies`), `EntropyFailure` occurs exactly when `n > 0`, some read fails, and fewer than `n` bytes were accepted before it. |
| Secret.GenerateIgnoresLaterReads | main.go:139-152 | Once `n` symbols are collected the source is not consulted again: further reads do not change the secret. |
| Secret.NoModuloBias | main.go:133-147 | Among the bytes that survive rejection, every alphabet position is hit by exactly four byte values: `j`, `j+62`, `j+124`, `j+186`. |
| Secret.BiasWithoutRejection | main.go:144-147 | Without the rejection step, positions 0–7 would be hit by five of the 256 byte values and the rest by four. |
| Keys.Merge | main.go:45-101 | The file is left unchanged whenever an error is reported. `WrongPackage` occurs exactly when an existing file fails the package check. `DuplicateKey` occurs exactly when an existing file passes the package check and already declares the name, so the package check comes first. The merge succeeds exactly when it changes the file. |
| Keys.MergeBootstrap | main.go:93-96 | A missing file is created as `package keys`, a blank line, and `const <name> = "<value>"` with a final newline. |
| Keys.MergeAppendShape | main.go:78-90 | On an accepted file the merge appends `"\n"` (old file ends in a newline) or `"\n\n"` (it does not), then the declaration line. |
| Keys.AcceptedSeparator | main.go:79-88 | For a file that passes the package check, the two separator tests write exactly that: one newline or two. |
| Keys.AcceptedIsNotBlank | main.go:84 | A file that passes the package check is non-empty and not all white space. |
| Keys.MergeLines | main.go:78-96 | After a successful merge, every line of the old file is kept. An empty line is added when the old file was unterminated. The declaration then stands on its own line, directly after a blank line, and the text ends with a newline. |
| Keys.MergeResultIsKeysFile | main.go:45-101 | The merged file still passes the package check. It declares exactly the names the old file declared, plus the new one. |
| Keys.MergeAgainRejected | main.go:68-70 | Merging the same name into the result again reports `DuplicateKey` and leaves the file as it is. |
| Keys.MergeAnotherAccepted | main.go:65-91 | After a merge, merging a different, not yet declared name succeeds. |
| Keys.MergeRejectsForeignFile | main.go:65-67 | A file with no package line, or whose first package line is not exactly `package keys`, is refused with `WrongPackage` and left untouched. |
| Keys.MergeRejectsDuplicate | main.go:68-70 | A keys file in which some line declares the name is refused with `DuplicateKey` and left untouched. |
| Keys.DefaultSecret | main.go:14 | The tool's secret length 16 never gives `InvalidLength`; a successful secret at that length has 16 characters and is printed by `%q` without escapes. |
| Keys.GeneratedIsQuotable | main.go:31-53 | Every secret the generator produces is printable ASCII without `"` or `\`, so `%q` writes it between plain double quotes. |
| Keys.DeclLineSplit | main.go:53 | The declaration line is one line of text followed by its newline. |
| Keys.DeclTextDeclares | main.go:113-126 | `keyExists`'s line test recognises the written declaration for its own name and for no other name. The declaration is not a package line. |
| Keys.DeclLineDeclares | main.go:103-126 | A text consisting of the declaration line declares only that name and is not a keys package. |
| Keys.PackageVerdictSpec | main.go:103-111 | The package check accepts exactly when the first line that starts with `package ` after trimming reads exactly `package keys` after trimming. |
| Keys.NoPackageLineRejected | main.go:110 | A file without any package line is rejected. |
| Keys.PackageVerdictAppend | main.go:104-108 | Lines after the first package line never change the verdict. Without a package line in the first block, the second block decides. |
| Keys.LaterPackageLinesIgnored | main.go:104-108 | Once a file has a package line, text appended after a newline does not change whether it passes. |
| Keys.AcceptedHasPackageLine | main.go:103-111 | A file that passes the check has a package line. |
| Keys.KeyExistsSpec | main.go:113-126 | `keyExists` is true exactly when some line, after trimming, starts with `const ` and has the name as its second field. |
| Keys.KeyExistsAppend | main.go:114-124 | Two texts joined by a newline declare a name exactly when one of them does. |
| Text.TrimLeftSpec | main.go:105 | Left trimming keeps the suffix that starts at the first non-space; everything before it is white space. |
| Text.TrimRightSpec | main.go:105 | Right trimming keeps the prefix that ends at the last non-space; everything after it is white space. |
| Text.TrimSpaceFactor | main.go:105 | `TrimSpace` yields the part of the line between a blank prefix and a blank suffix. The result neither starts nor ends with white space. |
| Text.TrimSpaceEmpty | main.go:84 | Trimming leaves nothing exactly when the text is all white space. |
| Text.TrimSpaceKeeps | main.go:105 | A text whose first and last characters are not white space is unchanged by trimming. |
| Text.Split | main.go:104 | Splitting on newlines gives at least one line, and no line contains a newline. |
| Text.SplitConcat | main.go:104 | Splitting `a + "\n" + b` gives the lines of `a` followed by the lines of `b`. |
| Text.JoinSplit | main.go:104 | Joining the lines with newlines gives the text back. |
| Text.SplitJoin | main.go:114 | Splitting newline-free lines joined by newlines gives the lines back. |
| Text.Fields | main.go:120 | Every field is non-empty and free of white space. |
| Text.FieldsCons | main.go:120 | A word followed by a blank is the first field. |
| Text.FieldsSkipBlank | main.go:120-121 | Leading white space contributes no field. |
| Text.FieldsAllSpace | main.go:120-121 | A text made only of white space has no fields. |
| Text.FieldsWordBlank | main.go:120-121 | A space-free word followed by any non-empty run of white space is the first field, and the fields of the rest follow it. Together with `Text.FieldsCons` (a lone word is one field) these fix the fields of every text. |
| Text.FieldsUnwords | main.go:120 | The fields of non-empty, space-free words joined by blanks are those words. |
| Text.AnyLineSpec | main.go:114-125 | The early-return search succeeds exactly when some line passes the test. |
| Text.AnyLineAppend | main.go:114-125 | Searching two blocks of lines gives the same answer as searching each block. |
| Text.FirstLine | main.go:104-110 | The search stops at a line that passes the test, and every earlier line fails it. It reports the end when no line passes. |
| Text.FirstLineAppend | main.go:104-108 | The first hit in two blocks is the first block's hit if it has one, and otherwise the second block's hit, shifted. |

## Left out

- `main` is not modelled: argument count, usage text, `token.IsIdentifier`, the messages and the exit codes. `Keys.DefaultSecret` states what `randString(defaultLen)` (main.go:31) yields.
- `token.IsIdentifier` is not modelled. The lemmas that need a well-formed name require `IsBareName` instead: non-empty and free of white space, which every Go identifier is.
- Everything about the file system: `filepath.Dir`, `MkdirAll`, and the errors of `Stat`, `ReadFile`, `OpenFile`, `WriteString`, `WriteFile` and `Close`. This includes the "other `Stat` error" branch (main.go:98-99). `Merge` maps the file's contents before the call to the contents after it. A write that fails halfway, leaving a newline without the declaration, is not represented.
- `crypto/rand` is a parameter, not a model. Each successful read is assumed to fill the whole buffer, as `rand.Read` guarantees.
- Secret.RandString: requires that the source either fails at some read or delivers `n` accepted bytes within the given reads (`Supplies`). A finite sequence of reads cannot represent a source that succeeds forever with only rejected bytes; on such a source `randString` would never return.
- Secret.RandString: does not model Go's `int` width. Lengths are unbounded integers, so the model returns `Generate(n, draws)` for every `n > 0`. In Go, `make([]byte, 0, n)` (main.go:136) panics for a huge `n`, and `n*2` (main.go:137) wraps once `n >= 2^62`.
- Secret.NoModuloBias: states that the sampling is uniform by counting preimages. It does not model probability distributions.
- Keys.Merge: treats the read-check-append sequence (main.go:55-96) as one atomic step from the old contents to the new. Two runs of the tool on the same file can interleave between the check and the write, and both can append, possibly the same name; the model does not capture this.
- Keys.Merge: requires a value that `%q` prints without escapes: printable ASCII other than `"` and `\`. Go's general escaping is not modelled. `Keys.GeneratedIsQuotable` shows that every generated secret meets this requirement.
- Text.TrimSpaceFactor: white space is ASCII only (space, `\t`, `\n`, `\v`, `\f`, `\r`). Go's `TrimSpace` and `Fields` also treat U+0085, U+00A0 and other Unicode spaces as white space. The same restriction applies to `Text.Fields`. Text is a sequence of characters, not of UTF-8 bytes.
- The alphabet constant is written as the concatenation of its three runs `a–z`, `A–Z`, `0–9`. `Secret.AlphabetLayout` states that its value is main.go:15's string, character by character.
