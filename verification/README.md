# Signing: a Dafny model of the `sign` command

This project models the core of the `Signing` tool's `sign` command. It
covers these steps:

- Resolve a certificate by thumbprint from the current-user store, then the
  local-machine store (`X509CertificateEx.CreateFromThumbprint`).
- Dispatch on the platform (`SignCommand.ExecuteAsync`).
- On Windows, build the `signtool.exe` argument line and run the tool once per
  file, stopping at the first failure (`ExecuteSignToolAsync`).
- On Windows, locate `signtool.exe` through the registry's SDK installation
  folder and the highest-versioned `10.*` SDK directory that ships the tool
  for the requested architecture (`FindSignTool`).
- On macOS, do the same with `/usr/bin/codesign` (`ExecuteCodeSignAsync`).

The model is purely functional. The certificate stores, the registry, the
file system, the platform and the exit codes of the started tools are
values passed in:

- `CertificateStores.Stores`, with an abstract thumbprint matcher;
- `SignToolLocator.Host`, which holds the registry values, directory listings
  and file existence;
- `SignCommand.Machine`;
- `Batch.ExitCodeOracle`, which maps a tool path and argument line to an exit
  code.

A command's result is a `Batch.Outcome`. It is either the exit code together
with the sequence of processes started (tool path and argument line), or the
exception that `Directory.GetDirectories` throws for a missing `bin` folder.
The stores are inputs and nothing returns a new store, so the model never
changes a store. The source opens them read-only.

Reference definitions used to state meaning rather than mechanics:

- **Windows command-line splitter.** `Arguments.SplitArgs` is a model of how
  the started process splits its command line into `argv`. It is used to
  state which arguments each tool actually receives.
- **.NET semantics.** The following are written out to match .NET:
  - `Version.TryParse` and `Version.CompareTo` (`Versions`);
  - `Path.Combine` and `Path.GetFileName` (`Paths`);
  - `Char.IsWhiteSpace` and `string.IsNullOrWhiteSpace` (`Chars`);
  - `Dictionary` last-write-wins (`SdkTable.Put`);
  - `OrderByDescending` (`SdkTable.SortDescending`).

Behaviour of the source that is easy to misread:

- **Blank optional arguments.** `/fd` and `/t` are dropped when the value
  is null or consists only of .NET whitespace, not only when it is missing.
- **Rooted path segments.** `Path.Combine` starts over at a rooted later
  segment.
- **The `10.*` pattern.** It also matches a directory named exactly `10`,
  because of the Win32 wildcard rule for `.*`.
- **Missing `bin` folder.** `Directory.GetDirectories` throws for a missing
  `bin` folder, so the lookup raises an exception rather than returning
  null.

## Model

| member | source | states |
|---|---|---|
| CertificateStores.Find | Signing/X509CertificateEx.cs:26-27 | The find result holds exactly the store's certificates that match the thumbprint, and its first element is the first matching certificate in store order. |
| CertificateStores.FindEmptyIffNoMatch | Signing/X509CertificateEx.cs:29-31 | A location's find result is empty exactly when that store has no matching certificate. |
| CertificateStores.SearchLocations | Signing/X509CertificateEx.cs:21-35 | Walking the locations in order returns null exactly when every location's find result is empty. Otherwise it returns the first element of the first non-empty find result. |
| CertificateStores.SearchOrder | Signing/X509CertificateEx.cs:8-35 | Resolution looks at CurrentUser first and LocalMachine second: it returns the first current-user match if there is one, otherwise the first local-machine match, otherwise null. |
| CertificateStores.NotFoundIffNoStoreMatches | Signing/X509CertificateEx.cs:19-36 | Resolution returns null if and only if neither store holds a matching certificate. |
| CertificateStores.CurrentUserFirst | Signing/X509CertificateEx.cs:8-12 | When the current-user store has a match, the local-machine store's contents cannot change the result, which is the current-user store's first match. |
| CertificateStores.LocalMachineFallback | Signing/X509CertificateEx.cs:21-31 | With no current-user match but a local-machine match, the result is the local-machine store's first match. |
| CertificateStores.CreateFromThumbprint | Signing/X509CertificateEx.cs:19-36 | A resolved certificate is held by the current-user or the local-machine store and matches the requested thumbprint. |
| Thumbprints.IsThumbprintIntended | Signing/X509CertificateEx.cs:14-17 | Corrected check: true exactly for strings of 40 characters that are all hexadecimal digits, in either case. |
| Thumbprints.IsThumbprintAsWritten | Signing/X509CertificateEx.cs:16 | The regex as written only accepts strings of length 40 or 41. |
| Thumbprints.IsThumbprintAsWrittenAdmits | Signing/X509CertificateEx.cs:16 | The regex as written accepts a string exactly when it is a valid thumbprint, or a valid thumbprint followed by one line feed. |
| Thumbprints.TrailingLineFeedAccepted | Signing/X509CertificateEx.cs:16 | Forty '0' characters followed by a line feed pass the check as written and fail the corrected check. |
| Thumbprints.LeadingRunIsHexPrefix | Signing/X509CertificateEx.cs:16 | The anchored `[0-9a-f]{40}` run under IgnoreCase matches exactly when the first 40 characters exist and are hexadecimal digits. |
| Chars.IsNullOrWhiteSpace | Signing/Commands/SignCommand.cs:105-110 | An optional value counts as present exactly when it is non-null and has at least one non-whitespace character. |
| Arguments.SignToolArgsBase | Signing/Commands/SignCommand.cs:102-113 | The signtool argument base always starts with `sign /sha1 ` followed by the quoted thumbprint. |
| Arguments.OptionalFlag | Signing/Commands/SignCommand.cs:105-113 | For a bare flag and a quotable value, the tool receives nothing from an optional flag when the value is null or blank, and otherwise exactly the flag followed by the value. |
| Arguments.CodeSignArgsBase | Signing/Commands/SignCommand.cs:144-147 | For a quotable thumbprint, the codesign base splits into exactly `-s`, the thumbprint, `--options`, `runtime` and `--force`. |
| Arguments.FlagPiecesFacts | Signing/Commands/SignCommand.cs:105-113 | An optional flag contributes its flag and its value as two arguments when the value is not blank, and nothing otherwise. |
| Arguments.SplitRender | Signing/Commands/SignCommand.cs:102-113 | Splitting a line built from bare words and quotable values returns those words and values in order. |
| Arguments.SignToolReceives | Signing/Commands/SignCommand.cs:102-126 | With quotable values (no `"`, no trailing backslash), signtool receives `sign`, `/sha1`, the thumbprint, then `/fd` with the hash and `/t` with the timestamp URL if each is non-blank, then the file. |
| Arguments.CodeSignReceives | Signing/Commands/SignCommand.cs:142-151 | With quotable values, codesign receives exactly `-s`, the thumbprint, `--options`, `runtime`, `--force` and the file. |
| Batch.SignFiles | Signing/Commands/SignCommand.cs:124-136 | The per-file loop always returns 0 or -1. It starts at most one process per file, all of them on success, and at least one on failure. |
| Batch.SignFilesInOrder | Signing/Commands/SignCommand.cs:124-128 | The i-th process started is the tool on the i-th file with the shared argument base. |
| Batch.SignFilesStopsAtFailure | Signing/Commands/SignCommand.cs:128-133 | Every process started before the last one exited with 0, and on -1 the last one exited non-zero. |
| Batch.FailedRunIsFailingPrefix | Signing/Commands/SignCommand.cs:124-136 | On -1 at least one process was started; every earlier one exited with 0, the last one did not, and each received the shared base followed by its own file. |
| Batch.SignFilesSucceedsIff | Signing/Commands/SignCommand.cs:124-136 | The loop returns 0 if and only if the tool exits with 0 for every file. |
| Batch.FirstFailureStops | Signing/Commands/SignCommand.cs:128-133 | If file k is the first whose exit code is non-zero, the loop returns -1 after starting exactly the first k+1 files, in order. |
| Batch.SecondOfThreeFails | Signing/Commands/SignCommand.cs:149-158 | With three files where the second fails, only the first two are signed and the third is never started. |
| SignCommand.RunSignTool | Signing/Commands/SignCommand.cs:115-136 | A null signtool path gives -1 with no process started. A listing exception propagates. Processes are started only after the tool was found, always with that tool's path, one per file in order. |
| SignCommand.ExecuteCodeSign | Signing/Commands/SignCommand.cs:140-162 | The macOS branch returns 0 or -1, and every process it starts is `/usr/bin/codesign` with the `-s` thumbprint, hardened-runtime and force base. |
| SignCommand.Dispatch | Signing/Commands/SignCommand.cs:68-96 | With no resolved certificate the result is -1 with nothing started. The one exception modelled, the SDK listing's, arises only in the Windows branch. Starting a process or returning 0 requires a resolved certificate, a supported platform and, on Windows, a located signtool. |
| SignCommand.Execute | Signing/Commands/SignCommand.cs:68-96 | The command returns 0 or -1, and returns -1 without starting anything when the certificate is not found. The one exception modelled, the SDK listing's, arises only on Windows. |
| SignCommand.DispatchRuns | Signing/Commands/SignCommand.cs:84-92 | With a resolved certificate and a tool for the platform, the command is exactly the per-file loop over that tool and the platform's argument base. |
| SignCommand.RunsSignFiles | Signing/Commands/SignCommand.cs:84-92 | If any process was started, the platform had a tool and the outcome is that tool's per-file loop. |
| SignCommand.InvocationsCarryResolvedCertificate | Signing/Commands/SignCommand.cs:75-151 | Every started process uses the platform's tool and the resolved certificate's thumbprint, not the user's string. With quotable values, each receives exactly `ExpectedArgs` for its file. |
| SignCommand.SucceedsIffEveryFileSigned | Signing/Commands/SignCommand.cs:68-161 | The command returns 0 if and only if: a store holds the certificate; the platform has a signing tool; and that tool exits with 0 for every file. |
| SignCommand.SuccessSignsEveryFileInOrder | Signing/Commands/SignCommand.cs:124-136 | On success each file was signed exactly once, in input order, with its own argument line. |
| SignCommand.FailureIsFirstFailingFile | Signing/Commands/SignCommand.cs:128-133 | On a failure after starting processes, the last started one failed, all earlier ones succeeded, and they ran on the first files in order. |
| SignCommand.NothingRunsWhenGated | Signing/Commands/SignCommand.cs:75-120 | With no certificate, an unsupported platform, or no signtool.exe on Windows, the command returns -1 and starts no process. |
| SignToolLocator.RegistryKeyByBitness | Signing/Commands/SignCommand.cs:191-198 | Only the registry value under the key for the host's bitness affects the lookup: changing every other key's value leaves the result unchanged. |
| SignToolLocator.InstallationFolderReadsOneKey | Signing/Commands/SignCommand.cs:191-198 | The installation folder is read from one registry key: WOW6432Node on a 64-bit system, the plain key otherwise. Any other key can hold anything without changing the folder. |
| SignToolLocator.FindSignToolWithoutFolder | Signing/Commands/SignCommand.cs:195-202 | With no string InstallationFolder the result is null. The lookup throws exactly when the folder exists but its `bin` directory cannot be listed. |
| SignToolLocator.SdkNames | Signing/Commands/SignCommand.cs:202 | The entries considered are the listed entries whose names match `10.*`, as a subsequence of the listing: there is a strictly increasing index map that hits every matching entry. So they keep listing order and repetitions, and they are exactly the matching names. |
| SignToolLocator.MatchIndices | Signing/Commands/SignCommand.cs:202 | The matching indices are strictly increasing and in range, and they include every index whose entry name matches `10.*`. |
| SignToolLocator.SlotsOfListing | Signing/Commands/SignCommand.cs:204-207 | The loop sees one slot per matching entry, in listing order. Each slot holds the entry's full path under `bin` and the version that the entry name parses to. |
| SignToolLocator.SdkVersionsAreTen | Signing/Commands/SignCommand.cs:202-207 | Every SDK directory whose name parses as a version has major version 10. |
| SignToolLocator.BuildTable | Signing/Commands/SignCommand.cs:203-211 | The version dictionary has no duplicate keys. |
| SignToolLocator.BuildTableEntries | Signing/Commands/SignCommand.cs:203-211 | A version maps to a directory exactly when that directory's name parses as that version and no later directory parses as the same version (last write wins). |
| SignToolLocator.Probe | Signing/Commands/SignCommand.cs:213-220 | Probing returns the first entry's candidate whose signtool.exe exists, with all earlier candidates missing, and null exactly when none exists. |
| SignToolLocator.CandidateIsSignToolInDir | Signing/Commands/SignCommand.cs:215 | Each probed path names a file called `signtool.exe`. It lies inside the SDK directory unless the architecture is a rooted path. |
| SignToolLocator.ProbeSortedFindsHighest | Signing/Commands/SignCommand.cs:213-220 | After the descending sort, the probe's answer belongs to a table entry, and no entry with a higher version has the tool. |
| SignToolLocator.SelectSdk | Signing/Commands/SignCommand.cs:203-223 | The answer is the candidate of the highest kept version whose signtool.exe exists. It is null exactly when no kept directory has the tool, and it never throws. |
| SignToolLocator.FindSignTool | Signing/Commands/SignCommand.cs:178-224 | A located signtool path always names an existing file. |
| SignToolLocator.FindSignToolSelects | Signing/Commands/SignCommand.cs:198-220 | With an installation folder and a listable `bin`, the lookup is the selection over the `10.*` directories of `bin`. |
| SignToolLocator.LocatedIsKept | Signing/Commands/SignCommand.cs:203-220 | A located path is the candidate of a directory kept in the dictionary, and no kept directory with a higher version has the tool. |
| SignToolLocator.NotLocatedIsNoneKept | Signing/Commands/SignCommand.cs:203-223 | The probe finds nothing exactly when no kept directory has the tool for the architecture. |
| SignToolLocator.NumericNotTextualOrder | Signing/Commands/SignCommand.cs:213 | With SDKs 10.0.10.0 and 10.0.9.0 both shipping the tool, 10.0.10.0 is chosen: versions compare numerically, not as text. |
| SdkTable.Put | Signing/Commands/SignCommand.cs:209 | Assigning to the dictionary replaces any entry with the same version and keeps the others, so the keys stay distinct. |
| SdkTable.InsertDescending | Signing/Commands/SignCommand.cs:213 | Inserting into a descending list keeps it descending and adds exactly the new entry. |
| SdkTable.SortDescending | Signing/Commands/SignCommand.cs:213 | The descending order is a permutation of the dictionary's entries, ordered by version from highest to lowest. |
| Versions.ParsedIsJoinOfDigits | Signing/Commands/SignCommand.cs:207 | A name that parses is the dot-join of digit runs, one per component. Each run denotes its component, which fits in a 32-bit signed integer. |
| Versions.JoinOfDigitsParses | Signing/Commands/SignCommand.cs:207 | Two to four digit runs, each fitting in 32 bits and joined by dots, parse to the values of the runs, leading zeros included. |
| Versions.FormatParseRoundTrip | Signing/Commands/SignCommand.cs:207 | Formatting a version whose components fit in 32 bits and parsing it again gives the same version back. |
| Versions.SplitJoin | Signing/Commands/SignCommand.cs:207 | Splitting the join of separator-free parts at the separator returns the parts. |
| Versions.JoinSplit | Signing/Commands/SignCommand.cs:207 | Joining the split of a string at the separator returns the string. |
| Versions.LessIsFieldOrder | Signing/Commands/SignCommand.cs:213 | The version order is .NET's field-by-field comparison, where an undefined build or revision sorts below any defined one. |
| Versions.EqualIsFieldEquality | Signing/Commands/SignCommand.cs:209 | Two versions are equal as dictionary keys exactly when all four fields agree. |
| Versions.LessTransitive | Signing/Commands/SignCommand.cs:213 | The version order is transitive. |
| Versions.LessTotal | Signing/Commands/SignCommand.cs:213 | Any two distinct versions are ordered one way or the other. |
| Versions.LessAsymmetric | Signing/Commands/SignCommand.cs:213 | The version order is asymmetric. |
| Versions.LessIrreflexive | Signing/Commands/SignCommand.cs:213 | No version is below itself. |
| Paths.Combine | Signing/Commands/SignCommand.cs:200 | Combining with an empty first part gives the second part. An empty second part gives the first. A rooted second part replaces the first. Otherwise the result ends as the second part ends. |
| Paths.Combine3IsNestedCombine | Signing/Commands/SignCommand.cs:215 | The three-part `Path.Combine`, modelled case by case, equals the two-part one applied twice. |
| Paths.GetFileName | Signing/Commands/SignCommand.cs:206 | The file name is the longest separator-free suffix of the path. |
| Paths.GetFileNameOfCombine | Signing/Commands/SignCommand.cs:200-206 | Taking the file name of `bin` combined with a listed entry name gives back that entry name. |

## Left out

- Console output (all `Console.Error.WriteLineAsync` calls) is not modelled. It does not affect the exit code.
- Starting processes is not modelled. `ExecuteToolAsync` becomes an oracle from tool path and argument line to an exit code. This oracle is deterministic: the same file signed twice with the same arguments gets the same exit code. A `proc.Start()` exception (a missing tool binary) is not modelled.
- The System.CommandLine option declarations of `SignCommand` are not modelled, and neither is the arity that requires at least one file. An empty file list is allowed and returns 0.
- `Program.cs` and `NotarizeCommand.cs` are not part of this model.
- Matching in `X509Certificate2Collection.Find` by thumbprint is an abstract matcher passed in. The `validOnly: false` flag, and store open and close, are not modelled.
- `Version.TryParse` tolerance of surrounding whitespace and a leading sign in components is not modelled. Only plain decimal digit runs parse.
- Arguments.SignToolReceives: the argument values must be quotable: no `"`, and no `\` at the end. The model of the process's command-line splitter leaves out backslash escapes. For a value containing a quote, or ending in a backslash that would escape the closing quote, the source builds a line whose split differs from the intended arguments. This holds under both the Windows C runtime rules and .NET's Unix argument parser.
- Arguments.CodeSignReceives: the same quotable restriction as `SignToolReceives` applies.
- Arguments.OptionalFlag: the statement about what the tool receives holds only under the same quotable restriction.
- Arguments.CodeSignArgsBase: the statement about what the tool receives holds only under the same quotable restriction.
- SignCommand.InvocationsCarryResolvedCertificate: the statement about the arguments received holds only under the same quotable restriction.
- SignCommand.Dispatch: exceptions from opening a certificate store are not modelled. `CreateFromThumbprint` opens each store before the platform test, and .NET on Linux refuses the local-machine `My` store with a `CryptographicException`. The only exception modelled is the one from listing the SDK `bin` directory.
- SignCommand.Execute: the same applies. A failure to open a store is not modelled, so with no current-user match the model returns -1 where the source can throw on Linux.
- Case folding in `RegexOptions.IgnoreCase` is modelled for ASCII letters only. Non-ASCII characters that fold to `a`–`f` are not considered.
- Registry key names are compared exactly, not case-insensitively, and a registry value that is present but not a string is modelled as absent, which is what `value is string` gives.
- `Path.GetFileName` is modelled as the text after the last `\` or `/`. The drive-volume separator case is not modelled, since directory listings always return full paths under `bin`.
- `File.Exists` exceptions and access-denied behaviour of `Directory.GetDirectories` are not modelled. A failed listing has one outcome, `Threw`.
- `Execute` evaluates `FindSignTool` whatever the platform, because the lookup is a pure function of the host. The source only runs it on Windows, after building the argument base, so the order of the side-effect-free steps is not observable here.

## Findings

| source | as written | input that shows it | evidently intended | confidence | as-written member | corrected member |
|---|---|---|---|---|---|---|
| Signing/X509CertificateEx.cs:16 | `^[0-9a-f]{40}$`: in .NET, `$` also matches just before a final line feed. | 40 times `0` followed by `\n` is accepted as a thumbprint. | The match should end at the end of the string (`\z`), so that only exactly 40 hexadecimal digits are accepted. | not executed | Thumbprints.TrailingLineFeedAccepted | Thumbprints.IsThumbprintIntended |
