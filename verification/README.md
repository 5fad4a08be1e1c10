# Credential-file cache of the git storage backend

This project models the credential-file cache of the git storage backend in
`storages/git/credential_files.go`. The cache hands the backend the
whitespace-trimmed contents of credential files, such as a password file or a
CI token file. It reads the file again when nothing is cached for the path,
or when the file's signature differs from the cached one; an empty file or a
failed read stores nothing, so the next call reads the file again. The
signature is the modification time in nanoseconds together with the size.

- `trim.dfy` (module `Trim`) holds Go's `strings.TrimSpace` over the
  `unicode.IsSpace` whitespace set. It is written as two recursive functions
  that trim the left end and the right end. The module also proves that the
  result is trimmed, that it is empty exactly when the input is all
  whitespace, and that TrimSpace strips whitespace padding and nothing else,
  which makes it idempotent.
- `credential_files.dfy` (module `CredentialFiles`) holds the
  signature, the cached entry and the cache class. `CredentialFileCache`
  keeps its `entries` map as a field, and its `ReadTrimmed` method follows
  `readTrimmed` step by step with the same early returns. The method is
  proved equal to a pure transition function, `ReadTrimmedStep`, which
  carries the properties that span several calls: what one call may change,
  the cache invariant, idempotence, and freshness driven by the signature.
- `scenarios.dfy` (module `CredentialFileScenarios`) replays on the cache
  the credential files of `storages/git/git_test.go`: a password file
  `"fromfile\n"`, and a token rotated from `"tok1\n"` to `"tok2\n"` with a
  later modification time. It adds two cases the tests do not run: a rewrite
  that keeps the signature, the coarse-mtime caveat named in the comment at
  `storages/git/git_test.go:116` (the test moves the mtime on to avoid it),
  and a blank file, the error branch at `storages/git/credential_files.go:61-64`.

The file system is a parameter of each call: a snapshot `map<string, FileState>`.
A path that is not a key is a file whose stat fails with "not exist". For a
path that is present, the snapshot gives the outcome of `os.Stat` and the
outcome of `os.ReadFile`, and either can be an error. Errors are Go's
`*os.PathError` (operation, path, cause), passed through unchanged, or
`errCredentialFileEmpty`.

## Model

| member | source | states |
|---|---|---|
| `Trim.TrimLeftSpace` | storages/git/credential_files.go:61 | the result is the longest suffix of the input that does not start with whitespace; everything cut off is whitespace |
| `Trim.TrimRightSpace` | storages/git/credential_files.go:61 | the result is the longest prefix of the input that does not end with whitespace; everything cut off is whitespace |
| `Trim.TrimSpace` | storages/git/credential_files.go:61 | the trimmed value has no leading or trailing whitespace, and it is empty exactly when the file text is all whitespace |
| `Trim.TrimLeftSpaceOfPadded` | storages/git/credential_files.go:61 | left trimming of whitespace followed by a part that does not start with whitespace gives back exactly that part |
| `Trim.TrimRightSpaceOfPadded` | storages/git/credential_files.go:61 | right trimming of a part that does not end with whitespace, followed by whitespace, gives back exactly that part |
| `Trim.TrimSpaceOfPadded` | storages/git/credential_files.go:61 | TrimSpace of whitespace + trimmed text + whitespace is the trimmed text, so TrimSpace removes the padding and nothing else |
| `Trim.TrimSpaceIsInfix` | storages/git/credential_files.go:61 | the trimmed value is a contiguous slice of the file text, with only whitespace before and after it |
| `Trim.TrimmedIsFixed` | storages/git/credential_files.go:61 | a string without leading or trailing whitespace is returned by TrimSpace as it is |
| `Trim.TrimSpaceIdempotent` | storages/git/credential_files.go:61 | trimming an already trimmed value changes nothing |
| `Trim.TrimSpaceFixedPoint` | storages/git/credential_files.go:61 | TrimSpace leaves a string unchanged if and only if the string is already trimmed |
| `Trim.TrimSpaceOfLine` | storages/git/credential_files.go:61 | a file holding one trimmed line plus a newline reads back as that line |
| `Trim.TrimSpaceOfPasswordFile` | storages/git/git_test.go:28-44 | the password file text `"fromfile\n"` trims to `"fromfile"` |
| `Trim.TrimSpaceOfBlankFile` | storages/git/credential_files.go:61-64 | the whitespace-only text `" \t\r\n"` trims to the empty string, the input that takes the `errCredentialFileEmpty` branch (the general fact is `Trim.TrimSpace`'s empty-iff-all-whitespace clause) |
| `CredentialFiles.SignatureForFileInfo` | storages/git/credential_files.go:17-22 | builds the signature from the stat result's `ModTime().UnixNano()` and `Size()`; the function has no contract of its own, and `CredentialFiles.SignatureMatchesIff` states its property |
| `CredentialFiles.SignatureMatchesIff` | storages/git/credential_files.go:12-22 | two stat results give equal signatures if and only if they agree on modification time and size; name, mode and kind are ignored |
| `CredentialFiles.IsHit` | storages/git/credential_files.go:50-51 | the fast-path test: an entry exists for the path, its signature equals the current one, and its value is non-empty; `CredentialFiles.HitIffSignatureMatches` shows the last part is redundant under the invariant |
| `CredentialFiles.Store` | storages/git/credential_files.go:66-68 | storing an entry changes only the entry for that path, and storing a non-empty trimmed value keeps the cache invariant |
| `CredentialFiles.ReadTrimmedStep` | storages/git/credential_files.go:38-71 | one call changes at most the entry for its own path; a failure leaves the entries as they were; a success returns a non-empty value and leaves exactly that value cached under the current signature; the invariant (every stored value is non-empty and trimmed) is preserved, so with it every success is trimmed |
| `CredentialFiles.CredentialFileCache.constructor` | storages/git/credential_files.go:34-36 | a new cache has no entries and satisfies the invariant |
| `CredentialFiles.CredentialFileCache.ReadTrimmed` | storages/git/credential_files.go:38-71 | equals `ReadTrimmedStep` on the old entries. A stat error is returned with the entries unchanged. On a hit (same signature, non-empty value) the stored value is returned and nothing changes. Otherwise a read error is returned unchanged; an all-whitespace text gives `CredentialFileEmpty` with the entries unchanged; any other text gives its trimmed value, stored under the current signature. The invariant is preserved, and on a cache that satisfies it every returned value is non-empty and has no leading or trailing whitespace |
| `CredentialFiles.HitIffSignatureMatches` | storages/git/credential_files.go:50-53 | under the invariant, the non-empty check of the fast path is redundant: a hit is exactly a stored entry with the current signature |
| `CredentialFiles.StatErrorIsReturned` | storages/git/credential_files.go:39-42 | a path whose stat fails (missing from the snapshot, or present with a stat error such as a permission error) gets that error unchanged, whatever the cache holds, and the entries are unchanged |
| `CredentialFiles.HitIgnoresContents` | storages/git/credential_files.go:44-54 | on a hit the file contents play no part: two file systems with the same stat result for the path give the same result and entries, namely the stored value with nothing changed |
| `CredentialFiles.ReadTrimmedIdempotent` | storages/git/credential_files.go:47-54 | a second call on an unchanged file system returns the same result as the first and does not change the entries |
| `CredentialFiles.ChangedSignatureIsReread` | storages/git/credential_files.go:50-70 | after a success, a call whose stat gives a different signature returns the new trimmed contents, or the empty-file or read error |
| `CredentialFiles.UnchangedSignatureServesCachedValue` | storages/git/credential_files.go:51-52 | after a success, a call whose stat gives the same signature returns the cached value, whatever the file now contains, and changes nothing |
| `CredentialFileScenarios.PasswordFileIsTrimmed` | storages/git/git_test.go:28-44 | on an empty cache the password file `"fromfile\n"` is read as `"fromfile"`, which is then cached under the file's signature |
| `CredentialFileScenarios.FirstTokenIsRead` | storages/git/git_test.go:93-111 | on an empty cache the token file `"tok1\n"` is read as `"tok1"`, which is then cached under the file's signature |
| `CredentialFileScenarios.RotatedTokenIsReadOverCache` | storages/git/git_test.go:113-131 | with `"tok1"` cached under the first signature, the rewritten `"tok2\n"` with a later modification time is read: `"tok2"` is returned and cached under the new signature |
| `CredentialFileScenarios.RotatedTokenIsReread` | storages/git/git_test.go:90-133 | `"tok1"` is read first, and `"tok2"` after the file is rewritten with a later modification time |
| `CredentialFileScenarios.SameTickRewriteServesOldToken` | storages/git/git_test.go:116-120 | a rewrite that keeps the modification time and the size is not seen, and `"tok1"` is served again |
| `CredentialFileScenarios.BlankFileIsRejected` | storages/git/credential_files.go:61-64 | a whitespace-only file gives `CredentialFileEmpty`, and the cache stays empty |
| `CredentialFileScenarios.RefetchesTokenFile` | storages/git/git_test.go:90-133 | the rotation run through a `CredentialFileCache` object returns `"tok1"` and then `"tok2"` |

## Left out

- The mutex `mu` (storages/git/credential_files.go:30, 46-48, 66-68) is not modelled. Each call is atomic and calls run one after another, so the duplicate reads of racing callers are not modelled either.
- The window between `os.Stat` and `os.ReadFile`, in which the file may change or vanish, is not modelled. Each call sees one snapshot. That snapshot may still make the read fail after a successful stat, and that error path is modelled.
- Real `os.FileInfo` and `time.Time` are reduced to a record. `ModTime().UnixNano()` is taken to be an `int64`, since Go leaves it undefined outside that range. The snapshot does not tie a file's size to the length of its contents.
- File contents are sequences of Unicode code points, not bytes. Invalid UTF-8 is not modelled. Go decodes it as U+FFFD, which is not whitespace, so TrimSpace would keep it like any other non-space rune.
- The package-level singleton `credentialFiles` (storages/git/credential_files.go:73) is replaced by cache objects constructed explicitly.
- `authBasicHTTP` and `storageSession.remoteAuth`, which the tests in storages/git/git_test.go exercise, are not part of this model. So the precedence among `GIT_PASSWORD`, `GIT_PASSWORD_FILE` and `GITHUB_TOKEN_FILE` is not modelled. The tests are used only for the file-reading scenarios above.
- `crypt/sops/age.go` is not modelled. `IsActivated` only checks whether an environment variable is present, and `KeyGroup` only copies the keys returned by the external `age.MasterKeysFromRecipients`.
