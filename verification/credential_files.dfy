/**
 * The credential-file cache of the git storage backend
 * (storages/git/credential_files.go).
 *
 * `ReadTrimmed` returns the whitespace-trimmed contents of a credential file.
 * It reads the file again when nothing is cached for the path, or when the
 * file's signature (modification time in nanoseconds, size) differs from the
 * cached one; an empty file or a failed read stores nothing.
 * The file system is a snapshot passed to each call: a path missing from the
 * snapshot is one whose stat fails, and the snapshot also says whether
 * reading the file succeeds.
 */
module CredentialFiles {
  import opened Trim

  /** Go's `int64`. */
  newtype Int64 = x: int | -0x8000_0000_0000_0000 <= x < 0x8000_0000_0000_0000

  /** A Go `(value, error)` pair where exactly one of the two is meaningful. */
  datatype Result<T, E> = Ok(value: T) | Err(error: E)

  /** The cause inside an `*os.PathError`. */
  datatype Errno = NotExist | Permission | IsDirectory | OtherIo(code: nat)

  /** The errors `readTrimmed` returns: an `*os.PathError` from `os.Stat` or
      `os.ReadFile`, passed through unchanged, or `errCredentialFileEmpty`. */
  datatype Error =
    | PathError(op: string, path: string, cause: Errno)
    | CredentialFileEmpty

  /** The parts of an `os.FileInfo` that a stat reports; `modTimeUnixNano` is
      `ModTime().UnixNano()`. */
  datatype FileInfo = FileInfo(name: string, size: Int64, mode: nat, modTimeUnixNano: Int64, isDir: bool)

  /** How `os.ReadFile` can fail: opening the file or reading it. */
  datatype ReadFailure = OpenFailed(cause: Errno) | ReadFailed(cause: Errno)

  /** What the file system answers for one path: the outcome of a stat and the
      outcome of reading the whole file. */
  datatype FileState = FileState(stat: Result<FileInfo, Errno>, contents: Result<string, ReadFailure>)

  /** A snapshot of the file system: a path that is not a key does not exist. */
  type FileSystem = map<string, FileState>

  /** `os.Stat(path)`. */
  function Stat(fs: FileSystem, path: string): (r: Result<FileInfo, Error>) {
    if path !in fs then Err(PathError("stat", path, NotExist))
    else match fs[path].stat
      case Ok(info) => Ok(info)
      case Err(cause) => Err(PathError("stat", path, cause))
  }

  /** `os.ReadFile(path)`, its bytes taken as text. */
  function ReadFile(fs: FileSystem, path: string): (r: Result<string, Error>) {
    if path !in fs then Err(PathError("open", path, NotExist))
    else match fs[path].contents
      case Ok(text) => Ok(text)
      case Err(OpenFailed(cause)) => Err(PathError("open", path, cause))
      case Err(ReadFailed(cause)) => Err(PathError("read", path, cause))
  }

  /** `credentialFileSignature`: a cheap fingerprint of a file's state. */
  datatype CredentialFileSignature = CredentialFileSignature(modTimeUnixNano: Int64, size: Int64)

  /** `signatureForFileInfo`: the stat result's `ModTime().UnixNano()` and
      `Size()`. */
  function SignatureForFileInfo(info: FileInfo): (sig: CredentialFileSignature) {
    CredentialFileSignature(info.modTimeUnixNano, info.size)
  }

  /** Two stat results give the same signature exactly when they agree on
      modification time and size; name, mode and kind play no part. */
  lemma SignatureMatchesIff(a: FileInfo, b: FileInfo)
    ensures SignatureForFileInfo(a) == SignatureForFileInfo(b)
        <==> a.modTimeUnixNano == b.modTimeUnixNano && a.size == b.size
  {
  }

  /** `cachedCredentialFile`: a value together with the signature of the file
      it was read from. */
  datatype CachedCredentialFile = CachedCredentialFile(sig: CredentialFileSignature, value: string)

  type Entries = map<string, CachedCredentialFile>

  /** What the cache keeps true: every stored value is non-empty and has no
      leading or trailing whitespace. */
  ghost predicate EntriesValid(entries: Entries) {
    forall p :: p in entries ==> entries[p].value != "" && IsTrimmed(entries[p].value)
  }

  /** The fast path of `readTrimmed`: an entry for `path` with the current
      signature and a non-empty value. */
  predicate IsHit(entries: Entries, path: string, sig: CredentialFileSignature) {
    path in entries && entries[path].sig == sig && entries[path].value != ""
  }

  /** `entries[path] = entry`: only the entry for `path` changes, and a valid
      entry keeps the entries valid. */
  function Store(entries: Entries, path: string, entry: CachedCredentialFile): (stored: Entries)
    ensures stored - {path} == entries - {path}
    ensures path in stored && stored[path] == entry
    ensures EntriesValid(entries) && entry.value != "" && IsTrimmed(entry.value) ==> EntriesValid(stored)
  {
    var stored := entries[path := entry];
    assert stored - {path} == entries - {path};
    stored
  }

  /** The result of one `readTrimmed` call and the cache entries after it. */
  datatype Step = Step(result: Result<string, Error>, entries: Entries)

  /** One `readTrimmed` call as a function of the entries before it, the file
      system and the path. Only the entry for `path` can change; it changes
      only on success and then holds the returned value under the current
      signature; a failure leaves the entries as they were; the invariant
      EntriesValid is kept, so every success is a non-empty trimmed value. */
  function ReadTrimmedStep(entries: Entries, fs: FileSystem, path: string): (s: Step)
    ensures s.entries - {path} == entries - {path}
    ensures s.result.Err? ==> s.entries == entries
    ensures s.result.Ok? ==> s.result.value != ""
    ensures s.result.Ok? ==>
      && Stat(fs, path).Ok?
      && path in s.entries
      && s.entries[path] == CachedCredentialFile(SignatureForFileInfo(Stat(fs, path).value), s.result.value)
    ensures EntriesValid(entries) ==> EntriesValid(s.entries)
    ensures EntriesValid(entries) && s.result.Ok? ==> IsTrimmed(s.result.value)
  {
    match Stat(fs, path)
    case Err(e) => Step(Err(e), entries)
    case Ok(info) =>
      var sig := SignatureForFileInfo(info);
      if IsHit(entries, path, sig) then Step(Ok(entries[path].value), entries)
      else
        match ReadFile(fs, path)
        case Err(e) => Step(Err(e), entries)
        case Ok(text) =>
          var value := TrimSpace(text);
          if value == "" then Step(Err(CredentialFileEmpty), entries)
          else Step(Ok(value), Store(entries, path, CachedCredentialFile(sig, value)))
  }

  /** `credentialFileCache`: the entries keyed by path (the mutex that guards
      them is not modelled; each call is atomic). */
  class CredentialFileCache {
    var entries: Entries

    ghost predicate Valid()
      reads this
    {
      EntriesValid(entries)
    }

    /** `newCredentialFileCache`: an empty cache. */
    constructor ()
      ensures entries == map[]
      ensures Valid()
    {
      entries := map[];
    }

    /** `readTrimmed(path)`. */
    method ReadTrimmed(fs: FileSystem, path: string) returns (r: Result<string, Error>)
      modifies this
      ensures Step(r, entries) == ReadTrimmedStep(old(entries), fs, path)
      // stat fails: its error is returned and nothing is cached
      ensures Stat(fs, path).Err? ==> r == Err(Stat(fs, path).error) && entries == old(entries)
      // cache hit: the stored value, without reading the file
      ensures Stat(fs, path).Ok? && IsHit(old(entries), path, SignatureForFileInfo(Stat(fs, path).value)) ==>
        r == Ok(old(entries)[path].value) && entries == old(entries)
      // miss or stale entry: the file is read
      ensures Stat(fs, path).Ok? && !IsHit(old(entries), path, SignatureForFileInfo(Stat(fs, path).value)) ==>
        match ReadFile(fs, path)
        case Err(e) => r == Err(e) && entries == old(entries)
        case Ok(text) =>
          if TrimSpace(text) == "" then r == Err(CredentialFileEmpty) && entries == old(entries)
          else
            && r == Ok(TrimSpace(text))
            && entries == old(entries)[path := CachedCredentialFile(SignatureForFileInfo(Stat(fs, path).value), TrimSpace(text))]
      ensures old(Valid()) ==> Valid()
      // every value handed out is a non-empty trimmed string
      ensures old(Valid()) && r.Ok? ==> r.value != "" && IsTrimmed(r.value)
    {
      var info := Stat(fs, path);
      if info.Err? {
        return Err(info.error);
      }

      var sig := SignatureForFileInfo(info.value);

      if path in entries {
        var entry := entries[path];
        if entry.sig == sig && entry.value != "" {
          return Ok(entry.value);
        }
      }

      var buf := ReadFile(fs, path);
      if buf.Err? {
        return Err(buf.error);
      }

      var value := TrimSpace(buf.value);
      if value == "" {
        return Err(CredentialFileEmpty);
      }

      entries := entries[path := CachedCredentialFile(sig, value)];
      return Ok(value);
    }
  }

  /** With the invariant in place the non-empty check of the fast path is
      redundant: a hit is exactly an entry with the current signature. */
  lemma HitIffSignatureMatches(entries: Entries, path: string, sig: CredentialFileSignature)
    requires EntriesValid(entries)
    ensures IsHit(entries, path, sig) <==> path in entries && entries[path].sig == sig
  {
  }

  /** A path whose stat fails gets that error unchanged, whatever the cache
      holds, and the entries are unchanged: a deleted or unreadable
      credential file is not served from the cache. */
  lemma StatErrorIsReturned(entries: Entries, fs: FileSystem, path: string)
    requires Stat(fs, path).Err?
    ensures ReadTrimmedStep(entries, fs, path) == Step(Err(Stat(fs, path).error), entries)
  {
  }

  /** On a hit the file's contents are not consulted: two file systems that
      give the same stat result for `path` give the same step. */
  lemma HitIgnoresContents(entries: Entries, fs1: FileSystem, fs2: FileSystem, path: string)
    requires path in fs1 && path in fs2 && fs1[path].stat == fs2[path].stat
    requires Stat(fs1, path).Ok? && IsHit(entries, path, SignatureForFileInfo(Stat(fs1, path).value))
    ensures ReadTrimmedStep(entries, fs1, path) == ReadTrimmedStep(entries, fs2, path)
    ensures ReadTrimmedStep(entries, fs1, path) == Step(Ok(entries[path].value), entries)
  {
  }

  /** A second call on an unchanged file system returns what the first
      returned and leaves the entries as the first left them. */
  lemma ReadTrimmedIdempotent(entries: Entries, fs: FileSystem, path: string)
    ensures var s1 := ReadTrimmedStep(entries, fs, path);
            ReadTrimmedStep(s1.entries, fs, path) == s1
  {
  }

  /** After a successful read, a rewrite that changes the signature is seen
      on the next call: its result is the new trimmed contents (or the
      empty-file error, or the read error). */
  lemma ChangedSignatureIsReread(entries: Entries, fs1: FileSystem, fs2: FileSystem, path: string)
    requires ReadTrimmedStep(entries, fs1, path).result.Ok?
    requires Stat(fs2, path).Ok?
    requires SignatureForFileInfo(Stat(fs2, path).value) != SignatureForFileInfo(Stat(fs1, path).value)
    ensures var s2 := ReadTrimmedStep(ReadTrimmedStep(entries, fs1, path).entries, fs2, path);
            match ReadFile(fs2, path)
            case Err(e) => s2.result == Err(e)
            case Ok(text) => s2.result == if TrimSpace(text) == "" then Err(CredentialFileEmpty) else Ok(TrimSpace(text))
  {
  }

  /** Freshness rests on the signature alone: after a successful read, a
      rewrite that keeps modification time and size is not seen, and the
      cached value is returned again. */
  lemma UnchangedSignatureServesCachedValue(entries: Entries, fs1: FileSystem, fs2: FileSystem, path: string)
    requires ReadTrimmedStep(entries, fs1, path).result.Ok?
    requires Stat(fs2, path).Ok?
    requires SignatureForFileInfo(Stat(fs2, path).value) == SignatureForFileInfo(Stat(fs1, path).value)
    ensures var s1 := ReadTrimmedStep(entries, fs1, path);
            ReadTrimmedStep(s1.entries, fs2, path) == s1
  {
  }
}
