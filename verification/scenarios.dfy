/**
 * The credential-file scenarios of storages/git/git_test.go, replayed on the
 * cache alone: a password file written as "fromfile\n", and a token file
 * rotated from "tok1\n" to "tok2\n" with a later modification time.
 * Two further cases: a rewrite that keeps the signature, which is served
 * the old token, and a whitespace-only file, which is rejected.
 */
module CredentialFileScenarios {
  import opened Trim
  import opened CredentialFiles

  const PasswordPath := "/tmp/t/password"
  const TokenPath := "/tmp/t/token"

  /** A modification time, in nanoseconds since the Unix epoch. */
  const WrittenAt: Int64 := 1_700_000_000_000_000_000
  /** A later modification time, as `os.Chtimes` sets after the rewrite;
      any later value gives a different signature. */
  const TouchedAt: Int64 := 1_700_000_002_000_000_000

  /** A readable regular file with mode 0600 holding `text`, `size` bytes long. */
  function RegularFile(name: string, modTime: Int64, size: Int64, text: string): (f: FileState) {
    FileState(Ok(FileInfo(name, size, 0x180, modTime, false)), Ok(text))
  }

  /** The password file holding "fromfile\n" is read, on an empty cache, as
      "fromfile", and the cache then holds that value under the file's
      signature. */
  lemma PasswordFileIsTrimmed()
    ensures var fs := map[PasswordPath := RegularFile("password", WrittenAt, 9, "fromfile\n")];
            ReadTrimmedStep(map[], fs, PasswordPath)
            == Step(Ok("fromfile"), map[PasswordPath := CachedCredentialFile(CredentialFileSignature(WrittenAt, 9), "fromfile")])
  {
    TrimSpaceOfPasswordFile();
  }

  /** The token file as first written: "tok1\n". */
  function FirstToken(): (fs: FileSystem) {
    map[TokenPath := RegularFile("token", WrittenAt, 5, "tok1\n")]
  }

  /** The token file after the rotation: "tok2\n", with a later modification time. */
  function RotatedToken(): (fs: FileSystem) {
    map[TokenPath := RegularFile("token", TouchedAt, 5, "tok2\n")]
  }

  /** The first read of the token file gives "tok1" and caches it. */
  lemma FirstTokenIsRead()
    ensures ReadTrimmedStep(map[], FirstToken(), TokenPath)
            == Step(Ok("tok1"), map[TokenPath := CachedCredentialFile(CredentialFileSignature(WrittenAt, 5), "tok1")])
  {
    assert Stat(FirstToken(), TokenPath).Ok?;
    assert ReadFile(FirstToken(), TokenPath) == Ok("tok1\n");
    assert "tok1" + "\n" == "tok1\n";
    TrimSpaceOfLine("tok1");
  }

  /** With "tok1" cached under the first signature, the rotated file has a
      new signature and is read: "tok2" is returned and cached. */
  lemma RotatedTokenIsReadOverCache()
    ensures ReadTrimmedStep(map[TokenPath := CachedCredentialFile(CredentialFileSignature(WrittenAt, 5), "tok1")], RotatedToken(), TokenPath)
            == Step(Ok("tok2"), map[TokenPath := CachedCredentialFile(CredentialFileSignature(TouchedAt, 5), "tok2")])
  {
    assert Stat(RotatedToken(), TokenPath).Ok?;
    assert ReadFile(RotatedToken(), TokenPath) == Ok("tok2\n");
    assert "tok2" + "\n" == "tok2\n";
    TrimSpaceOfLine("tok2");
  }

  /** A token file rewritten with a later modification time is read again:
      "tok1" first, then "tok2". */
  lemma RotatedTokenIsReread()
    ensures var s1 := ReadTrimmedStep(map[], FirstToken(), TokenPath);
            var s2 := ReadTrimmedStep(s1.entries, RotatedToken(), TokenPath);
            s1.result == Ok("tok1") && s2.result == Ok("tok2")
  {
    FirstTokenIsRead();
    RotatedTokenIsReadOverCache();
  }

  /** The caveat of the test: a rewrite within the same modification-time
      tick and of the same size keeps the signature, so the old token is
      served again. */
  lemma SameTickRewriteServesOldToken()
    ensures var s1 := ReadTrimmedStep(map[], FirstToken(), TokenPath);
            var s2 := ReadTrimmedStep(s1.entries, map[TokenPath := RegularFile("token", WrittenAt, 5, "tok2\n")], TokenPath);
            s1.result == Ok("tok1") && s2.result == Ok("tok1")
  {
    var rewritten := map[TokenPath := RegularFile("token", WrittenAt, 5, "tok2\n")];
    FirstTokenIsRead();
    UnchangedSignatureServesCachedValue(map[], FirstToken(), rewritten, TokenPath);
  }

  /** A whitespace-only credential file is an error, not an empty password,
      and nothing is cached for it. */
  lemma BlankFileIsRejected()
    ensures var fs := map[PasswordPath := RegularFile("password", WrittenAt, 4, " \t\r\n")];
            ReadTrimmedStep(map[], fs, PasswordPath) == Step(Err(CredentialFileEmpty), map[])
  {
    TrimSpaceOfBlankFile();
  }

  /** The rotation scenario driven through a cache object. */
  method RefetchesTokenFile() returns (first: Result<string, Error>, second: Result<string, Error>)
    ensures first == Ok("tok1") && second == Ok("tok2")
  {
    var cache := new CredentialFileCache();
    first := cache.ReadTrimmed(FirstToken(), TokenPath);
    second := cache.ReadTrimmed(RotatedToken(), TokenPath);
    RotatedTokenIsReread();
  }
}
