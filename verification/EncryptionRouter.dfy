/** The server's `POST /encrypt` handler (`server/encryption.router.ts`): the
    status it answers with, the temporary upload it removes, the artifact
    `salt ‖ iv ‖ ciphertext` it writes and the names it gives the upload, the
    artifact and the download link. The filesystem is a map from paths to
    contents; Node's `crypto` (scrypt, AES-256-CBC, random bytes) is foreign
    and appears only through its outputs and their lengths. */
module EncryptionRouter {
  import opened JsBuiltins

  const SaltLength: nat := 16
  const IvLength: nat := 16
  /** scrypt is asked for 32 bytes, the key size of aes-256-cbc. */
  const KeyLength: nat := 32
  const BlockSize: nat := 16

  type Salt = s: seq<Byte> | |s| == SaltLength witness seq(16, _ => 0)
  type Iv = s: seq<Byte> | |s| == IvLength witness seq(16, _ => 0)
  type DerivedKey = s: seq<Byte> | |s| == KeyLength witness seq(32, _ => 0)

  /** The foreign primitives: `scryptSync(password, salt, 32)` and the whole
      output of an `aes-256-cbc` cipher stream for a given input. */
  datatype NodeCrypto = NodeCrypto(
    scrypt: (string, Salt) -> DerivedKey,
    cbcEncrypt: (DerivedKey, Iv, seq<Byte>) -> seq<Byte>)

  /** The length of CBC output with standard padding: the input rounded up
      to the next whole block, a full block more when it is already whole. */
  function PaddedLength(n: nat): (m: nat)
    ensures m % BlockSize == 0 && n < m <= n + BlockSize
  {
    (n / BlockSize + 1) * BlockSize
  }

  /** The only thing known about the cipher: its output length. */
  ghost predicate CipherLengthContract(c: NodeCrypto) {
    forall k: DerivedKey, iv: Iv, p: seq<Byte> :: |c.cbcEncrypt(k, iv, p)| == PaddedLength(|p|)
  }

  // ---------------------------------------------------------------------
  // Names and paths

  /** multer's `filename`: `Date.now() + '-' + file.originalname`. The
      timestamp's digits come first, then the dash, then the original name. */
  function StoredName(now: nat, originalname: string): (r: string)
    ensures var t := DecimalString(now);
      && |r| == |t| + 1 + |originalname|
      && (forall i :: 0 <= i < |t| ==> r[i] == t[i] && '0' <= r[i] <= '9')
      && r[|t|] == '-'
      && r[|t| + 1..] == originalname
  {
    DecimalString(now) + "-" + originalname
  }

  /** Two uploads get the same stored name only when they arrive in the same
      millisecond under the same original name. */
  lemma StoredNameInjective(a: nat, x: string, b: nat, y: string)
    ensures StoredName(a, x) == StoredName(b, y) <==> a == b && x == y
  {
    var ra, rb := StoredName(a, x), StoredName(b, y);
    var ta, tb := DecimalString(a), DecimalString(b);
    if ra == rb {
      // The first non-digit of either name is its dash.
      var k := if |ta| <= |tb| then |ta| else |tb|;
      assert ra[k] == rb[k];
      assert |ta| == |tb|;
      assert forall i :: 0 <= i < |ta| ==> ta[i] == tb[i];
      assert ta == tb;
      DecimalStringInjective(a, b);
      assert x == ra[|ta| + 1..] == y;
    }
  }

  /** The artifact's name: the stored name with `.enc` appended. */
  function EncryptedName(filename: string): (r: string)
    ensures |r| == |filename| + 4 && r[..|filename|] == filename && r[|filename|..] == ".enc"
  {
    filename + ".enc"
  }

  /** Where multer keeps an upload: `<cwd>/data/temp/<filename>`. */
  function TempPath(cwd: string, filename: string): (r: string)
    ensures |r| == |cwd| + 11 + |filename|
    ensures r[..|cwd|] == cwd && r[|cwd|..|cwd| + 11] == "/data/temp/" && r[|cwd| + 11..] == filename
  {
    cwd + "/data/temp/" + filename
  }

  /** Where the artifact goes: `<cwd>/data/uploads/<name>`. */
  function OutputPath(cwd: string, name: string): (r: string)
    ensures |r| == |cwd| + 14 + |name|
    ensures r[..|cwd|] == cwd && r[|cwd|..|cwd| + 14] == "/data/uploads/" && r[|cwd| + 14..] == name
  {
    cwd + "/data/uploads/" + name
  }

  /** The link returned to the client. */
  function DownloadUrl(name: string): (r: string)
    ensures |r| == 15 + |name| && r[..15] == "/api/downloads/" && r[15..] == name
  {
    "/api/downloads/" + name
  }

  /** The upload record multer hands the handler. */
  datatype UploadedFile = UploadedFile(originalname: string, filename: string, path: string)

  /** What multer's disk storage produces for a file received at `now`. */
  function Upload(cwd: string, now: nat, originalname: string): (u: UploadedFile)
    ensures u.originalname == originalname
    ensures u.filename == StoredName(now, originalname)
    ensures u.path == TempPath(cwd, u.filename)
  {
    var filename := StoredName(now, originalname);
    UploadedFile(originalname, filename, TempPath(cwd, filename))
  }

  /** Distinct uploads (a different arrival time or original name) never
      share a temporary path, an artifact path or a download link, and equal
      ones share all three. */
  lemma DistinctUploadsDistinctFiles(cwd: string, a: nat, x: string, b: nat, y: string)
    ensures var u, v := Upload(cwd, a, x), Upload(cwd, b, y);
      && (u.path == v.path <==> a == b && x == y)
      && (OutputPath(cwd, EncryptedName(u.filename)) == OutputPath(cwd, EncryptedName(v.filename)) <==> a == b && x == y)
      && (DownloadUrl(EncryptedName(u.filename)) == DownloadUrl(EncryptedName(v.filename)) <==> a == b && x == y)
  {
    StoredNameInjective(a, x, b, y);
    var m, n := StoredName(a, x), StoredName(b, y);
    var em, en := EncryptedName(m), EncryptedName(n);
    if em == en {
      assert m == em[..|m|] == en[..|n|] == n;
    }
    if TempPath(cwd, m) == TempPath(cwd, n) {
      assert m == TempPath(cwd, m)[|cwd| + 11..] == n;
    }
    if OutputPath(cwd, em) == OutputPath(cwd, en) {
      assert em == OutputPath(cwd, em)[|cwd| + 14..] == en;
    }
    if DownloadUrl(em) == DownloadUrl(en) {
      assert em == DownloadUrl(em)[15..] == en;
    }
  }

  /** An upload that multer stored never shares its path with the artifact
      made from it, so removing the upload cannot remove the artifact. */
  lemma UploadAndOutputDiffer(cwd: string, now: nat, originalname: string)
    ensures Upload(cwd, now, originalname).path != OutputPath(cwd, EncryptedName(Upload(cwd, now, originalname).filename))
  {
    var u := Upload(cwd, now, originalname);
    var out := OutputPath(cwd, EncryptedName(u.filename));
    var i := |cwd| + 6;
    assert u.path[i] == 't';
    assert out[i] == 'u';
  }

  // ---------------------------------------------------------------------
  // The artifact

  /** The bytes written to the output file: salt, then IV, then the cipher output. */
  function Artifact(salt: Salt, iv: Iv, ciphertext: seq<Byte>): (a: seq<Byte>)
    ensures |a| == SaltLength + IvLength + |ciphertext|
    ensures a[..SaltLength] == salt
    ensures a[SaltLength..SaltLength + IvLength] == iv
    ensures a[SaltLength + IvLength..] == ciphertext
  {
    salt + iv + ciphertext
  }

  /** Under the cipher's length contract, every artifact is longer than its
      32-byte header, by the padded length of the input. */
  lemma ArtifactLength(c: NodeCrypto, password: string, salt: Salt, iv: Iv, input: seq<Byte>)
    requires CipherLengthContract(c)
    ensures |Artifact(salt, iv, c.cbcEncrypt(c.scrypt(password, salt), iv, input))| == SaltLength + IvLength + PaddedLength(|input|)
    ensures |Artifact(salt, iv, c.cbcEncrypt(c.scrypt(password, salt), iv, input))| > SaltLength + IvLength
  {
    var k := c.scrypt(password, salt);
    assert |c.cbcEncrypt(k, iv, input)| == PaddedLength(|input|);
  }

  // ---------------------------------------------------------------------
  // The handler

  datatype Request = Request(file: Option<UploadedFile>, password: Option<string>)

  /** `req.body.password` is truthy: present and non-empty. */
  function HasPassword(req: Request): (present: bool)
    ensures present ==> req.password.Some? && |req.password.value| >= 1
    ensures !present <==> req.password == None || req.password == Some("")
  {
    req.password.Some? && req.password.value != ""
  }

  /** `res.status(code).json({ message, downloadUrl? })`. */
  datatype Response = Response(status: int, message: string, downloadUrl: Option<string>)

  const NoFileMessage: string := "Файл не завантажено."
  const NoPasswordMessage: string := "Пароль не надано."
  const SuccessMessage: string := "Файл успішно зашифровано"
  const ServerErrorMessage: string := "Помилка під час шифрування файлу."

  /** Where, if anywhere, the `try` block throws: before the output stream
      exists (random bytes, scrypt, cipher set-up), or while the pipeline
      runs, after `flushed` bytes of the artifact reached the disk. */
  datatype Fault = NoFault | FailsBeforeOutput | FailsInPipeline(flushed: nat)

  class FileSystem {
    var files: map<string, seq<Byte>>

    constructor (initial: map<string, seq<Byte>>)
      ensures files == initial
    {
      files := initial;
    }

    /** `fs.unlinkSync(path)`; it throws on a missing path, so callers must
        know the path exists. */
    method Unlink(path: string)
      requires path in files
      modifies this
      ensures files == old(files) - {path}
    {
      files := files - {path};
    }

    /** `fs.existsSync(path)`. */
    method Exists(path: string) returns (present: bool)
      ensures present <==> path in files
    {
      present := path in files;
    }

    /** What a write stream leaves at `path` once closed. */
    method Store(path: string, data: seq<Byte>)
      modifies this
      ensures files == old(files)[path := data]
    {
      files := files[path := data];
    }
  }

  /** The bytes the handler writes for an upload, as the cipher stream
      produces them. */
  function ArtifactFor(c: NodeCrypto, password: string, salt: Salt, iv: Iv, input: seq<Byte>): seq<Byte> {
    Artifact(salt, iv, c.cbcEncrypt(c.scrypt(password, salt), iv, input))
  }

  /** The `/encrypt` handler. `salt` and `iv` are the two `randomBytes(16)`
      draws; `fault` says where the `try` block throws, if it does. The
      multer middleware has stored the upload, so its path exists. */
  method HandleEncrypt(fs: FileSystem, req: Request, c: NodeCrypto, salt: Salt, iv: Iv, cwd: string, fault: Fault)
    returns (res: Response)
    requires req.file.Some? ==> req.file.value.path in fs.files
    modifies fs
    // No file: 400, and the filesystem is not touched.
    ensures req.file.None? ==> res == Response(400, NoFileMessage, None) && fs.files == old(fs.files)
    // A file but no password: the upload is deleted, then 400.
    ensures req.file.Some? && !HasPassword(req) ==>
      res == Response(400, NoPasswordMessage, None) && fs.files == old(fs.files) - {req.file.value.path}
    // Success: the artifact is written, the upload deleted, 200 with the link.
    ensures req.file.Some? && HasPassword(req) && fault.NoFault? ==>
      var u := req.file.value;
      var name := EncryptedName(u.filename);
      && res == Response(200, SuccessMessage, Some(DownloadUrl(name)))
      && fs.files == old(fs.files)[OutputPath(cwd, name) := ArtifactFor(c, req.password.value, salt, iv, old(fs.files)[u.path])] - {u.path}
    // A throw before the output stream exists: the upload is deleted, 500.
    ensures req.file.Some? && HasPassword(req) && fault.FailsBeforeOutput? ==>
      res == Response(500, ServerErrorMessage, None) && fs.files == old(fs.files) - {req.file.value.path}
    // A throw in the pipeline: a partial artifact stays, the upload is deleted, 500.
    ensures req.file.Some? && HasPassword(req) && fault.FailsInPipeline? ==>
      var u := req.file.value;
      var artifact := ArtifactFor(c, req.password.value, salt, iv, old(fs.files)[u.path]);
      var kept := if fault.flushed < |artifact| then fault.flushed else |artifact|;
      && res == Response(500, ServerErrorMessage, None)
      && fs.files == old(fs.files)[OutputPath(cwd, EncryptedName(u.filename)) := artifact[..kept]] - {u.path}
    // Cleanup: whenever a file was uploaded, its temporary path is gone.
    ensures req.file.Some? ==> req.file.value.path !in fs.files
    // Nothing but the upload and the artifact changes.
    ensures forall p :: p in old(fs.files) && (req.file.None? || (p != req.file.value.path && p != OutputPath(cwd, EncryptedName(req.file.value.filename)))) ==>
      p in fs.files && fs.files[p] == old(fs.files)[p]
  {
    if req.file.None? {
      return Response(400, NoFileMessage, None);
    }
    var upload := req.file.value;
    if !HasPassword(req) {
      fs.Unlink(upload.path);
      return Response(400, NoPasswordMessage, None);
    }
    var password := req.password.value;
    if !fault.FailsBeforeOutput? {
      var key := c.scrypt(password, salt);
      var inputPath := upload.path;
      var encryptedFileName := EncryptedName(upload.filename);
      var outputPath := OutputPath(cwd, encryptedFileName);
      var input := fs.files[inputPath];
      // The write stream receives the salt, then the IV, then the cipher output.
      var output: seq<Byte> := [];
      output := output + salt;
      output := output + iv;
      output := output + c.cbcEncrypt(key, iv, input);
      assert output == ArtifactFor(c, password, salt, iv, input);
      if fault.NoFault? {
        fs.Store(outputPath, output);
        fs.Unlink(inputPath);
        return Response(200, SuccessMessage, Some(DownloadUrl(encryptedFileName)));
      }
      var kept := if fault.flushed < |output| then fault.flushed else |output|;
      fs.Store(outputPath, output[..kept]);
    }
    // catch: remove the upload if it is still there.
    var present := fs.Exists(upload.path);
    if present {
      fs.Unlink(upload.path);
    }
    res := Response(500, ServerErrorMessage, None);
  }
}
