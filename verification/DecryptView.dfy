/** The decryption view (`client/src/features/decryption/DecryptView.tsx`):
    its state fields, the handlers that update them and the name offered for
    the decrypted download. */
module DecryptView {
  import opened JsBuiltins
  import opened Utils
  import opened ViewState
  import EncryptView

  // ---------------------------------------------------------------------
  // The download name: `file?.name.replace(/.enc$/, '') || 'decrypted-file'`

  /** Where `/.enc$/` matches: the last four characters are any character
      other than a line terminator (the unescaped `.`) followed by `enc`. */
  predicate EndsWithAnyThenEnc(name: string) {
    |name| >= 4 && !IsLineTerminator(name[|name| - 4]) && name[|name| - 3..] == "enc"
  }

  /** `name.replace(/.enc$/, '')`: the anchored pattern can only match the
      last four characters, so those are dropped when they match. */
  function ReplaceEncSuffix(name: string): (r: string)
    ensures |name| - 4 <= |r| <= |name| && r == name[..|r|]
    ensures EndsWithAnyThenEnc(name) ==> |r| == |name| - 4
    ensures !EndsWithAnyThenEnc(name) ==> r == name
  {
    if EndsWithAnyThenEnc(name) then name[..|name| - 4] else name
  }

  /** The name offered for the download: the file name with the match
      removed, or `'decrypted-file'` when that leaves nothing (or there is no
      file). */
  function DecryptedFileName(file: Option<SelectedFile>): (r: string)
    ensures r != ""
    ensures file.Some? && ReplaceEncSuffix(file.value.name) != "" ==> r == ReplaceEncSuffix(file.value.name)
    ensures file.None? || ReplaceEncSuffix(file.value.name) == "" ==> r == "decrypted-file"
  {
    if file.Some? && ReplaceEncSuffix(file.value.name) != "" then ReplaceEncSuffix(file.value.name)
    else "decrypted-file"
  }

  /** The name the encryption view offers for a file with a non-empty name
      comes back to that name here. */
  lemma DecryptedNameOfEncryptedName(original: SelectedFile, encrypted: seq<Byte>)
    requires original.name != ""
    ensures DecryptedFileName(Some(SelectedFile(EncryptView.EncryptedFileName(Some(original)), encrypted))) == original.name
  {
    var n := EncryptView.EncryptedFileName(Some(original));
    assert n == original.name + ".enc";
    assert n[..|n| - 4] == original.name;
  }

  /** Because the dot is not escaped, any character followed by `enc` is
      removed, not only `.enc`; a name that is nothing but such a suffix falls
      back to the default; a line terminator before `enc` does not match. */
  lemma UnescapedDotExamples()
    ensures ReplaceEncSuffix("a.enc") == "a"
    ensures ReplaceEncSuffix("aXenc") == "a"
    ensures ReplaceEncSuffix("report.pdf") == "report.pdf"
    ensures ReplaceEncSuffix("a\nenc") == "a\nenc"
    ensures DecryptedFileName(Some(SelectedFile(".enc", []))) == "decrypted-file"
    ensures DecryptedFileName(Some(SelectedFile("xenc", []))) == "decrypted-file"
  {
    assert EndsWithAnyThenEnc("a.enc") && EndsWithAnyThenEnc("aXenc");
    assert "a.enc"[..1] == "a" && "aXenc"[..1] == "a";
    assert !EndsWithAnyThenEnc("report.pdf");
    assert !EndsWithAnyThenEnc("a\nenc");
    assert EndsWithAnyThenEnc(".enc") && EndsWithAnyThenEnc("xenc");
  }

  class DecryptView {
    var file: Option<SelectedFile>
    var key: string
    var status: Status
    var message: Message
    var downloadUrl: string

    /** Mounting the view: no file, no key, idle. */
    constructor ()
      ensures file == None && key == "" && status == Idle && message == Blank && downloadUrl == ""
    {
      file, key, status, message, downloadUrl := None, "", Idle, Blank, "";
    }

    /** The key input's `onChange`. */
    method SetKey(typed: string)
      modifies this
      ensures key == typed
      ensures file == old(file) && status == old(status) && message == old(message) && downloadUrl == old(downloadUrl)
    {
      key := typed;
    }

    /** `handleFileChange`: whatever the state was, the view takes the new
        file and goes back to idle with no message and no download. */
    method HandleFileChange(selected: Option<SelectedFile>)
      modifies this
      ensures file == selected && status == Idle && message == Blank && downloadUrl == ""
      ensures key == old(key)
    {
      file := selected;
      status := Idle;
      message := Blank;
      downloadUrl := "";
    }

    /** `handleDecrypt` up to the hand-off to the worker: the same ordered
        checks as encryption, each failure ending in `'error'` with nothing
        dispatched; when all pass, `'processing'` with the download link
        cleared and the file and the decoded key sent to the worker. */
    method HandleDecrypt() returns (request: Option<WorkerRequest>)
      modifies this
      ensures file == old(file) && key == old(key)
      ensures request.Some? <==> Gate(file, key).None?
      ensures Gate(file, key).Some? ==>
        status == Error && message == Translated(Gate(file, key).value) && downloadUrl == old(downloadUrl)
      ensures Gate(file, key).None? ==>
        && status == Processing && message == Translated(ProcessingFile) && downloadUrl == ""
        && request == Some(WorkerRequest(file.value.content, DecodeHex(key)))
        && |request.value.keyBytes| == KeyBytes
    {
      if file.None? {
        status := Error;
        message := Translated(ErrorNoFile);
        return None;
      }
      if key == "" {
        status := Error;
        message := Translated(ErrorNoKey);
        return None;
      }
      if !IsKeyFormat(key) {
        status := Error;
        message := Translated(ErrorInvalidKey);
        return None;
      }
      status := Processing;
      message := Translated(ProcessingFile);
      downloadUrl := "";
      var keyBytes := HexToBytes(key);
      AcceptedKeyDecodes(key);
      request := Some(WorkerRequest(file.value.content, keyBytes));
    }

    /** The worker's `onmessage`: success publishes a `blob:` download link;
        failure shows the worker's error, or the generic decryption error
        when it sent none. The file and key are untouched. */
    method OnWorkerReply(reply: WorkerReply, blobHandle: string)
      modifies this
      ensures file == old(file) && key == old(key)
      ensures reply.Succeeded? ==>
        status == Success && message == Translated(StatusSuccessDecrypt) && downloadUrl == ObjectUrl(blobHandle) && downloadUrl != ""
      ensures reply.Failed? ==>
        status == Error && message == FailureMessage(reply.error, ErrorDecryption) && downloadUrl == old(downloadUrl)
    {
      match reply
      case Succeeded(_) =>
        downloadUrl := ObjectUrl(blobHandle);
        status := Success;
        message := Translated(StatusSuccessDecrypt);
      case Failed(error) =>
        status := Error;
        message := FailureMessage(error, ErrorDecryption);
    }

    /** The `catch` of `handleDecrypt`: reading the file or starting the
        worker threw. */
    method OnDispatchFailure()
      modifies this
      ensures status == Error && message == Translated(ErrorDecryption)
      ensures file == old(file) && key == old(key) && downloadUrl == old(downloadUrl)
    {
      status := Error;
      message := Translated(ErrorDecryption);
    }
  }
}
