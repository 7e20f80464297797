/** The encryption view (`client/src/features/encryption/EncryptView.tsx`):
    its state fields, the handlers that update them and the name offered for
    the encrypted download. */
module EncryptView {
  import opened JsBuiltins
  import opened Utils
  import opened ViewState

  /** The name offered for the download: `${file.name}.enc`, or
      `'encrypted-file'` when there is no file or its name is empty. */
  function EncryptedFileName(file: Option<SelectedFile>): (r: string)
    ensures r != ""
    ensures file.Some? && file.value.name != "" ==> |r| == |file.value.name| + 4 && r[..|file.value.name|] == file.value.name && r[|file.value.name|..] == ".enc"
    ensures file.None? || file.value.name == "" ==> r == "encrypted-file"
  {
    if file.Some? && file.value.name != "" then file.value.name + ".enc" else "encrypted-file"
  }

  class EncryptView {
    var file: Option<SelectedFile>
    var key: string
    var status: Status
    var message: Message
    var downloadUrl: string

    /** Mounting the view: everything empty and idle, then the mount effect
        replaces the empty key with the hexadecimal form of a generated random
        key, which passes the key check. */
    constructor (entropy: nat -> Byte)
      ensures file == None && status == Idle && message == Blank && downloadUrl == ""
      ensures key == BytesToHex(seq(KeyBytes, i requires 0 <= i => entropy(i)))
      ensures IsKeyFormat(key)
    {
      file, key, status, message, downloadUrl := None, "", Idle, Blank, "";
      new;
      var generated := GenerateRandomKey(entropy);
      assert generated == seq(KeyBytes, i requires 0 <= i => entropy(i));
      GeneratedKeyAccepted(generated);
      key := BytesToHex(generated);
    }

    /** The key input's `onChange`. */
    method SetKey(typed: string)
      modifies this
      ensures key == typed
      ensures file == old(file) && status == old(status) && message == old(message) && downloadUrl == old(downloadUrl)
    {
      key := typed;
    }

    /** The key input's `onGenerate`: a new random key, which passes the key check. */
    method RegenerateKey(entropy: nat -> Byte)
      modifies this
      ensures key == BytesToHex(seq(KeyBytes, i requires 0 <= i => entropy(i)))
      ensures IsKeyFormat(key)
      ensures file == old(file) && status == old(status) && message == old(message) && downloadUrl == old(downloadUrl)
    {
      var generated := GenerateRandomKey(entropy);
      assert generated == seq(KeyBytes, i requires 0 <= i => entropy(i));
      GeneratedKeyAccepted(generated);
      key := BytesToHex(generated);
    }

    /** `handleFileChange`: whatever the state was, the view takes the new
        file and goes back to idle with no message and no download. */
    method HandleFileChange(selected: Option<SelectedFile>)
      modifies this
      ensures file == selected && status == Idle && message == Blank && downloadUrl == ""
      ensures key == old(key)
    {
      file := selected;
      status := Idle;
      message := Blank;
      downloadUrl := "";
    }

    /** `handleEncrypt` up to the hand-off to the worker. The first failing
        check (no file, then empty key, then malformed key) ends it in
        `'error'` with that check's message and nothing dispatched; when all
        pass, the view is `'processing'` with its download link cleared and
        the file and the decoded key go to the worker. */
    method HandleEncrypt() returns (request: Option<WorkerRequest>)
      modifies this
      ensures file == old(file) && key == old(key)
      ensures request.Some? <==> Gate(file, key).None?
      ensures Gate(file, key).Some? ==>
        status == Error && message == Translated(Gate(file, key).value) && downloadUrl == old(downloadUrl)
      ensures Gate(file, key).None? ==>
        && status == Processing && message == Translated(ProcessingFile) && downloadUrl == ""
        && request == Some(WorkerRequest(file.value.content, DecodeHex(key)))
        && |request.value.keyBytes| == KeyBytes
    {
      if file.None? {
        status := Error;
        message := Translated(ErrorNoFile);
        return None;
      }
      if key == "" {
        status := Error;
        message := Translated(ErrorNoKey);
        return None;
      }
      if !IsKeyFormat(key) {
        status := Error;
        message := Translated(ErrorInvalidKey);
        return None;
      }
      status := Processing;
      message := Translated(ProcessingFile);
      downloadUrl := "";
      var keyBytes := HexToBytes(key);
      AcceptedKeyDecodes(key);
      request := Some(WorkerRequest(file.value.content, keyBytes));
    }

    /** The worker's `onmessage`: success publishes a `blob:` download link;
        failure shows the worker's error, or the generic encryption error
        when it sent none. The file and key are untouched. */
    method OnWorkerReply(reply: WorkerReply, blobHandle: string)
      modifies this
      ensures file == old(file) && key == old(key)
      ensures reply.Succeeded? ==>
        status == Success && message == Translated(StatusSuccessEncrypt) && downloadUrl == ObjectUrl(blobHandle) && downloadUrl != ""
      ensures reply.Failed? ==>
        status == Error && message == FailureMessage(reply.error, ErrorEncryption) && downloadUrl == old(downloadUrl)
    {
      match reply
      case Succeeded(_) =>
        downloadUrl := ObjectUrl(blobHandle);
        status := Success;
        message := Translated(StatusSuccessEncrypt);
      case Failed(error) =>
        status := Error;
        message := FailureMessage(error, ErrorEncryption);
    }

    /** The `catch` of `handleEncrypt`: reading the file or starting the
        worker threw. */
    method OnDispatchFailure()
      modifies this
      ensures status == Error && message == Translated(ErrorEncryption)
      ensures file == old(file) && key == old(key) && downloadUrl == old(downloadUrl)
    {
      status := Error;
      message := Translated(ErrorEncryption);
    }
  }
}
