/** What the encryption view and the decryption view share: the status and
    message they show, the ordered checks `handleEncrypt` and `handleDecrypt`
    run before any work is dispatched, the request sent to the background
    worker and the reply it sends back. */
module ViewState {
  import opened JsBuiltins
  import opened Utils

  /** The `status` state of a view. */
  datatype Status = Idle | Processing | Success | Error

  /** The translation keys the views pass to `t(...)`. */
  datatype TextKey =
    | ErrorNoFile | ErrorNoKey | ErrorInvalidKey | ProcessingFile
    | StatusSuccessEncrypt | StatusSuccessDecrypt | ErrorEncryption | ErrorDecryption

  /** The `message` state: the empty string, a translated text, or a text
      taken verbatim from the worker's reply. */
  datatype Message = Blank | Translated(key: TextKey) | Verbatim(text: string)

  /** The file the user picked: its name and its bytes. */
  datatype SelectedFile = SelectedFile(name: string, content: seq<Byte>)

  /** What the view posts to the worker: `{ fileBuffer, keyBytes }`. */
  datatype WorkerRequest = WorkerRequest(fileBuffer: seq<Byte>, keyBytes: seq<Number>)

  /** What the worker posts back: `{ success: true, data }` or
      `{ success: false, error }` (an absent error is the empty string). */
  datatype WorkerReply = Succeeded(data: seq<Byte>) | Failed(error: string)

  /** `/^[0-9a-fA-F]{32}$/.test(key)`: exactly 32 characters, each a
      hexadecimal digit of either case. */
  function IsKeyFormat(key: string): (ok: bool)
    ensures ok <==> |key| == 32 && forall i :: 0 <= i < |key| ==> InHexClass(key[i])
  {
    HexClassIsHexDigit(key);
    |key| == 2 * KeyBytes && forall i :: 0 <= i < |key| ==> IsHexDigit(key[i])
  }

  /** The character class `[0-9a-fA-F]`. */
  predicate InHexClass(c: char) {
    '0' <= c <= '9' || 'a' <= c <= 'f' || 'A' <= c <= 'F'
  }

  lemma HexClassIsHexDigit(key: string)
    ensures forall i :: 0 <= i < |key| ==> (InHexClass(key[i]) <==> IsHexDigit(key[i]))
  {
  }

  /** The checks at the top of `handleEncrypt` / `handleDecrypt`, in their
      order: the translation key of the first one that fails, or None when
      the request may go ahead. */
  function Gate(file: Option<SelectedFile>, key: string): (r: Option<TextKey>)
    ensures r == None <==> file.Some? && IsKeyFormat(key)
    ensures r == Some(ErrorNoFile) <==> file.None?
    ensures r == Some(ErrorNoKey) <==> file.Some? && key == ""
    ensures r == Some(ErrorInvalidKey) <==> file.Some? && key != "" && !IsKeyFormat(key)
  {
    if file.None? then Some(ErrorNoFile)
    else if key == "" then Some(ErrorNoKey)
    else if !IsKeyFormat(key) then Some(ErrorInvalidKey)
    else None
  }

  /** `error || t(fallback)`: the worker's text when it is non-empty,
      otherwise the translated fallback. */
  function FailureMessage(error: string, fallback: TextKey): (m: Message)
    ensures m.Verbatim? <==> error != ""
    ensures m.Verbatim? ==> m.text == error
    ensures m.Translated? ==> m.key == fallback
    ensures error == "" ==> m == Translated(fallback)
  {
    if error != "" then Verbatim(error) else Translated(fallback)
  }

  /** `URL.createObjectURL(blob)`: a `blob:` URL naming the blob; the part
      after the scheme is chosen by the browser and is a parameter here. */
  function ObjectUrl(handle: string): (url: string)
    ensures |url| >= 5 && url[..5] == "blob:"
  {
    "blob:" + handle
  }

  /** A key generated as 16 random bytes and shown as hexadecimal always
      passes the key check. */
  lemma GeneratedKeyAccepted(key: seq<Byte>)
    requires |key| == KeyBytes
    ensures IsKeyFormat(BytesToHex(key))
  {
    BytesToHexDigits(key);
  }

  /** A key that passes the check decodes to exactly 16 numbers, each a byte. */
  lemma AcceptedKeyDecodes(key: string)
    requires IsKeyFormat(key)
    ensures |DecodeHex(key)| == KeyBytes
    ensures forall i :: 0 <= i < KeyBytes ==> DecodeHex(key)[i].Num? && 0 <= DecodeHex(key)[i].value < 256
  {
    EncodeOfDecode(key);
  }
}
