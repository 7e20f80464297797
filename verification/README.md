# AES cipher app: a Dafny model of its sequential core

This project models the logic that surrounds the block cipher in the AES
cipher web application. It covers five parts.

- **Client key codec** (`client/src/lib/utils.ts`). `generateRandomKey` makes a
  16-byte key. `bytesToHex` encodes it as base16 text (section 8 of RFC 4648).
  `hexToBytes` reads text back two characters at a time with `parseInt(…, 16)`.
- **Encryption and decryption views**. Their state is `file`, `key`, `status`,
  `message` and `downloadUrl`. The handlers check the inputs in a fixed order,
  reset the state on file change and react to the worker's reply. Each view
  also computes the name offered for the download.
- **Operation history panel**. It keeps a newest-first list of at most ten
  operations, shows a relative time for each one, and renders nothing while
  the list is empty.
- **File summary card**. It derives the file type from the name and shows a
  status label.
- **Server `POST /encrypt` handler**. It decides the status code (400, 400, 200
  or 500) and deletes the temporary upload. It writes the artifact
  `salt(16) ‖ iv(16) ‖ ciphertext` and derives the upload, output and
  download names.

## Layout

- `JsBuiltins.dfy` holds the JavaScript built-ins the core relies on:
  - `Number#toString(radix)` and `padStart`;
  - `parseInt(s, 16)`, with its whitespace trimming, sign, `0x` prefix,
    longest-digit-run rule and `NaN`;
  - `split` on one character, and ASCII `toUpperCase`.
- `Utils.dfy` models `utils.ts`.
- `ViewState.dfy` holds what both views share: the status, the message, the
  ordered input checks, and the worker request and reply.
- `EncryptView.dfy` and `DecryptView.dfy` model the two views. Each view is a
  class whose methods update the fields the way the React state setters do.
- `OperationHistory.dfy` models the history panel. The list and the open flag
  are fields of a class.
- `FileStats.dfy` models the file summary card.
- `EncryptionRouter.dfy` models the server handler. The filesystem is a class
  holding a map from paths to contents. Node's crypto appears only as function
  values with a length contract.

Everything outside the program comes in as a parameter:

- the random source, as the i-th draw;
- the clock readings;
- the handle `URL.createObjectURL` picks;
- the worker's reply;
- the salt, IV, scrypt and cipher of Node's crypto;
- the point where the handler's `try` block throws, if it does.

## Model

| member | source | states |
|---|---|---|
| JsBuiltins.ToRadixString | client/src/lib/utils.ts:16 | `n.toString(radix)` is non-empty, every character is a digit of the radix, it is one character exactly when `n < radix`, it has no leading zero when `n >= 1`, and its letters are lower case |
| JsBuiltins.RadixValueOfToRadixString | client/src/lib/utils.ts:16 | reading the digits of `n.toString(radix)` back gives `n` |
| JsBuiltins.DecimalString | client/src/components/OperationHistory.tsx:148 | `n.toString()` is non-empty, made of decimal digits that read back as `n`, with no leading zero when `n >= 1` |
| JsBuiltins.DecimalStringInjective | client/src/components/OperationHistory.tsx:148 | two numbers have the same decimal text exactly when they are equal |
| JsBuiltins.PadStart | client/src/lib/utils.ts:16 | `padStart(width, fill)` keeps the string as its suffix, reaches at least `width` characters and puts only `fill` in front |
| JsBuiltins.TrimStart | client/src/lib/utils.ts:22 | the leading-whitespace trim `parseInt` applies yields a suffix that does not start with whitespace |
| JsBuiltins.LeadingDigits | client/src/lib/utils.ts:22 | the digit run `parseInt` consumes is the longest prefix of radix digits |
| JsBuiltins.ParseTwoHexDigits | client/src/lib/utils.ts:22 | `parseInt` of two hex digits (either case) is `16·high + low` |
| JsBuiltins.ParseIntHex | client/src/lib/utils.ts:22 | `parseInt(s, 16)` is NaN for a blank string and for one whose first non-blank character is neither a sign nor a hex digit; a negative result needs a leading `-`; a string starting with a hex digit (and no `0x` prefix) gives a number at least that digit's value |
| JsBuiltins.Split | client/src/components/FileStats.tsx:20 | `split(sep)` always returns at least one part |
| JsBuiltins.SplitPartsFree | client/src/components/FileStats.tsx:20 | no part of `split(sep)` contains the separator |
| JsBuiltins.SplitJoin | client/src/components/FileStats.tsx:20 | joining the parts of `split(sep)` with `sep` gives back the string |
| JsBuiltins.SplitCount | client/src/components/FileStats.tsx:20-21 | `split(sep)` has one more part than the string has separators |
| JsBuiltins.ToUpperAscii | client/src/components/FileStats.tsx:21 | `toUpperCase` keeps the length, turns every `a`–`z` into its capital and leaves every other character unchanged |
| Utils.GenerateRandomKey | client/src/lib/utils.ts:9-13 | the key has exactly 16 entries, each a byte, and slot i holds the i-th random draw |
| Utils.ByteToHex | client/src/lib/utils.ts:16 | a byte is written as two hex digits, neither upper case, whose values are its high and low nibbles |
| Utils.ByteToHexIsPaddedToString | client/src/lib/utils.ts:16 | `byte.toString(16).padStart(2, '0')` is the two-digit form, high nibble first |
| Utils.BytesToHex | client/src/lib/utils.ts:15-17 | the output has two characters per byte |
| Utils.BytesToHexAt | client/src/lib/utils.ts:16 | characters 2i and 2i+1 are the high and low hex digits of byte i, so order is preserved |
| Utils.BytesToHexDigits | client/src/lib/utils.ts:15-17 | every output character is a lower-case hexadecimal digit |
| Utils.SubstrPair | client/src/lib/utils.ts:22 | `substr(i, 2)` within the string is the two characters at i and i+1 |
| Utils.Substr | client/src/lib/utils.ts:22 | `substr(start, length)` is the slice at `start` of the requested length, cut short at the end of the string |
| Utils.DecodeHex | client/src/lib/utils.ts:19-25 | the result has ⌈len/2⌉ entries, and the empty string gives the empty list |
| Utils.HexToBytes | client/src/lib/utils.ts:19-25 | the loop pushes, for each even offset, `parseInt` of the two characters there; the result equals `DecodeHex` |
| Utils.ParseByteToHex | client/src/lib/utils.ts:16-22 | parsing the two-digit form of a byte gives the byte back |
| Utils.DecodeOfEncode | client/src/lib/utils.ts:15-25 | `hexToBytes(bytesToHex(b)) == b` for every byte sequence |
| Utils.LowerHex | client/src/lib/utils.ts:15-25 | reference definition for the decode-then-encode round trip: same length, each digit keeps its value and is not upper case, and digits that are not upper case are unchanged |
| Utils.PairValue | client/src/lib/utils.ts:22 | the byte two hex digits denote has the first as high nibble and the second as low nibble |
| Utils.EncodeOfDecode | client/src/lib/utils.ts:15-25 | for an even-length string of hex digits of either case, decoding gives bytes, and re-encoding them gives the string lower-cased |
| ViewState.Gate | client/src/features/encryption/EncryptView.tsx:31-45 | the first failing check wins, in order: no file, then empty key, then a key that is not 32 hex digits; the request passes exactly when there is a file and a well-formed key |
| ViewState.IsKeyFormat | client/src/features/encryption/EncryptView.tsx:41 | `/^[0-9a-fA-F]{32}$/` accepts a key exactly when it has 32 characters, each in `0-9`, `a-f` or `A-F` |
| ViewState.FailureMessage | client/src/features/encryption/EncryptView.tsx:67 | the worker's error text is shown exactly when it is non-empty, otherwise the translated fallback |
| ViewState.ObjectUrl | client/src/features/encryption/EncryptView.tsx:62 | an object URL is non-empty and starts with `blob:` |
| ViewState.GeneratedKeyAccepted | client/src/features/encryption/EncryptView.tsx:41 | the hex form of any 16-byte key passes the key check |
| ViewState.AcceptedKeyDecodes | client/src/features/encryption/EncryptView.tsx:41-53 | a key that passes the check decodes to exactly 16 numbers, each in 0..255 |
| EncryptView.EncryptedFileName | client/src/features/encryption/EncryptView.tsx:100 | the download name is the file name followed by `.enc`, or `encrypted-file` when there is no file or the name is empty |
| EncryptView.EncryptView.constructor | client/src/features/encryption/EncryptView.tsx:13-21 | the view starts idle with no file, no message and no link, and the mount effect sets a generated key that passes the key check |
| EncryptView.EncryptView.SetKey | client/src/features/encryption/EncryptView.tsx:90 | typing replaces the key and nothing else |
| EncryptView.EncryptView.RegenerateKey | client/src/features/encryption/EncryptView.tsx:91 | the regenerated key is the hex form of 16 fresh draws and passes the key check; nothing else changes |
| EncryptView.EncryptView.HandleFileChange | client/src/features/encryption/EncryptView.tsx:23-28 | from any state: the new file, status idle, no message, no link, and the key kept |
| EncryptView.EncryptView.HandleEncrypt | client/src/features/encryption/EncryptView.tsx:30-53 | a failing check sets error with that check's message, keeps the link and dispatches nothing; when all pass, processing with the link cleared, and the file bytes and the 16 decoded key values go to the worker |
| EncryptView.EncryptView.OnWorkerReply | client/src/features/encryption/EncryptView.tsx:58-68 | success sets status success, the success message and a non-empty `blob:` link; failure sets error with the worker's text, or the encryption error when that is empty |
| EncryptView.EncryptView.OnDispatchFailure | client/src/features/encryption/EncryptView.tsx:74-78 | a throw before the hand-off sets error with the encryption error message |
| DecryptView.ReplaceEncSuffix | client/src/features/decryption/DecryptView.tsx:94 | `replace(/.enc$/, '')` removes exactly the last four characters when they are a non-line-terminator followed by `enc`, and otherwise changes nothing; at most four characters go |
| DecryptView.DecryptedFileName | client/src/features/decryption/DecryptView.tsx:94 | the download name is the stripped name, or `decrypted-file` when that is empty or there is no file |
| DecryptView.DecryptedNameOfEncryptedName | client/src/features/decryption/DecryptView.tsx:94 | the decryption view offers the original name for the file the encryption view named |
| DecryptView.UnescapedDotExamples | client/src/features/decryption/DecryptView.tsx:94 | the cases of the unescaped dot: `a.enc` and `aXenc` both become `a`; `report.pdf` and `a\nenc` stay; `.enc` and `xenc` fall back to `decrypted-file` |
| DecryptView.DecryptView.constructor | client/src/features/decryption/DecryptView.tsx:13-17 | the view starts idle with no file, no key, no message and no link |
| DecryptView.DecryptView.SetKey | client/src/features/decryption/DecryptView.tsx:85 | typing replaces the key and nothing else |
| DecryptView.DecryptView.HandleFileChange | client/src/features/decryption/DecryptView.tsx:19-24 | from any state: the new file, status idle, no message, no link |
| DecryptView.DecryptView.HandleDecrypt | client/src/features/decryption/DecryptView.tsx:26-49 | the same ordered checks as encryption, each failure ending in error with nothing dispatched; otherwise processing with the link cleared and the request sent |
| DecryptView.DecryptView.OnWorkerReply | client/src/features/decryption/DecryptView.tsx:53-63 | success sets status success, the decryption success message and a `blob:` link; failure sets error with the worker's text, or the decryption error |
| DecryptView.DecryptView.OnDispatchFailure | client/src/features/decryption/DecryptView.tsx:69-73 | a throw before the hand-off sets error with the decryption error message |
| FileStats.SplitLast | client/src/components/FileStats.tsx:20-21 | the last part of `split('.')` is the text after the last dot, or the whole name when there is no dot |
| FileStats.FileExtension | client/src/components/FileStats.tsx:19-22 | a name without a dot gives `N/A`; otherwise the upper-cased text after a dot that ends the name's last dot-free stretch; the result has no dot |
| FileStats.ExtensionFollowsLastDot | client/src/components/FileStats.tsx:20-21 | the dot before the extension is the name's last dot |
| FileStats.LeadingDotExtension | client/src/components/FileStats.tsx:20-21 | a leading-dot name such as `.env` gives the rest upper-cased |
| FileStats.TrailingDotExtension | client/src/components/FileStats.tsx:20-21 | a name ending in a dot gives the empty type, not `N/A` |
| FileStats.StatusLabel | client/src/components/FileStats.tsx:55 | the label is `Encrypted` exactly when `encrypted` is true, else `Ready`; an absent prop counts as false |
| OperationHistory.Prepended | client/src/components/OperationHistory.tsx:32 | the new operation comes first, each kept older entry moves one place later, and the length is min(old + 1, 10) |
| OperationHistory.PrependedToFull | client/src/components/OperationHistory.tsx:32 | adding to a full list drops exactly its last, oldest entry |
| OperationHistory.ReplayKeepsNewest | client/src/components/OperationHistory.tsx:32 | after any sequence of additions to an empty list, the list holds the newest ten (or fewer) operations, newest first |
| OperationHistory.NewOperation | client/src/components/OperationHistory.tsx:146-152 | the record's type and file name are the arguments, its timestamp is the second clock reading, and its id is the decimal text of the first |
| OperationHistory.NewOperationIdsDistinct | client/src/components/OperationHistory.tsx:148 | two records have the same id exactly when their id clock readings are equal |
| OperationHistory.ElapsedSince | client/src/components/OperationHistory.tsx:44-52 | under one minute (negatives included) is just now, then minutes below an hour, hours below a day, then days; each count is the floor quotient |
| OperationHistory.ElapsedMonotone | client/src/components/OperationHistory.tsx:49-52 | a larger difference never shows a smaller unit, nor a smaller count in the same unit |
| OperationHistory.FormatTime | client/src/components/OperationHistory.tsx:42-53 | below one minute (negatives included) `Just now`; below an hour `<⌊d/60000⌋>m ago`; below a day `<⌊d/3600000⌋>h ago`; otherwise `<⌊d/86400000⌋>d ago` |
| OperationHistory.JustNowIff | client/src/components/OperationHistory.tsx:49 | `Just now` is shown exactly when the difference is below 60000 ms |
| OperationHistory.History.constructor | client/src/components/OperationHistory.tsx:14-15 | the panel starts with an empty list, closed |
| OperationHistory.History.Add | client/src/components/OperationHistory.tsx:29-35 | the list becomes the prepended list, so it never exceeds ten entries; the open flag is kept |
| OperationHistory.History.Clear | client/src/components/OperationHistory.tsx:55-58 | the list becomes empty |
| OperationHistory.History.Toggle | client/src/components/OperationHistory.tsx:67 | the open flag flips and the list is kept |
| OperationHistory.History.Render | client/src/components/OperationHistory.tsx:60-131 | nothing is rendered exactly when the list is empty; when open, one row per operation in list order, with its badge, file name and relative time |
| OperationHistory.EntryRow | client/src/components/OperationHistory.tsx:97-136 | a row shows `Encrypted` exactly for an encryption and `Decrypted` exactly for a decryption, the operation's file name, and its relative time |
| EncryptionRouter.PaddedLength | server/encryption.router.ts:63 | CBC output length with standard padding is a whole number of blocks, longer than the input by 1 to 16 bytes |
| EncryptionRouter.StoredName | server/encryption.router.ts:20 | the stored upload name is the timestamp's decimal digits, then a dash, then the original name |
| EncryptionRouter.StoredNameInjective | server/encryption.router.ts:20 | two uploads get the same stored name exactly when they arrive in the same millisecond under the same original name |
| EncryptionRouter.EncryptedName | server/encryption.router.ts:53 | the artifact name is the stored name followed by `.enc` |
| EncryptionRouter.TempPath | server/encryption.router.ts:13-20 | an upload is kept at the working directory, then `/data/temp/`, then its stored name |
| EncryptionRouter.OutputPath | server/encryption.router.ts:54 | the artifact is written at the working directory, then `/data/uploads/`, then its name |
| EncryptionRouter.DownloadUrl | server/encryption.router.ts:70 | the link is `/api/downloads/` followed by the artifact name |
| EncryptionRouter.Upload | server/encryption.router.ts:11-21 | multer keeps the original name and stores the upload under the timestamped name in `data/temp` under the working directory |
| EncryptionRouter.DistinctUploadsDistinctFiles | server/encryption.router.ts:20-70 | two uploads share a temporary path, an artifact path or a download link exactly when they have the same arrival time and original name |
| EncryptionRouter.UploadAndOutputDiffer | server/encryption.router.ts:13-54 | an upload's temporary path is never the path of the artifact made from it |
| EncryptionRouter.Artifact | server/encryption.router.ts:44-63 | the artifact is the 16-byte salt, then the 16-byte IV, then the cipher output |
| EncryptionRouter.ArtifactLength | server/encryption.router.ts:44-63 | given the cipher's length contract, an artifact is 32 bytes plus the padded input length, so it is always longer than 32 bytes |
| EncryptionRouter.FileSystem.Unlink | server/encryption.router.ts:37 | `unlinkSync` removes exactly the path, which must exist |
| EncryptionRouter.FileSystem.Exists | server/encryption.router.ts:76 | `existsSync` answers whether the path is present |
| EncryptionRouter.FileSystem.Store | server/encryption.router.ts:57-63 | closing the write stream leaves exactly the written bytes at the path and changes no other path |
| EncryptionRouter.HasPassword | server/encryption.router.ts:36 | the password counts as given exactly when it is present and not empty, so a missing or empty password is refused |
| EncryptionRouter.HandleEncrypt | server/encryption.router.ts:31-82 | no file: 400 and no change. No password: the upload is deleted, then 400. Success: the artifact is written under `<stored name>.enc` in `data/uploads`, the upload is deleted, and the answer is 200 with `/api/downloads/<stored name>.enc`. A throw: 500, with the upload deleted and any partial artifact left. Whenever a file came, its temporary path is gone at the end; no other path changes |

## Left out

- The AES engine in `@/lib/aes` and the two Web Workers that call it are not part of this model. The worker's reply is an input to `OnWorkerReply`.
- Node's `crypto` is foreign. `scryptSync` gives a 32-byte key, by its type `DerivedKey`. The AES-256-CBC stream is a function whose output length is the padded input length. `randomBytes(16)` draws are the `salt` and `iv` parameters. The cipher's contents are not modelled.
- Several inputs are parameters and are not modelled:
  - the browser's `crypto.getRandomValues`;
  - `Date.now()`;
  - the handle `URL.createObjectURL` chooses;
  - `process.cwd()`.
- Reading the file's bytes (`file.arrayBuffer()`) is not modelled: a selected file carries its content.
- The OperationHistory load from localStorage, its save and its `window` event wiring are left out. So is the `new-operation` event dispatch of `addOperationToHistory`. The model keeps the list update and the record construction.
- Translation (`t(...)`) is left out. Messages are their translation keys.
- Animation, icons, styling and the `cn` helper are left out.
- `formatBytes` and `estimateEncryptionTime` are left out because they use floating-point `Math.log` and rounding.
- multer's limits and its creation of the temporary directory are left out. So are Express routing and how the JSON response is sent. The response is a status, a message and an optional link.
- `console.error` logging is left out.
- EncryptionRouter.HandleEncrypt models the pipeline failure as a prefix of the artifact of some length reaching the disk. Which prefix remains after a real stream error is not known, so the contract does not pin it.
- EncryptionRouter.HandleEncrypt requires the uploaded file to exist. If it does not, `unlinkSync` throws on the no-password path, outside any `try`, and that throw is not modelled. With a password given, a missing upload makes `createReadStream` fail, `existsSync` is false, and the source answers 500; that case is excluded too.
- EncryptionRouter.HandleEncrypt treats the artifact write and the upload removal as single steps. The stream internals are not modelled.
- `path.join` normalisation is not modelled. Paths are joined with `/`, which on POSIX differs only for a working directory ending in a separator. This rests on multer passing only the base name of the upload (its default `preservePath: false`); a name with `/..` segments would be normalised by `path.join`, and EncryptionRouter.DistinctUploadsDistinctFiles would then not describe the program.
- JsBuiltins.ToUpperAscii: only ASCII letters are capitalised. JavaScript's full Unicode case mapping, such as `ß` to `SS` or accented letters, is not modelled.
- Strings are sequences of Dafny characters, not UTF-16 code units. Names with characters outside the Basic Multilingual Plane may differ in length.
- JsBuiltins.ParseIntHex does not distinguish `-0` from `0`.
- JavaScript numbers are modelled as unbounded integers. The model ignores that integers above 2^53 lose precision, that `toString` switches to exponent form from 10^21, and that `Math.floor(diff / 60000)` works on floating-point values. These only matter for timestamps and differences far beyond any real clock reading.
- DecryptView.ReplaceEncSuffix treats a character outside the Basic Multilingual Plane as one character. In JavaScript, the regular expression's `.` matches one UTF-16 code unit. So `😀enc` becomes a lone surrogate in JavaScript, but the model leaves nothing and falls back to `decrypted-file`.
- Utils.BytesToHex takes only values 0..255, which is what `generateRandomKey` produces. Out-of-range numbers, which JavaScript would print with more digits or a sign, are not modelled.
