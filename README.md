# Upload service: admission and naming of uploaded images

This project models the core of a small HTTP image-upload service (`app.py`) in
Dafny and proves properties of it. The service has one endpoint, `POST /upload`.
It takes a JSON body `{filename, data_url, registro?, ponto?}`, where `registro`
is a record number and `ponto` is a slot number. It does the following:

1. Admits the `data:<mime>;base64,<payload>` string (`parse_data_url`). This
   checks the shape, the MIME allowlist (`image/jpeg`, `image/png` and
   `image/webp`), the base64 payload and the 25 MiB size limit.
2. Resolves `registro` and `ponto`. Explicit fields win. A missing field is
   filled from a client filename of the form `<registro>-<ponto>.<ext>`, which
   is matched on its lower-cased basename.
3. Chooses a target:
   - with a record: directory and name prefix `str(registro)`;
   - without one: the `misc` directory and a random 8-hex-digit prefix.
4. Creates the directory and checks the slot.
5. Picks a name that does not exist yet:
   - the requested slot's name when no file has it;
   - otherwise the first free `prefix-n.ext` found by `next_sequential_name`,
     which probes with exclusive creates.
6. Writes the bytes and answers with the link, MIME type, size, record, slot
   and relative path.

Each module follows one part of the program:

- `Wrappers`: `Option` and `Result`.
- `Text`: first-occurrence search and ASCII lower-casing.
- `Decimal`: `str(n)` and `int(digits)`.
- `Base64`: the alphabet, encoding, and `b64decode(..., validate=True)` in
  strict mode, as CPython releases with the excess-padding check run it
  (3.12.13, for example).
- `Errors`: the HTTP errors with their status codes and messages.
- `DataUrl`: `DATA_URL_RE`, `ALLOWED_MIMES`, `MAX_SIZE_MB` and `parse_data_url`.
- `Identifiers`: `os.path.basename`, `FILENAME_RE`, record and slot resolution,
  and the storage target.
- `Storage`: the on-disk tree as the `FileStore` class, the
  `os.makedirs`/`open("xb")`/`open("wb")` primitives, and `next_sequential_name`
  as a loop.
- `Upload`: the handler. It is a module-level method that takes the
  `FileStore` and is proved equal to the reference function `UploadSpec`.
  Properties of the whole request are proved about that function.

The handler is split the way its code runs:

- `ParseDataUrl` models line 69.
- `Admit` models lines 70-95. It covers identifier resolution, the target, and
  the record and slot checks. It also notes whether `os.makedirs` already ran
  before a rejection.
- `Apply` models placement, the write and the response.
- The method `Upload` parses and then calls `Store`, which changes the
  `FileStore` step by step: `MakeDirs`, `PlaceName` (the existence check, then
  `NextSequentialName` with its exclusive creates), and `WriteFile`.

Some behaviours of the code are easy to miss. The model keeps each of them:

- **Base64 strictness.** From Python 3.11 on, `base64.b64decode(..., validate=True)`
  is `binascii.a2b_base64(..., strict_mode=True)`. In the releases that also
  reject `=` after complete quanta ("Excess padding not allowed"), such as
  3.12.13, the payload must be alphabet characters followed by exactly the
  `=` its final group needs, so `=` alone, `==` alone, `QUJD=` and `QUI==`
  are all rejected. The model follows those releases. The unused
  low bits of the final group are not checked, so `QR==` decodes like `QQ==`.
  RFC 4648 (section 3.5) lets a decoder reject non-zero unused bits; this
  one does not. So re-encoding the stored bytes gives back the payload
  exactly when those bits are zero, and `QR==` comes back as `QQ==`.
  An accepted payload always yields at least one byte.
- **The requested slot.** When the requested slot's name is free, it is
  checked with `os.path.exists` and is not reserved by an exclusive create.
  Only the sequential search uses exclusive creates.
- **A rejected slot.** A negative `ponto` is rejected after `os.makedirs` has
  run. Such a rejection can leave an empty directory behind.
- **The public path.** It is `/imagens/...`, and the base URL is the
  `BASE_URL` setting.

## Model

| member | source | states |
|---|---|---|
| Text.Lower | app.py:76 | lower-casing keeps the length and maps each character through ASCII lower-casing |
| Decimal.NatToString | app.py:90-92 | `str(n)` is non-empty, all digits, and has no leading zero unless `n == 0` |
| Decimal.ParseDigits | app.py:79-81 | `int(s)` of a digit string is 0 exactly when every digit is `0` |
| Decimal.ParseNatToString | app.py:79-81 | `int(str(n)) == n` |
| Decimal.NatToStringInjective | app.py:90-92 | distinct records get distinct directory names and prefixes |
| Decimal.ParsePositive | app.py:79-81 | digits without a leading zero denote a positive number |
| Decimal.NatToStringParse | app.py:79-81 | `str(int(s)) == s` for every canonical digit string |
| Decimal.ParseLeadingZero | app.py:79-81 | `int` ignores leading zeros, so `007` and `7` name the same record |
| Base64.IndexToChar | app.py:45 | every 6-bit value encodes to a character of the base64 alphabet |
| Base64.CharToIndex | app.py:45 | every alphabet character decodes to a 6-bit value that encodes back to it |
| Base64.IndexRoundTrip | app.py:45 | decoding the encoding of a 6-bit value gives it back |
| Base64.DecodeData | app.py:45 | the data characters give three bytes per full quantum and one or two for a final group of two or three |
| Base64.EncodeData | app.py:45 | the encoding uses only the alphabet, and its length mod 4 is fixed by the byte count mod 3 |
| Base64.TripleRoundTrip | app.py:45 | one full quantum decodes back to its three bytes |
| Base64.DecodeEncodeData | app.py:45 | the data characters of any byte string decode back to it |
| Base64.DecodeDataStep | app.py:45 | decoding proceeds one 4-character quantum at a time |
| Base64.DecodeEncode | app.py:44-47 | round trip: `b64decode(b64encode(b)) == b` for every byte string |
| Base64.TrailingPads | app.py:45 | counts exactly the maximal run of `=` that ends the text |
| Base64.Decode | app.py:44-47 | an accepted input is a whole number of quanta with at most two `=`, and yields three bytes per quantum less one per `=` |
| Base64.RejectsForeignChar | app.py:44-47 | a character outside the alphabet that is not `=` makes the decoder fail |
| Base64.RejectsInnerPadding | app.py:44-47 | `=` followed later by a data character makes the decoder fail |
| Base64.RejectsLoneSextet | app.py:44-47 | a data length of 1 mod 4 fails whatever `=` follow |
| Base64.RejectsWrongPadding | app.py:44-47 | padding other than what the final group needs fails: missing `=`, `=` after complete quanta (`QUJD=`), or extra `=` (`QUI==`, `QQ===`) |
| Base64.AcceptsExactPadding | app.py:44-47 | data characters followed by exactly the padding they need are accepted and decode to their data |
| Base64.RejectsLeadingPadding | app.py:44-47 | input that starts with `=`, including `=` and `==` alone, fails |
| Base64.IgnoresLowBits | app.py:45 | the unused low bits are not checked: `QR==` and `QQ==` both decode to the byte 65, which re-encodes as `QQ==`, so `QR==` does not survive a round trip |
| Base64.QuadRoundTrip | app.py:45 | the three bytes of any quantum re-encode to that quantum |
| Base64.FinalGroupRoundTrip | app.py:45 | a final group of two or three characters whose unused low bits are zero re-encodes to itself |
| Base64.EncodeDecodeData | app.py:45 | data characters whose unused low bits are zero re-encode to themselves |
| Base64.EncodeDecodeStep | app.py:45 | the reverse round trip proceeds one 4-character quantum at a time |
| Base64.EncodeDataZeroLowBits | app.py:45 | every encoding has the unused low bits of its final group zero |
| Base64.AcceptedShape | app.py:44-47 | an accepted input is its data characters followed by exactly the padding `b64encode` gives their decoding |
| Base64.EncodeDecode | app.py:44-47 | reverse round trip: re-encoding the bytes of an accepted payload gives it back exactly when its unused low bits are zero |
| Errors.UploadError.Status | app.py:39-49 | 413 exactly for an oversized payload, 400 for every other rejection |
| Errors.UploadError.Detail | app.py:43 | the message for a disallowed MIME type ends with that MIME type |
| DataUrl.ExtensionIsPlain | app.py:14 | every stored extension is lower-case ASCII letters |
| DataUrl.MatchDataUrl | app.py:13 | a match has a MIME token of `[\w\-\.+/]`, a non-empty payload without newlines, and the string is exactly `data:` + MIME + `;base64,` + payload |
| DataUrl.MatchDataUrlComplete | app.py:13 | every string of that shape matches, with its own MIME type and payload as the groups |
| DataUrl.ParseDataUrl | app.py:36-50 | fails with "invalid data URL" exactly when the pattern does not match; on success the MIME type is allowed, the bytes are the decoding of the payload, and there are 1 to 25 MiB of them |
| DataUrl.ParseWellShaped | app.py:36-50 | for a well-shaped string, the checks run in source order (MIME, base64, size), each with its own error |
| DataUrl.MatchHasMarker | app.py:13 | a matching string holds `;base64,` right after its MIME type |
| DataUrl.MissingMarkerRejected | app.py:37-39 | a string without `;base64,` is an invalid data URL |
| DataUrl.DisallowedMimeRejected | app.py:42-43 | a MIME type outside the allowlist is rejected with status 400 and named in the error |
| DataUrl.GifRejected | app.py:42-43 | `image/gif` is rejected |
| DataUrl.EncodeIsPayloadText | app.py:13 | a non-empty base64 encoding satisfies the payload group `.+` |
| DataUrl.ParseEncoded | app.py:44-50 | round trip: an allowed MIME type with the encoding of 1 byte to 25 MiB is admitted with exactly those bytes |
| DataUrl.OversizeRejected | app.py:48-49 | more than 25 MiB of valid base64 is rejected with status 413 |
| DataUrl.ForeignCharRejected | app.py:44-47 | a payload with a character outside the alphabet is rejected as invalid base64 |
| Identifiers.Basename | app.py:71 | the basename is the suffix after the last `/` and contains no `/` |
| Identifiers.BasenamePlain | app.py:71 | a name without `/` is its own basename |
| Identifiers.BasenameAfterSlash | app.py:71 | directory components are stripped from `dir/name` |
| Identifiers.ClientName | app.py:71-76 | the inspected name (the filename, or `upload.<ext>` when it is empty, as a lower-cased basename) holds no `/` and no upper-case letter |
| Identifiers.MatchFilename | app.py:17 | a match is `digits-digits.ext`, with one of the four extensions, and the name is exactly its groups joined |
| Identifiers.MatchFilenameComplete | app.py:17 | every name of that shape matches, with its own groups |
| Identifiers.NoDashNoMatch | app.py:17 | a name without `-` never matches |
| Identifiers.ResolveIds | app.py:71-81 | explicit fields are kept; without a match nothing changes; values taken from the filename are non-negative |
| Identifiers.EmptyFilenameKeepsFields | app.py:71 | the substitute `upload.<ext>` never matches, so an empty filename keeps the request's fields |
| Identifiers.NoDashClientName | app.py:71-76 | basename and lower-casing introduce no `-` |
| Identifiers.ResolveFromFilename | app.py:71-81 | `dir/<r>-<p>.<e>`, where `e` lower-cases to one of the four extensions (so `JPG` and `Png` too), fills the missing fields with `int(r)` and `int(p)` |
| Identifiers.PatternNameHasNoSlash | app.py:17 | a name of the pattern's shape, in any letter case, holds no `/` |
| Identifiers.LowerPatternName | app.py:76 | lower-casing such a name lower-cases only its extension |
| Identifiers.ResolveFromBareFilename | app.py:71-81 | a bare `<r>-<p>.<e>`, the extension in any letter case, fills the missing fields with `int(r)` and `int(p)` |
| Identifiers.LowerUnchanged | app.py:76 | lower-casing leaves a name without upper-case letters unchanged |
| Identifiers.StorageTarget | app.py:83-92 | no record: `misc` and the token; a negative record: "invalid registro"; otherwise `str(registro)` as directory and prefix, canonical, parsing back to the record, and never `misc` |
| Identifiers.PontoValid | app.py:94 | a slot is acceptable when absent or non-negative; `Upload.Admit` and `Upload.NegativeIdsRejected` state its use |
| Storage.EnsureDir | app.py:85 | `os.makedirs(exist_ok=True)`: the directory exists afterwards, every other directory is unchanged, and a new one is empty |
| Storage.EnsureDirThenSet | app.py:91 | creating a directory and then replacing its contents is the same as replacing them |
| Storage.FileStore.Exists | app.py:101 | true exactly when the directory holds a file of that name |
| Storage.FileStore.MakeDirs | app.py:85 | the store's tree becomes `EnsureDir` of the old tree |
| Storage.FileStore.CreateExclusive | app.py:60-61 | succeeds exactly when the name is absent, and then adds an empty file; otherwise nothing changes |
| Storage.FileStore.WriteFile | app.py:110-111 | the file gets exactly the written bytes and nothing else changes |
| Storage.Candidate | app.py:57 | the name `prefix-n.ext`; `Storage.CandidateInjective` and `Storage.CandidateSuffix` state its properties |
| Storage.CandidateInjective | app.py:57 | two indices give the same candidate name only when they are equal |
| Storage.CandidateSuffix | app.py:57 | every candidate ends with `.` and the extension |
| Storage.FirstFree | app.py:56-64 | the least index at or above the start whose candidate is absent |
| Storage.FirstFreeLeast | app.py:56-64 | a free index with every index before it taken is the one found |
| Storage.FirstFreeAfterRun | app.py:56-64 | with exactly files 1..N present, the next name is number N+1 |
| Storage.StartIndex | app.py:55 | the start is at least 1 and at least `start`: `start` itself when it is positive, 1 otherwise |
| Storage.NextSequentialName | app.py:54-64 | returns the first free candidate from `max(1, start)`, which was absent before, and leaves it as an empty file with nothing else changed |
| Upload.Admit | app.py:70-95 | an admitted request has an allowed MIME type, that type's extension, a non-negative or absent slot, and the parsed bytes |
| Upload.AdmitTarget | app.py:83-92 | admitted without a record: `misc` and the token; with one: a non-negative record whose `str` is both directory and prefix |
| Upload.AdmitKeepsFields | app.py:73-81 | fields sent in the request win over the filename |
| Upload.AdmitRejection | app.py:83-95 | after parsing only the record or the slot is rejected, with status 400; only the slot rejection comes after `os.makedirs` |
| Upload.FinalIndex | app.py:97-108 | the stored index is free: a free requested slot is kept; a taken one moves to the first free index above it; no slot means the first free index from 1 |
| Upload.StoredName | app.py:97-108 | the name at `FinalIndex` in the directory after `os.makedirs`; `Upload.StoresOneNewFile` proves it fresh and ending in the MIME type's extension |
| Upload.RelativePath | app.py:113-116 | `/imagens/<directory>/<name>`; `Upload.StoresOneNewFile` and `Upload.AnonymousUpload` state the response paths built from it |
| Upload.PlaceName | app.py:97-108 | the chosen name is the candidate at `FinalIndex`; the tree is unchanged when the requested slot is free, and otherwise gains exactly that name as an empty placeholder |
| Upload.OverwritePlaceholder | app.py:110-111 | writing over the empty placeholder is the same as writing the file directly |
| Upload.Apply | app.py:97-127 | placement, write and response after admission; `Upload.StoresOneNewFile`, `Upload.KeepsExistingFiles` and `Upload.RejectionStoresNothing` state what it does |
| Upload.UploadSpec | app.py:67-127 | the reference behaviour of the handler; `Upload.UploadKeepsExistingFiles`, `Upload.BadDataUrlChangesNothing` and the examples are proved about it |
| Upload.Upload | app.py:67-127 | the handler's response and final tree are those of `UploadSpec` on the old tree |
| Upload.Store | app.py:70-127 | after a successful parse, the response and final tree are those of `Apply` on the admission |
| Upload.StoresOneNewFile | app.py:97-127 | a successful upload stores the bytes under a name that did not exist, with the MIME type's extension; it adds exactly that file, and the response reports that path, the MIME type and the byte count |
| Upload.KeepsExistingFiles | app.py:97-111 | every file present before is present afterwards with the same contents |
| Upload.UploadKeepsExistingFiles | app.py:67-127 | the whole handler never overwrites or removes a file, whatever the request |
| Upload.RejectionStoresNothing | app.py:83-95 | a rejection creates no file; at most one new empty directory, and only for a rejected slot |
| Upload.BadDataUrlChangesNothing | app.py:69 | a data URL that `parse_data_url` rejects ends the request with that error and an unchanged tree |
| Upload.NegativeIdsRejected | app.py:88-95 | a negative record is rejected before any directory is made; a negative slot with a valid record is rejected after its directory is made |
| Upload.AdmitOf | app.py:70-95 | the admission of a request whose resolution and target are known |
| Upload.AdmitFromFilename | app.py:71-92 | a bare `<r>-<p>.<ext>` (extension in any letter case) with no fields is admitted with `int(r)`, `int(p)` and directory and prefix `str(int(r))` |
| Upload.AnonymousUpload | app.py:71-86 | with no record in the request and a filename that does not match the pattern, the file goes to `misc` under the token, and the response path is `/imagens/misc/<name>` with no record |
| Upload.AnonymousName | app.py:86 | in `misc` every name starts with the token; without a slot, while `<token>-1.<ext>` is free, the name is that one |
| Upload.LeadingZerosExample | app.py:71-127 | `007-03.png` in a fresh tree is stored as `7/7-3.png` with record 7 and slot 3 |
| Upload.OccupiedSlotExample | app.py:97-127 | `123-4.png` with slot 4 taken and 5 free is stored as `123-5.png` while the response still reports slot 4 |

## Left out

- The FastAPI application, CORS middleware, the static mount of `/imagens` and the pydantic parsing of the JSON body are not modelled. Fields arrive as already-typed optional integers, so the `isinstance` checks on lines 88 and 94 reduce to the sign checks.
- `BASE_URL` (environment) is the parameter `baseUrl`. `uuid.uuid4().hex[:8]` is the parameter `token`, which `Upload.Upload` requires to be eight lower-case hexadecimal digits.
- `IMAGES_ROOT` and its creation at start-up (lines 8-9) are not modelled. The tree is keyed by directory name under the image root.
- Regular expressions are modelled on ASCII: `\w` and `\d` do not take the other Unicode letters and digits Python's `re` accepts. `str.lower()` only folds `A`-`Z`.
- `$` in both patterns also matches before one final newline in Python. The model does not take that case: a filename or data URL ending in `\n` does not match.
- I/O failures (unwritable directory, full disk, a non-directory in the path) are not modelled. Every file-store operation succeeds.
- Concurrency is not modelled. Requests run one at a time on the tree, so the race between the existence check on line 101 and the write on line 110 is not represented.
- The sequential search has no bound in the source. In the model it ends because a directory holds finitely many names, which is also why it ends on a real file system.
- Base64.Decode: follows the strict decoder of the CPython releases with the excess-padding check, such as 3.12.13. Earlier 3.11 and 3.12 releases, in strict mode, accept any run of `=` after complete quanta, so `QUJD=` and `QUJD==` decode to `ABC` there. `Base64.RejectsWrongPadding` rejects those inputs, so on those releases the handler stores a file where the model answers "invalid base64".
- `os.path` is assumed to be the POSIX one: `Identifiers.Basename` splits on `/` only. On Windows, `ntpath.basename` also splits on `\` and after a drive colon, so `C:\photos\123-4.png` would give record 123 there but matches nothing in the model.
- The decoder of Python 3.10 and earlier is not modelled. It checks the text against `[A-Za-z0-9+/]*={0,2}` and then decodes leniently, so it also accepts `QUJD=` and `QUI==`.
- Python limits `int()` and `str()` to 4300 digits by default. On a longer record or slot in the filename, `int()` on lines 79 and 81 raises `ValueError`, which the handler does not catch, so the request ends in a server error. The model has no digit limit, and it resolves such a filename like any other.
