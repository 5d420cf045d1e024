# Heirloom photo restoration service — a Dafny model

This project models the backend of the Heirloom AI photo restoration
service. Its core is four pieces:

- **Upload admission and the job lifecycle** (`PhotoService`).
  - An upload is admitted by content type and size.
  - A job record is inserted as `processing`. The placeholder restoration
    returns the image unchanged, and the result is written to the image
    directory.
  - The record then moves to `completed` (with a processing time) or
    `failed` (with an error message).
  - The status and download endpoints answer from the same two stores:
    the record collection (`jobs`) and the image directory (`blobs`).
- **The `.env` loader** (`DotEnv`). Both the server and the database probe
  run it at import time. Each line is stripped. Blank lines, comments and
  lines without `=` are skipped. A line is split at its first `=`, quote
  runs are stripped from the value, and the pair is assigned into the
  process environment. The database settings then fall back to their
  defaults.
- **Base64 encoding of image bytes** (`Base64`). It follows section 4 of
  RFC 4648. A strict decoder, which accepts only canonical text (section 3.5
  of RFC 4648), is its inverse.
- **The Gemini connectivity probe** (`GeminiProbe`):
  - it prefers the response's own text;
  - otherwise it searches the response's dictionary form depth first
    (`find_text`);
  - it classifies the message of a failed call into a quota hint or an
    invalid-key hint.

`Common` holds `Option`, `Result` and `byte`. `Text` holds the string tests
the sources use: `startswith`, `in` and `lower`.

Two facts about the code shape the model:

- The restoration step at `backend/server.py:74-95` is a placeholder. It
  logs and returns the image it was given, so `Restore` is the identity.
  No provider is called.
- The job listing at `backend/server.py:225-233` returns at most 100
  records in the order the collection yields them; it does not sort. That
  endpoint is not modelled (see below).

## Model

| member | source | states |
|---|---|---|
| PhotoService.Admission | backend/server.py:110-121 | An upload is admitted exactly when its content type is present and starts with `image/` and its size is between 100 and 10·1024·1024 bytes. Every refusal is a 400, and a non-image type is refused first with "File must be an image". |
| PhotoService.AdmissionBoundaries | backend/server.py:117-121 | For an image, 99 bytes is refused as too small, 100 and 10485760 bytes are accepted, and 10485761 bytes is refused as too large. |
| PhotoService.OriginalName | backend/server.py:127 | The stored original name is never empty: it is the given file name, or `unknown.jpg` when the name is missing or empty. |
| PhotoService.RestoredNameInjective | backend/server.py:128 | The restored file name `restored_<id>.jpg` determines the id, so two jobs never share a restored file. |
| PhotoService.Restore | backend/server.py:74-95 | The placeholder restoration returns exactly the bytes it is given. |
| PhotoService.NewRecord | backend/server.py:123-130 | The record inserted for a new upload is well formed for its id (derived restored name, no time, no message) and has status `processing`, the fallback original name and the creation time. |
| PhotoService.MarkCompleted | backend/server.py:150-161 | The success `$set` makes the status `completed` with the measured time and leaves every other field as it was. From a consistent `processing` record it yields a consistent record. |
| PhotoService.MarkFailed | backend/server.py:163-176 | The failure `$set` makes the status `failed` with the error message and leaves every other field as it was. From a consistent `processing` record it yields a consistent record. |
| PhotoService.GetStatus | backend/server.py:187-198 | The status request succeeds exactly for a stored id and returns that record; otherwise it is a 404 "Restoration not found". |
| PhotoService.Download | backend/server.py:200-223 | A download succeeds exactly when the job exists, is `completed` and its restored file is stored. It then serves those bytes as `image/jpeg` under the restored name. Otherwise: unknown id → 404, not completed → 400, completed without a file → 404. |
| PhotoService.DownloadIgnoresBlobsUntilCompleted | backend/server.py:203-208 | For an unknown or unfinished job the answer does not depend on the image directory: the status is checked before any file is looked up. |
| PhotoService.UploadRefused | backend/server.py:110-121 | A refused upload answers with its 400 and leaves both the records and the files exactly as they were. |
| PhotoService.UploadAccepted | backend/server.py:123-178 | An accepted upload stores and returns the same record under the new id. The record is well formed, with the fallback original name and the creation time. It is never left `processing`: it is `completed` with the time and the uploaded bytes stored under its restored name exactly when the write succeeded, and `failed` with the write error and no file change otherwise. |
| PhotoService.UploadThenDownload | backend/server.py:140-147 | After an upload whose file was written, downloading the job (`backend/server.py:200-223`) returns exactly the uploaded bytes as a JPEG attachment named `restored_<id>.jpg`. |
| PhotoService.UploadKeepsOtherJobs | backend/server.py:135-176 | An upload changes no other job: the other job's presence, its record, its status answer and its download answer are all unchanged. |
| PhotoService.UploadKeepsInvariant | backend/server.py:123-176 | An upload under a fresh id preserves the store invariant. Every record carries its key as id, its derived restored name and status fields that agree (a time exactly when completed, a message exactly when failed), and a completed job's image is stored. |
| PhotoService.PhotoStore.constructor | backend/server.py:21-23 | The store opens over the collection and the image directory as they already are; it is valid when they satisfy the store invariant. |
| PhotoService.PhotoStore.Insert | backend/server.py:132-135 | `insert_one` adds the record under its id and touches no file. |
| PhotoService.PhotoStore.SetCompleted | backend/server.py:150-158 | `update_one` applies the success `$set` to the matching record only; with no match, nothing changes. |
| PhotoService.PhotoStore.SetFailed | backend/server.py:166-174 | `update_one` applies the failure `$set` to the matching record only; with no match, nothing changes. |
| PhotoService.PhotoStore.WriteFile | backend/server.py:145-147 | Writing the restored file replaces the directory entry of that name and touches no record. |
| PhotoService.PhotoStore.Upload | backend/server.py:106-185 | `upload_photo`, step by step: the new records, files and response are exactly `UploadEffect` of the old state. An admitted upload first inserts the `processing` record of `NewRecord` under the new id; a refused one inserts nothing. A valid store stays valid. |
| DotEnv.StripIsMaximalTrim | backend/server.py:30-33 | `strip` keeps a contiguous middle of the text and removes only characters of the stripped set from either end. The same code appears at `backend/test_mongodb.py:21` and `backend/test_mongodb.py:25`. |
| DotEnv.Strip | backend/server.py:30 | The stripped text is no longer than the input, and neither its first nor its last character is in the stripped set. The same code appears at `backend/test_mongodb.py:21`. |
| DotEnv.FirstIndexOf | backend/test_mongodb.py:23 | Finds the first `=`: absent exactly when the line has none; otherwise a position holding it with none before. The same code appears at `backend/server.py:32`. |
| DotEnv.SplitAssignment | backend/server.py:31-33 | A stripped line gives an assignment exactly when it is non-empty, does not start with `#` and contains `=`. The key is the text before the first `=`, holds no `=` and is not trimmed further. The value is the rest after that `=`, which may contain `=`, with `"` runs and then `'` runs stripped. The same code appears at `backend/test_mongodb.py:22-25`. |
| DotEnv.Unquote | backend/server.py:33 | `value.strip('"').strip("'")` never lengthens the value and leaves no single quote at either end. The same code appears at `backend/test_mongodb.py:25`. |
| DotEnv.UnquoteKeepsUnquoted | backend/server.py:33 | A value that neither starts nor ends with a quote is kept unchanged. |
| DotEnv.StripQuotePair | backend/server.py:33 | Stripping quote `q` from `q` + an unquoted middle + `q` gives the middle. |
| DotEnv.UnquoteNestedQuotes | backend/server.py:33 | Double quotes come off first: `"'m'"` unquotes to `m` for every `m` that neither starts nor ends with a single quote. |
| DotEnv.Settable | backend/server.py:34 | Assigning `os.environ[key] = value` succeeds exactly when the name is non-empty and neither the name nor the value holds a NUL character. The same code appears at `backend/test_mongodb.py:26`. |
| DotEnv.RaisesAtFirstUnsettable | backend/server.py:29-34 | A load raises exactly at the first assignment that `Settable` refuses, and a load that raises nothing met no such assignment. The same code appears at `backend/test_mongodb.py:20-26`. |
| DotEnv.ParseAll | backend/server.py:29-33 | Every line of the file is parsed on its own, in order. The same code appears at `backend/test_mongodb.py:20-25`. |
| DotEnv.RaisedIsFinal | backend/test_mongodb.py:26 | Once an assignment has raised, the later lines change nothing: the load stops there. The same code appears at `backend/server.py:34`. |
| DotEnv.LastAssignmentWins | backend/server.py:29-34 | After a load that raised nothing, a key the file assigns holds the value of its last assignment. A key the file never assigns keeps its earlier value, or stays absent. The same code appears at `backend/test_mongodb.py:20-26`. |
| DotEnv.Environment.LoadDotEnv | backend/server.py:27-34 | The load loop changes the environment exactly as `Apply` of the parsed lines does. When an assignment raises, it reports that line, and the assignments before it remain. The same code appears at `backend/test_mongodb.py:18-26`. |
| DotEnv.Settings | backend/test_mongodb.py:36-37 | `MONGO_URL` defaults to `mongodb://localhost:27017` and `DB_NAME` to `heirloom_ai` when unset. The same code appears at `backend/server.py:37-38`. |
| DotEnv.SettingsAfterLoad | backend/test_mongodb.py:18-37 | After a load, the database URL and name are the file's last assignment when there is one. They are the local defaults when neither the environment nor the file sets them. The same code appears at `backend/server.py:27-38`. |
| Base64.Encode | backend/server.py:70-72 | The encoding of n bytes has length 4·⌈n/3⌉. |
| Base64.EncodeShape | backend/server.py:70-72 | The encoding uses only the 64-character alphabet and `=`. `=` appears only in the last two positions, and not at all when the length is a multiple of three. |
| Base64.SymbolsPadding | backend/server.py:70-72 | Pad symbols occupy only the last two positions, and none for a length that is a multiple of three. |
| Base64.DecodeEncode | backend/server.py:70-72 | Decoding the encoding of any bytes gives those bytes back. |
| Base64.EncodeDecode | backend/server.py:70-72 | Every text the strict decoder accepts is the encoding of what it decodes to, so the encoding is canonical. |
| Base64.SymbolsRoundTrip | backend/server.py:70-72 | Regrouping the 6-bit symbols of any bytes gives the bytes back. |
| Base64.SymbolsCanonical | backend/server.py:70-72 | Symbols that regroup into bytes are exactly the symbols of those bytes. |
| Base64.LastGroupCanonical | backend/server.py:70-72 | A final group with one or two pads that decodes is the group of its bytes; its unused bits are zero. |
| Base64.TextRoundTrip | backend/server.py:70-72 | Reading back the characters of symbols gives the symbols. |
| Base64.TextCanonical | backend/server.py:70-72 | Text made of alphabet characters and `=` is the text of the symbols it reads as. |
| Base64.SymbolOfCharOf | backend/server.py:70-72 | Each symbol's character (alphabet of section 4 of RFC 4648, `=` for the pad) reads back as that symbol. |
| GeminiProbe.TextField | backend/test_gemini.py:66-67 | Without a `"text"` key there is nothing. Otherwise the first `"text"` entry decides: its value is returned exactly when it is a string. |
| GeminiProbe.FindText | backend/test_gemini.py:64-77 | An empty result can only be a dictionary's own empty `"text"`. |
| GeminiProbe.FindInEntries | backend/test_gemini.py:68-71 | The search over a dictionary's values returns only truthy (non-empty) results. |
| GeminiProbe.FindInItems | backend/test_gemini.py:72-76 | The search over a list's items returns only truthy (non-empty) results. |
| GeminiProbe.FirstNonEmpty | backend/test_gemini.py:68-76 | It finds a string exactly when the sequence has a non-empty one, and what it finds is a non-empty member. |
| GeminiProbe.FirstNonEmptyIsFirst | backend/test_gemini.py:68-71 | What it finds is the first non-empty string: every string before it is empty, since the loop returns the first truthy result. |
| GeminiProbe.FindTextIsFirstCandidate | backend/test_gemini.py:64-77 | Seen from its parent, with an empty string counting as nothing, `find_text` returns the first non-empty candidate. The candidates are the strings of the tree in depth-first order, where a dictionary with its own string `"text"` offers only that string. |
| GeminiProbe.FindTextSound | backend/test_gemini.py:66-67 | Any result of `find_text` is the string value of some `"text"` key in the tree. |
| GeminiProbe.CandidatesSound | backend/test_gemini.py:66-67 | Every candidate string is the value of a `"text"` key in the tree. |
| GeminiProbe.OwnTextFirst | backend/test_gemini.py:66-67 | A dictionary whose first `"text"` entry, at any position, holds a string returns that string before any of its values is searched. |
| GeminiProbe.NonStringTextSearched | backend/test_gemini.py:66-71 | When the first `"text"` entry, at any position, is not a string, it is not returned and the dictionary's values are searched in order, that entry included. |
| GeminiProbe.NoTextKeySearched | backend/test_gemini.py:66-71 | A dictionary without a `"text"` key is searched through its values in order. |
| GeminiProbe.EmptyTextExamples | backend/test_gemini.py:66-76 | At the root an empty `"text"` is the result. One level down it is passed over and the search continues. A dictionary's own empty `"text"` hides its other values, also inside a list. |
| GeminiProbe.ScalarsFindNothing | backend/test_gemini.py:77 | Strings, numbers and other scalars yield nothing. |
| GeminiProbe.ResponseText | backend/test_gemini.py:52-80 | A non-empty string `response.text` is used as it is. Otherwise a non-empty dictionary form gives the result of `find_text` over it, the first non-empty candidate by `FindTextIsFirstCandidate`; without one, `response.text` stands. Any text found is a `"text"` value of the dictionary form. |
| GeminiProbe.ResponseSucceeds | backend/test_gemini.py:52-87 | The reply counts as a success exactly when `response.text` is a non-empty string, or the non-empty dictionary form has a non-empty candidate. |
| GeminiProbe.HintFor | backend/test_gemini.py:91-94 | The quota hint exactly when the message contains `429` or, case-insensitively, `quota`. Otherwise the invalid-key hint exactly when it contains `403` or, case-insensitively, `invalid`. Otherwise no hint. |
| GeminiProbe.HintIgnoresCase | backend/test_gemini.py:91-94 | The hint does not depend on the case of the message. |
| GeminiProbe.DigitsSurviveLower | backend/test_gemini.py:91-93 | Lower-casing neither creates nor removes an occurrence of `429` or `403`. |
| GeminiProbe.QuotaBeforeInvalid | backend/test_gemini.py:91-94 | A message with both `429` and `403` gets the quota hint: quota is tested first. |
| GeminiProbe.QuotaStatusExample | backend/test_gemini.py:91-92 | "429 Resource exhausted" gets the quota hint. |
| GeminiProbe.QuotaWordExample | backend/test_gemini.py:91-92 | "Quota exceeded" gets the quota hint, whatever the case. |
| GeminiProbe.ConnectionTest | backend/test_gemini.py:18-95 | The connection test passes exactly when an API key is set, the SDK imports, and the call answers with a non-empty text. Without a key or without the SDK it fails with no hint, before any call. A hint is given only for a call that raised; when the key is set and the SDK imports, that hint is the classification of the call's message. |
| Text.StartsWith | backend/server.py:111 | `s.startswith(prefix)` holds exactly when the prefix is no longer than `s` and agrees with `s` character by character; `Admission` uses it for the `image/` test. |
| Text.Contains | backend/test_gemini.py:91-93 | `sub in s` holds exactly when `sub` occurs at some position of `s`. |
| Text.Lower | backend/test_gemini.py:91-93 | `lower()` keeps the length and maps each character: ASCII capitals to small letters, everything else unchanged. |

## Left out

- The listing endpoint `get_restorations` (`backend/server.py:225-233`) is not modelled. The record collection is a map without an order, and the endpoint's first-100 cut depends on the database's order.
- The legacy `/status` routes, the root route, FastAPI routing, CORS and logging are plumbing and are not modelled.
- Real I/O is not modelled. MongoDB and the image directory are the maps `jobs` and `blobs`. Reading the upload body and streaming the file back are not modelled. The download's attachment name is modelled (`Attachment.filename`); only the text format of the `Content-Disposition` header is left out.
- `uuid4()`, `datetime.now()` and the measured processing time are inputs (`Run`). A fresh id is assumed (`Upload` requires it not to be stored). The processing time is an opaque non-negative number.
- PhotoService.PhotoStore.Upload: the only failure of the inner restoration step it models is a failed file write, given as `Run.writeError`. A failure of the success update after the file was written is not modelled; the record would then end `failed` with the file present. A partially written file is not modelled either.
- PhotoService.PhotoStore.Upload: the generic 500 path (`backend/server.py:183-185`) is not modelled. It is reached only through database or framework errors. A restoration that raised its own 500 (`backend/server.py:97-99`) would be caught by the inner handler at `backend/server.py:163` and end the job `failed`; the identity placeholder never raises.
- PhotoService.GetStatus: removing the database's `_id` field is not modelled, because a record has no such field here.
- DotEnv.Environment.LoadDotEnv: the file is taken as already decoded lines with the UTF-8 byte order mark removed. A missing `.env` file is the empty sequence of lines. The debug output of `backend/test_mongodb.py:27` is not modelled.
- DotEnv.Settable: the conditions under which assigning into the environment raises are those of POSIX systems. Windows rules are not modelled.
- Text.Lower: only ASCII capitals are lower-cased. A non-ASCII character whose Python lower case is ASCII (the Kelvin sign gives `k`; `İ` gives `i` followed by a combining dot) can never complete `quota` or `invalid`, so the hints are the same as Python's.
- Base64.Decode is the strict decoder of section 3.5 of RFC 4648, written as the inverse of the encoder. The lenient `base64.b64decode` of `backend/test_gemini.py:103` is not modelled.
- GeminiProbe.ConnectionTest: the SDK client, the `generate_content` call and `to_dict` are foreign calls. Their results are inputs: the response's own text, its dictionary form, or the message of the exception raised. The printed output, including the first ten characters of the key, is not modelled.
- GeminiProbe.TextField: the dictionary form is a sequence of entries. When a key is repeated, the first entry with it decides; Python dictionaries have unique keys.
- `test_image_processing` (`backend/test_gemini.py:97-149`) and the script's main block are not modelled. They only call the SDK and print, and their text test is the truthiness already covered by `ResponseText`.
