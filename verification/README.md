# ESP32-HUB request core in Dafny

A model of the request-handling core of `server.py`, the HTTP file manager that
ESP32-HUB serves from a MicroPython board. One call of `handle_client` is
modelled as follows.

- It reads the request line and the header block off the connection.
- It checks HTTP Basic credentials against `admin:admin`, and answers 401
  without them.
- It probes whether the path names a directory. A directory path without a
  trailing `/` gets a 301 redirect; one with it gets `index.html`.
- It serves static files by suffix.
- Otherwise it dispatches to one of the `/api/...` routes:
  - `files`: list the root
  - `run` and `stop`: the `running_flags` registry of stop cells
  - `stats`: free space
  - `read` and `save`: text files
  - `delete`: a file, or a directory with its entries
  - `upload`: a multipart body streamed line by line into a file
- It answers 404 for everything else.

The model is layered as the program is:

| module | what it holds |
|---|---|
| `Stream` | The connection: the bytes the client sent, a read position that `readline()` and `read(n)` advance, and the bytes written back. |
| `Fs` | The flash filesystem: a tree of files and directories keyed by path components. |
| `Request` | Framing of the request line and the header block. |
| `Auth` | `check_auth`, together with a declarative description of which headers it admits. |
| `Router` | The routing decision, the `split("=")[1]` target and the `LOCKED_FILES` guard. |
| `Upload` | `save_upload` and `ensure_dir`. |
| `Jobs` | `running_flags`: a class whose map the routes update in place, with stop cells that `stop` sets. |
| `Handlers` | Each handler as a function giving the answer and the new tree, plus the method that does the work. |
| `Wire` | The exact bytes of `send_response`, `send_redirect` and `send_auth_challenge`. |
| `Server` | `handle_client` end to end. |

`Text`, `Utf8` and `Decimal` give the meaning of the string operations the
code relies on:
- `split`, `split()` and `strip`
- `replace("..", "")`
- `.encode()` and `.decode()`
- `%d` and `int()`, which on the device also reads digit separators (`1_0`) and
  the `0x`, `0o` and `0b` prefixes

Header names are matched case-sensitively, exactly as the dictionary in
`handle_client` does.

## Model

| member | source | states |
|---|---|---|
| Stream.Connection.ReadLine | server.py:102 | `readline()` returns the bytes up to and including the next line feed, or what is left; it returns an empty line exactly at the end of the input. |
| Stream.Connection.Read | server.py:210 | `read(n)` consumes `n` bytes, or everything that is left when `n` is negative or too large, and returns exactly the bytes consumed. |
| Stream.Connection.Write | server.py:279 | A write appends its bytes to the output and changes nothing else. |
| Stream.LinesCover | server.py:70-72 | Reading line by line until the empty line loses nothing: the lines put together are the rest of the input. |
| Stream.LinesOfConcat | server.py:70-72 | Complete lines sent one after another are read back as exactly those lines. |
| Request.ParseRequestLine | server.py:104-106 | A request line is accepted only as three whitespace-separated words (method, path, protocol); any other word count is rejected. |
| Request.RequestLineReadsBack | server.py:104-106 | Three space-free tokens sent as a request line are framed back as those three tokens. |
| Request.HeaderFields | server.py:112 | A header line yields a key and a value exactly when it contains a colon. |
| Request.HeaderFieldsReadBack | server.py:112-113 | The line is split at its first colon only; the key and the value come back with the surrounding spaces stripped, and the value may itself hold colons. |
| Request.HeaderLineReadsBack | server.py:112-113 | The same read-back holds for the header line's UTF-8 bytes. |
| Request.ParseHeaderLine | server.py:112 | A header line that parses decodes as UTF-8 and contains a colon. |
| Request.BlockLines | server.py:109-111 | The header lines are those before the first blank CRLF line or the end of the stream; none of them ends the block. |
| Request.BlockEnd | server.py:109-111 | The header block ends at or after where it starts, and within the input. |
| Request.ParseHeaderLinesMeaning | server.py:109-113 | The header block parses exactly when each of its lines does, into the pairs of its lines in order; one line without a colon makes the whole request fail. |
| Request.ParseRequest | server.py:102-113 | A framed request carries the three words of the first line and the dictionary built from the header block. |
| Request.ReadHeaders | server.py:108-113 | The header loop builds the dictionary of the block it reads and stops just past the blank line. |
| Request.ReadRequest | server.py:102-113 | Reading a request from the start of the connection yields the framed request, with the body starting just past the header block. |
| Request.EnterKeys | server.py:113 | The header dictionary's keys are exactly the names of the header lines. |
| Request.EnterKeep | server.py:113 | Header lines with other names leave a header's value alone. |
| Request.EnterAppend | server.py:109-113 | Entering the header lines in two runs is the same as entering them in one. |
| Request.LastWins | server.py:113 | When a header name repeats, the last line with that name wins. |
| Auth.CheckAuth | server.py:40-48 | Credentials are accepted only with a non-empty `Authorization` header. |
| Auth.CheckAuthAdmits | server.py:40-48 | `check_auth` accepts exactly the headers whose `Authorization` value is a scheme word, a space and a token. The token must Base64-decode to UTF-8 text whose first two `:`-separated fields are `admin` and `admin`. |
| Auth.AdminAccepted | server.py:43-47 | Any scheme word is accepted with `admin:admin`, and so are extra `:` fields after the password. |
| Auth.SchemeTokenUnique | server.py:45 | There is only one token that can be checked: the second space-separated word. |
| Auth.CredentialFields | server.py:46-47 | The field comparison holds exactly when the text is `admin:admin`, optionally followed by more `:` fields. |
| Wire.ResponseReadsBack | server.py:277-280 | A `send_response` message reads back as its status code and its body, whatever the body holds. |
| Wire.ResponseStatus | server.py:278 | The status line of a `send_response` message carries its code. |
| Wire.ResponseBody | server.py:278 | The body of a `send_response` message is everything after its first blank line. |
| Wire.ResponseHeadSafe | server.py:278 | The head of a `send_response` message holds no blank line before its end, so it cannot end early. |
| Wire.RedirectReadsBack | server.py:282-285 | A `send_redirect` message reads back as status 301 with an empty body. |
| Wire.StatusOfHead | server.py:278 | The decimal code after `HTTP/1.1 ` reads back as that code. |
| Fs.DirModeBits | server.py:34 | The `0o170000` mask test says "directory" for a directory mode and "not a directory" for a regular-file mode, whatever the permission bits. |
| Fs.ResolveName | server.py:131-133 | `name`, `/name` and `./name` all name the same top-level entry. |
| Fs.StatOf | server.py:31-38 | `os.stat` succeeds exactly for the root and for existing entries; its mode says "directory" exactly for directories; its size is a file's length. |
| Fs.MkdirWellFormed | server.py:63 | `mkdir` keeps the tree well formed and adds exactly the new directory. |
| Fs.OpenWriteWellFormed | server.py:89 | Opening for writing keeps the tree well formed and leaves the file empty. |
| Fs.RemoveWellFormed | server.py:231-234 | A removal keeps the tree well formed and leaves nothing at the removed path. |
| Fs.WriteWellFormed | server.py:96 | Writing to an open file keeps the tree well formed. |
| Fs.FileSystem.constructor | server.py:19-38 | The filesystem starts from a well-formed tree and a volume description. |
| Fs.FileSystem.Stat | server.py:135 | `os.stat` reports the entry at the resolved path. |
| Fs.FileSystem.ListDir | server.py:163 | `os.listdir` succeeds exactly on a directory, and then lists each of its children once. |
| Fs.FileSystem.Mkdir | server.py:63 | `os.mkdir` either creates the directory or fails and changes nothing. |
| Fs.FileSystem.Remove | server.py:231-234 | `os.remove` and `os.rmdir` either remove a file or an empty directory, or fail and change nothing. |
| Fs.FileSystem.OpenWrite | server.py:89 | `open(name, 'wb')` creates or empties a file whose parent directory exists; on a directory or a missing parent it fails and changes nothing. |
| Fs.FileSystem.Write | server.py:96 | `f.write` appends to the open file and nothing else. |
| Fs.FileSystem.ReadAll | server.py:201 | Reading a file returns its bytes; it fails on a directory or a missing entry. |
| Fs.FileSystem.Statvfs | server.py:21 | `os.statvfs` returns the volume's block size and block counts, or fails. |
| Router.ProtectedIffLocked | server.py:197 | The `"/" not in name` half of the guard never changes its answer: the guard is membership in `LOCKED_FILES`. |
| Router.LockedIsPlainName | server.py:11-15 | Every locked name is a single plain path component. |
| Router.GuardIsTextual | server.py:197 | The guard looks at the name as written: `/name` and `./name` reach a locked file without being refused, while `name` is refused. |
| Router.StripQuery | server.py:119 | The clean path is the longest prefix of the path without a `?`. |
| Router.CleanPath | server.py:119-126 | `/` stands for `/index.html`; every other path is kept without its query string. |
| Router.CheckPath | server.py:131-133 | The probed name is the clean path without one leading `/`, and `.` when nothing is left. |
| Router.StaticMime | server.py:148-158 | A path is served as a static file exactly when it ends in one of the five suffixes; `.html` is `text/html`. |
| Router.Target | server.py:174 | A target exists exactly when the raw path holds an `=`. |
| Router.TargetBetween | server.py:174 | The target is the text between the first and the second `=`, not everything after the first. |
| Router.TargetSits | server.py:174 | Every target found sits between the first `=` and the next `=` or the end. |
| Router.Api | server.py:160-252 | The API routes are tried in order. 404 is given exactly when none matches. A route that needs a target either carries the one from the path or closes the connection when there is none. |
| Router.Route | server.py:125-252 | The routing decision. A directory without a trailing `/` is redirected to the path with `/`. Otherwise a static suffix serves the file with its MIME type, and anything else goes to the API routes. |
| Router.StaticFirst | server.py:148-158 | A static suffix wins over every API route, whatever the method: `/api/....js` is served as a file. |
| Jobs.Flag.constructor | server.py:175 | A new stop cell starts unset. |
| Jobs.Registry.constructor | server.py:17 | The registry starts empty. |
| Jobs.Registry.Run | server.py:174-177 | `run` registers a fresh, unset cell under the target and replaces any earlier cell of that name. |
| Jobs.Registry.Stop | server.py:181-187 | `stop ALL` sets every registered cell; `stop name` sets only that name's cell. An unknown name changes nothing, a set cell stays set, and the registry keeps its keys. |
| Upload.Sanitize | server.py:79-80 | The upload name never contains `..` once the `replace` has run. |
| Upload.SanitizeClean | server.py:79-80 | A name without `..` and without a leading `/` is kept as it is. |
| Upload.NamedFile | server.py:74-80 | The file name taken from a `filename="` line never contains `..`. |
| Upload.EnsureDir | server.py:55-64 | `ensure_dir` leaves the tree as its specification function describes. |
| Upload.EnsureDirAddsOnlyDirs | server.py:55-64 | `ensure_dir` only ever adds directories: every existing entry keeps its content. |
| Upload.EnsureDirOnlyPrefixes | server.py:58-63 | Every entry `ensure_dir` adds is a prefix of the name's directory chain. |
| Upload.EnsureDirBuildsChain | server.py:58-63 | When no file is in the way, `ensure_dir` leaves the whole directory chain in place. |
| Upload.UploadPathNoUpLevel | server.py:79-83 | Once `..` is removed, the upload path has no `..` component. |
| Upload.UploadDirsArePrefixes | server.py:79-83 | An upload can create directories only inside the upload root, along the chain of its own name. |
| Upload.FirstBoundary | server.py:91-92 | The content ends at the first line holding the boundary. |
| Upload.SaveUpload | server.py:66-98 | The streaming loop gives the outcome and the tree of the line-by-line specification of the upload body. |
| Upload.SkipLines | server.py:73-86 | Lines before the name and blank line, without a `filename="` marker, change nothing. |
| Upload.BlankBeforeName | server.py:86-90 | A blank line before any `filename="` line refuses the upload and changes nothing. |
| Upload.LockedRefused | server.py:81 | A locked name is refused before anything is written. |
| Upload.NoBlankNoFile | server.py:86-98 | Without a blank line the upload fails, and at most directories were added. |
| Upload.SavedOnlyAtBoundary | server.py:74-94 | An upload succeeds only by reaching a boundary line after the first blank line. The file named by the last `filename="` line before that blank line then holds exactly the lines in between. |
| Upload.CopyFound | server.py:91-96 | Once the file is open, the lines before the first boundary become its content. |
| Upload.PlainNameLine | server.py:74-83 | A plain unlocked name is remembered as the upload path, and no directory is made. |
| Upload.OpenAtBlank | server.py:86-89 | The blank line opens the named file empty. |
| Upload.UploadRoundTrip | server.py:66-98 | An upload naming a plain file (no `/`) with well-formed parts succeeds and stores exactly the lines between the blank line and the boundary in that file at the root. |
| Upload.UploadSavedAsNamed | server.py:74-94 | For any name, nested or not, a successful upload leaves the file at `./fn` holding exactly the lines between the blank line and the boundary. |
| Handlers.WriteChunks | server.py:268-272 | Sending a file in 1024-byte chunks writes exactly its bytes. |
| Handlers.SendFile | server.py:258-275 | `send_file` writes the reply the file's state determines. |
| Handlers.FileReplyLength | server.py:264-272 | For a file, the reply is a 200 head whose `Content-Length` is the file's length, followed by exactly its bytes. |
| Handlers.FileReplyOfDir | server.py:264-275 | For a directory, `stat` works but the read fails. The reply is then a 200 head claiming length 0, followed by a 404 message. |
| Handlers.FileInfoOf | server.py:31-38 | `get_file_info` answers exactly for existing entries, with their own name, a dir bit that holds exactly for directories, a file's length as its size and 0 for directories. |
| Handlers.Infos | server.py:165-168 | The listing never shows a locked name, and shows only names that the directory listed. |
| Handlers.InfosComplete | server.py:165-168 | Every listed name that is not locked and whose info is found is in the listing. |
| Handlers.ListingComplete | server.py:160-170 | Every child of the root that is not locked is in the listing, with its kind and size. |
| Handlers.ListFiles | server.py:160-170 | `/api/files` answers 200 with the JSON of the listing of the root. |
| Handlers.StatsAddUp | server.py:19-29 | The used and free kilobytes add up to the total, or to one less after truncation. |
| Handlers.StatsExact | server.py:19-29 | With a block size that is a whole number of kilobytes, the figures add up exactly and the total is blocks times kilobytes per block. |
| Handlers.ReadAnswer | server.py:194-204 | `/api/read` answers 403 exactly for a locked name. It answers 200 exactly for a readable UTF-8 file, and then the body is the file's text. |
| Handlers.SaveFields | server.py:211-213 | The fields are found exactly when the body is a JSON object with both `filename` and `code`. |
| Handlers.SaveResult | server.py:206-219 | `/api/save` answers 200, 403 or 500. It answers 403 exactly for a locked name, and then nothing changes. A missing field or a non-string name fails with nothing changed. |
| Handlers.SaveAnswers | server.py:206-219 | The save route answers only 200, 403 or 500. |
| Handlers.SaveContent | server.py:211-218 | Once the body is read, the answer and the new tree are those of the save result. A locked name is refused before `open`, and only a successful write answers 200. |
| Handlers.HandleSave | server.py:206-219 | When `int()` refuses the `Content-Length` value the save fails; with no such header the length is 0. Otherwise it reads that many body bytes, and the answer and the tree are those of the save result. |
| Handlers.SaveTouchesOnlyTarget | server.py:217 | Saving leaves every other entry as it was. |
| Handlers.SaveThenRead | server.py:194-219 | A saved file reads back as the saved code. |
| Handlers.RemoveChildren | server.py:231 | Removing a directory's entries only ever removes entries. |
| Handlers.RemoveOrFail | server.py:233-237 | A final `os.remove` either deletes the entry (200) or fails with nothing changed (404). |
| Handlers.DeleteResult | server.py:221-237 | `/api/delete` answers 403 exactly for a locked name, and then nothing changes. It only ever removes entries. On 200 the target is gone. A failure on anything but a directory changes nothing. |
| Handlers.RemoveDir | server.py:229-234 | Deleting a directory only removes entries, and on success the directory is gone. |
| Handlers.RemoveEntries | server.py:231 | The loop over a directory's listing removes what the specification of that step says. |
| Handlers.DeleteDir | server.py:229-234 | Deleting a directory on the filesystem leaves the tree of the directory-deletion result. |
| Handlers.HandleDelete | server.py:221-237 | The delete route writes the answer of the delete result and leaves its tree. A directory's entries are taken from its listing. |
| Handlers.DeleteOfFile | server.py:233 | Deleting an unlocked file removes exactly that file and answers 200. |
| Handlers.DeleteMissing | server.py:229-237 | Deleting a missing unlocked name answers 404 and changes nothing. |
| Handlers.BoundaryOf | server.py:241-244 | A boundary is found exactly when `Content-Type` holds `boundary=`, and then it starts with `--`. |
| Handlers.HandleUpload | server.py:239-248 | Without a boundary the answer is 400 and nothing changes. Otherwise the answer and the tree are those of streaming the body through `save_upload`. |
| Server.BodyStart | server.py:108-111 | The body starts after the request line and the header block. |
| Server.IsDirProbe | server.py:129-146 | The directory probe holds exactly when `os.stat` of the cleaned name reports a directory; a failing `stat` counts as "not a directory". |
| Server.Probe | server.py:129-146 | The probe on the filesystem agrees with `IsDirProbe`. |
| Server.Stopped | server.py:184-186 | The stop state of the registry has the registry's names. |
| Server.DispatchPlain | server.py:140-204 | Redirects, static files, stats, reads and 404 write exactly their message and change nothing else. |
| Server.DispatchOther | server.py:140-204 | Every route that is neither a listing nor a body-reading or tree-changing one writes its message. The job routes update the registry and nothing else changes. |
| Server.RunRoute | server.py:172-177 | `run` writes the `started` answer and registers a fresh, unset cell under the target; the tree and the other cells are untouched. |
| Server.StopRoute | server.py:179-187 | `stop` writes the `stopping` answer and sets the cells `Stop` names; the registry keeps its keys and the tree is untouched. |
| Server.DispatchFiles | server.py:160-248 | The listing, save, delete and upload routes write the answer of their handler and leave its tree. |
| Server.ListRoute | server.py:160-170 | `/api/files` writes the listing answer for the root and changes nothing. |
| Server.SaveRoute | server.py:206-219 | `/api/save` reads its body from where the headers end, then writes the save answer and leaves the save's tree. |
| Server.DeleteRoute | server.py:221-237 | `/api/delete` writes the delete answer and leaves the delete's tree. |
| Server.UploadRoute | server.py:239-248 | `/api/upload` streams the body that follows the headers through the upload specification, then writes its answer and leaves its tree. |
| Server.Dispatch | server.py:140-252 | Every routing decision leads to exactly the output and the state change its handler specifies. |
| Server.Refuse | server.py:115-117 | Without credentials the server writes the 401 challenge and changes nothing else. |
| Server.Serve | server.py:115-252 | An authenticated request is dispatched along its route; any other request gets the challenge. |
| Server.ServeRoute | server.py:119-252 | An authorised request is routed on its method, its path and the directory probe of the tree it found. The chosen route's handler then runs as `Dispatch` states. |
| Server.HandleClient | server.py:100-256 | One connection, end to end. A request that does not frame gets no answer and changes nothing. A framed one is served as `Serve` states. |
| Decimal.ParseFormat | server.py:192 | A number written with `%d` reads back with `int()`. |
| Decimal.DigitsValueFormat | server.py:192 | The decimal digits of a number have that number as their value. |
| Decimal.MagnitudeFormat | server.py:209 | The digits `%d` writes for a magnitude read back with `int()` as base 10, with no prefix. |
| Decimal.FormatTrimmed | server.py:192 | What `%d` writes has no surrounding whitespace for `int()` to strip. |
| Decimal.DigitsInDecimal | server.py:209 | `int()`'s digit loop in base 10 gives plain decimal digits their decimal value. |
| Decimal.UnderscoreIgnored | server.py:209 | An underscore anywhere among the digits leaves the value `int()` reads unchanged. |
| Decimal.SeparatorForm | server.py:209 | `int()` reads `Content-Length: 1_0` as 10. |
| Decimal.HexForm | server.py:209 | `int()` reads `0x10` as 16. |
| Decimal.SignedBinaryForm | server.py:209 | `int()` reads `-0b11` as -3: the sign comes before the prefix. |
| Decimal.LeadingZeroForm | server.py:209 | `int()` reads `010` as 10: a leading zero does not select octal. |
| Decimal.BarePrefixForm | server.py:209 | `int()` refuses `0x`, a prefix with no digits after it. |
| Utf8.DecodeEncode | server.py:279 | Decoding what `.encode()` produced gives back the text. |
| Utf8.EncodeDecode | server.py:104 | Encoding what `.decode()` accepted gives back the bytes. |
| Utf8.EncodeAppend | server.py:278-279 | Encoding a concatenation is the concatenation of the encodings. |
| Utf8.DecodeFramed | server.py:104 | Every byte string the model decodes also passes MicroPython's lead and continuation byte check, so the model accepts no line that the device would refuse. |
| Utf8.LaxForms | server.py:104 | An overlong NUL (`C0 80`), an encoded surrogate (`ED A0 80`) and a lead byte `F5` pass MicroPython's check but are refused by the model's decoder. |
| Text.SplitJoin | server.py:104 | Joining the pieces of a split with the separator gives back the text. |
| Text.WordsUnwords | server.py:104 | Words separated by spaces are split back into exactly those words. |
| Text.StripSurrounded | server.py:113 | `strip()` removes exactly the surrounding spaces. |
| Text.RemoveDotDot | server.py:79 | `replace("..", "")` leaves no `..` behind. |

## Left out

- `run_script_thread` and `_thread.start_new_thread` (server.py:50-53, 177): executing a script on another thread is outside this model. `Jobs.Registry.Run` registers the stop cell the script would receive, and a script observing that cell is not modelled.
- Concurrency: connections are served one at a time. Interleavings of `uasyncio` tasks with one another, and with script threads, are not modelled.
- `get_fs_stats` computes with floating point; the model uses exact rationals, so single-precision rounding of large volumes is not modelled.
- `ubinascii.a2b_base64`, `ujson.loads` and `ujson.dumps` are parameters (`Foreign.Library`); their own behaviour is not part of this model. A JSON value is only a string, an object or something else.
- Short reads: `reader.read(n)` is modelled as returning `n` bytes or everything that is left, never fewer while the client is still sending.
- `writer.drain()`, `writer.aclose()` and `start_server` (server.py:256, 291-292) have no effect on the bytes exchanged and are not modelled. Neither are the `print` calls.
- Closing file handles (server.py:93, 97): a file's content is the bytes written to it, with no buffering.
- Exceptions other than the ones the code provokes on purpose (out of memory, flash errors in the middle of a write) are not modelled.
- `os.remove` and `os.rmdir` are one operation that removes a file or an empty directory. This is the filesystem's behaviour assumed here; a port where `os.remove` also removes empty directories would agree with it.
- Handlers.SaveResult: a `filename` that is not a string is refused with 500 before `open`. The program would hand it to `open`, whose behaviour on such values is not part of this model.
- Utf8.Decode: decoding is strict RFC 3629. MicroPython's `bytes.decode()` only checks where lead and continuation bytes sit (`Utf8.Framed`), so it also accepts overlong forms (`C0 80`), encoded surrogates (`ED A0 80`) and lead bytes `F5` to `F7` (`Utf8.LaxForms`). For a request line, a header line or a `filename="` line holding such bytes, the device goes on: it answers 401, or it saves the upload and answers 200. The model drops the request without an answer or refuses the upload with 500. An `Authorization` token whose base64 decodes to `admin:admin:` followed by `C0 80` passes `check_auth` on the device (server.py:46) but gets 401 in the model. A file holding such bytes reads 200 through `/api/read` on the device (server.py:201) but 404 in `Handlers.ReadAnswer`. A Dafny `char` cannot hold a surrogate or a value above U+10FFFF, so MicroPython's byte-backed strings are not modelled. `Utf8.DecodeFramed` proves the difference runs one way only: the model accepts nothing the device refuses.
- Upload.UploadRoundTrip: success is proved only for a plain name. For a nested name, `Upload.UploadSavedAsNamed` gives the content at the named path once the upload succeeds. When `ensure_dir` and `open` then succeed is not characterised beyond `Upload.EnsureDirBuildsChain`.
- main.py and app.js are not part of this model.
