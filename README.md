# hushfile server: the object store, modelled in Dafny

The hushfile server stores client-side encrypted files. An upload
(`POST /api/upload`) takes three form fields: `cryptofile` (the
ciphertext), `metadata` (opaque client metadata) and `deletepassword`.
It draws a fresh 13-character file id and creates a directory of that
name under `data_path`. The directory (a "container") receives
`cryptofile.dat`, `metadata.dat` and `serverdata.json`. The last one holds
the delete password and the uploader's address. Five GET calls share one
view: `exists`, `file` (cryptofile), `metadata`, `delete` and `ip`. Each
first checks the `fileid` query argument and that the container exists.

The model has three layers.

- Values (`objects.dfy`): the data directory is a `Store`, a map from
  file id to `Container`. A container maps each written `Part` to its
  `Content`. `serverdata.json` is held as a decoded `ServerRecord` rather
  than as JSON text. Responses are a status code and a `Body` datatype
  with one alternative per JSON shape the handlers produce.
- Specification functions (`ids.dfy`, `chunks.dfy`, `api.dfy`): id
  allocation, chunked reading, and each handler as a function from the
  old directory to the response and the new directory.
- Running code (`server.dfy`): `DataDir` is a class whose `objects` field
  every filesystem call (`mkdir`, `write`, `unlink`, `rmdir`) updates in
  place. `FileView` keeps `apicall`, `fileid` and `filepath` in fields, as
  the view does. Every handler method is proved to produce exactly what
  the specification function gives. `read_file_chunks` is a method with
  the source's read loop.

The properties are proved in `upload_props.dfy` (one upload),
`view_props.dfy` (one call through the view) and `lifecycle.dfy`
(several requests in a row: upload, fetch, delete; ids stay distinct).

Inputs the server gets from its environment become parameters:

- `draws` lists the successive values of `uuid.uuid4().hex`.
- `failing` names the parts whose write raises an exception.

## Model

| member | source | states |
|---|---|---|
| Ids.Candidate | src/hushfile.py:22 | a draw yields a 13-character lower-case hex id whose last character is the uuid4 version digit `4` |
| Ids.UniqueId | src/hushfile.py:20-25 | the id returned is not a taken container name and is one of the drawn candidates; no id comes back exactly when every candidate collides |
| Ids.UniqueIdFirstFree | src/hushfile.py:22-24 | the id returned is the first candidate that is free; later draws play no part |
| Ids.AllocatedIdEndsInVersionDigit | src/hushfile.py:22 | every allocated id ends in `4` |
| Chunks.Read | src/hushfile.py:31 | `fh.read(n)` returns a prefix of what is left: `min(n, rest)` characters, or everything for a negative `n` |
| Chunks.ChunksOf | src/hushfile.py:28-34 | the generator yields nothing exactly when the file is empty or the chunk size is 0, and never more pieces than the file has characters |
| Chunks.ChunksBounded | src/hushfile.py:28-34 | every yielded piece is non-empty; with a positive chunk size none is longer than it, and all but the last have exactly that size |
| Chunks.ChunksConcat | src/hushfile.py:28-34 | the pieces joined give back the whole file for any non-zero chunk size, and nothing for chunk size 0 |
| Chunks.ReadFileChunks | src/hushfile.py:28-34 | the read loop yields the pieces of the file, non-empty and bounded, whose concatenation is the file's content |
| Api.Get | src/hushfile.py:116 | a missing query argument gives no value; a present one gives its value |
| Api.FirstMissing | src/hushfile.py:49-60 | no field is reported exactly when all required fields are present; a reported field is required and absent |
| Api.NoneMissingIffHasFields | src/hushfile.py:49-60 | the field check passes if and only if `cryptofile`, `metadata` and `deletepassword` are all present |
| Api.FirstMissingAt | src/hushfile.py:50-51 | the field reported is the first absent one in the checking order |
| Api.ServerData | src/hushfile.py:144-145 | a server record is found exactly when the container holds a `serverdata.json`, and the record found is the one stored there |
| Api.UnlinkAll | src/hushfile.py:150-151 | unlinking only removes parts and keeps the others unchanged; success removes exactly the listed parts; failure means a listed part was missing |
| Api.UnlinkAllSucceeds | src/hushfile.py:150-151 | the unlink loop succeeds if and only if every listed part is present and listed once, and then it has removed exactly the listed parts |
| Api.UnlinkAllStops | src/hushfile.py:150-151 | a failed unlink loop stops at the first part it cannot unlink: the parts before it are removed and all others are kept |
| Api.ClientIp | src/hushfile.py:86-88 | the recorded address is the `X-Forwarded-For` value when the request carries one, else the peer address |
| Api.WriteFile | src/hushfile.py:37-44 | a write succeeds if and only if it does not raise and the container exists; it then sets that one part and changes no other container |
| Api.Upload | src/hushfile.py:47-108 | 400 if and only if a field is missing; 500 if and only if the fields are present and no free id can be drawn; any answer other than 200 leaves the directory unchanged |
| Api.ReadPart | src/hushfile.py:134-140 | 200 with a stream if and only if the part is stored, else 500 |
| Api.Ip | src/hushfile.py:157-163 | 200 if and only if `serverdata.json` is there, and then the body carries its `clientip`; else 500 |
| Api.Delete | src/hushfile.py:142-155 | 401 if and only if the record is there and the password is absent or differs, and then nothing changes; 200 only with the right password, and then the container is gone; other answers keep every name |
| Api.Operation | src/hushfile.py:128 | only `delete` can change the directory; `exists` answers 200 with `exists: true` |
| Api.Dispatch | src/hushfile.py:115-129 | 400 if and only if `fileid` is missing or empty; 404 if and only if it names no container; the directory changes only on `delete` of an existing container |
| Server.DataDir.Mkdir | src/hushfile.py:64 | a new empty container appears under a free id; nothing else changes |
| Server.DataDir.WriteFile | src/hushfile.py:37-44 | a successful write stores the part; a failed one answers "unable to write <name>" with an empty file id and changes nothing |
| Server.DataDir.Unlink | src/hushfile.py:151 | a present part is removed and reported; a missing one is reported and nothing changes |
| Server.DataDir.Rmdir | src/hushfile.py:152 | only an empty container is removed |
| Server.DataDir.Upload | src/hushfile.py:47-108 | the upload handler's answer and the new directory are those of the upload specification |
| Server.FileView.constructor | src/hushfile.py:111-113 | the view remembers its API call |
| Server.FileView.DispatchRequest | src/hushfile.py:115-129 | the guard and the selected call give the answer and the new directory of the dispatch specification |
| Server.FileView.Exists | src/hushfile.py:131-132 | answers 200 with `exists: true` for the id |
| Server.FileView.ReadPart | src/hushfile.py:134-140 | streams the part's chunks, or 500 when the part is missing |
| Server.FileView.CryptoFile | src/hushfile.py:134-136 | streams `cryptofile.dat` |
| Server.FileView.Metadata | src/hushfile.py:138-140 | streams `metadata.dat` |
| Server.FileView.Delete | src/hushfile.py:142-155 | the password check, the three unlinks and the rmdir give the answer and the new directory of the delete specification |
| Server.FileView.Ip | src/hushfile.py:157-163 | answers the recorded uploader address, or 500 without `serverdata.json` |
| UploadProperties.MissingFieldRejected | src/hushfile.py:49-60 | a request lacking a field gets 400 naming the first missing field with an empty file id, and the directory is unchanged |
| UploadProperties.UploadSucceeds | src/hushfile.py:47-108 | an upload succeeds if and only if the fields are present, an id is drawn and no write fails; then the id is fresh and well shaped and the directory gains exactly the container holding what was submitted |
| UploadProperties.UploadAllocated | src/hushfile.py:62-93 | once an id is drawn, the first failing write decides the answer and which parts the new container holds |
| UploadProperties.WriteFailureLeavesPartialObject | src/hushfile.py:69-93 | a failed write answers "unable to write <name>" with status 200 and leaves the parts written before it |
| UploadProperties.UploadKeepsExisting | src/hushfile.py:62-93 | every existing container is unchanged and at most the allocated id is added |
| UploadProperties.UploadPreservesWellFormed | src/hushfile.py:64-93 | an upload only leaves containers whose parts are a prefix of the write order |
| ViewProperties.DispatchGuard | src/hushfile.py:116-126 | a missing or empty `fileid` gives 400 "missing fileid"; an unknown one gives 404 with `exists: false`; neither changes anything |
| ViewProperties.ExistsIffContainer | src/hushfile.py:122-132 | `exists` answers 200 if and only if the container exists, whatever parts it holds, and changes nothing |
| ViewProperties.ReadsChangeNothing | src/hushfile.py:115-163 | every call but `delete` leaves the directory unchanged |
| ViewProperties.ReadStreamsPart | src/hushfile.py:134-140 | a stored part streams back exactly, in non-empty pieces of at most 4096 characters |
| ViewProperties.IpNeedsNoPassword | src/hushfile.py:157-163 | `ip` reveals the recorded address whatever password is given |
| ViewProperties.DeleteUnauthorized | src/hushfile.py:143-149 | an absent or wrong password gives 401 with `deleted: false` and changes nothing |
| ViewProperties.UnlinkComplete | src/hushfile.py:150-151 | unlinking the three parts of a complete container empties it |
| ViewProperties.DeleteAuthorized | src/hushfile.py:142-155 | the right password on a well-formed container removes it entirely, with 200 and `deleted: true` |
| ViewProperties.PartialObjectIsPermanent | src/hushfile.py:142-145 | a container without `serverdata.json` is changed by no call; `delete` answers 500 |
| ViewProperties.DispatchTouchesOnlyItsId | src/hushfile.py:115-163 | no call changes a container other than the one it names |
| ViewProperties.DispatchPreservesWellFormed | src/hushfile.py:142-155 | every call keeps the directory well formed |
| Lifecycle.StoredObjectRetrievable | src/hushfile.py:131-163 | a container holding a request's submission reads back as submitted through `exists`, `file`, `metadata` and `ip` (reading does not translate line endings here; see Left out) |
| Lifecycle.UploadThenFetch | src/hushfile.py:47-140 | after a successful upload the ciphertext and metadata read back as they were stored, character for character, and `ip` gives the uploader's address |
| Lifecycle.UploadThenDelete | src/hushfile.py:47-155 | the id is unknown before the upload and known after it; deleting with the submitted password restores the earlier directory, after which every call on the id gets 404 |
| Lifecycle.WrongPasswordKeepsObject | src/hushfile.py:142-149 | after a successful upload a wrong password gives 401 and the object still exists and streams |
| Lifecycle.StepFacts | src/hushfile.py:62-64 | one upload keeps every name and hands out only a name that was free |
| Lifecycle.UploadedIdsDistinct | src/hushfile.py:20-25 | the ids handed out by any run of uploads are pairwise distinct, none existed before, and all exist after |
| Lifecycle.SampleCalls | src/hushfile.py:134-155 | on the directory the sample upload leaves, the ciphertext streams back as one piece, a wrong password gets 401, the right one restores the earlier directory |
| Lifecycle.Walkthrough | src/hushfile.py:47-155 | a concrete run: upload "AAAA"/"BBBB"/"secret", fetch "AAAA" back, a wrong password is refused, the right one restores the directory |

## Left out

- Ids.UniqueId: the source redraws without bound; the model stops when the given draws run out. The handlers then answer 500, as Flask does when recursion depth is exceeded.
- Chunks.ReadFileChunks: the generator is lazy; the model returns all pieces at once. `cryptofile()` and `metadata()` return their 200 response before the file is opened. So when the part is missing, the error comes while the WSGI server iterates the body, and that server decides what the client sees. The model answers 500 at the handler instead. A read that fails partway through a stream is not modelled.
- Chunks.Read: the file is opened in text mode, so Python turns `"\r"` and `"\r\n"` into `"\n"` when reading, while the write keeps them. This translation is not modelled: `Chunks.Read` and `Api.ReadPart` return the stored characters unchanged. The round trip proved by `Lifecycle.UploadThenFetch` holds for texts without carriage returns; an upload of `"a\r\nb"` reads back as `"a\nb"` from the program.
- Email notification after an upload (lines 95-103): it needs the mail server and configuration, and it does not touch the directory.
- UploadProperties.UploadSucceeds: the "if and only if" holds for the program only when notification is off or `mail.send` succeeds. An exception from `mail.send` is not caught, so the program answers 500 after all three parts are stored; the model answers 200.
- Flask routing and dispatch: `add_url_rule` and `getattr(self, self.apicall)` are a datatype and a `match`. `Response` objects, mimetypes and exact JSON text are left out. Bodies are datatypes; `UploadState.Text` gives the `status` strings.
- Loading `config.json`, `app.config` and `app.run`: `data_path` is the store itself.
- Path semantics of `fileid`: the id is joined to `data_path` with `os.path.join`, so an id with `/` or `..` could name another path. Here the id is just a key in the store.
- Filesystem errors other than a failing write are left out: `mkdir` failing, permissions, partly written files, encodings. A failed write leaves its part absent.
- A corrupt or non-JSON `serverdata.json`: the file is always a decoded record, or it is absent (which answers 500).
- Concurrency: the existence check in `get_unique_id` and the later `mkdir` are not atomic in the source; the model runs requests one at a time.
- The status of `write_file`'s error answer is Flask's default, 200, as written. The model keeps that status and does not correct it.
