# Pixel Backup: file-sync core in Dafny

A model of the file-sync protocol of Pixel Backup, and proofs about it. A watcher
(`server/upload.py`) notices files created in a folder and posts each one to a
server (`server/server.py`). The server writes the bytes to its `uploads`
directory and records the arrival in an in-memory recency store. A polling
client asks the server which filenames arrived after a timestamp and downloads
them by name.

Modules:

- `Common` (`common.dfy`): bytes and `Option`.
- `RecencyStore` (`recency_store.dfy`): `FileManager`. Its dictionary from
  timestamp to filename is an association list `seq<(int, string)>` with
  distinct keys. As in a Python dictionary, assigning to an existing key keeps
  that key's position (`Put`). Discovery is the list comprehension
  (`Selected`). The class `FileManager` holds the list as its field `files`.
  `AddFile` updates `files` in place, with the clock reading passed in as
  `now`. `GetNewFiles` is a function that reads `files`.
- `Server` (`server.dfy`): the three endpoints, on a class `BackupServer`. It
  holds the shared `FileManager` and the content directory as
  `map<string, seq<byte>>`. Whether the write succeeds is an input
  (`WriteResult`). A failed write leaves the store untouched, and a failure
  while copying leaves a truncated file on disk. The replies are a status code
  and a body.
- `Watcher` (`watcher.dfy`): `on_created` and `upload_file` as pure functions.
  What `open` and `requests.post` did are inputs. They yield the request that
  was handed to `requests.post` (if any) and a three-way outcome: uploaded, rejected with the
  server's message, or an error carrying the exception text.
- `Sync` (`sync.dfy`): the two halves joined. One creation event goes end to
  end, and the same name is uploaded twice.

Clock readings and timestamps are integer ticks supplied by the caller. The
Python code uses `datetime.now().timestamp()` floats for them.

The model keeps these behaviours of the code as written:

- A write that fails while copying leaves the partial file under its name, and
  `/download/` serves it. The code has no temporary file and no atomic rename.
- Filenames are not sanitised.
- The recency store is keyed by timestamp, and its result order is the
  dictionary's insertion order.
- Two arrivals at the same tick collide: the later filename replaces the
  earlier one (`OverwriteDropsPrevious`).
- `add_file` returns nothing.
- A non-200 reply whose body is not JSON, or has no `message` field, makes
  `response.json()['message']` raise. The watcher then reports an error, not a
  rejection.
- `/download/` serves whatever the directory holds under the name (`DownloadFile`).

## Model

| member | source | states |
|---|---|---|
| `RecencyStore.FileManager.constructor` | server/server.py:16-17 | the store starts as an empty dictionary |
| `RecencyStore.FileManager.AddFile` | server/server.py:19-20 | keys stay distinct and gain `now`; a fresh key appends `(now, filename)` at the end; an existing key has its filename replaced in place; `now` then maps to `filename` and every other key maps to what it did before |
| `RecencyStore.FileManager.GetNewFiles` | server/server.py:22-27 | a name is returned iff some record of it has a timestamp strictly greater than `since`; no more names than there are records |
| `RecencyStore.Put` | server/server.py:20 | `self.files[k] = v`: afterwards `k` looks up to `v`, and the dictionary grows by at most one entry |
| `RecencyStore.Selected` | server/server.py:23-27 | the comprehension returns no more names than there are records, each of them a recorded filename |
| `RecencyStore.PutFresh` | server/server.py:20 | assigning to a key not yet present appends one entry and leaves all others unchanged |
| `RecencyStore.PutExisting` | server/server.py:20 | assigning to a present key replaces that entry's filename at its original position, dropping the previous filename |
| `RecencyStore.PutKeys` | server/server.py:17-20 | assignment keeps timestamps distinct and adds exactly its own key |
| `RecencyStore.PutLookup` | server/server.py:20 | after assignment the key maps to the new filename; every other key's lookup is unchanged |
| `RecencyStore.SelectedAppend` | server/server.py:23-27 | the comprehension keeps dictionary order: the result for a concatenation is the concatenation of the results |
| `RecencyStore.SelectedMembers` | server/server.py:22-27 | both directions: a name is discovered iff some record of it is strictly later than the cutoff, so a record exactly at the cutoff does not count |
| `RecencyStore.SelectedMonotone` | server/server.py:22-27 | for `t1 <= t2`, the result for `t2` is a subsequence (same order) of the result for `t1` |
| `RecencyStore.SubsequenceMembers` | server/server.py:22-27 | step of `DiscoveryMonotone`: every element of a subsequence occurs in the whole sequence |
| `RecencyStore.DiscoveryMonotone` | server/server.py:22-27 | for `t1 <= t2`, every name found with cutoff `t2` is found with cutoff `t1` |
| `RecencyStore.ArrivalHiddenAtItsTime` | server/server.py:19-27 | recording a name at time `t` leaves discovery with every cutoff `s >= t` exactly as it was, including when `t` collides with an existing timestamp |
| `RecencyStore.ArrivalVisibleBefore` | server/server.py:19-27 | after recording a name at time `t`, discovery with any cutoff before `t` contains it |
| `RecencyStore.FreshArrivalSelected` | server/server.py:19-27 | an arrival at a fresh timestamp is appended to exactly the windows whose cutoff is before it |
| `RecencyStore.OverwriteDropsPrevious` | server/server.py:20 | an arrival at an existing timestamp drops one occurrence of the earlier name from every window covering it, and adds the new name |
| `RecencyStore.ReplayIncreasing` | server/server.py:19-20 | with strictly increasing clock readings each arrival is appended, so the store holds the arrivals in arrival order |
| `RecencyStore.IncreasingWindow` | server/server.py:22-27 | over increasing timestamps, discovery returns the names of a suffix of the records: exactly those later than the cutoff |
| `RecencyStore.ArrivalOrder` | server/server.py:19-27 | starting empty and recording arrivals at increasing clock readings, discovery returns the later arrivals' names in arrival order |
| `Server.BackupServer.constructor` | server/server.py:12-17 | at start-up the content directory keeps what it already holds and the recency store is empty |
| `Server.LeftOnDisk` | server/server.py:35-36 | the directory after the write: the full bytes on success, no change if `open` failed, a prefix of the bytes (at most as many as were copied) if the copy failed; other files keep their bytes |
| `Server.BackupServer.UploadFile` | server/server.py:31-43 | status 200 iff the write succeeded. On success the reply is `{"filename", "status": "success"}`, the directory maps the name to the bytes, the arrival is recorded at `now`, download returns the bytes, every window before `now` contains the name, and every window with cutoff `>= now` is unchanged. On failure the reply is 500 "Failed to upload file: <error>" and the store and every discovery result are unchanged; the directory changes only when the copy failed, to the truncated file |
| `Server.BackupServer.CheckNewFiles` | server/server.py:45-48 | status 200 with `new_files` holding exactly the names recorded strictly after `since`, without changing anything |
| `Server.BackupServer.DownloadFile` | server/server.py:50-58 | status 200 with the stored bytes iff the name is in the directory, otherwise 404 "File not found" |
| `Watcher.Basename` | server/upload.py:15 | the result has no separator, is a suffix of the path, and is the whole path or preceded by a separator |
| `Watcher.BasenameUnique` | server/upload.py:15 | those three properties determine the basename |
| `Watcher.BasenameOfJoin` | server/upload.py:15 | the basename of `dir/name` is `name`, for a separator-free name |
| `Watcher.BasenameIdempotent` | server/upload.py:15 | a basename is its own basename |
| `Watcher.UploadFile` | server/upload.py:12-22 | a request is handed to `requests.post` iff the file opened, to `<url>/upload/`, carrying the basename and the bytes. Uploaded iff the post returned 200. Rejected iff another status came back with a `message` field, and it carries that message. Every exception is an error with its text: open failure, transport failure, missing `message` (KeyError text), undecodable body |
| `Watcher.OnCreated` | server/upload.py:24-26 | an upload attempt happens iff the event is not a directory, and then it is exactly one attempt for `src_path` |
| `Watcher.LogLine` | server/upload.py:18-22 | the printed line ends with the path on success, with the server's message on rejection and with the exception text on error; only a success line starts with 'S' |
| `Watcher.LogLineInjective` | server/upload.py:17-22 | for one path, the printed line determines the outcome, message included |
| `Sync.DeliverEvent` | server/upload.py:24-26 | a directory or an unopenable file leaves the server untouched. Otherwise the directory becomes `LeftOnDisk` of the basename and bytes, so other files keep their bytes. The watcher reports success iff the server's write succeeded, and else a rejection with the 500 message. After success the store is `Put(old store, now, basename)`, the basename downloads as the file's bytes and is discoverable before `now`. A failed write leaves the store unchanged |
| `Sync.UploadTwice` | server/server.py:33-37 | two uploads of one name at fresh, increasing times store one file with the later bytes, and append two arrival records, so a window before both contains the name twice more |

## Left out

- `server/gui.py` is not part of this model: Qt widgets, the server thread and the observer start/stop. Its `GUIUploadHandler` copies the text of `upload_file`, with a log signal instead of `print`; gui.py does not import `requests`, so that copy fails at the post and logs an error for every file it opens.
- `main()` in server/upload.py and the watchdog `Observer`: argument parsing, directory creation, the sleep loop and thread join are process plumbing.
- Routing, multipart parsing, JSON encoding, `FileResponse` headers and `uvicorn.run`: framework machinery. A reply is modelled as a status code and a body.
- Real file and network I/O (`open`, `shutil.copyfileobj`, `os.path.exists`, `requests.post`): their results are inputs (`WriteResult`, `OpenResult`, `PostResult`). `print` is modelled as `LogLine`, the text it would print.
- Concurrency: the code has no locking around `file_manager`, and all operations are modelled as sequential.
- Floating-point timestamps: modelled as integer clock ticks passed as an argument. The conversion of the URL path segment to a float is not modelled.
- `os.path.join` with a filename containing '/' writes into a subdirectory of `uploads/` (and fails if it does not exist); an absolute name or a `..` segment writes outside `uploads/`. The directory is modelled as a flat map from the name as given.
- `os.path.exists` is also true for a directory of that name: not modelled.
- Watcher.Basename: follows POSIX `os.path.basename` ('/' only). The Windows variant also splits on '\' and drive letters, and is not modelled.
- Watcher.UploadFile: a `message` field whose JSON value is not a string is formatted by Python's `str()`; the model only has string messages. A read error during the post appears as a transport failure.
- Sync.AsPostResult: assumes how replies cross the wire. The status is passed through, a `{"message": …}` body is seen as `WithMessage`, and every other server body as `WithoutMessage`. JSON encoding and decoding are not modelled.
- Sync.DeliverEvent: assumes the network delivers the request to this server and carries the reply back. Transport failures are covered by `Watcher.UploadFile` alone.
