/**
 * The HTTP endpoints of server/server.py over the shared recency store and
 * the content directory `uploads/`. Routing, multipart parsing and JSON
 * encoding are left to the framework; a reply is its status code and the
 * body it carries. The write of the uploaded bytes is an input: whether
 * `open` and `shutil.copyfileobj` succeed is decided by the environment.
 */
module Server {
  import opened Common
  import opened RecencyStore

  /** The JSON (or file) bodies the three endpoints send. */
  datatype Body =
    | UploadAccepted(filename: string)   // {"filename": <name>, "status": "success"}
    | Message(message: string)           // {"message": <text>}
    | NewFiles(newFiles: seq<string>)    // {"new_files": [...]}
    | FileBytes(content: seq<byte>)      // the raw file, as FileResponse sends it

  datatype Reply = Reply(status: int, body: Body)

  /**
   * How writing `uploads/<name>` went. `open(path, "wb")` truncates before any
   * byte is copied, so a failure while copying leaves a file holding the
   * bytes written so far; a failure to open leaves the directory as it was.
   */
  datatype WriteResult =
    | Written
    | OpenFailed(error: string)
    | CopyFailed(bytesWritten: nat, error: string)
  {
    predicate Failed() { !Written? }
  }

  function Min(a: nat, b: nat): nat { if a <= b then a else b }

  /**
   * The directory after writing `content` to `filename`: all of it on
   * success, nothing if the file could not be opened, and the bytes copied
   * so far if the copy failed. Other files are never touched.
   */
  function LeftOnDisk(uploads: map<string, seq<byte>>, filename: string, content: seq<byte>, write: WriteResult): (r: map<string, seq<byte>>)
    ensures r.Keys == if write.OpenFailed? then uploads.Keys else uploads.Keys + {filename}
    ensures forall n :: n in uploads && n != filename ==> r[n] == uploads[n]
    ensures write.Written? ==> r[filename] == content
    ensures write.CopyFailed? ==> r[filename] <= content && |r[filename]| <= write.bytesWritten
  {
    match write
    case Written => uploads[filename := content]
    case OpenFailed(_) => uploads
    case CopyFailed(k, _) => uploads[filename := content[..Min(k, |content|)]]
  }

  const UploadFailurePrefix: string := "Failed to upload file: "
  const NotFound: string := "File not found"

  /** The server process: the module-level `file_manager` and the `uploads` directory. */
  class BackupServer {
    const fileManager: FileManager
    /** The flat content directory: filename to bytes. */
    var uploads: map<string, seq<byte>>

    ghost predicate Valid()
      reads this, fileManager
    {
      fileManager.Valid()
    }

    /**
     * Start-up: `os.makedirs(UPLOAD_DIR, exist_ok=True)` keeps whatever the
     * directory already holds, and the recency store starts empty.
     */
    constructor (existing: map<string, seq<byte>>)
      ensures Valid() && fresh(fileManager)
      ensures fileManager.files == [] && uploads == existing
    {
      fileManager := new FileManager();
      uploads := existing;
    }

    /**
     * `POST /upload/`: write the bytes to `uploads/<filename>`, and only once
     * the write succeeded record the arrival at clock reading `now`. Any
     * exception gives a 500 with the failure message and leaves the store alone.
     */
    method UploadFile(filename: string, content: seq<byte>, write: WriteResult, now: int) returns (reply: Reply)
      requires Valid()
      modifies this, fileManager
      ensures Valid()
      ensures reply.status == 200 <==> write.Written?
      ensures write.Written? ==> reply == Reply(200, UploadAccepted(filename))
      ensures write.Failed() ==> reply == Reply(500, Message(UploadFailurePrefix + write.error))
      ensures uploads == LeftOnDisk(old(uploads), filename, content, write)
      ensures write.Written? ==> fileManager.files == Put(old(fileManager.files), now, filename)
      ensures write.Failed() ==> fileManager.files == old(fileManager.files)
      ensures write.Failed() ==> forall s :: fileManager.GetNewFiles(s) == old(fileManager.GetNewFiles(s))
      ensures write.Written? ==> DownloadFile(filename) == Reply(200, FileBytes(content))
      ensures write.Written? ==> forall s :: s < now ==> filename in fileManager.GetNewFiles(s)
      ensures write.Written? ==> forall s :: s >= now ==> fileManager.GetNewFiles(s) == old(fileManager.GetNewFiles(s))
    {
      if write.Written? {
        uploads := uploads[filename := content];
        ghost var before := fileManager.files;
        fileManager.AddFile(filename, now);
        forall s | s < now ensures filename in Selected(fileManager.files, s) {
          ArrivalVisibleBefore(before, now, filename, s);
        }
        forall s | s >= now ensures Selected(fileManager.files, s) == Selected(before, s) {
          ArrivalHiddenAtItsTime(before, now, filename, s);
        }
        reply := Reply(200, UploadAccepted(filename));
      } else {
        if write.CopyFailed? {
          uploads := uploads[filename := content[..Min(write.bytesWritten, |content|)]];
        }
        reply := Reply(500, Message(UploadFailurePrefix + write.error));
      }
    }

    /** `GET /check_new_files/{since}`: a read of the recency store. */
    function CheckNewFiles(since: int): (r: Reply)
      reads this, fileManager
      ensures r.status == 200 && r.body.NewFiles?
      ensures |r.body.newFiles| <= |fileManager.files|
      ensures forall n :: n in r.body.newFiles <==>
                exists i :: 0 <= i < |fileManager.files| && fileManager.files[i].0 > since && fileManager.files[i].1 == n
    {
      Reply(200, NewFiles(fileManager.GetNewFiles(since)))
    }

    /** `GET /download/{filename}`: the stored bytes, or 404 "File not found". */
    function DownloadFile(filename: string): (r: Reply)
      reads this
      ensures r.status == 200 <==> filename in uploads
      ensures filename in uploads ==> r.body == FileBytes(uploads[filename])
      ensures filename !in uploads ==> r == Reply(404, Message(NotFound))
    {
      if filename in uploads then Reply(200, FileBytes(uploads[filename]))
      else Reply(404, Message(NotFound))
    }
  }
}
