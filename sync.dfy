/**
 * The two halves put together: a creation event seen by the watcher of
 * server/upload.py is posted to the `/upload/` endpoint of server/server.py.
 * The network is taken to deliver the request and carry the reply back.
 */
module Sync {
  import opened Common
  import opened RecencyStore
  import S = Server
  import W = Watcher

  /** How the watcher reads a server reply: its status and whether it has a "message" field. */
  function AsPostResult(reply: S.Reply): (p: W.PostResult)
    ensures p.Responded? && p.statusCode == reply.status
    ensures p.json.WithMessage? <==> reply.body.Message?
    ensures reply.body.Message? ==> p.json.message == reply.body.message
  {
    match reply.body
    case Message(m) => W.Responded(reply.status, W.WithMessage(m))
    case _ => W.Responded(reply.status, W.WithoutMessage)
  }

  /** Stands for the response when nothing was posted; the watcher never looks at it. */
  const NoResponse: W.PostResult := W.PostFailed("nothing posted")

  /**
   * One creation event, end to end. A directory, or a file that cannot be
   * opened, leaves the server untouched. Otherwise the server stores the
   * bytes under the file's basename; the watcher reports success exactly when
   * the write succeeded, and then the name is discoverable and downloadable.
   */
  method DeliverEvent(server: S.BackupServer, serverUrl: string, event: W.FileEvent,
                      open: W.OpenResult, write: S.WriteResult, now: int)
    returns (attempt: Option<W.Attempt>)
    requires server.Valid()
    modifies server, server.fileManager
    ensures server.Valid()
    ensures attempt.Some? <==> !event.isDirectory
    ensures attempt.Some? ==> attempt.value.filePath == event.srcPath
    ensures event.isDirectory || open.OpenFailed? ==>
              server.uploads == old(server.uploads) && server.fileManager.files == old(server.fileManager.files)
    ensures !event.isDirectory && open.OpenFailed? ==> attempt.value.outcome == W.Errored(open.error)
    ensures !event.isDirectory && open.Opened? ==>
              (attempt.value.outcome == if write.Written? then W.Uploaded
                                        else W.Rejected(S.UploadFailurePrefix + write.error))
    ensures !event.isDirectory && open.Opened? && write.Written? ==>
              var name := W.Basename(event.srcPath);
              && server.DownloadFile(name) == S.Reply(200, S.FileBytes(open.content))
              && (forall s :: s < now ==> name in server.fileManager.GetNewFiles(s))
    ensures !event.isDirectory && open.Opened? ==>
              server.uploads == S.LeftOnDisk(old(server.uploads), W.Basename(event.srcPath), open.content, write)
    ensures !event.isDirectory && open.Opened? && write.Written? ==>
              server.fileManager.files == Put(old(server.fileManager.files), now, W.Basename(event.srcPath))
    ensures !event.isDirectory && open.Opened? && write.Failed() ==>
              server.fileManager.files == old(server.fileManager.files)
  {
    if event.isDirectory || open.OpenFailed? {
      attempt := W.OnCreated(serverUrl, event, open, NoResponse);
    } else {
      var reply := server.UploadFile(W.Basename(event.srcPath), open.content, write, now);
      attempt := W.OnCreated(serverUrl, event, open, AsPostResult(reply));
    }
  }

  /**
   * Uploading the same name twice, at two fresh and increasing clock
   * readings: one stored file holding the later bytes, and two arrival
   * records, both seen by a window that starts before the first.
   */
  method UploadTwice(server: S.BackupServer, name: string, first: seq<byte>, second: seq<byte>, t1: int, t2: int)
    requires server.Valid()
    requires t1 < t2
    requires t1 !in Keys(server.fileManager.files) && t2 !in Keys(server.fileManager.files)
    modifies server, server.fileManager
    ensures server.Valid()
    ensures server.uploads == old(server.uploads)[name := second]
    ensures server.DownloadFile(name) == S.Reply(200, S.FileBytes(second))
    ensures forall s :: server.fileManager.GetNewFiles(s) ==
              old(server.fileManager.GetNewFiles(s)) + (if t1 > s then [name] else []) + (if t2 > s then [name] else [])
    ensures forall s :: s < t1 ==>
              multiset(server.fileManager.GetNewFiles(s))[name] == multiset(old(server.fileManager.GetNewFiles(s)))[name] + 2
  {
    ghost var e0 := server.fileManager.files;
    var r1 := server.UploadFile(name, first, S.Written, t1);
    ghost var e1 := server.fileManager.files;
    PutKeys(e0, t1, name);
    var r2 := server.UploadFile(name, second, S.Written, t2);
    forall s ensures Selected(server.fileManager.files, s) ==
                     Selected(e0, s) + (if t1 > s then [name] else []) + (if t2 > s then [name] else [])
    {
      FreshArrivalSelected(e0, t1, name, s);
      FreshArrivalSelected(e1, t2, name, s);
    }
  }
}
