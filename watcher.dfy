/**
 * The watcher side, server/upload.py: `UploadHandler.on_created` and
 * `UploadHandler.upload_file`. Opening the file and posting it are inputs
 * (what the filesystem and the network did), so both handlers are pure
 * functions to the attempt they make and its outcome.
 */
module Watcher {
  import opened Common

  /** A watchdog creation event. */
  datatype FileEvent = FileEvent(srcPath: string, isDirectory: bool)

  /** What `open(file_path, 'rb')` gave: the bytes that will be read, or the exception text. */
  datatype OpenResult = Opened(content: seq<byte>) | OpenFailed(error: string)

  /** What `response.json()['message']` finds in a response body. */
  datatype ResponseJson =
    | WithMessage(message: string)   // a JSON object with a "message" field
    | WithoutMessage                 // a JSON object without that field: KeyError
    | NotJson(error: string)         // any other failure (undecodable, or not an object): its exception text

  /** What `requests.post` gave: a response, or the exception text. */
  datatype PostResult = Responded(statusCode: int, json: ResponseJson) | PostFailed(error: string)

  /** The multipart request: target URL, the name the file is sent under, its bytes. */
  datatype Request = Request(url: string, filename: string, content: seq<byte>)

  /** The three ways an upload ends; each is reported and none escapes the handler. */
  datatype Outcome = Uploaded | Rejected(message: string) | Errored(error: string)

  /** One call of `upload_file`: the path, the request handed to `requests.post` if any, and the outcome. */
  datatype Attempt = Attempt(filePath: string, posted: Option<Request>, outcome: Outcome)

  /** `str(KeyError('message'))`. */
  const MissingMessageError: string := "'message'"

  /** `os.path.basename` with POSIX separators: the part after the last '/'. */
  function Basename(path: string): (r: string)
    ensures '/' !in r
    ensures |r| <= |path| && r == path[|path| - |r|..]
    ensures |r| < |path| ==> path[|path| - |r| - 1] == '/'
  {
    if path == [] then []
    else if path[|path| - 1] == '/' then []
    else
      var b := Basename(path[..|path| - 1]);
      assert path[..|path| - 1][|path| - 1 - |b|..] + [path[|path| - 1]] == path[|path| - 1 - |b|..];
      b + [path[|path| - 1]]
  }

  /** The three postconditions of `Basename` determine its result. */
  lemma {:induction false} BasenameUnique(path: string, r: string)
    requires '/' !in r
    requires |r| <= |path| && r == path[|path| - |r|..]
    requires |r| < |path| ==> path[|path| - |r| - 1] == '/'
    ensures r == Basename(path)
  {
    var b := Basename(path);
    if |r| < |path| { NoLongerThanSeparatedSuffix(path, b, r); }
    if |b| < |path| { NoLongerThanSeparatedSuffix(path, r, b); }
  }

  /** A separator-free suffix is no longer than any suffix preceded by a separator. */
  lemma {:induction false} NoLongerThanSeparatedSuffix(path: string, s: string, t: string)
    requires '/' !in s
    requires |s| <= |path| && s == path[|path| - |s|..]
    requires |t| < |path| && path[|path| - |t| - 1] == '/'
    ensures |s| <= |t|
  {
    forall j | |path| - |s| <= j < |path| ensures path[j] != '/' {
      assert path[j] == s[j - (|path| - |s|)];
    }
    var j := |path| - |t| - 1;
    assert path[j] == '/';
  }

  /** The basename of `dir/name` is `name` when `name` holds no separator. */
  lemma {:induction false} BasenameOfJoin(dir: string, name: string)
    requires '/' !in name
    ensures Basename(dir + "/" + name) == name
  {
    var p := dir + "/" + name;
    assert p[|p| - |name|..] == name;
    assert p[|p| - |name| - 1] == '/';
    BasenameUnique(p, name);
  }

  /** A basename is its own basename. */
  lemma {:induction false} BasenameIdempotent(path: string)
    ensures Basename(Basename(path)) == Basename(path)
  {
    var b := Basename(path);
    assert b[|b| - |b|..] == b;
    BasenameUnique(b, b);
  }

  /**
   * `upload_file(file_path)`: open the file, post it under its basename to
   * `<serverUrl>/upload/`, and classify: 200 is success, another status is a
   * rejection carrying the response's `message`, and every exception on the
   * way (open, transport, reading the `message` field) is caught as an error.
   */
  function UploadFile(serverUrl: string, filePath: string, open: OpenResult, post: PostResult): (a: Attempt)
    ensures a.filePath == filePath
    ensures a.posted.Some? <==> open.Opened?
    ensures open.Opened? ==> a.posted == Some(Request(serverUrl + "/upload/", Basename(filePath), open.content))
    ensures a.outcome.Uploaded? <==> open.Opened? && post.Responded? && post.statusCode == 200
    ensures a.outcome.Rejected? <==> open.Opened? && post.Responded? && post.statusCode != 200 && post.json.WithMessage?
    ensures a.outcome.Rejected? ==> a.outcome.message == post.json.message
    ensures open.OpenFailed? ==> a.outcome == Errored(open.error)
    ensures open.Opened? && post.PostFailed? ==> a.outcome == Errored(post.error)
    ensures open.Opened? && post.Responded? && post.statusCode != 200 && post.json.WithoutMessage? ==>
              a.outcome == Errored(MissingMessageError)
    ensures open.Opened? && post.Responded? && post.statusCode != 200 && post.json.NotJson? ==>
              a.outcome == Errored(post.json.error)
  {
    match open
    case OpenFailed(e) => Attempt(filePath, None, Errored(e))
    case Opened(content) =>
      var request := Request(serverUrl + "/upload/", Basename(filePath), content);
      var outcome :=
        match post
        case PostFailed(e) => Errored(e)
        case Responded(code, json) =>
          if code == 200 then Uploaded
          else match json
            case WithMessage(m) => Rejected(m)
            case WithoutMessage => Errored(MissingMessageError)
            case NotJson(e) => Errored(e);
      Attempt(filePath, Some(request), outcome)
  }

  /** `on_created(event)`: one upload of `src_path` for a file, nothing for a directory. */
  function OnCreated(serverUrl: string, event: FileEvent, open: OpenResult, post: PostResult): (r: Option<Attempt>)
    ensures r.Some? <==> !event.isDirectory
    ensures r.Some? ==> r.value.filePath == event.srcPath
    ensures r.Some? ==> r.value == UploadFile(serverUrl, event.srcPath, open, post)
  {
    if event.isDirectory then None else Some(UploadFile(serverUrl, event.srcPath, open, post))
  }

  /**
   * The line `upload_file` prints for an attempt: it ends with the reported
   * message or error (with the path for a success), and only a success line
   * starts with 'S'.
   */
  function LogLine(a: Attempt): (r: string)
    ensures |r| > |a.filePath|
    ensures a.outcome.Uploaded? ==> r[|r| - |a.filePath|..] == a.filePath
    ensures a.outcome.Rejected? ==> |r| > |a.outcome.message| && r[|r| - |a.outcome.message|..] == a.outcome.message
    ensures a.outcome.Errored? ==> |r| > |a.outcome.error| && r[|r| - |a.outcome.error|..] == a.outcome.error
    ensures r[0] == 'S' <==> a.outcome.Uploaded?
  {
    match a.outcome
    case Uploaded => "Successfully uploaded " + a.filePath
    case Rejected(m) => "Failed to upload " + a.filePath + ": " + m
    case Errored(e) => "Error uploading " + a.filePath + ": " + e
  }

  /** For a given path, the printed line tells the outcome apart, message included. */
  lemma {:induction false} LogLineInjective(a1: Attempt, a2: Attempt)
    requires a1.filePath == a2.filePath
    requires LogLine(a1) == LogLine(a2)
    ensures a1.outcome == a2.outcome
  {
    var l1, l2 := LogLine(a1), LogLine(a2);
    var p := a1.filePath;
    assert l1[0] == l2[0] && l1[1] == l2[1];
    match a1.outcome
    case Uploaded => {
      assert l1[0] == 'S';
    }
    case Rejected(m) => {
      assert l1[0] == 'F';
      var k := |"Failed to upload " + p + ": "|;
      assert l1[k..] == m;
      assert l2[k..] == a2.outcome.message;
    }
    case Errored(e) => {
      assert l1[0] == 'E' && l1[1] == 'r';
      var k := |"Error uploading " + p + ": "|;
      assert l1[k..] == e;
      assert l2[k..] == a2.outcome.error;
    }
  }
}
