/**
 * The request handlers of the upload/delete gateway over a disk modelled as a
 * map from paths to file contents.
 *
 * The server keeps two process-wide records, the request data (`fileName`,
 * `key`, temporary file) and the response data (`code`, `success`, `file`),
 * which the multipart `file`, `field` and `finish` events update in place and
 * which are never reset between requests of one process. An exception thrown
 * in `finish` is not caught and ends the process. `Server` is their value; the step
 * functions below say what each event does to it, and the class `App`
 * holds the same state in fields and is proved to follow the step functions.
 */
module Gateway {
  import opened Naming

  datatype Option<T> = None | Some(value: T)

  type Bytes = seq<bv8>

  /**
   * The two kinds of file the handlers touch: `data/tmp/<name>` for an upload
   * in progress and `data/public/<subDir>/<name>` for a served file.
   */
  datatype Path = TmpFile(name: string) | PublicFile(subDir: string, name: string)

  /** The path as the segments given to `path.join`, in order. */
  function Segments(p: Path): (r: seq<string>)
    ensures |r| >= 3 && r[0] == WorkDir && r[|r| - 1] == p.name
    ensures p.TmpFile? <==> r[1] == TmpDir
  {
    match p
    case TmpFile(n) => [WorkDir, TmpDir, n]
    case PublicFile(d, n) => [WorkDir, ServeDir, d, n]
  }

  /**
   * Distinct paths are distinct segment lists. Segments are joined verbatim
   * here (no normalisation of `..` or of a `/` inside a segment), and only
   * under that reading does each file have exactly one `Path`.
   */
  lemma SegmentsInjective(p: Path, q: Path)
    requires Segments(p) == Segments(q)
    ensures p == q
  {
    assert |Segments(p)| == |Segments(q)|;
    assert Segments(p)[|Segments(p)| - 2] == Segments(q)[|Segments(q)| - 2];
  }

  type Disk = map<Path, Bytes>

  /** JavaScript truthiness of a value that is `null` or a string: only `null` and "" are falsy. */
  predicate Truthy(v: Option<string>)
    ensures Truthy(v) <==> v != None && v != Some("")
  {
    v.Some? && v.value != ""
  }

  /** `reqData`: the client's file name, the accepted key and the temporary file's unique name. */
  datatype ReqData = ReqData(fileName: Option<string>, key: Option<string>, tmpName: Option<string>)

  /** `resData`: the status code, the success flag and the last links returned. */
  datatype ResData = ResData(code: int, success: bool, file: Option<Links>)

  datatype Server = Server(req: ReqData, res: ResData, disk: Disk)

  /** The state at start-up, before any request. */
  function Initial(disk: Disk): (s: Server)
    ensures s.disk == disk && !Truthy(s.req.fileName) && !Truthy(s.req.key)
    ensures s.res.code == 400 && !s.res.success
  {
    Server(ReqData(None, None, None), ResData(400, false, None), disk)
  }

  /**
   * What every reachable state satisfies: file name and temporary file are
   * set together, the only key ever stored is the configured one, and the
   * response is either the initial 400/false or 200/true.
   */
  predicate Invariant(s: Server, key: string) {
    && (s.req.fileName.Some? <==> s.req.tmpName.Some?)
    && (s.req.key.Some? ==> s.req.key.value == key)
    && (s.res.code == 200 || s.res.code == 400)
    && (s.res.success <==> s.res.code == 200)
  }

  lemma InitialInvariant(disk: Disk, key: string)
    ensures Invariant(Initial(disk), key)
  {
  }

  // ---------------------------------------------------------------------------
  // Upload events

  /**
   * The `file` event: remember the client's name and a fresh temporary name,
   * and write the uploaded bytes to the temporary file (as one step).
   */
  function FileEvent(s: Server, fileName: string, tmpName: string, data: Bytes): (t: Server)
    ensures t.req.fileName == Some(fileName) && t.req.tmpName == Some(tmpName) && t.req.key == s.req.key
    ensures t.res == s.res
    ensures TmpFile(tmpName) in t.disk && t.disk[TmpFile(tmpName)] == data
    ensures t.disk - {TmpFile(tmpName)} == s.disk - {TmpFile(tmpName)}
    ensures forall key :: Invariant(s, key) ==> Invariant(t, key)
  {
    s.(req := s.req.(fileName := Some(fileName), tmpName := Some(tmpName)),
       disk := s.disk[TmpFile(tmpName) := data])
  }

  /**
   * The `field` event: a field named "key" whose value equals the configured
   * key is remembered; any other field, a wrong key included, changes nothing.
   */
  function FieldEvent(s: Server, fieldName: string, value: string, key: string): (t: Server)
    ensures t.req.key == (if fieldName == "key" && value == key then Some(key) else s.req.key)
    ensures t.req.fileName == s.req.fileName && t.req.tmpName == s.req.tmpName
    ensures t.res == s.res && t.disk == s.disk
    ensures Invariant(s, key) ==> Invariant(t, key)
  {
    if fieldName == "key" && value == key then s.(req := s.req.(key := Some(value))) else s
  }

  /** Both a file name and an accepted key are present (the truthiness test of `finish`). */
  predicate Granted(req: ReqData)
    ensures Granted(req) ==> req.fileName.Some? && req.key.Some?
    ensures req.fileName == Some("") || req.key == Some("") ==> !Granted(req)
  {
    Truthy(req.fileName) && Truthy(req.key)
  }

  /** Where an upload named `name` is stored. */
  function Destination(name: string): (p: Path)
    ensures p.PublicFile? && (p.subDir == ImgDir || p.subDir == FileDir)
    ensures |p.name| == |name|
  {
    PublicFile(SubDirFor(name), Sanitize(name))
  }

  /** The exceptions `finish` can raise; none is caught, so no response is sent. */
  datatype Fault =
    | FileNameMissing        // `path.extname(null)` throws: no file part was ever received
    | DestinationIsDirectory // the empty name joins to the subdirectory itself, which cannot be unlinked
    | TempFileMissing        // `moveSync` finds no temporary file to move

  datatype UploadReply = UploadReply(status: int, success: bool, file: Links)

  datatype UploadOutcome = Sent(reply: UploadReply) | Crashed(fault: Fault)

  datatype Step = Step(next: Server, out: UploadOutcome)

  /** `fs.unlinkSync`: the file is removed and nothing else changes. */
  function UnlinkSync(disk: Disk, p: Path): (r: Disk)
    requires p in disk
    ensures p !in r && r.Keys == disk.Keys - {p}
    ensures forall q :: q in r ==> r[q] == disk[q]
  {
    disk - {p}
  }

  /**
   * `fs.moveSync` without overwrite, onto a free destination: the contents
   * travel from `src` to `dest`, and nothing else changes.
   */
  function MoveSync(disk: Disk, src: Path, dest: Path): (r: Disk)
    requires src in disk && dest !in disk
    ensures dest in r && r[dest] == disk[src] && src !in r
    ensures r - {src, dest} == disk - {src, dest}
  {
    (disk - {src})[dest := disk[src]]
  }

  /** The temporary file named in the request data exists. */
  predicate TempPresent(s: Server) {
    s.req.tmpName.Some? && TmpFile(s.req.tmpName.value) in s.disk
  }

  /** The test at the start of `finish`: a name and an accepted key switch the response to 200/true. */
  function Grant(s: Server): (t: Server)
    ensures t.req == s.req && t.disk == s.disk && t.res.file == s.res.file
    ensures t.res.code == (if Granted(s.req) then 200 else s.res.code)
    ensures t.res.success == (Granted(s.req) || s.res.success)
  {
    if Granted(s.req) then s.(res := s.res.(code := 200, success := true)) else s
  }

  /**
   * The end of `finish` once the destination is known: remove any file there,
   * move the temporary file onto it and answer with the links and the
   * current code and flag. Without a temporary file the move throws, after
   * the old file is gone.
   */
  function MoveIntoPlace(s: Server, dest: Path, links: Links): (r: Step)
    requires dest.PublicFile?
    ensures r.next.req == s.req
    ensures r.next.res.code == s.res.code && r.next.res.success == s.res.success
    ensures r.out.Sent? <==> TempPresent(s)
    ensures r.out.Sent? ==>
      var tmp := TmpFile(s.req.tmpName.value);
      && dest in r.next.disk && r.next.disk[dest] == s.disk[tmp]
      && tmp !in r.next.disk
      && r.next.disk - {dest, tmp} == s.disk - {dest, tmp}
      && r.out.reply == UploadReply(s.res.code, s.res.success, links)
      && r.next.res.file == Some(links)
    ensures r.out.Crashed? ==>
      r.out.fault == TempFileMissing && r.next.disk == s.disk - {dest} && r.next.res == s.res
  {
    var disk1 := if dest in s.disk then UnlinkSync(s.disk, dest) else s.disk;
    if s.req.tmpName.None? || TmpFile(s.req.tmpName.value) !in disk1 then
      Step(s.(disk := disk1), Crashed(TempFileMissing))
    else
      var tmp := TmpFile(s.req.tmpName.value);
      var s1 := s.(disk := MoveSync(disk1, tmp, dest), res := s.res.(file := Some(links)));
      Step(s1, Sent(UploadReply(s1.res.code, s1.res.success, links)))
  }

  /**
   * The `finish` event: grant 200/true when a name and an accepted key are
   * present, pick the destination from the name, remove any file already
   * there, move the temporary file onto it and answer with the links. The
   * move and the links happen whether or not the key was accepted.
   */
  function FinishEvent(s: Server, secure: bool, host: string, key: string): (r: Step)
    ensures r.next.req == s.req
    ensures r.next.res.code == (if Granted(s.req) then 200 else s.res.code)
    ensures r.next.res.success == (Granted(s.req) || s.res.success)
    ensures Invariant(s, key) ==> Invariant(r.next, key)
    ensures r.out.Sent? <==> Truthy(s.req.fileName) && TempPresent(s)
    ensures r.out.Crashed? ==>
      r.out.fault == (if s.req.fileName.None? then FileNameMissing
                      else if s.req.fileName.value == "" then DestinationIsDirectory
                      else TempFileMissing)
    ensures r.out.Crashed? && r.out.fault != TempFileMissing ==> r.next.disk == s.disk
    ensures r.out.Crashed? ==> r.next.res.file == s.res.file
  {
    var s1 := Grant(s);
    if s1.req.fileName.None? then Step(s1, Crashed(FileNameMissing))
    else
      var name := s1.req.fileName.value;
      var subDir := SubDirFor(name);
      var newName := Sanitize(name);
      if newName == "" then Step(s1, Crashed(DestinationIsDirectory))
      else MoveIntoPlace(s1, PublicFile(subDir, newName), BuildUrls(secure, host, subDir, newName, key))
  }

  /**
   * A completed upload: the destination holds what the temporary file held,
   * the temporary file is gone, no other path changed, and the reply carries
   * the current code and flag with the links to the destination.
   */
  lemma FinishMovesUpload(s: Server, secure: bool, host: string, key: string)
    requires Truthy(s.req.fileName) && TempPresent(s)
    ensures var r := FinishEvent(s, secure, host, key);
      var dest := Destination(s.req.fileName.value);
      var tmp := TmpFile(s.req.tmpName.value);
      && r.out.Sent?
      && dest in r.next.disk && r.next.disk[dest] == s.disk[tmp]
      && tmp !in r.next.disk
      && r.next.disk - {dest, tmp} == s.disk - {dest, tmp}
      && r.out.reply.status == r.next.res.code
      && r.out.reply.success == r.next.res.success
      && r.out.reply.file == BuildUrls(secure, host, dest.subDir, dest.name, key)
      && r.next.res.file == Some(r.out.reply.file)
  {
    var s1 := Grant(s);
    var name := s.req.fileName.value;
    assert Sanitize(name) != "";
    var links := BuildUrls(secure, host, SubDirFor(name), Sanitize(name), key);
    assert FinishEvent(s, secure, host, key) == MoveIntoPlace(s1, Destination(name), links);
  }

  /**
   * A named upload whose temporary file is missing (the request had no file
   * part and the shared record still names an earlier, already moved one):
   * the file at the destination is deleted and then `moveSync` throws.
   */
  lemma FinishWithoutTempFile(s: Server, secure: bool, host: string, key: string)
    requires Truthy(s.req.fileName) && !TempPresent(s)
    ensures var r := FinishEvent(s, secure, host, key);
      && r.out == Crashed(TempFileMissing)
      && r.next.disk == s.disk - {Destination(s.req.fileName.value)}
  {
    var s1 := Grant(s);
    var name := s.req.fileName.value;
    assert Sanitize(name) != "";
    var links := BuildUrls(secure, host, SubDirFor(name), Sanitize(name), key);
    assert FinishEvent(s, secure, host, key) == MoveIntoPlace(s1, Destination(name), links);
  }

  // ---------------------------------------------------------------------------
  // Delete requests

  /** The query of `GET /delete`; `None` is an absent parameter. */
  datatype DeleteQuery = DeleteQuery(filename: Option<string>, key: Option<string>, subdir: Option<string>)

  datatype DeleteReply =
    | Deleted(message: string)
    | Refused(status: int, message: string, fix: string)
  {
    function Status(): int {
      if Deleted? then 200 else status
    }
  }

  const MissingParameter := Refused(400, "Key/urlprefix and/or file name is empty.", "Submit a key and/or file name.")
  const InvalidKey := Refused(401, "Key is invalid.", "Submit a valid key.")
  const NotFound := Refused(400, "Cant find to delete", "None")

  /** A parameter is absent or empty. */
  predicate Incomplete(q: DeleteQuery)
    ensures q.filename.None? || q.key.None? || q.subdir.None? ==> Incomplete(q)
    ensures q.filename == Some("") || q.key == Some("") || q.subdir == Some("") ==> Incomplete(q)
    ensures !Incomplete(q) ==> q.filename.Some? && q.key.Some? && q.subdir.Some?
  {
    !Truthy(q.filename) || !Truthy(q.key) || !Truthy(q.subdir)
  }

  /** The file a complete query names: `data/public/<subdir>/<filename>`, taken verbatim. */
  function Target(q: DeleteQuery): (p: Path)
    requires !Incomplete(q)
    ensures p.PublicFile? && p.subDir == q.subdir.value && p.name == q.filename.value
  {
    PublicFile(q.subdir.value, q.filename.value)
  }

  datatype DeleteStep = DeleteStep(disk: Disk, reply: DeleteReply)

  /**
   * The delete handler as a decision procedure: a missing parameter (400),
   * then a wrong key (401), then an absent file (400); only when all three
   * checks pass is the file removed and 200 returned.
   */
  function HandleDelete(disk: Disk, q: DeleteQuery, key: string): (r: DeleteStep)
    ensures Incomplete(q) ==> r.reply == MissingParameter
    ensures r.reply == InvalidKey <==> !Incomplete(q) && q.key.value != key
    ensures r.reply == NotFound <==> !Incomplete(q) && q.key.value == key && Target(q) !in disk
    ensures r.reply.Deleted? <==> !Incomplete(q) && q.key.value == key && Target(q) in disk
    ensures r.reply.Refused? ==> r.disk == disk
    ensures r.reply.Status() == 200 <==> r.reply.Deleted?
    ensures r.reply.Deleted? ==>
      && r.reply.message == "Deleted file " + q.filename.value
      && r.disk.Keys == disk.Keys - {Target(q)}
      && forall p :: p in r.disk ==> r.disk[p] == disk[p]
  {
    if Incomplete(q) then DeleteStep(disk, MissingParameter)
    else if q.key.value != key then DeleteStep(disk, InvalidKey)
    else if Target(q) !in disk then DeleteStep(disk, NotFound)
    else DeleteStep(disk - {Target(q)}, Deleted("Deleted file " + q.filename.value))
  }

  // ---------------------------------------------------------------------------
  // The server object

  /**
   * The running server process: the configured key, the shared request and
   * response records, and the disk. Each method is one handler invocation.
   */
  class App {
    const configuredKey: string
    var reqFileName: Option<string>
    var reqKey: Option<string>
    var tmpName: Option<string>
    var code: int
    var success: bool
    var file: Option<Links>
    var disk: Disk

    function State(): Server
      reads this
    {
      Server(ReqData(reqFileName, reqKey, tmpName), ResData(code, success, file), disk)
    }

    predicate Valid()
      reads this
    {
      Invariant(State(), configuredKey)
    }

    constructor (key: string, initialDisk: Disk)
      ensures Valid() && configuredKey == key
      ensures State() == Initial(initialDisk)
    {
      configuredKey := key;
      reqFileName, reqKey, tmpName := None, None, None;
      code, success, file := 400, false, None;
      disk := initialDisk;
    }

    /** The `file` event: `tmpName` is the unique name chosen inside `data/tmp`. */
    method OnFile(fileName: string, newTmpName: string, data: Bytes)
      requires Valid()
      modifies this
      ensures Valid()
      ensures State() == FileEvent(old(State()), fileName, newTmpName, data)
    {
      reqFileName := Some(fileName);
      tmpName := Some(newTmpName);
      disk := disk[TmpFile(newTmpName) := data];
    }

    /** The `field` event. */
    method OnField(fieldName: string, value: string)
      requires Valid()
      modifies this
      ensures Valid()
      ensures State() == FieldEvent(old(State()), fieldName, value, configuredKey)
    {
      if fieldName == "key" && value == configuredKey {
        reqKey := Some(value);
      }
    }

    /** The `finish` event for a request that arrived over `secure` with Host header `host`. */
    method OnFinish(secure: bool, host: string) returns (out: UploadOutcome)
      requires Valid()
      modifies this
      ensures Valid()
      ensures Step(State(), out) == FinishEvent(old(State()), secure, host, configuredKey)
    {
      if Truthy(reqFileName) && Truthy(reqKey) {
        code := 200;
        success := true;
      }
      ghost var granted := State();
      assert granted == Grant(old(State()));
      if reqFileName.None? {
        return Crashed(FileNameMissing);
      }
      var name := reqFileName.value;
      var subDir := SubDirFor(name);
      var newName := Sanitize(name);
      if newName == "" {
        return Crashed(DestinationIsDirectory);
      }
      var urls := BuildUrls(secure, host, subDir, newName, configuredKey);
      out := PlaceUpload(PublicFile(subDir, newName), urls);
    }

    /**
     * The tail of the `finish` handler: clear the destination, move the
     * temporary file onto it, and record the links in the shared response
     * record.
     */
    method PlaceUpload(dest: Path, urls: Links) returns (out: UploadOutcome)
      requires Valid() && dest.PublicFile?
      modifies this
      ensures Valid()
      ensures Step(State(), out) == MoveIntoPlace(old(State()), dest, urls)
    {
      if dest in disk {
        disk := UnlinkSync(disk, dest);
      }
      if tmpName.None? || TmpFile(tmpName.value) !in disk {
        return Crashed(TempFileMissing);
      }
      disk := MoveSync(disk, TmpFile(tmpName.value), dest);
      file := Some(urls);
      out := Sent(UploadReply(code, success, urls));
    }

    /** `GET /delete`: touches only the disk, never the shared records. */
    method Delete(q: DeleteQuery) returns (reply: DeleteReply)
      requires Valid()
      modifies this`disk
      ensures Valid()
      ensures DeleteStep(disk, reply) == HandleDelete(old(disk), q, configuredKey)
    {
      if !Truthy(q.filename) || !Truthy(q.key) || !Truthy(q.subdir) {
        return MissingParameter;
      }
      if q.key.value != configuredKey {
        return InvalidKey;
      }
      var target := PublicFile(q.subdir.value, q.filename.value);
      if target !in disk {
        return NotFound;
      }
      disk := disk - {target};
      reply := Deleted("Deleted file " + q.filename.value);
    }
  }
}
