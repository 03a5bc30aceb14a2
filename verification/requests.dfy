/**
 * Whole requests and sequences of requests against the shared records.
 *
 * An upload is the `file` and `field` events of its multipart parts, in the
 * order they arrive, followed by `finish`; a delete touches only the disk.
 * Because the request and response records are never reset, what one request
 * leaves behind decides what the next one does, and the lemmas here follow
 * that across requests.
 */
module Requests {
  import opened Naming
  import opened Gateway

  /** One part of a multipart body: a file (with the unique temporary name chosen for it) or a field. */
  datatype Part =
    | FilePart(fileName: string, tmpName: string, data: Bytes)
    | FieldPart(name: string, value: string)

  /** The event handler for one part. */
  function OnPart(s: Server, p: Part, key: string): (t: Server)
    ensures t.res == s.res
    ensures Invariant(s, key) ==> Invariant(t, key)
  {
    match p
    case FilePart(n, tmp, data) => FileEvent(s, n, tmp, data)
    case FieldPart(n, v) => FieldEvent(s, n, v, key)
  }

  /** The events of a request's parts, applied in arrival order. */
  function Parse(s: Server, parts: seq<Part>, key: string): (t: Server)
    ensures t.res == s.res
    ensures Invariant(s, key) ==> Invariant(t, key)
  {
    if parts == [] then s
    else OnPart(Parse(s, parts[..|parts| - 1], key), parts[|parts| - 1], key)
  }

  /** The last file part of a request, which is the one `finish` sees. */
  function LastFile(parts: seq<Part>): (r: Option<Part>)
    ensures r.None? <==> forall i :: 0 <= i < |parts| ==> parts[i].FieldPart?
    ensures r.Some? ==> r.value.FilePart? && r.value in parts
  {
    if parts == [] then None
    else if parts[|parts| - 1].FilePart? then Some(parts[|parts| - 1])
    else
      var r := LastFile(parts[..|parts| - 1]);
      assert forall i :: 0 <= i < |parts| - 1 ==> parts[..|parts| - 1][i] == parts[i];
      r
  }

  /** Some field of the request is named "key" and carries the configured key. */
  predicate SendsKey(parts: seq<Part>, key: string) {
    exists i :: 0 <= i < |parts| && parts[i] == FieldPart("key", key)
  }

  /** The request has a file part, and the last one has a non-empty name. */
  predicate CarriesFile(parts: seq<Part>) {
    LastFile(parts).Some? && LastFile(parts).value.fileName != ""
  }

  /** The key is stored exactly when some field sent it, and once stored it is never cleared. */
  lemma {:induction false} ParseKey(s: Server, parts: seq<Part>, key: string)
    ensures Parse(s, parts, key).req.key == (if SendsKey(parts, key) then Some(key) else s.req.key)
  {
    if parts != [] {
      var init := parts[..|parts| - 1];
      var last := parts[|parts| - 1];
      ParseKey(s, init, key);
      if SendsKey(parts, key) && !SendsKey(init, key) {
        assert last == FieldPart("key", key);
      }
      if SendsKey(init, key) {
        var i :| 0 <= i < |init| && init[i] == FieldPart("key", key);
        assert parts[i] == init[i];
      }
    }
  }

  /**
   * After parsing, the request data names the last file part and its
   * temporary file holds that part's bytes; without a file part the name,
   * the temporary name and the disk are as before.
   */
  lemma {:induction false} ParseFile(s: Server, parts: seq<Part>, key: string)
    ensures var t := Parse(s, parts, key);
      match LastFile(parts)
      case None =>
        t.req.fileName == s.req.fileName && t.req.tmpName == s.req.tmpName && t.disk == s.disk
      case Some(f) =>
        && t.req.fileName == Some(f.fileName) && t.req.tmpName == Some(f.tmpName)
        && TmpFile(f.tmpName) in t.disk && t.disk[TmpFile(f.tmpName)] == f.data
  {
    if parts != [] && parts[|parts| - 1].FieldPart? {
      ParseFile(s, parts[..|parts| - 1], key);
    }
  }

  /** Parsing writes temporary files only: every served file is as it was. */
  lemma {:induction false} ParseKeepsPublicFiles(s: Server, parts: seq<Part>, key: string)
    ensures var t := Parse(s, parts, key);
      forall p: Path :: p.PublicFile? ==> (p in t.disk <==> p in s.disk) && (p in s.disk ==> t.disk[p] == s.disk[p])
  {
    if parts != [] {
      ParseKeepsPublicFiles(s, parts[..|parts| - 1], key);
    }
  }

  /** `POST /upload`: the parts' events, then `finish`. */
  function Upload(s: Server, parts: seq<Part>, secure: bool, host: string, key: string): (r: Step)
    ensures Invariant(s, key) ==> Invariant(r.next, key)
    ensures r.next.res.code == 200 || r.next.res.code == s.res.code
    ensures s.res.success ==> r.next.res.success
  {
    FinishEvent(Parse(s, parts, key), secure, host, key)
  }

  /**
   * An upload whose last file part has a name is stored under that name,
   * whatever the key: the destination holds the bytes, the temporary file is
   * gone, no other served file changed, and the reply carries the links. It
   * is 200/true exactly when the key is non-empty and was sent now or
   * earlier; otherwise the old code and flag are repeated.
   */
  lemma UploadStores(s: Server, parts: seq<Part>, secure: bool, host: string, key: string)
    requires Invariant(s, key) && CarriesFile(parts)
    ensures var f := LastFile(parts).value;
      var r := Upload(s, parts, secure, host, key);
      var dest := Destination(f.fileName);
      var granted := key != "" && (SendsKey(parts, key) || s.req.key.Some?);
      && r.out.Sent?
      && dest in r.next.disk && r.next.disk[dest] == f.data
      && TmpFile(f.tmpName) !in r.next.disk
      && (forall p: Path :: p.PublicFile? && p != dest ==>
            (p in r.next.disk <==> p in s.disk) && (p in s.disk ==> r.next.disk[p] == s.disk[p]))
      && r.out.reply.status == (if granted then 200 else s.res.code)
      && r.out.reply.success == (granted || s.res.success)
      && r.out.reply.file == BuildUrls(secure, host, dest.subDir, dest.name, key)
      && r.next.res.file == Some(r.out.reply.file)
      && r.next.req.fileName == Some(f.fileName) && r.next.req.tmpName == Some(f.tmpName)
  {
    var t := Parse(s, parts, key);
    ParseKey(s, parts, key);
    ParseFile(s, parts, key);
    ParseKeepsPublicFiles(s, parts, key);
    FinishMovesUpload(t, secure, host, key);
    var f := LastFile(parts).value;
    var r := Upload(s, parts, secure, host, key);
    var dest := Destination(f.fileName);
    var tmp := TmpFile(f.tmpName);
    assert r == FinishEvent(t, secure, host, key);
    assert t.req.fileName.value == f.fileName && t.req.tmpName.value == f.tmpName;
    assert r.next.disk - {dest, tmp} == t.disk - {dest, tmp};
    forall p: Path | p.PublicFile? && p != dest
      ensures (p in r.next.disk <==> p in s.disk) && (p in s.disk ==> r.next.disk[p] == s.disk[p])
    {
      assert p != tmp;
      SameOutside(r.next.disk, t.disk, dest, tmp, p);
    }
  }

  /** Two disks that agree once `a` and `b` are removed agree on every other path. */
  lemma SameOutside(d1: Disk, d2: Disk, a: Path, b: Path, p: Path)
    requires d1 - {a, b} == d2 - {a, b} && p != a && p != b
    ensures (p in d1 <==> p in d2) && (p in d1 ==> d1[p] == d2[p])
  {
    assert p in d1 <==> p in d1 - {a, b};
    assert p in d2 <==> p in d2 - {a, b};
    if p in d1 {
      assert d1[p] == (d1 - {a, b})[p];
    }
  }

  /**
   * An upload with a wrong key (or none) is still stored, overwriting any
   * served file of the same name, and its delete link carries the
   * configured key: the 400 status is the only sign of refusal.
   */
  lemma UnauthorisedUploadRevealsKey(disk: Disk, parts: seq<Part>, secure: bool, host: string, key: string)
    requires CarriesFile(parts) && !SendsKey(parts, key)
    ensures var r := Upload(Initial(disk), parts, secure, host, key);
      var dest := Destination(LastFile(parts).value.fileName);
      && r.out.Sent? && r.out.reply.status == 400 && !r.out.reply.success
      && dest in r.next.disk && r.next.disk[dest] == LastFile(parts).value.data
      && r.out.reply.file.deleteUrl ==
           Scheme(secure) + host + "/" + "delete?filename=" + dest.name + "&key=" + key + "&subdir=" + dest.subDir
  {
    InitialInvariant(disk, key);
    UploadStores(Initial(disk), parts, secure, host, key);
    var dest := Destination(LastFile(parts).value.fileName);
    var links := BuildUrls(secure, host, dest.subDir, dest.name, key);
    assert Upload(Initial(disk), parts, secure, host, key).out.reply.file == links;
  }

  /**
   * From the initial state the first upload is answered 200 only when it
   * sends the configured key, and a sent non-empty key with a named file
   * always gets 200.
   */
  lemma FirstUploadNeedsKey(disk: Disk, parts: seq<Part>, secure: bool, host: string, key: string)
    ensures var r := Upload(Initial(disk), parts, secure, host, key);
      r.out.Sent? && r.out.reply.status == 200 ==> SendsKey(parts, key)
    ensures CarriesFile(parts) && SendsKey(parts, key) && key != "" ==>
      var r := Upload(Initial(disk), parts, secure, host, key);
      r.out.Sent? && r.out.reply.status == 200 && r.out.reply.success
  {
    InitialInvariant(disk, key);
    ParseKey(Initial(disk), parts, key);
    var t := Parse(Initial(disk), parts, key);
    var r := Upload(Initial(disk), parts, secure, host, key);
    if r.out.Sent? {
      FinishMovesUpload(t, secure, host, key);
    }
    if CarriesFile(parts) {
      UploadStores(Initial(disk), parts, secure, host, key);
    }
  }

  /**
   * A value that reads back unchanged from a query string. The delete link
   * puts the name and the key into its query without encoding them, so a
   * value with `&`, `#`, `+` or `%` is split or decoded into something else.
   */
  predicate QuerySafe(v: string) {
    '&' !in v && '#' !in v && '+' !in v && '%' !in v
  }

  /**
   * For a name and a key that survive the query string, the two links of a
   * successful upload are the way back: the delete link's parameters remove
   * exactly the stored file, and using them again finds nothing.
   */
  lemma DeleteAfterUpload(s: Server, parts: seq<Part>, secure: bool, host: string, key: string)
    requires Invariant(s, key) && CarriesFile(parts) && key != ""
    requires QuerySafe(LastFile(parts).value.fileName) && QuerySafe(key)
    ensures var r := Upload(s, parts, secure, host, key);
      var dest := Destination(LastFile(parts).value.fileName);
      var q := DeleteQuery(Some(dest.name), Some(key), Some(dest.subDir));
      var d := HandleDelete(r.next.disk, q, key);
      && r.out.Sent?
      && r.out.reply.file.deleteUrl ==
           Scheme(secure) + host + "/" + "delete?filename=" + dest.name + "&key=" + key + "&subdir=" + dest.subDir
      && d.reply == Deleted("Deleted file " + dest.name)
      && dest !in d.disk
      && HandleDelete(d.disk, q, key).reply == NotFound
  {
    UploadStores(s, parts, secure, host, key);
    var r := Upload(s, parts, secure, host, key);
    var dest := Destination(LastFile(parts).value.fileName);
    var links := BuildUrls(secure, host, dest.subDir, dest.name, key);
    assert r.out.reply.file == links;
    assert |dest.name| > 0 && |dest.subDir| == 1;
    DeleteByLink(r.next.disk, dest.subDir, dest.name, key);
  }

  /** The delete parameters of a stored file remove it, once. */
  lemma DeleteByLink(disk: Disk, subDir: string, name: string, key: string)
    requires subDir != "" && name != "" && key != "" && PublicFile(subDir, name) in disk
    ensures var q := DeleteQuery(Some(name), Some(key), Some(subDir));
      var d := HandleDelete(disk, q, key);
      && d.reply == Deleted("Deleted file " + name)
      && PublicFile(subDir, name) !in d.disk
      && HandleDelete(d.disk, q, key).reply == NotFound
  {
    var q := DeleteQuery(Some(name), Some(key), Some(subDir));
    assert Target(q) == PublicFile(subDir, name);
  }

  /** A second identical delete after a successful one answers "not found" and changes nothing. */
  lemma DeleteTwice(disk: Disk, q: DeleteQuery, key: string)
    requires HandleDelete(disk, q, key).reply.Deleted?
    ensures var d := HandleDelete(disk, q, key).disk;
      HandleDelete(d, q, key) == DeleteStep(d, NotFound)
  {
  }

  /**
   * Two uploads of the same name, one after the other: the second one's bytes
   * are what is served, whichever keys were sent.
   */
  lemma ReuploadOverwrites(s: Server, first: seq<Part>, second: seq<Part>, secure: bool, host: string, key: string)
    requires Invariant(s, key) && CarriesFile(first) && CarriesFile(second)
    requires LastFile(first).value.fileName == LastFile(second).value.fileName
    ensures var r1 := Upload(s, first, secure, host, key);
      var r2 := Upload(r1.next, second, secure, host, key);
      var dest := Destination(LastFile(second).value.fileName);
      && r1.out.Sent? && r2.out.Sent?
      && dest in r2.next.disk && r2.next.disk[dest] == LastFile(second).value.data
  {
    var r1 := Upload(s, first, secure, host, key);
    UploadStores(s, first, secure, host, key);
    UploadStores(r1.next, second, secure, host, key);
  }

  /**
   * A request with no file part after a completed upload: the shared record
   * still names the earlier upload, whose temporary file is gone, so
   * `finish` deletes the served file and then throws.
   */
  lemma StaleRequestDestroysUpload(s: Server, first: seq<Part>, second: seq<Part>, secure: bool, host: string, key: string)
    requires Invariant(s, key) && CarriesFile(first) && LastFile(second).None?
    ensures var r1 := Upload(s, first, secure, host, key);
      var r2 := Upload(r1.next, second, secure, host, key);
      var dest := Destination(LastFile(first).value.fileName);
      && r1.out.Sent? && dest in r1.next.disk
      && r2.out == Crashed(TempFileMissing)
      && dest !in r2.next.disk
  {
    var r1 := Upload(s, first, secure, host, key);
    UploadStores(s, first, secure, host, key);
    ParseFile(r1.next, second, key);
    FinishWithoutTempFile(Parse(r1.next, second, key), secure, host, key);
  }

  /**
   * Once a key has been accepted it stays in the shared record, so every
   * later upload with a named file is answered 200/true without sending any
   * key.
   */
  lemma LaterUploadsNeedNoKey(s: Server, parts: seq<Part>, secure: bool, host: string, key: string)
    requires Invariant(s, key) && s.req.key.Some? && key != "" && CarriesFile(parts)
    ensures var r := Upload(s, parts, secure, host, key);
      r.out.Sent? && r.out.reply.status == 200 && r.out.reply.success
  {
    UploadStores(s, parts, secure, host, key);
  }

  // ---------------------------------------------------------------------------
  // Sequences of requests

  datatype Request =
    | UploadRequest(parts: seq<Part>, secure: bool, host: string)
    | DeleteRequest(query: DeleteQuery)

  /**
   * One request. An exception thrown by `finish` is not caught and ends the
   * process; the next request is served by a restarted process, which begins
   * with the start-up records over the disk as the throw left it.
   */
  function Handle(s: Server, q: Request, key: string): (t: Server)
    ensures Invariant(s, key) ==> Invariant(t, key)
    ensures q.DeleteRequest? ==> t.req == s.req && t.res == s.res
    ensures q.UploadRequest? ==>
      var r := Upload(s, q.parts, q.secure, q.host, key);
      && t.disk == r.next.disk
      && (r.out.Crashed? ==> t.res.code == 400 && !t.res.success && t.req.key.None? && t.req.fileName.None?)
      && (r.out.Sent? ==> t == r.next)
  {
    match q
    case UploadRequest(parts, secure, host) =>
      var r := Upload(s, parts, secure, host, key);
      if r.out.Crashed? then Initial(r.next.disk) else r.next
    case DeleteRequest(dq) => s.(disk := HandleDelete(s.disk, dq, key).disk)
  }

  /** The requests, served one after the other; every state reached satisfies the invariant. */
  function Serve(s: Server, reqs: seq<Request>, key: string): (t: Server)
    ensures Invariant(s, key) ==> Invariant(t, key)
    decreases |reqs|
  {
    if reqs == [] then s else Serve(Handle(s, reqs[0], key), reqs[1..], key)
  }

  /** No upload among the requests throws, so one process serves them all. */
  predicate Survives(s: Server, reqs: seq<Request>, key: string)
    decreases |reqs|
  {
    reqs == [] ||
    ((reqs[0].UploadRequest? ==> Upload(s, reqs[0].parts, reqs[0].secure, reqs[0].host, key).out.Sent?)
     && Survives(Handle(s, reqs[0], key), reqs[1..], key))
  }

  /**
   * Once a response was 200/true, every later one starts from 200/true for
   * as long as the process lives: the flag is never reset.
   */
  lemma {:induction false} SuccessIsSticky(s: Server, reqs: seq<Request>, key: string)
    requires s.res.code == 200 && s.res.success
    ensures Survives(s, reqs, key) ==>
      var t := Serve(s, reqs, key);
      t.res.code == 200 && t.res.success
    decreases |reqs|
  {
    if reqs != [] && Survives(s, reqs, key) {
      SuccessIsSticky(Handle(s, reqs[0], key), reqs[1..], key);
    }
  }

  /** Once a key was accepted it is not forgotten for as long as the process lives. */
  lemma {:induction false} KeyIsSticky(s: Server, reqs: seq<Request>, key: string)
    requires Invariant(s, key) && s.req.key.Some?
    ensures Survives(s, reqs, key) ==> Serve(s, reqs, key).req.key == Some(key)
    decreases |reqs|
  {
    if reqs != [] && Survives(s, reqs, key) {
      var q := reqs[0];
      if q.UploadRequest? {
        ParseKey(s, q.parts, key);
      }
      KeyIsSticky(Handle(s, q, key), reqs[1..], key);
    }
  }

  /**
   * A request without a file part after an upload throws, and the restarted
   * process has forgotten any accepted key and the 200/true flag: a
   * following upload without the key is answered 400/false.
   */
  lemma CrashForgetsGrant(s: Server, first: seq<Part>, second: seq<Part>, third: seq<Part>, secure: bool, host: string, key: string)
    requires Invariant(s, key) && CarriesFile(first) && LastFile(second).None?
    requires CarriesFile(third) && !SendsKey(third, key)
    ensures var t1 := Handle(s, UploadRequest(first, secure, host), key);
      var t2 := Handle(t1, UploadRequest(second, secure, host), key);
      var r3 := Upload(t2, third, secure, host, key);
      && t2.res.code == 400 && !t2.res.success && t2.req.key.None?
      && r3.out.Sent? && r3.out.reply.status == 400 && !r3.out.reply.success
  {
    StaleRequestDestroysUpload(s, first, second, secure, host, key);
    var t1 := Handle(s, UploadRequest(first, secure, host), key);
    var t2 := Handle(t1, UploadRequest(second, secure, host), key);
    assert t1 == Upload(s, first, secure, host, key).next;
    assert t2 == Initial(t2.disk);
    InitialInvariant(t2.disk, key);
    UploadStores(t2, third, secure, host, key);
  }
}
