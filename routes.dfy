/** The request handlers of main.ts that touch the ledger: the local and the
    remote upload, the history page and the delete API. The multipart upload
    itself is an outcome given as a parameter, as are the clock, the fresh
    tokens and the remote fetch. */
module Routes {
  import opened Wrappers
  import opened ObjectKey
  import opened Progress
  import opened TimeAgo
  import opened UploadLedger

  /** `limit: 50` of the history listing (main.ts:250). */
  const HistoryLimit: nat := 50

  /** Seconds a signed download link stays valid (main.ts:241). */
  const LinkExpirySeconds: nat := 10800

  /** How `await upload.done()` ended. */
  datatype UploadOutcome = Done | Failed(message: string)

  datatype Links = Links(appLink: string, r2Url: string)

  /** A `file` field of the submitted form: its name and its MIME type. */
  datatype FormFile = FormFile(name: string, mimeType: string)

  /** The JSON reply of `/upload-file`. */
  datatype FileReply = LinksReply(links: Links) | ErrorReply(status: nat, message: string)

  /** One NDJSON line of `/upload-remote`. */
  datatype Notification = ProgressNote(progress: nat) | DoneNote(links: Links) | ErrorNote(message: string)

  /** What `fetch(u)` gave: a rejection, or a response with its status flag,
      its Content-Length read as a number (0 when absent) and its
      Content-Type header. */
  datatype FetchReply =
    | NetworkError(message: string)
    | Fetched(ok: bool, contentLength: nat, contentType: Option<string>)

  /** One row of the history page. */
  datatype HistoryRow = HistoryRow(
    key: seq<KeyPart>, fileName: string, age: string, appLink: string, r2Url: string)

  function LinksFor(host: string, publicHost: string, fileName: string): Links {
    Links(AppLink(host, fileName), DirectUrl(publicHost, fileName))
  }

  /** The record written once an upload is done; its key comes from the same
      `now` as its `createdAt`. */
  function NewRecord(
    id: string, fileName: string, host: string, publicHost: string, now: int, source: Source): (r: UploadRecord)
    ensures KeyOf(r) == LedgerKey(MaxDateMs - now, id)
    ensures r.fileName == fileName && r.createdAt == now
  {
    var links := LinksFor(host, publicHost, fileName);
    UploadRecord(id, fileName, links.appLink, links.r2Url, now, source)
  }

  /** What follows `await upload.done()` in both upload routes: on success the
      record is written and the links returned; on failure the ledger is left
      as it was and the message is passed on. */
  method FinishUpload(
    ledger: Ledger, outcome: UploadOutcome, fileName: string,
    host: string, publicHost: string, id: string, now: int, source: Source)
    returns (r: Result<Links>)
    requires ledger.Valid()
    modifies ledger
    ensures ledger.Valid()
    ensures outcome.Failed? ==> r == Failure(outcome.message) && ledger.entries == old(ledger.entries)
    ensures outcome.Done? ==>
      && r == Success(LinksFor(host, publicHost, fileName))
      && ledger.entries == Insert(old(ledger.entries), NewRecord(id, fileName, host, publicHost, now, source))
  {
    if outcome.Failed? {
      return Failure(outcome.message);
    }
    ledger.Put(NewRecord(id, fileName, host, publicHost, now, source));
    r := Success(LinksFor(host, publicHost, fileName));
  }

  /** `POST /upload-file` (main.ts:153-184). */
  method UploadFile(
    ledger: Ledger, file: Option<FormFile>, outcome: UploadOutcome,
    token: string, id: string, now: int, host: string, publicHost: string)
    returns (reply: FileReply)
    requires ledger.Valid() && token != ""
    modifies ledger
    ensures ledger.Valid()
    ensures file.None? ==> reply == ErrorReply(400, "No file") && ledger.entries == old(ledger.entries)
    ensures file.Some? && outcome.Failed? ==>
      reply == ErrorReply(500, outcome.message) && ledger.entries == old(ledger.entries)
    ensures file.Some? && outcome.Done? ==>
      var fileName := FileName(Some(file.value.name), file.value.mimeType, token);
      && reply == LinksReply(LinksFor(host, publicHost, fileName))
      && ledger.entries == Insert(old(ledger.entries), NewRecord(id, fileName, host, publicHost, now, File))
  {
    if file.None? {
      return ErrorReply(400, "No file");
    }
    var fileName := FileName(Some(file.value.name), file.value.mimeType, token);
    var r := FinishUpload(ledger, outcome, fileName, host, publicHost, id, now, File);
    if r.Failure? {
      return ErrorReply(500, r.error);
    }
    reply := LinksReply(r.value);
  }

  /** The progress lines pushed for the reported `loaded` counts. */
  function ProgressNotes(values: seq<nat>): (ns: seq<Notification>)
    ensures |ns| == |values|
    ensures forall i :: 0 <= i < |ns| ==> ns[i] == ProgressNote(values[i])
  {
    if values == [] then [] else [ProgressNote(values[0])] + ProgressNotes(values[1..])
  }

  /** `POST /upload-remote` (main.ts:187-226): the NDJSON lines it streams.
      `reported` are the `loaded` counts of the upload's progress events. */
  method UploadRemote(
    ledger: Ledger, name: Option<string>, fetched: FetchReply, reported: seq<nat>,
    outcome: UploadOutcome, token: string, id: string, now: int, host: string, publicHost: string)
    returns (lines: seq<Notification>)
    requires ledger.Valid() && token != ""
    modifies ledger
    ensures ledger.Valid()
    ensures fetched.NetworkError? ==>
      lines == [ErrorNote(fetched.message)] && ledger.entries == old(ledger.entries)
    ensures fetched.Fetched? && !fetched.ok ==>
      lines == [ErrorNote("Fetch error")] && ledger.entries == old(ledger.entries)
    ensures fetched.Fetched? && fetched.ok ==>
      var progress := ProgressNotes(ProgressValues(reported, fetched.contentLength));
      var fileName := FileName(name, fetched.contentType.GetOr(""), token);
      && (outcome.Failed? ==>
            lines == progress + [ErrorNote(outcome.message)] && ledger.entries == old(ledger.entries))
      && (outcome.Done? ==>
            && lines == progress + [DoneNote(LinksFor(host, publicHost, fileName))]
            && ledger.entries == Insert(old(ledger.entries), NewRecord(id, fileName, host, publicHost, now, Url)))
  {
    if fetched.NetworkError? {
      return [ErrorNote(fetched.message)];
    }
    if !fetched.ok {
      return [ErrorNote("Fetch error")];
    }
    var fileName := FileName(name, fetched.contentType.GetOr(""), token);
    lines := ProgressNotes(ProgressValues(reported, fetched.contentLength));
    var r := FinishUpload(ledger, outcome, fileName, host, publicHost, id, now, Url);
    if r.Failure? {
      lines := lines + [ErrorNote(r.error)];
    } else {
      lines := lines + [DoneNote(r.value)];
    }
  }

  function RowOf(key: seq<KeyPart>, r: UploadRecord, now: int): HistoryRow {
    HistoryRow(key, r.fileName, FormatTimeAgo(now - r.createdAt), r.appLink, r.r2Url)
  }

  /** `GET /history` (main.ts:249-270): the `for await` loop over the listing,
      one row per entry, at most 50, newest first. */
  method History(ledger: Ledger, now: int) returns (rows: seq<HistoryRow>)
    requires ledger.Valid()
    ensures |rows| == Min(HistoryLimit, |ledger.entries|)
    ensures forall i :: 0 <= i < |rows| ==>
      rows[i] == RowOf(KeyParts(KeyOf(ledger.entries[i])), ledger.entries[i], now)
    ensures forall i, j :: 0 <= i < |rows| && i < j < |ledger.entries| ==>
      ledger.entries[i].createdAt >= ledger.entries[j].createdAt
  {
    var listed := ledger.List(HistoryLimit);
    rows := [];
    for i := 0 to |listed|
      invariant |rows| == i
      invariant forall k :: 0 <= k < i ==> rows[k] == RowOf(listed[k].0, listed[k].1, now)
    {
      rows := rows + [RowOf(listed[i].0, listed[i].1, now)];
    }
  }

  /** `POST /api/delete-history` (main.ts:273-275): always `{ok: true}`. */
  method DeleteHistory(ledger: Ledger, key: seq<KeyPart>) returns (ok: bool)
    requires ledger.Valid()
    modifies ledger
    ensures ledger.Valid() && ok
    ensures ledger.entries == RemoveKey(old(ledger.entries), key)
  {
    ledger.Delete(key);
    ok := true;
  }
}
