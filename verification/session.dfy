/**
 The server's single slot `ultimaPlanilha` and the four routes that use it,
 as a sequential state machine: every request takes the slot's current
 content to a new content and a reply (status code and JSON body).

 An upload runs in two stages, as in the server: the upload middleware
 first (type filter, size limit, whose errors go to the error middleware),
 then the route handler (no file, read the workbook, check the sheet, read
 the grid, store the snapshot). Only a
 handler that gets all the way through writes the slot; every failure
 replies before the assignment and leaves the slot as it was.

 The clock (`Date.now()` and `new Date().toISOString()`) and the outcome of
 reading the workbook file are parts of the request; the upload directory
 is left out of the stored path, which keeps only the file name.
 */
module Session {
  import opened Records
  import opened GridReader
  import opened Projector
  import opened UploadNaming

  /** What the server keeps about the last processed sheet. */
  datatype Snapshot = Snapshot(
    fileName: string,
    uploadedAt: string,
    headers: seq<string>,
    rows: seq<Record>,
    totalRows: nat,
    storedName: string)

  type Slot = Option<Snapshot>

  /** What reading the uploaded workbook gave: `readFile` threw with a
      message, the first sheet is missing or has no `!ref`, or a sheet with
      its decoded range and cells. */
  datatype Workbook =
    | Unreadable(message: string)
    | EmptySheet
    | Sheet(range: Range, cells: Cells)

  /** The multipart field `file` as the upload middleware sees it. */
  datatype Upload =
    | NoFile
    | File(originalName: string, mime: string, size: nat, workbook: Workbook)

  datatype Request =
    | PostUpload(upload: Upload, now: nat, isoNow: string)
    | GetInfo
    | GetColumns
    | PostExtract(requested: Option<seq<string>>)

  /** JSON bodies of the replies. `Report` stands for the PDF document: the
      file name it shows and the records it lists. */
  datatype Body =
    | Failure(error: string)
    | Uploaded(message: string, fileName: string, totalRows: nat, totalColumns: nat, preview: seq<string>)
    | Info(fileName: string, uploadedAt: string, totalRows: nat, totalColumns: nat, headers: seq<string>)
    | Columns(columns: seq<string>)
    | Report(attachment: string, fileName: string, records: seq<Record>)

  datatype Reply = Reply(status: nat, body: Body)

  /** What one request leaves behind: the slot's new content and the reply. */
  datatype Step = Step(slot: Slot, reply: Reply)

  /** What a run of requests leaves behind: the final slot and every reply. */
  datatype Trace = Trace(slot: Slot, replies: seq<Reply>)

  const NoFileMessage: string := "Nenhum arquivo foi enviado"
  const EmptySheetMessage: string := "Planilha vazia ou inválida"
  const ReadErrorPrefix: string := "Erro interno ao processar planilha: "
  const TooLargeMessage: string := "Arquivo muito grande. Tamanho máximo: 10MB"
  const InternalMessage: string := "Erro interno do servidor"
  const UploadedMessage: string := "Planilha processada com sucesso!"
  const NothingLoadedMessage: string := "Nenhuma planilha foi carregada ainda"
  const UploadFirstMessage: string := "Nenhuma planilha foi carregada. Faça o upload primeiro."
  const ReportAttachment: string := "relatorio-participantes.pdf"

  /** Number of header labels the upload reply previews. */
  const PreviewSize: nat := 10

  /** `headers.slice(0, 10)`. */
  function Preview(headers: seq<string>): (p: seq<string>)
    ensures |p| == if |headers| < PreviewSize then |headers| else PreviewSize
    ensures forall i :: 0 <= i < |p| ==> p[i] == headers[i]
  {
    if |headers| <= PreviewSize then headers else headers[..PreviewSize]
  }

  /** The snapshot a successful upload stores. */
  function MakeSnapshot(originalName: string, now: nat, isoNow: string, range: Range, cells: Cells)
    : (snap: Snapshot)
    ensures snap.totalRows == |snap.rows| == Height(range)
    ensures |snap.headers| == Width(range)
    ensures snap.fileName == originalName && snap.uploadedAt == isoNow
  {
    var g := ReadSheet(range, cells);
    Snapshot(originalName, isoNow, g.headers, g.rows, |g.rows|, StoredName(now, originalName))
  }

  /** The upload gets through the middleware and the handler to the
      assignment. */
  predicate Succeeds(upload: Upload) {
    && upload.File?
    && FileFilter(upload.mime).Accept?
    && WithinSizeLimit(upload.size)
    && upload.workbook.Sheet?
  }

  /** A request that only reads the slot. */
  predicate IsRead(req: Request) {
    req.GetInfo? || req.GetColumns? || req.PostExtract?
  }

  /** The upload route, middleware and handler. A successful upload replaces
      the slot, whatever it held, with the new sheet and reports its row
      count, its header count and the first ten labels. Every other upload
      replies with an error before the assignment and leaves the slot as it
      was; a missing sheet or `!ref` in particular answers 400. */
  function HandleUpload(slot: Slot, upload: Upload, now: nat, isoNow: string): (out: Step)
    ensures Succeeds(upload) ==>
              var g := ReadSheet(upload.workbook.range, upload.workbook.cells);
              && out.slot.Some?
              && out.slot.value.fileName == upload.originalName
              && out.slot.value.uploadedAt == isoNow
              && out.slot.value.headers == g.headers
              && out.slot.value.rows == g.rows
              && out.slot.value.totalRows == |g.rows| == Height(upload.workbook.range)
              && out.slot.value.storedName == StoredName(now, upload.originalName)
              && out.reply.status == 200
              && out.reply.body.Uploaded?
              && out.reply.body.fileName == upload.originalName
              && out.reply.body.totalRows == |g.rows|
              && out.reply.body.totalColumns == |g.headers| == Width(upload.workbook.range)
              && out.reply.body.preview == g.headers[..if |g.headers| < PreviewSize then |g.headers| else PreviewSize]
    ensures !Succeeds(upload) ==>
              && out.slot == slot
              && out.reply.body.Failure?
              && (out.reply.status == 400 || out.reply.status == 500)
    ensures upload.NoFile? ==> out.reply == Reply(400, Failure(NoFileMessage))
    ensures upload.File? && FileFilter(upload.mime).Reject? ==>
              out.reply == Reply(500, Failure(InternalMessage))
    ensures upload.File? && FileFilter(upload.mime).Accept? && !WithinSizeLimit(upload.size) ==>
              out.reply == Reply(400, Failure(TooLargeMessage))
    ensures upload.File? && FileFilter(upload.mime).Accept? && WithinSizeLimit(upload.size)
            && upload.workbook.Unreadable? ==>
              out.reply == Reply(500, Failure(ReadErrorPrefix + upload.workbook.message))
    ensures upload.File? && FileFilter(upload.mime).Accept? && WithinSizeLimit(upload.size)
            && upload.workbook.EmptySheet? ==>
              out.reply == Reply(400, Failure(EmptySheetMessage))
  {
    match upload
    case NoFile => Step(slot, Reply(400, Failure(NoFileMessage)))
    case File(name, mime, size, workbook) =>
      if FileFilter(mime).Reject? then Step(slot, Reply(500, Failure(InternalMessage)))
      else if !WithinSizeLimit(size) then Step(slot, Reply(400, Failure(TooLargeMessage)))
      else
        match workbook
        case Unreadable(message) => Step(slot, Reply(500, Failure(ReadErrorPrefix + message)))
        case EmptySheet => Step(slot, Reply(400, Failure(EmptySheetMessage)))
        case Sheet(range, cells) =>
          var snap := MakeSnapshot(name, now, isoNow, range, cells);
          var preview := Preview(snap.headers);
          assert preview == snap.headers[..|preview|];
          Step(Some(snap), Reply(200, Uploaded(UploadedMessage, snap.fileName, snap.totalRows,
                                               |snap.headers|, preview)))
  }

  /** One request against the slot. The reading routes never change the slot
      and answer 404 exactly when it is empty; with a sheet stored, `/info`
      reports its counts and labels and `/extrair` reports one projected
      record per stored row over the chosen columns. */
  function Handle(slot: Slot, req: Request): (out: Step)
    ensures IsRead(req) ==> out.slot == slot
    ensures IsRead(req) ==> (out.reply.status == 404 <==> slot.None?)
    ensures IsRead(req) && slot.None? ==> out.reply.body.Failure?
    ensures (req.GetInfo? || req.GetColumns?) && slot.None? ==>
              out.reply == Reply(404, Failure(NothingLoadedMessage))
    ensures req.PostExtract? && slot.None? ==> out.reply == Reply(404, Failure(UploadFirstMessage))
    ensures req.GetInfo? && slot.Some? ==>
              out.reply == Reply(200, Info(slot.value.fileName, slot.value.uploadedAt, slot.value.totalRows,
                                           |slot.value.headers|, slot.value.headers))
    ensures req.GetColumns? && slot.Some? ==> out.reply == Reply(200, Columns(slot.value.headers))
    ensures req.PostExtract? && slot.Some? ==>
              && out.reply.status == 200
              && out.reply.body.Report?
              && out.reply.body.attachment == ReportAttachment
              && out.reply.body.fileName == slot.value.fileName
              && |out.reply.body.records| == |slot.value.rows|
              && (forall i :: 0 <= i < |slot.value.rows| ==>
                    out.reply.body.records[i] == ProjectRow(slot.value.rows[i], ChosenColumns(req.requested)))
  {
    match req
    case PostUpload(upload, now, isoNow) => HandleUpload(slot, upload, now, isoNow)
    case GetInfo =>
      Step(slot, match slot
             case None => Reply(404, Failure(NothingLoadedMessage))
             case Some(s) => Reply(200, Info(s.fileName, s.uploadedAt, s.totalRows, |s.headers|, s.headers)))
    case GetColumns =>
      Step(slot, match slot
             case None => Reply(404, Failure(NothingLoadedMessage))
             case Some(s) => Reply(200, Columns(s.headers)))
    case PostExtract(requested) =>
      Step(slot, match slot
             case None => Reply(404, Failure(UploadFirstMessage))
             case Some(s) => Reply(200, Report(ReportAttachment, s.fileName, Extract(s.rows, requested))))
  }

  /** What every stored snapshot satisfies: the row count is the number of
      records and the stored name has no white space. */
  ghost predicate Consistent(slot: Slot) {
    slot.Some? ==> slot.value.totalRows == |slot.value.rows| && JsText.NoSpace(slot.value.storedName)
  }

  /** Every request keeps the slot consistent. */
  lemma HandleKeepsConsistent(slot: Slot, req: Request)
    requires Consistent(slot)
    ensures Consistent(Handle(slot, req).slot)
  {
  }

  /** The snapshot of the last successful upload in `reqs`, if any: an
      independent description of what the slot holds after them. */
  function LastUpload(reqs: seq<Request>): Option<Snapshot> {
    if |reqs| == 0 then None
    else
      var r := reqs[|reqs| - 1];
      if r.PostUpload? && Succeeds(r.upload) then
        Some(MakeSnapshot(r.upload.originalName, r.now, r.isoNow,
                          r.upload.workbook.range, r.upload.workbook.cells))
      else LastUpload(reqs[..|reqs| - 1])
  }

  /** Run requests in order, collecting the replies. Last write wins: the
      slot ends up holding the snapshot of the last successful upload, or
      what it held before when no upload succeeded. */
  function Run(slot: Slot, reqs: seq<Request>): (out: Trace)
    ensures |out.replies| == |reqs|
    ensures out.slot == if LastUpload(reqs).Some? then LastUpload(reqs) else slot
  {
    if |reqs| == 0 then Trace(slot, [])
    else
      var prev := Run(slot, reqs[..|reqs| - 1]);
      var step := Handle(prev.slot, reqs[|reqs| - 1]);
      Trace(step.slot, prev.replies + [step.reply])
  }

  /** The reply to request `i` of a run is the reply `Handle` gives from the
      slot the first `i` requests leave. */
  lemma {:induction false} RunPrefix(slot: Slot, reqs: seq<Request>, i: nat)
    requires i < |reqs|
    ensures Run(slot, reqs).replies[i] == Handle(Run(slot, reqs[..i]).slot, reqs[i]).reply
    decreases |reqs|
  {
    var init := reqs[..|reqs| - 1];
    if i < |reqs| - 1 {
      assert init[..i] == reqs[..i];
      assert init[i] == reqs[i];
      RunPrefix(slot, init, i);
    } else {
      assert init == reqs[..i];
    }
  }

  /** Starting empty, every reading request answers 404 until the first
      successful upload. */
  lemma NotFoundBeforeFirstUpload(reqs: seq<Request>, i: nat)
    requires i < |reqs| && IsRead(reqs[i])
    requires LastUpload(reqs[..i]).None?
    ensures Run(None, reqs).replies[i].status == 404
  {
    RunPrefix(None, reqs, i);
  }
}
