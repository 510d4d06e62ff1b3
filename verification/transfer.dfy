/** The transfer abstraction shared by SFTP, SCP and exec commands: one I/O
    endpoint (a local file or one end of a pipe), the first-error slot with
    its cancel callback, the minimum write offset of a resumed upload, the
    quota bound of a single transfer, and the close logic that commits or
    rolls back an atomic upload and takes the transfer off its connection's
    registry. */
module Transfer {
  import opened Common
  import opened Channel

  datatype Protocol = SFTP | SCP | SSH
  datatype Direction = Upload | Download

  /** The server-wide upload mode. */
  datatype UploadMode = Standard | Atomic | AtomicWithResume

  /** The one I/O endpoint a transfer owns. A local file lives in the
      connection's filesystem under `name`; a pipe carries its bytes itself.
      `doneError` is the error the backend reports when the upload pipe is
      closed. */
  datatype Endpoint =
    | LocalFile(name: string, open: bool)
    | PipeWriter(open: bool, written: seq<Byte>, doneError: Option<Error>)
    | PipeReader(open: bool, available: seq<Byte>)
    | NoEndpoint

  type Files = map<string, seq<Byte>>

  /** What a transfer sees of its connection: the protocol (which decides
      how errors are reported), the upload mode, the registry of in-flight
      transfer ids and the local filesystem. */
  datatype Connection = Connection(protocol: Protocol, uploadMode: UploadMode, transfers: seq<nat>, files: Files)

  datatype Transfer = Transfer(
    id: nat,
    endpoint: Endpoint,
    direction: Direction,
    fsPath: string,
    minWriteOffset: nat,
    maxWriteSize: int,
    bytesReceived: nat,
    bytesSent: nat,
    errTransfer: Option<Error>,
    errRead: Option<Error>,
    hasCancel: bool,
    cancelCalls: nat,
    finished: bool)

  /** The cancel callback has fired at most once, only if there is one, and
      only after an error was recorded. */
  predicate Valid(t: Transfer) {
    t.cancelCalls <= 1 && (t.cancelCalls == 1 ==> t.hasCancel && t.errTransfer.Some?)
  }

  /** `newTransfer`: a fresh transfer, registered with its connection. */
  function NewTransfer(conn: Connection, id: nat, endpoint: Endpoint, direction: Direction, fsPath: string,
                       minWriteOffset: nat, maxWriteSize: int, hasCancel: bool, errRead: Option<Error>): (r: (Connection, Transfer))
    ensures r.0.transfers == conn.transfers + [id] && r.0.files == conn.files
    ensures r.1.id == id && r.1.endpoint == endpoint && !r.1.finished
    ensures r.1.errTransfer.None? && r.1.cancelCalls == 0 && Valid(r.1)
  {
    (conn.(transfers := conn.transfers + [id]),
     Transfer(id, endpoint, direction, fsPath, minWriteOffset, maxWriteSize, 0, 0, None, errRead, hasCancel, 0, false))
  }

  // ---------------------------------------------------------------------
  // The first-error slot

  /** `TransferError`: records `e` unless an error is already recorded; the
      cancel callback fires with the first recorded error. */
  function TransferError(t: Transfer, e: Error): (r: Transfer)
    ensures Valid(t) ==> Valid(r)
    ensures r.errTransfer.Some?
    ensures t.errTransfer.Some? ==> r == t
    ensures r == t.(errTransfer := r.errTransfer, cancelCalls := r.cancelCalls)
  {
    if t.errTransfer.Some? then t
    else t.(errTransfer := Some(e), cancelCalls := t.cancelCalls + if t.hasCancel then 1 else 0)
  }

  /** Reports a sequence of errors one after the other. */
  function ReportAll(t: Transfer, es: seq<Error>): Transfer
    decreases |es|
  {
    if es == [] then t else ReportAll(TransferError(t, es[0]), es[1..])
  }

  /** Whatever errors follow, the slot keeps the first one and the cancel
      callback fires exactly once if there is one. */
  lemma {:induction false} FirstErrorWins(t: Transfer, es: seq<Error>)
    requires Valid(t) && t.errTransfer.None? && es != []
    ensures ReportAll(t, es).errTransfer == Some(es[0])
    ensures ReportAll(t, es).cancelCalls == (if t.hasCancel then 1 else 0)
    ensures Valid(ReportAll(t, es))
  {
    var t1 := TransferError(t, es[0]);
    RecordedErrorStays(t1, es[1..]);
  }

  lemma {:induction false} RecordedErrorStays(t: Transfer, es: seq<Error>)
    requires t.errTransfer.Some?
    ensures ReportAll(t, es) == t
    decreases |es|
  {
    if es != [] {
      RecordedErrorStays(TransferError(t, es[0]), es[1..]);
    }
  }

  // ---------------------------------------------------------------------
  // Random-access writes and reads

  function Zeros(n: nat): (r: seq<Byte>)
    ensures |r| == n && forall i :: 0 <= i < n ==> r[i] == 0
  {
    seq(n, _ => 0)
  }

  /** A file's contents after `data` is written at `off`; a gap past the old
      end reads as zero bytes. */
  function Overwrite(content: seq<Byte>, off: nat, data: seq<Byte>): seq<Byte> {
    var padded := if off <= |content| then content else content + Zeros(off - |content|);
    var tail := if off + |data| < |padded| then padded[off + |data|..] else [];
    padded[..off] + data + tail
  }

  /** What `Overwrite` leaves: the file grows to cover the write, the written
      range holds exactly the data, and every other byte is the old one or,
      past the old end, zero. */
  lemma OverwriteSpec(content: seq<Byte>, off: nat, data: seq<Byte>)
    ensures var r := Overwrite(content, off, data);
      && |r| == (if off + |data| > |content| then off + |data| else |content|)
      && r[off..off + |data|] == data
      && forall i :: 0 <= i < |r| && !(off <= i < off + |data|) ==> r[i] == if i < |content| then content[i] else 0
  {
    var r := Overwrite(content, off, data);
    assert r[off..off + |data|] == data;
  }

  /** Two adjacent writes leave the same contents as one write of both. */
  lemma OverwriteConcat(content: seq<Byte>, off: nat, a: seq<Byte>, b: seq<Byte>)
    ensures Overwrite(Overwrite(content, off, a), off + |a|, b) == Overwrite(content, off, a + b)
  {
    var once := Overwrite(content, off, a);
    var twice := Overwrite(once, off + |a|, b);
    var whole := Overwrite(content, off, a + b);
    OverwriteSpec(content, off, a);
    OverwriteSpec(once, off + |a|, b);
    OverwriteSpec(content, off, a + b);
    assert |twice| == |whole|;
    forall i | 0 <= i < |whole|
      ensures twice[i] == whole[i]
    {
      if off <= i < off + |a| {
        assert whole[off..off + |a + b|][i - off] == (a + b)[i - off];
        assert once[off..off + |a|][i - off] == a[i - off];
      } else if off + |a| <= i < off + |a| + |b| {
        assert whole[off..off + |a + b|][i - off] == (a + b)[i - off];
        assert twice[off + |a|..off + |a| + |b|][i - off - |a|] == b[i - off - |a|];
      }
    }
  }

  /** Writing into an empty file from its start gives exactly the data. */
  lemma OverwriteEmpty(data: seq<Byte>)
    ensures Overwrite([], 0, data) == data
  {
    var r := Overwrite([], 0, data);
    OverwriteSpec([], 0, data);
    assert r == r[0..|data|];
  }

  /** Updating a file twice keeps only the second contents. */
  lemma UpdateTwice(files: Files, name: string, a: seq<Byte>, b: seq<Byte>)
    ensures files[name := a][name := b] == files[name := b]
  {
  }

  function Content(files: Files, name: string): seq<Byte> {
    if name in files then files[name] else []
  }

  datatype WriteOutcome = WriteOutcome(n: nat, err: Option<Error>, conn: Connection, t: Transfer)

  /** An endpoint that accepts writes. */
  predicate Writable(e: Endpoint) {
    (e.LocalFile? || e.PipeWriter?) && e.open
  }

  /** `WriteAt`: an offset below the minimum is refused and recorded; a write
      to a closed or missing handle fails; otherwise the bytes land at `off`
      and count towards the received total, and passing a positive
      `maxWriteSize` makes the write report a quota error. Every error is
      recorded on the transfer. */
  function WriteAt(conn: Connection, t: Transfer, data: seq<Byte>, off: int): WriteOutcome
  {
    if off < t.minWriteOffset then
      var e := InvalidWriteOffset(off, t.minWriteOffset);
      WriteOutcome(0, Some(e), conn, TransferError(t, e))
    else if !Writable(t.endpoint) then
      var e := if t.endpoint.NoEndpoint? || t.endpoint.PipeReader? then InvalidHandle else Closed;
      WriteOutcome(0, Some(e), conn, TransferError(t, e))
    else
      var (conn', t') := match t.endpoint
        case LocalFile(name, _) =>
          (conn.(files := conn.files[name := Overwrite(Content(conn.files, name), off, data)]), t)
        case PipeWriter(_, written, _) =>
          (conn, t.(endpoint := t.endpoint.(written := Overwrite(written, off, data))));
      var received := t.bytesReceived + |data|;
      var t'' := t'.(bytesReceived := received);
      if t.maxWriteSize > 0 && received > t.maxWriteSize then
        WriteOutcome(|data|, Some(QuotaExceeded), conn', TransferError(t'', QuotaExceeded))
      else
        WriteOutcome(|data|, None, conn', t'')
  }

  /** What `WriteAt` promises, stated once for every caller that needs it. */
  lemma WriteAtSpec(conn: Connection, t: Transfer, data: seq<Byte>, off: int)
    ensures var r := WriteAt(conn, t, data, off);
      && (Valid(t) ==> Valid(r.t))
      && r.conn.protocol == conn.protocol && r.conn.transfers == conn.transfers && r.conn.uploadMode == conn.uploadMode
      && r.t.finished == t.finished && r.t.id == t.id && r.t.direction == t.direction && r.t.minWriteOffset == t.minWriteOffset
      && (r.err.Some? ==> r.t.errTransfer.Some?)
      && (r.err.None? ==> r.t == t.(endpoint := r.t.endpoint, bytesReceived := r.t.bytesReceived))
      && (off < t.minWriteOffset ==>
            r.n == 0 && r.err == Some(InvalidWriteOffset(off, t.minWriteOffset))
            && r.conn == conn && r.t.bytesReceived == t.bytesReceived)
      && (off >= t.minWriteOffset && !Writable(t.endpoint) ==>
            r.n == 0 && r.err.Some? && r.conn == conn && r.t.bytesReceived == t.bytesReceived)
      && (off >= t.minWriteOffset && Writable(t.endpoint) ==>
            r.n == |data| && r.t.bytesReceived == t.bytesReceived + |data|
            && (r.err.Some? <==> t.maxWriteSize > 0 && r.t.bytesReceived > t.maxWriteSize)
            && (r.err.Some? ==> r.err == Some(QuotaExceeded)))
      && (off >= t.minWriteOffset && Writable(t.endpoint) && t.endpoint.LocalFile? ==>
            r.conn.files == conn.files[t.endpoint.name := Overwrite(Content(conn.files, t.endpoint.name), off, data)]
            && r.t.endpoint == t.endpoint)
      && (off >= t.minWriteOffset && Writable(t.endpoint) && t.endpoint.PipeWriter? ==>
            r.conn == conn && r.t.endpoint == PipeWriter(true, Overwrite(t.endpoint.written, off, data), t.endpoint.doneError))
  {
  }

  datatype ReadOutcome = ReadOutcome(data: seq<Byte>, err: Option<Error>, t: Transfer)

  /** `ReadAt` on a byte string: at most `max` bytes from `off`; fewer than
      asked for is reported as the end of the file. */
  function ReadFrom(content: seq<Byte>, max: nat, off: nat): (r: (seq<Byte>, Option<Error>))
    ensures |r.0| <= max
    ensures off + |r.0| <= |content| || r.0 == []
    ensures r.0 != [] ==> r.0 == content[off..off + |r.0|]
    ensures r.1.None? <==> |r.0| == max
    ensures r.1.Some? ==> r.1 == Some(Eof) && (off >= |content| || off + |r.0| == |content|)
  {
    if off >= |content| then
      ([], if max > 0 then Some(Eof) else None)
    else
      var end := if off + max <= |content| then off + max else |content|;
      (content[off..end], if end - off < max then Some(Eof) else None)
  }

  /** `ReadAt`: a transfer created with a read error (a backend that cannot
      serve ranged reads) refuses every read without recording anything;
      otherwise the bytes come from the file or the pipe. The end of the
      file is not an error of the transfer; any other failure is recorded. */
  function ReadAt(conn: Connection, t: Transfer, max: nat, off: nat): (r: ReadOutcome)
    ensures Valid(t) ==> Valid(r.t)
    ensures t.errRead.Some? ==> r == ReadOutcome([], t.errRead, t)
    ensures t.errRead.None? && t.endpoint.LocalFile? && t.endpoint.open ==>
      (r.data, r.err) == ReadFrom(Content(conn.files, t.endpoint.name), max, off)
    ensures t.errRead.None? && t.endpoint.PipeReader? && t.endpoint.open ==>
      (r.data, r.err) == ReadFrom(t.endpoint.available, max, off)
    ensures r.t.bytesSent == t.bytesSent + |r.data|
    ensures r.err.Some? && r.err != Some(Eof) && t.errRead.None? ==> r.t.errTransfer.Some?
    ensures r.t.endpoint == t.endpoint && r.t.finished == t.finished && r.t.bytesReceived == t.bytesReceived
  {
    if t.errRead.Some? then
      ReadOutcome([], t.errRead, t)
    else if !((t.endpoint.LocalFile? || t.endpoint.PipeReader?) && t.endpoint.open) then
      var e := if t.endpoint.NoEndpoint? || t.endpoint.PipeWriter? then InvalidHandle else Closed;
      ReadOutcome([], Some(e), TransferError(t, e))
    else
      var content := if t.endpoint.LocalFile? then Content(conn.files, t.endpoint.name) else t.endpoint.available;
      var (data, err) := ReadFrom(content, max, off);
      ReadOutcome(data, err, t.(bytesSent := t.bytesSent + |data|))
  }

  /** Round trip: bytes written at an accepted offset of an open file are
      read back from the same offset. */
  lemma WriteThenReadAt(conn: Connection, t: Transfer, data: seq<Byte>, off: nat)
    requires t.endpoint.LocalFile? && t.endpoint.open && t.errRead.None?
    requires off >= t.minWriteOffset
    ensures var w := WriteAt(conn, t, data, off);
            ReadAt(w.conn, w.t, |data|, off) == ReadOutcome(data, None, w.t.(bytesSent := w.t.bytesSent + |data|))
  {
    var w := WriteAt(conn, t, data, off);
    WriteAtSpec(conn, t, data, off);
    var content := Content(w.conn.files, t.endpoint.name);
    assert content == Overwrite(Content(conn.files, t.endpoint.name), off, data);
    OverwriteSpec(Content(conn.files, t.endpoint.name), off, data);
    assert content[off..off + |data|] == data;
  }

  // ---------------------------------------------------------------------
  // Closing

  /** Removes every occurrence of `id` from the registry. */
  function RemoveId(ids: seq<nat>, id: nat): (r: seq<nat>)
    ensures id !in r
    ensures forall x :: x != id ==> multiset(r)[x] == multiset(ids)[x]
    ensures id !in ids ==> r == ids
  {
    if ids == [] then []
    else
      assert ids == [ids[0]] + ids[1..];
      if ids[0] == id then RemoveId(ids[1..], id) else [ids[0]] + RemoveId(ids[1..], id)
  }

  /** `closeIO`: closes the endpoint. Closing a file twice fails; closing an
      upload pipe reports the backend's final error, which is also recorded
      on the transfer (without the cancel callback), so the upload does not
      count as complete. */
  function CloseIO(t: Transfer): (r: (Option<Error>, Transfer))
    ensures Valid(t) ==> Valid(r.1)
    ensures r.1 == t.(endpoint := r.1.endpoint, errTransfer := r.1.errTransfer)
    ensures t.errTransfer.Some? ==> r.1.errTransfer == t.errTransfer
    ensures r.0.Some? && t.endpoint.PipeWriter? ==> r.1.errTransfer.Some?
    ensures t.endpoint.LocalFile? ==> r.1.endpoint == LocalFile(t.endpoint.name, false) && (r.0.Some? <==> !t.endpoint.open)
  {
    match t.endpoint
    case LocalFile(name, open) =>
      (if open then None else Some(Closed), t.(endpoint := LocalFile(name, false)))
    case PipeWriter(open, written, doneError) =>
      var err := if open then doneError else Some(Closed);
      var t' := t.(endpoint := PipeWriter(false, written, doneError));
      (err, if err.Some? && t.errTransfer.None? then t'.(errTransfer := err) else t')
    case PipeReader(_, available) =>
      (None, t.(endpoint := PipeReader(false, available)))
    case NoEndpoint =>
      (None, t)
  }

  /** Deletes the partial file of a failed upload; the received bytes no
      longer count. */
  function Discard(files: Files, t: Transfer, name: string): (r: (Option<Error>, Files, Transfer))
  {
    if name in files then (None, files - {name}, t.(bytesReceived := 0, minWriteOffset := 0))
    else (Some(NotExist), files, t)
  }

  /** Moves the temporary file of an atomic upload over its target. */
  function Commit(files: Files, from: string, to: string): (r: (Option<Error>, Files))
  {
    if from in files then (None, (files - {from})[to := files[from]]) else (Some(NotExist), files)
  }

  /** An atomic upload writes a temporary file, named apart from its target. */
  predicate IsAtomicUpload(t: Transfer) {
    t.direction == Upload && t.endpoint.LocalFile? && t.endpoint.name != t.fsPath
  }

  /** `BaseTransfer.Close`: deregisters the transfer. An upload stopped by
      the quota loses its partial file. An atomic upload is committed when
      no error was recorded (or always, when uploads resume atomically) and
      rolled back otherwise. The recorded error, if any, is the result. */
  function BaseClose(conn: Connection, t: Transfer): (r: (Option<Error>, Connection, Transfer))
    ensures Valid(t) ==> Valid(r.2)
    ensures r.1.transfers == RemoveId(conn.transfers, t.id)
    ensures r.1.protocol == conn.protocol && r.1.uploadMode == conn.uploadMode
    ensures r.2 == t.(bytesReceived := r.2.bytesReceived, minWriteOffset := r.2.minWriteOffset)
    ensures t.errTransfer.Some? ==> r.0 == t.errTransfer
    ensures r.0.None? ==> t.errTransfer.None?
    ensures !t.endpoint.LocalFile? ==> r.1.files == conn.files && r.2 == t
  {
    var (fsErr, files, t') :=
      if t.errTransfer == Some(QuotaExceeded) && t.endpoint.LocalFile? then
        Discard(conn.files, t, t.endpoint.name)
      else if IsAtomicUpload(t) then
        if t.errTransfer.None? || conn.uploadMode == AtomicWithResume then
          var (e, fs) := Commit(conn.files, t.endpoint.name, t.fsPath);
          (e, fs, t)
        else
          Discard(conn.files, t, t.endpoint.name)
      else
        (None, conn.files, t);
    var err := if t.errTransfer.Some? then t.errTransfer else fsErr;
    (err, conn.(transfers := RemoveId(conn.transfers, t.id), files := files), t')
  }

  /** `GetFsError`: the error a protocol reports for a failure. SFTP uses
      the status codes of the SFTP protocol; SCP and exec use the engine's
      own errors. Anything unclassified is a generic failure. */
  function FsError(p: Protocol, e: Option<Error>): (r: Option<Error>)
    ensures r.None? <==> e.None?
    ensures r.Some? ==> r.value in ProtocolErrors(p)
  {
    match e
    case None => None
    case Some(NotExist) => Some(if p == SFTP then SshFxNoSuchFile else NotExist)
    case Some(PermissionDenied) => Some(if p == SFTP then SshFxPermissionDenied else PermissionDenied)
    case Some(OpUnsupported) => Some(if p == SFTP then SshFxOpUnsupported else OpUnsupported)
    case Some(_) => Some(Generic(p))
  }

  function Generic(p: Protocol): Error {
    if p == SFTP then SshFxFailure else GenericFailure
  }

  /** The errors a client of protocol `p` can see from a close. */
  function ProtocolErrors(p: Protocol): set<Error> {
    if p == SFTP then {SshFxNoSuchFile, SshFxPermissionDenied, SshFxOpUnsupported, SshFxFailure}
    else {NotExist, PermissionDenied, OpUnsupported, GenericFailure}
  }

  /** `Close`: a second close fails and changes nothing. The first closes the
      endpoint, runs the base close and reports its error in preference to
      the endpoint's, translated for the protocol. */
  function Close(conn: Connection, t: Transfer): (r: (Option<Error>, Connection, Transfer))
    ensures Valid(t) ==> Valid(r.2)
    ensures t.finished ==> r == (Some(TransferClosed), conn, t)
    ensures !t.finished ==> r.2.finished && t.id !in r.1.transfers
    ensures !t.finished ==> r.1.transfers == RemoveId(conn.transfers, t.id)
    ensures !t.finished && t.errTransfer.Some? ==> r.0 == FsError(conn.protocol, t.errTransfer)
    ensures !t.finished && r.0.Some? ==> r.0.value in ProtocolErrors(conn.protocol)
    ensures r.2.cancelCalls == t.cancelCalls
  {
    if t.finished then (Some(TransferClosed), conn, t)
    else
      var (ioErr, t1) := CloseIO(t.(finished := true));
      var (baseErr, conn', t2) := BaseClose(conn, t1);
      (FsError(conn.protocol, if baseErr.Some? then baseErr else ioErr), conn', t2)
  }

  /** The errors a close translates: the three the engine names keep their
      kind (as SFTP status codes for an SFTP client, unchanged otherwise),
      and every other error becomes the protocol's generic failure. */
  lemma FsErrorClassifies(p: Protocol, e: Error)
    ensures e !in {NotExist, PermissionDenied, OpUnsupported} ==> FsError(p, Some(e)) == Some(Generic(p))
    ensures p != SFTP && e in {NotExist, PermissionDenied, OpUnsupported} ==> FsError(p, Some(e)) == Some(e)
    ensures FsError(SFTP, Some(NotExist)) == Some(SshFxNoSuchFile)
    ensures FsError(SFTP, Some(PermissionDenied)) == Some(SshFxPermissionDenied)
    ensures FsError(SFTP, Some(OpUnsupported)) == Some(SshFxOpUnsupported)
  {
  }

  /** Closing a transfer that recorded any error the engine does not name
      returns the protocol's generic failure, whatever the error was. */
  lemma CloseReportsGenericFailure(conn: Connection, t: Transfer)
    requires !t.finished && t.errTransfer.Some?
    requires t.errTransfer.value !in {NotExist, PermissionDenied, OpUnsupported}
    ensures Close(conn, t).0 == Some(Generic(conn.protocol))
    ensures Close(conn, t).0 == Some(if conn.protocol == SFTP then SshFxFailure else GenericFailure)
  {
    FsErrorClassifies(conn.protocol, t.errTransfer.value);
  }

  /** Opening and closing a transfer leaves the registry as it was. */
  lemma OpenThenClose(conn: Connection, id: nat, endpoint: Endpoint, direction: Direction, fsPath: string,
                      minWriteOffset: nat, maxWriteSize: int, hasCancel: bool, errRead: Option<Error>)
    requires id !in conn.transfers
    ensures var (c1, t) := NewTransfer(conn, id, endpoint, direction, fsPath, minWriteOffset, maxWriteSize, hasCancel, errRead);
            Close(c1, t).1.transfers == conn.transfers
  {
    var (c1, t) := NewTransfer(conn, id, endpoint, direction, fsPath, minWriteOffset, maxWriteSize, hasCancel, errRead);
    RemoveAppended(conn.transfers, id);
  }

  /** Removing an id undoes appending it. */
  lemma {:induction false} RemoveAppended(ids: seq<nat>, id: nat)
    ensures RemoveId(ids + [id], id) == RemoveId(ids, id)
  {
    if ids == [] {
      assert [id][1..] == [];
    } else {
      assert (ids + [id])[1..] == ids[1..] + [id];
      RemoveAppended(ids[1..], id);
    }
  }

  /** A failed atomic upload leaves neither its temporary file nor its
      target, and none of its bytes count as received. */
  lemma AtomicRollback(conn: Connection, t: Transfer)
    requires IsAtomicUpload(t) && !t.finished
    requires t.errTransfer.Some? && conn.uploadMode != AtomicWithResume
    requires t.endpoint.name in conn.files && t.fsPath !in conn.files
    ensures var (err, conn', t') := Close(conn, t);
            && t.endpoint.name !in conn'.files && t.fsPath !in conn'.files
            && t'.bytesReceived == 0
            && err == FsError(conn.protocol, t.errTransfer)
  {
  }

  /** A successful atomic upload replaces its target with the temporary
      file's contents. */
  lemma AtomicCommit(conn: Connection, t: Transfer)
    requires IsAtomicUpload(t) && !t.finished && t.endpoint.open
    requires t.errTransfer.None? && t.endpoint.name in conn.files
    ensures var (err, conn', t') := Close(conn, t);
            && err.None?
            && t.endpoint.name !in conn'.files
            && t.fsPath in conn'.files && conn'.files[t.fsPath] == conn.files[t.endpoint.name]
            && t'.bytesReceived == t.bytesReceived
  {
  }

  // ---------------------------------------------------------------------
  // Streaming copy

  /** The buffer size of the streaming copy. */
  const CopyChunk: nat := 32768

  function Min(a: int, b: int): int {
    if a <= b then a else b
  }

  /** What `copyFromReaderToWriter` achieves, stated in one piece: how many
      bytes reach the writer and which error ends the copy. A negative
      `maxWriteSize` refuses any copy; a positive one stops the copy with a
      quota error at the first whole chunk that passes it. */
  function CopyOutcome(maxWriteSize: int, src: MockChannel, dst: MockChannel): (nat, Option<Error>) {
    if maxWriteSize < 0 then (0, Some(QuotaExceeded))
    else if src.readError.Some? then (0, if src.readError == Some(Eof) then None else src.readError)
    else if src.inbound == [] then (0, None)
    else if dst.writeError.Some? then (0, dst.writeError)
    else if dst.shortWrite then (0, Some(ShortWrite))
    else if maxWriteSize > 0 && |src.inbound| > maxWriteSize then
      (Min(|src.inbound|, (maxWriteSize / CopyChunk + 1) * CopyChunk), Some(QuotaExceeded))
    else (|src.inbound|, None)
  }

  /** The chunk that first passes the bound ends at the next chunk boundary
      after it, or at the end of the input. */
  lemma ChunkCrossing(prev: nat, n: nat, len: nat, max: nat)
    requires prev % CopyChunk == 0 && prev <= max < prev + n
    requires n == Min(CopyChunk, len - prev) && prev < len
    ensures prev + n == Min(len, (max / CopyChunk + 1) * CopyChunk)
  {
    var k := prev / CopyChunk;
    assert prev == k * CopyChunk;
    assert max < (k + 1) * CopyChunk;
    assert max / CopyChunk == k;
  }

  /** The state of the copy loop after `written` bytes: they reached the
      writer in order, and unless the copy is `done` the reader still holds
      the rest of the input and no bound has been passed; once it is done,
      the outcome is the one `CopyOutcome` predicts. */
  predicate CopyProgress(maxWriteSize: int, src: MockChannel, dst: MockChannel,
                         written: nat, err: Option<Error>, s: MockChannel, out: MockChannel, done: bool) {
    && written <= |src.inbound|
    && out.outbound == dst.outbound + src.inbound[..written]
    && s.readError == src.readError
    && out.writeError == dst.writeError && out.shortWrite == dst.shortWrite
    && (!done ==> err.None? && s.inbound == src.inbound[written..])
    && (!done ==> maxWriteSize == 0 || written <= maxWriteSize)
    && (!done ==> written % CopyChunk == 0 || s.inbound == [])
    && (written > 0 ==> src.readError.None? && dst.writeError.None? && !dst.shortWrite)
    && (done ==> (written, err) == CopyOutcome(maxWriteSize, src, dst))
  }

  /** The copy stops cleanly at the end of the input and with the reader's
      error otherwise; either way nothing more reaches the writer. */
  lemma CopyEndsOnRead(max: int, src: MockChannel, dst: MockChannel, written: nat, s: MockChannel, out: MockChannel)
    requires max >= 0 && CopyProgress(max, src, dst, written, None, s, out, false)
    requires s.readError.Some? || s.inbound == []
    ensures CopyProgress(max, src, dst, written,
                         if s.readError.Some? && s.readError != Some(Eof) then s.readError else None, s, out, true)
  {
    if s.readError.None? {
      assert |src.inbound[written..]| == 0;
    }
  }

  /** A failing or short-writing writer stops the copy at its first chunk,
      with its own error or a short-write error. */
  lemma CopyEndsOnWrite(max: int, src: MockChannel, dst: MockChannel, written: nat, s: MockChannel, out: MockChannel,
                        s': MockChannel)
    requires max >= 0 && CopyProgress(max, src, dst, written, None, s, out, false)
    requires s.readError.None? && s.inbound != [] && (dst.writeError.Some? || dst.shortWrite)
    requires s'.readError == s.readError
    ensures CopyProgress(max, src, dst, written,
                         if dst.writeError.Some? then dst.writeError else Some(ShortWrite), s', out, true)
  {
    assert written == 0;
  }

  /** A chunk that reaches the writer whole extends the copied prefix; the
      copy stops with a quota error when the bound is passed. */
  lemma CopyChunkWritten(max: int, src: MockChannel, dst: MockChannel, written: nat, s: MockChannel, out: MockChannel,
                         n: nat, s': MockChannel, out': MockChannel)
    requires max >= 0 && CopyProgress(max, src, dst, written, None, s, out, false)
    requires s.readError.None? && s.inbound != [] && dst.writeError.None? && !dst.shortWrite
    requires n == Min(CopyChunk, |s.inbound|)
    requires s' == s.(inbound := s.inbound[n..])
    requires out' == out.(outbound := out.outbound + s.inbound[..n])
    ensures max > 0 && written + n > max ==>
              CopyProgress(max, src, dst, written + n, Some(QuotaExceeded), s', out', true)
    ensures !(max > 0 && written + n > max) ==>
              CopyProgress(max, src, dst, written + n, None, s', out', false)
  {
    CopiedPrefix(src.inbound, written, s.inbound, n);
    if max > 0 && written + n > max {
      ChunkCrossing(written, n, |src.inbound|, max);
      assert CopyOutcome(max, src, dst) == (written + n, Some(QuotaExceeded));
    }
  }

  /** Taking `n` more bytes off the unread rest of the input extends the
      copied prefix by exactly those bytes. */
  lemma CopiedPrefix(input: seq<Byte>, written: nat, rest: seq<Byte>, n: nat)
    requires written <= |input| && rest == input[written..] && n <= |rest|
    ensures input[..written + n] == input[..written] + rest[..n]
    ensures rest[n..] == input[written + n..]
  {
    assert rest[..n] == input[written..written + n];
  }

  /** One round of the copy loop: read a chunk, write it, and stop on a
      read error, the end of the input, a write error, a short write or a
      passed bound. */
  method CopyStep(max: int, src: MockChannel, dst: MockChannel, written: nat, s: MockChannel, out: MockChannel)
    returns (written': nat, err': Option<Error>, s': MockChannel, out': MockChannel, done': bool)
    requires max >= 0
    requires CopyProgress(max, src, dst, written, None, s, out, false)
    ensures CopyProgress(max, src, dst, written', err', s', out', done')
    ensures |s'.inbound| <= |s.inbound| && (!done' ==> |s'.inbound| < |s.inbound|)
  {
    var rr := Read(s, CopyChunk);
    if rr.err.Some? {
      CopyEndsOnRead(max, src, dst, written, s, out);
      return written, (if s.readError.Some? && s.readError != Some(Eof) then s.readError else None), s, out, true;
    }
    var w := Write(out, rr.data);
    if w.n == 0 {
      CopyEndsOnWrite(max, src, dst, written, s, out, rr.channel);
      return written, (if dst.writeError.Some? then dst.writeError else Some(ShortWrite)), rr.channel, out, true;
    }
    var n := |rr.data|;
    CopyChunkWritten(max, src, dst, written, s, out, n, rr.channel, w.channel);
    written', s', out' := written + n, rr.channel, w.channel;
    if max > 0 && written' > max {
      err', done' := Some(QuotaExceeded), true;
    } else {
      err', done' := None, false;
    }
  }

  /** `copyFromReaderToWriter`: moves bytes from `src` to `dst` chunk by
      chunk until the reader is exhausted or something fails; the error ends
      up in the transfer's slot, overwriting whatever was there, and the
      byte counter of the transfer's direction is set to what was copied. */
  method CopyFromReaderToWriter(t: Transfer, dst: MockChannel, src: MockChannel)
    returns (written: nat, err: Option<Error>, t': Transfer, dst': MockChannel)
    ensures (written, err) == CopyOutcome(t.maxWriteSize, src, dst)
    ensures written <= |src.inbound| && dst'.outbound == dst.outbound + src.inbound[..written]
    ensures t.maxWriteSize < 0 ==> t' == t
    ensures t.maxWriteSize >= 0 ==> t' == if t.direction == Download
                                         then t.(errTransfer := err, bytesSent := written)
                                         else t.(errTransfer := err, bytesReceived := written)
  {
    if t.maxWriteSize < 0 {
      return 0, Some(QuotaExceeded), t, dst;
    }
    written, err, dst' := 0, None, dst;
    var s := src;
    var done := false;
    while !done
      invariant CopyProgress(t.maxWriteSize, src, dst, written, err, s, dst', done)
      decreases |s.inbound|, if done then 0 else 1
    {
      written, err, s, dst', done := CopyStep(t.maxWriteSize, src, dst, written, s, dst');
    }
    t' := if t.direction == Download
          then t.(errTransfer := err, bytesSent := written)
          else t.(errTransfer := err, bytesReceived := written);
  }

  // ---------------------------------------------------------------------
  // The engine's transfer scenarios

  /** A resumed upload refuses a write below its minimum offset, records
      that error (whose message says so), and its close reports a generic
      SFTP failure. */
  lemma InvalidOffsetScenario(files: Files)
    ensures var conn := Connection(SFTP, Standard, [], files);
            var (c1, t) := NewTransfer(conn, 1, LocalFile("testfile", true), Upload, "testfile", 10, 0, false, None);
            var w := WriteAt(c1, t, [116, 101, 115, 116], 0);
            && w.err == Some(InvalidWriteOffset(0, 10)) && w.t.errTransfer == w.err
            && "Invalid write offset" <= ErrorMessage(w.t.errTransfer.value)
            && Close(w.conn, w.t).0 == Some(SshFxFailure)
            && Close(w.conn, w.t).1.transfers == []
  {
  }

  /** An error reported on a transfer with a cancel callback fires the
      callback; the close reports a generic failure and the slot keeps the
      reported error. */
  lemma CancelScenario(files: Files)
    ensures var conn := Connection(SFTP, Standard, [], files);
            var (c1, t) := NewTransfer(conn, 1, LocalFile("testfile", true), Download, "testfile", 0, 0, true, None);
            var t1 := TransferError(t, Fault(1));
            var (err, c2, t2) := Close(c1, t1);
            err == Some(SshFxFailure) && t2.errTransfer == Some(Fault(1)) && t2.cancelCalls == 1
  {
  }

  /** A download whose file was closed behind its back fails to write, to
      read and to close. */
  lemma ClosedFileScenario(files: Files)
    ensures var conn := Connection(SFTP, Standard, [], files);
            var (c1, t) := NewTransfer(conn, 1, LocalFile("testfile", false), Download, "testfile", 0, 0, false, None);
            var w := WriteAt(c1, t, [116, 101, 115, 116], 0);
            var r := ReadAt(w.conn, w.t, 32768, 0);
            w.err.Some? && r.err.Some? && Close(w.conn, r.t).0.Some?
  {
  }

  /** A download pipe closes cleanly and refuses reads afterwards. */
  lemma ClosedPipeScenario(files: Files, available: seq<Byte>)
    ensures var conn := Connection(SFTP, Standard, [], files);
            var (c1, t) := NewTransfer(conn, 1, PipeReader(true, available), Download, "testfile", 0, 0, false, None);
            var (err, c2, t2) := Close(c1, t);
            err.None? && ReadAt(c2, t2, 32768, 0).err.Some?
  {
  }

  /** Closing an upload pipe reports the backend's error, records it, and
      the base close returns it unchanged; the pipe refuses writes once
      closed, and the registry ends up empty. */
  lemma PipeWriterScenario(files: Files)
    ensures var conn := Connection(SFTP, Standard, [], files);
            var (c1, t) := NewTransfer(conn, 1, PipeWriter(true, [], Some(Fault(7))), Download, "testfile", 0, 0, false, None);
            var (ioErr, t1) := CloseIO(t);
            var w := WriteAt(c1, t1, [116, 101, 115, 116], 0);
            var (baseErr, c2, _) := BaseClose(w.conn, w.t);
            && ioErr == Some(Fault(7)) && w.err.Some?
            && baseErr == Some(Fault(7)) && c2.transfers == []
  {
  }

  /** A transfer created with a read error refuses reads without recording
      anything, so it closes cleanly. */
  lemma FailingReaderScenario(files: Files, endpoint: Endpoint)
    requires endpoint.PipeReader? || endpoint.NoEndpoint?
    ensures var conn := Connection(SFTP, Standard, [], files);
            var (c1, t) := NewTransfer(conn, 1, endpoint, Upload, "/tmp/afile.txt", 0, 0, false, Some(Fault(3)));
            var r := ReadAt(c1, t, 32, 0);
            var (err, c2, _) := Close(c1, r.t);
            r.err == Some(Fault(3)) && err.None? && c2.transfers == []
  {
  }

  /** A transfer the SFTP write handler opens cannot be read: it carries the
      SFTP "operation unsupported" status as its read error, which a read
      returns without recording it, so the transfer still closes cleanly. */
  lemma UnreadableUploadScenario(files: Files)
    ensures var conn := Connection(SFTP, Standard, [], files);
            var (c1, t) := NewTransfer(conn, 1, LocalFile("afile.txt", true), Upload, "afile.txt", 0, 0, false,
                                       Some(SshFxOpUnsupported));
            var r := ReadAt(c1, t, 32, 0);
            var (err, c2, _) := Close(c1, r.t);
            r.err == Some(SshFxOpUnsupported) && r.data == [] && err.None? && c2.transfers == []
  {
  }

  /** A failed atomic SCP upload reports the engine's generic failure and
      removes both files. */
  lemma UploadErrorScenario(files: Files)
    requires "temptestfile" in files && "testfile" !in files
    ensures var conn := Connection(SCP, Atomic, [], files);
            var (c1, t) := NewTransfer(conn, 1, LocalFile("temptestfile", true), Upload, "testfile", 0, 0, false, None);
            var (err, c2, t2) := Close(c1, TransferError(t, Fault(1)));
            && err == Some(GenericFailure) && t2.errTransfer == Some(Fault(1)) && t2.bytesReceived == 0
            && "testfile" !in c2.files && "temptestfile" !in c2.files
  {
    var conn := Connection(SCP, Atomic, [], files);
    var (c1, t) := NewTransfer(conn, 1, LocalFile("temptestfile", true), Upload, "testfile", 0, 0, false, None);
    AtomicRollback(c1, TransferError(t, Fault(1)));
  }

  /** The four outcomes of the streaming copy the exec tests pin down: a
      read error is returned as it is, a bound of one byte stops the copy
      after the first chunk, a writer that accepts nothing is a short write,
      and a negative bound refuses the copy outright. */
  lemma CopyScenarios(buffered: seq<Byte>)
    requires |buffered| == 65535
    ensures CopyOutcome(0, MockChannel(buffered, [], Some(Fault(1)), None, false), Plain([])) == (0, Some(Fault(1)))
    ensures CopyOutcome(1, Plain(buffered), Plain([])) == (CopyChunk, Some(QuotaExceeded))
    ensures CopyOutcome(1, Plain(buffered), MockChannel(buffered, [], None, None, true)) == (0, Some(ShortWrite))
    ensures CopyOutcome(-1, Plain(buffered), MockChannel(buffered, [], None, None, true)) == (0, Some(QuotaExceeded))
  {
  }
}
