/** One SCP command on the server side: the `-t` (sink) loop that receives
    directories and files, the receipt of one file's bytes into a transfer,
    the directory header the `-f` (source) side sends, and the dispatch on
    the command type. Filesystem decisions the engine takes elsewhere
    (whether a directory may be created, whether a file may be opened for
    writing, whether a path is a directory) are parameters. */
module ScpSession {
  import opened Common
  import opened Channel
  import opened ScpWire
  import opened Tr = Transfer
  import VirtualPath
  import SshCommand

  /** A byte string as Go converts it to a string, one char per byte. */
  function Chars(b: seq<Byte>): (s: string)
    ensures |s| == |b| && forall i :: 0 <= i < |b| ==> s[i] as int == b[i]
  {
    if b == [] then [] else [b[0] as char] + Chars(b[1..])
  }

  /** The text an error carries to the peer: a peer's own error travels
      back unchanged. */
  function ErrorText(e: Error): (r: seq<Byte>)
    ensures e.Remote? ==> r == e.text
    ensures !e.Remote? ==> |r| == |ErrorMessage(e)|
    ensures !e.Remote? && IsByteText(ErrorMessage(e)) ==> Chars(r) == ErrorMessage(e)
  {
    if e.Remote? then e.text
    else
      AsciiThenChars(ErrorMessage(e));
      Ascii(ErrorMessage(e))
  }

  /** Every character fits in one byte. */
  predicate IsByteText(s: string) {
    forall i :: 0 <= i < |s| ==> s[i] as int < 256
  }

  /** Text of one-byte characters survives the trip to bytes and back. */
  lemma AsciiThenChars(s: string)
    ensures IsByteText(s) ==> Chars(Ascii(s)) == s
  {
    if IsByteText(s) {
      var c := Chars(Ascii(s));
      assert |c| == |s|;
      forall i | 0 <= i < |s| ensures c[i] == s[i] {
        assert c[i] as int == s[i] as int;
      }
    }
  }

  // ---------------------------------------------------------------------
  // Control lines

  /** A `T` line: modification and access times of the next file. */
  predicate IsTimeMessage(line: seq<Byte>) {
    line != [] && line[0] == TagT
  }

  /** `getNextUploadProtocolMessage`: the next control line, answering each
      `T` line with a confirmation and skipping it. */
  function GetNextUploadProtocolMessage(c: MockChannel): (r: (Result<seq<Byte>>, MockChannel))
    ensures r.1 == c.(inbound := r.1.inbound, outbound := r.1.outbound)
    ensures |r.1.inbound| <= |c.inbound|
    ensures r.0.Ok? ==> |r.1.inbound| < |c.inbound| && NewLine !in r.0.value && !IsTimeMessage(r.0.value)
    ensures c.readError.Some? ==> r == (Err(c.readError.value), c)
    ensures r.0.Err? && c.readError.None? ==> r.0.error == Eof || Some(r.0.error) == c.writeError
    ensures r.0 == Err(Eof) && c.readError.None? && c.writeError != Some(Eof) ==> r.1.inbound == []
    decreases |c.inbound|
  {
    var (msg, c1) := ReadProtocolMessage(c);
    match msg
    case Err(e) => (Err(e), c1)
    case Ok(line) =>
      if IsTimeMessage(line) then
        var (werr, c2) := SendConfirmationMessage(c1);
        if werr.Some? then (Err(werr.value), c2) else GetNextUploadProtocolMessage(c2)
      else
        (Ok(line), c1)
  }

  // ---------------------------------------------------------------------
  // File data

  datatype DataOutcome = DataOutcome(err: Option<Error>, ch: MockChannel, conn: Connection, t: Transfer)

  /** The read loop of `getUploadFileData`: `remaining` of `size` bytes are
      still expected; each chunk is written at its offset. The loop stops at
      the first failure, which is then recorded on the transfer. The loop
      only consumes input, touches nothing of the connection but its files
      and nothing of the transfer but its endpoint, counters and error slot,
      and a broken reader's error is the result. */
  function ReceiveChunks(ch: MockChannel, conn: Connection, t: Transfer, size: nat, remaining: nat): (r: DataOutcome)
    requires 0 < remaining <= size
    ensures |r.ch.inbound| <= |ch.inbound|
    ensures r.ch == ch.(inbound := r.ch.inbound)
    ensures r.conn.protocol == conn.protocol && r.conn.uploadMode == conn.uploadMode && r.conn.transfers == conn.transfers
    ensures r.t.finished == t.finished && r.t.id == t.id
    ensures r.err.Some? ==> r.t.errTransfer.Some?
    ensures ch.readError.Some? ==> r.err == ch.readError
    decreases remaining
  {
    var rr := Read(ch, Min(CopyChunk, remaining));
    if rr.err.Some? then
      DataOutcome(rr.err, rr.channel, conn, TransferError(t, rr.err.value))
    else
      WriteFrame(conn, t, rr.data, size - remaining);
      var w := WriteAt(conn, t, rr.data, size - remaining);
      if w.err.Some? then DataOutcome(w.err, rr.channel, w.conn, w.t)
      else if |rr.data| == remaining then DataOutcome(None, rr.channel, w.conn, w.t)
      else ReceiveChunks(rr.channel, w.conn, w.t, size, remaining - |rr.data|)
  }

  /** Everything `getUploadFileData` does before closing the transfer:
      acknowledge the `C` line, receive `size` bytes and wait for the peer's
      confirmation. The first failure stops it and is recorded on the
      transfer; a failure of the read loop is also sent to the peer. */
  function UploadPhase(ch: MockChannel, conn: Connection, t: Transfer, size: int): (r: DataOutcome)
    ensures |r.ch.inbound| <= |ch.inbound|
  {
    var (werr, ch1) := SendConfirmationMessage(ch);
    if werr.Some? then DataOutcome(werr, ch1, conn, TransferError(t, werr.value))
    else
      var d := if size > 0 then ReceiveChunks(ch1, conn, t, size, size) else DataOutcome(None, ch1, conn, t);
      if d.err.Some? then DataOutcome(d.err, SendErrorMessage(d.ch, ErrorText(d.err.value)), d.conn, d.t)
      else
        var (cerr, ch2) := ReadConfirmationMessage(d.ch);
        if cerr.Some? then DataOutcome(cerr, ch2, d.conn, TransferError(d.t, cerr.value))
        else DataOutcome(None, ch2, d.conn, d.t)
  }

  /** `getUploadFileData`: the transfer is closed whatever happened. The
      first failure is the result; otherwise a failing close is the result
      and is sent to the peer. */
  function GetUploadFileData(ch: MockChannel, conn: Connection, t: Transfer, size: int): (r: DataOutcome)
    ensures |r.ch.inbound| <= |ch.inbound|
  {
    var p := UploadPhase(ch, conn, t, size);
    var (closeErr, conn', t') := Close(p.conn, p.t);
    if p.err.Some? then DataOutcome(p.err, p.ch, conn', t')
    else if closeErr.Some? then DataOutcome(closeErr, SendErrorMessage(p.ch, ErrorText(closeErr.value)), conn', t')
    else DataOutcome(None, p.ch, conn', t')
  }

  // ---------------------------------------------------------------------
  // The sink loop

  /** The filesystem decisions the sink loop consults: the error, if any, of
      creating a directory and of opening a file for writing, whether a path
      names an existing directory, the temporary path an atomic upload of a
      target writes to, and the most bytes the user's quota lets an upload
      of a target write (zero or less: no limit). */
  datatype Hooks = Hooks(mkdir: string -> Option<Error>, open: string -> Option<Error>, isDir: string -> bool,
                         atomicPath: string -> string, maxWriteSize: string -> int)

  /** Where an upload to `target` writes its bytes: the temporary file when
      uploads are atomic, the target itself otherwise. */
  function UploadPath(mode: UploadMode, target: string, hooks: Hooks): string {
    if mode == Standard then target else hooks.atomicPath(target)
  }

  /** The sink's state between control lines: the channel, the connection,
      the id the next transfer gets, the current destination directory and
      how many directories are open. */
  datatype UploadState = UploadState(ch: MockChannel, conn: Connection, nextId: nat, dest: string, depth: nat)

  datatype Step = Continue(st: UploadState) | Stop(err: Option<Error>, st: UploadState)

  /** `getFileUploadDestPath`: where a received file goes. A recursive copy,
      or a destination written with a trailing slash or naming a directory,
      receives the file under its own name; otherwise the destination is the
      file itself. */
  function FileUploadDestPath(dest: string, name: string, recursive: bool, isDir: string -> bool): (r: string)
    ensures !recursive && !VirtualPath.HasTrailingSlash(dest) && !isDir(dest) ==> r == dest
    ensures recursive || VirtualPath.HasTrailingSlash(dest) || isDir(dest) ==>
      VirtualPath.Segments(r) == VirtualPath.Resolve(VirtualPath.Split(name), VirtualPath.Segments(dest))
  {
    if !recursive && !VirtualPath.HasTrailingSlash(dest) && !isDir(dest) then dest
    else VirtualPath.Join(dest, name)
  }

  /** `handleUpload`: opens the file the upload writes (truncating it) as a
      new transfer for the target, bounded by the quota's write limit, and
      receives the file into it. An atomic upload leaves the target alone
      until the transfer's close commits it. */
  function HandleUpload(st: UploadState, target: string, size: int, hooks: Hooks): (r: (Option<Error>, UploadState))
    ensures |r.1.ch.inbound| <= |st.ch.inbound|
  {
    match hooks.open(target)
    case Some(e) => (Some(e), st.(ch := SendErrorMessage(st.ch, ErrorText(e))))
    case None =>
      var path := UploadPath(st.conn.uploadMode, target, hooks);
      var conn0 := st.conn.(files := st.conn.files[path := []]);
      var (conn1, t) := NewTransfer(conn0, st.nextId, LocalFile(path, true), Upload, target, 0, hooks.maxWriteSize(target), false, None);
      var d := GetUploadFileData(st.ch, conn1, t, size);
      RemoveAppended(st.conn.transfers, st.nextId);
      (d.err, st.(ch := d.ch, conn := d.conn, nextId := st.nextId + 1))
  }

  /** A write touches nothing of the connection but its files and nothing
      of the transfer but its endpoint, counters and error slot, and a
      failed write is recorded. */
  lemma WriteFrame(conn: Connection, t: Transfer, data: seq<Byte>, off: int)
    ensures var w := WriteAt(conn, t, data, off);
            && w.conn.protocol == conn.protocol && w.conn.uploadMode == conn.uploadMode && w.conn.transfers == conn.transfers
            && w.t.finished == t.finished && w.t.id == t.id
            && (w.err.Some? ==> w.t.errTransfer.Some?)
  {
    WriteAtSpec(conn, t, data, off);
  }

  /** Receiving a file's bytes keeps the registry and the transfer's
      identity; a failing writer or, failing that, a failing reader decides
      the result, and every failure is recorded on the transfer. */
  lemma UploadPhaseFrame(ch: MockChannel, conn: Connection, t: Transfer, size: int)
    ensures var r := UploadPhase(ch, conn, t, size);
            && r.ch == ch.(inbound := r.ch.inbound, outbound := r.ch.outbound)
            && r.conn.protocol == conn.protocol && r.conn.uploadMode == conn.uploadMode && r.conn.transfers == conn.transfers
            && r.t.finished == t.finished && r.t.id == t.id
            && (r.err.Some? ==> r.t.errTransfer.Some?)
            && (ch.writeError.Some? ==> r.err == ch.writeError)
            && (ch.writeError.None? && ch.readError.Some? ==> r.err == ch.readError)
  {
    var (werr, ch1) := SendConfirmationMessage(ch);
    if werr.None? && size > 0 {
    }
  }

  /** `getUploadFileData` always closes the transfer and removes it from the
      registry; a broken channel's error is the result. */
  lemma GetUploadFileDataFrame(ch: MockChannel, conn: Connection, t: Transfer, size: int)
    ensures var r := GetUploadFileData(ch, conn, t, size);
            && r.ch == ch.(inbound := r.ch.inbound, outbound := r.ch.outbound)
            && r.conn.protocol == conn.protocol && r.conn.uploadMode == conn.uploadMode
            && r.t.finished
            && (!t.finished ==> r.conn.transfers == RemoveId(conn.transfers, t.id))
            && (ch.writeError.Some? ==> r.err == ch.writeError)
            && (ch.writeError.None? && ch.readError.Some? ==> r.err == ch.readError)
  {
    UploadPhaseFrame(ch, conn, t, size);
  }

  /** `handleUpload` keeps the destination directory; a target that cannot
      be opened is refused without touching the connection; otherwise the
      new transfer leaves the registry as it found it. */
  lemma HandleUploadFrame(st: UploadState, target: string, size: int, hooks: Hooks)
    ensures var r := HandleUpload(st, target, size, hooks);
            && r.1.ch == st.ch.(inbound := r.1.ch.inbound, outbound := r.1.ch.outbound)
            && r.1.dest == st.dest && r.1.depth == st.depth
            && (hooks.open(target).Some? ==> r.0 == hooks.open(target) && r.1.conn == st.conn)
            && (hooks.open(target).None? && st.nextId !in st.conn.transfers ==> r.1.conn.transfers == st.conn.transfers)
  {
    if hooks.open(target).None? {
      var path := UploadPath(st.conn.uploadMode, target, hooks);
      var conn0 := st.conn.(files := st.conn.files[path := []]);
      var (conn1, t) := NewTransfer(conn0, st.nextId, LocalFile(path, true), Upload, target, 0, hooks.maxWriteSize(target), false, None);
      GetUploadFileDataFrame(st.ch, conn1, t, size);
      RemoveAppended(st.conn.transfers, st.nextId);
    }
  }

  /** Acknowledges a control line; a failing write ends the loop. */
  function Confirm(st: UploadState): (r: Step)
    ensures r.st == st.(ch := r.st.ch)
    ensures r.st.ch == st.ch.(outbound := r.st.ch.outbound)
    ensures r.Stop? <==> st.ch.writeError.Some?
    ensures r.Stop? ==> r.err == st.ch.writeError
  {
    var (werr, ch) := SendConfirmationMessage(st.ch);
    if werr.Some? then Stop(werr, st.(ch := ch)) else Continue(st.(ch := ch))
  }

  /** Reports an error to the peer and ends the loop. */
  function Fail(st: UploadState, e: Error): (r: Step)
    ensures r == Stop(Some(e), r.st) && r.st == st.(ch := r.st.ch)
    ensures r.st.ch == st.ch.(outbound := r.st.ch.outbound)
  {
    Stop(Some(e), st.(ch := SendErrorMessage(st.ch, ErrorText(e))))
  }

  /** One round of `handleRecursiveUpload`: reads a control line and acts on
      it. The end of the stream ends the loop successfully. `E` leaves the
      current directory, and is refused when no directory is open; `D`
      enters (and creates) a directory; `C` receives a file. Anything else
      is a syntax error. */
  function UploadStep(st: UploadState, recursive: bool, hooks: Hooks): (r: Step)
    ensures r.Continue? ==> |r.st.ch.inbound| < |st.ch.inbound|
  {
    var (msg, ch1) := GetNextUploadProtocolMessage(st.ch);
    var st1 := st.(ch := ch1);
    match msg
    case Err(e) =>
      if e == Eof then Stop(None, st1) else Fail(st1, e)
    case Ok(line) =>
      if line != [] && line[0] == TagE then
        if st.depth == 0 then Fail(st1, UnacceptableEndDir)
        else Confirm(st1.(dest := VirtualPath.Join(st.dest, ".."), depth := st.depth - 1))
      else
        match ParseUploadMessage(line)
        case Err(e) => Fail(st1, e)
        case Ok(h) =>
          if line[0] == TagD then
            var dest := VirtualPath.Join(st.dest, Chars(h.name));
            var st2 := st1.(dest := dest, depth := st.depth + 1);
            match hooks.mkdir(dest)
            case Some(e) => Fail(st2, e)
            case None => Confirm(st2)
          else
            var target := FileUploadDestPath(st.dest, Chars(h.name), recursive, hooks.isDir);
            var (err, st2) := HandleUpload(st1, target, h.size, hooks);
            if err.Some? then Stop(err, st2) else Confirm(st2)
  }

  /** `handleRecursiveUpload`: runs rounds until one ends the loop. */
  function RecursiveUpload(st: UploadState, recursive: bool, hooks: Hooks): (r: (Option<Error>, UploadState))
    decreases |st.ch.inbound|
  {
    match UploadStep(st, recursive, hooks)
    case Stop(err, st') => (err, st')
    case Continue(st') => RecursiveUpload(st', recursive, hooks)
  }

  /** What every round keeps: it only consumes input and appends output; a
      broken reader ends the loop with its error (the end of the stream
      being no error), and a loop that ends cleanly on a healthy channel has
      read everything. */
  predicate StepFramed(st: UploadState, r: Step) {
    && r.st.ch == st.ch.(inbound := r.st.ch.inbound, outbound := r.st.ch.outbound)
    && |r.st.ch.inbound| <= |st.ch.inbound|
    && (st.ch.readError.Some? ==> r.Stop? && r.err == (if st.ch.readError == Some(Eof) then None else st.ch.readError))
    && (r.Stop? && r.err.None? && st.ch.readError.None? && st.ch.writeError != Some(Eof) ==> r.st.ch.inbound == [])
  }

  /** A round only consumes input and appends output; a broken reader ends
      the loop with its error (the end of the stream being no error), and a
      loop that ends cleanly on a healthy channel has read everything. */
  lemma UploadStepFrame(st: UploadState, recursive: bool, hooks: Hooks)
    ensures var r := UploadStep(st, recursive, hooks);
            && r.st.ch == st.ch.(inbound := r.st.ch.inbound, outbound := r.st.ch.outbound)
            && |r.st.ch.inbound| <= |st.ch.inbound|
            && (st.ch.readError.Some? ==> r.Stop? && r.err == (if st.ch.readError == Some(Eof) then None else st.ch.readError))
            && (r.Stop? && r.err.None? && st.ch.readError.None? && st.ch.writeError != Some(Eof) ==> r.st.ch.inbound == [])
  {
    var (msg, ch1) := GetNextUploadProtocolMessage(st.ch);
    match msg
    case Err(e) => NoLineFrame(st, e, ch1, recursive, hooks);
    case Ok(line) =>
      if line != [] && line[0] == TagE {
        EndLineFrame(st, line, ch1, recursive, hooks);
      } else {
        match ParseUploadMessage(line)
        case Err(e) => BadLineFrame(st, line, e, ch1, recursive, hooks);
        case Ok(h) =>
          if line[0] == TagD {
            DirStepFrame(st, line, h, ch1, recursive, hooks);
          } else {
            FileStepFrame(st, line, h, ch1, recursive, hooks);
          }
      }
    assert StepFramed(st, UploadStep(st, recursive, hooks));
  }

  /** The frame of a round that gets no line. */
  lemma NoLineFrame(st: UploadState, e: Error, ch1: MockChannel, recursive: bool, hooks: Hooks)
    requires GetNextUploadProtocolMessage(st.ch) == (Err(e), ch1)
    ensures StepFramed(st, UploadStep(st, recursive, hooks))
  {
  }

  /** The frame of a round that reads an `E` line. */
  lemma EndLineFrame(st: UploadState, line: seq<Byte>, ch1: MockChannel, recursive: bool, hooks: Hooks)
    requires GetNextUploadProtocolMessage(st.ch) == (Ok(line), ch1) && line != [] && line[0] == TagE
    ensures StepFramed(st, UploadStep(st, recursive, hooks))
  {
  }

  /** The frame of a round that reads a malformed line. */
  lemma BadLineFrame(st: UploadState, line: seq<Byte>, e: Error, ch1: MockChannel, recursive: bool, hooks: Hooks)
    requires GetNextUploadProtocolMessage(st.ch) == (Ok(line), ch1)
    requires !(line != [] && line[0] == TagE) && ParseUploadMessage(line) == Err(e)
    ensures StepFramed(st, UploadStep(st, recursive, hooks))
  {
  }

  /** The frame of a round that reads a `D` line. */
  lemma DirStepFrame(st: UploadState, line: seq<Byte>, h: UploadHeader, ch1: MockChannel, recursive: bool, hooks: Hooks)
    requires GetNextUploadProtocolMessage(st.ch) == (Ok(line), ch1)
    requires !(line != [] && line[0] == TagE) && ParseUploadMessage(line) == Ok(h) && line[0] == TagD
    ensures StepFramed(st, UploadStep(st, recursive, hooks))
  {
  }

  /** The frame of a round that receives a file. */
  lemma FileStepFrame(st: UploadState, line: seq<Byte>, h: UploadHeader, ch1: MockChannel, recursive: bool, hooks: Hooks)
    requires GetNextUploadProtocolMessage(st.ch) == (Ok(line), ch1)
    requires !(line != [] && line[0] == TagE) && ParseUploadMessage(line) == Ok(h) && line[0] != TagD
    ensures StepFramed(st, UploadStep(st, recursive, hooks))
  {
    var target := FileUploadDestPath(st.dest, Chars(h.name), recursive, hooks.isDir);
    var (err, st2) := HandleUpload(st.(ch := ch1), target, h.size, hooks);
    HandleUploadFrame(st.(ch := ch1), target, h.size, hooks);
    assert UploadStep(st, recursive, hooks) == if err.Some? then Stop(err, st2) else Confirm(st2);
  }

  /** The whole loop only consumes input and appends output; a broken
      reader ends it with its error, and a clean end on a healthy channel
      means every byte was read. */
  lemma {:induction false} RecursiveUploadFrame(st: UploadState, recursive: bool, hooks: Hooks)
    ensures var r := RecursiveUpload(st, recursive, hooks);
            && r.1.ch == st.ch.(inbound := r.1.ch.inbound, outbound := r.1.ch.outbound)
            && (st.ch.readError.Some? ==> r.0 == (if st.ch.readError == Some(Eof) then None else st.ch.readError))
            && (r.0.None? && st.ch.readError.None? && st.ch.writeError != Some(Eof) ==> r.1.ch.inbound == [])
    decreases |st.ch.inbound|
  {
    UploadStepFrame(st, recursive, hooks);
    match UploadStep(st, recursive, hooks)
    case Stop(_, _) =>
    case Continue(st') => RecursiveUploadFrame(st', recursive, hooks);
  }

  // ---------------------------------------------------------------------
  // The source side's directory header

  /** `T<mtime> 0 <mtime> 0`: the times line the source sends when asked to
      preserve times. */
  function TimeMessage(mtime: nat): seq<Byte> {
    [TagT] + Decimal(mtime) + [Space, 48, Space] + Decimal(mtime) + [Space, 48]
  }

  /** One control line of the source side: the line and its newline, then
      the peer's confirmation. */
  function SendLine(ch: MockChannel, line: seq<Byte>): (r: (Option<Error>, MockChannel))
    ensures r.1 == ch.(inbound := r.1.inbound, outbound := r.1.outbound)
    ensures ch.writeError.Some? ==> r.0 == ch.writeError
    ensures ch.writeError.None? && ch.readError.Some? ==> r.0 == ch.readError
  {
    var (werr, c) := SendProtocolMessage(ch, line + [NewLine]);
    if werr.Some? then (werr, c) else ReadConfirmationMessage(c)
  }

  /** `sendDownloadProtocolMessages`: the optional times line and the `D`
      line of a directory, each followed by the peer's confirmation. */
  function SendDownloadProtocolMessages(ch: MockChannel, preserveTimes: bool, mtime: nat,
                                        mode: FileMode, isDir: bool, dirName: seq<Byte>): (r: (Option<Error>, MockChannel))
    ensures r.1 == ch.(inbound := r.1.inbound, outbound := r.1.outbound)
    ensures ch.writeError.Some? ==> r.0 == ch.writeError
    ensures ch.writeError.None? && ch.readError.Some? ==> r.0 == ch.readError
  {
    var (e1, ch1) := if preserveTimes then SendLine(ch, TimeMessage(mtime)) else (None, ch);
    if e1.Some? then (e1, ch1)
    else SendLine(ch1, FormatUploadMessage(TagD, FileModeAsString(mode, isDir), 0, dirName))
  }

  // ---------------------------------------------------------------------
  // Dispatch

  /** `handle`: the command type is the argument before the destination.
      `-t` acknowledges the command and runs the sink loop from the
      destination path; `-f` waits for the peer's go-ahead and runs the
      source side, which is a parameter here; anything else is refused.
      Too few arguments make the engine fail generically. */
  function Handle(args: seq<string>, ch: MockChannel, conn: Connection, firstId: nat, hooks: Hooks,
                  download: MockChannel -> (Option<Error>, MockChannel)): (r: (Option<Error>, MockChannel, Connection))
    ensures |args| < 2 ==> r == (Some(GenericFailure), ch, conn)
    ensures |args| >= 2 && args[|args| - 2] != "-t" && args[|args| - 2] != "-f" ==>
      r == (Some(UnsupportedCommand), ch, conn)
    ensures |args| >= 2 && args[|args| - 2] == "-t" && ch.writeError.Some? ==> r.0 == ch.writeError
    ensures |args| >= 2 && args[|args| - 2] == "-f" && ch.readError.Some? ==> r.0 == ch.readError
  {
    if |args| < 2 then (Some(GenericFailure), ch, conn)
    else
      var kind := args[|args| - 2];
      if kind == "-t" then
        var (werr, ch1) := SendConfirmationMessage(ch);
        if werr.Some? then (werr, ch1, conn)
        else
          var st := UploadState(ch1, conn, firstId, SshCommand.GetDestPath(args), 0);
          var (err, st') := RecursiveUpload(st, "-r" in args, hooks);
          (err, st'.ch, st'.conn)
      else if kind == "-f" then
        var (rerr, ch1) := ReadConfirmationMessage(ch);
        if rerr.Some? then (rerr, ch1, conn)
        else
          var (err, ch2) := download(ch1);
          (err, ch2, conn)
      else
        (Some(UnsupportedCommand), ch, conn)
  }

  /** `scp -t` on a healthy channel acknowledges the command with one OK
      byte and then runs the sink loop from the destination argument, at
      the top level, recursively when `-r` is given; a session that ends
      without an error on a working reader has read the whole stream. */
  lemma HandleSink(args: seq<string>, ch: MockChannel, conn: Connection, firstId: nat, hooks: Hooks,
                   download: MockChannel -> (Option<Error>, MockChannel))
    requires |args| >= 2 && args[|args| - 2] == "-t" && ch.writeError.None? && !ch.shortWrite
    ensures var st := UploadState(ch.(outbound := ch.outbound + [OkByte]), conn, firstId, SshCommand.GetDestPath(args), 0);
            var (err, st') := RecursiveUpload(st, "-r" in args, hooks);
            Handle(args, ch, conn, firstId, hooks, download) == (err, st'.ch, st'.conn)
    ensures var r := Handle(args, ch, conn, firstId, hooks, download);
            && r.1 == ch.(inbound := r.1.inbound, outbound := r.1.outbound)
            && (ch.readError.None? && r.0.None? ==> r.1.inbound == [])
  {
    var ch1 := ch.(outbound := ch.outbound + [OkByte]);
    assert SendConfirmationMessage(ch) == (None, ch1);
    var st := UploadState(ch1, conn, firstId, SshCommand.GetDestPath(args), 0);
    RecursiveUploadFrame(st, "-r" in args, hooks);
  }

  // ---------------------------------------------------------------------
  // Properties of the sink loop

  /** Reading one control line `line` + newline off the front of the stream. */
  lemma ReadLine(c: MockChannel, line: seq<Byte>, rest: seq<Byte>)
    requires c.readError.None? && NewLine !in line && c.inbound == line + [NewLine] + rest
    ensures ReadProtocolMessage(c) == (Ok(line), c.(inbound := rest))
  {
    FirstNewlineAfter(line, rest);
    assert c.inbound[..|line|] == line && c.inbound[|line| + 1..] == rest;
  }

  /** A `T` line is answered with one confirmation and otherwise ignored. */
  lemma TimeMessageSkipped(c: MockChannel, times: seq<Byte>, rest: seq<Byte>)
    requires c.readError.None? && c.writeError.None? && !c.shortWrite
    requires NewLine !in times && c.inbound == [TagT] + times + [NewLine] + rest
    ensures GetNextUploadProtocolMessage(c) ==
            GetNextUploadProtocolMessage(c.(inbound := rest, outbound := c.outbound + [OkByte]))
  {
    ReadLine(c, [TagT] + times, rest);
  }

  /** The next control line, when it is not a times line. */
  lemma NextLine(c: MockChannel, line: seq<Byte>, rest: seq<Byte>)
    requires c.readError.None? && NewLine !in line && !IsTimeMessage(line)
    requires c.inbound == line + [NewLine] + rest
    ensures GetNextUploadProtocolMessage(c) == (Ok(line), c.(inbound := rest))
  {
    ReadLine(c, line, rest);
  }

  /** A round that ends the loop ends the whole upload. */
  lemma StopEndsUpload(st: UploadState, recursive: bool, hooks: Hooks)
    requires UploadStep(st, recursive, hooks).Stop?
    ensures RecursiveUpload(st, recursive, hooks) == (UploadStep(st, recursive, hooks).err, UploadStep(st, recursive, hooks).st)
  {
  }

  /** An `E` line with no directory open is refused with "unacceptable end
      dir command", which is also sent to the peer; the loop ends there. */
  lemma EndDirAtTopLevel(st: UploadState, tail: seq<Byte>, rest: seq<Byte>, recursive: bool, hooks: Hooks)
    requires st.depth == 0 && st.ch.readError.None?
    requires NewLine !in tail && st.ch.inbound == [TagE] + tail + [NewLine] + rest
    ensures UploadStep(st, recursive, hooks) ==
              Stop(Some(UnacceptableEndDir), st.(ch := SendErrorMessage(st.ch.(inbound := rest), ErrorText(UnacceptableEndDir))))
    ensures RecursiveUpload(st, recursive, hooks).0 == Some(UnacceptableEndDir)
    ensures st.ch.writeError.None? && !st.ch.shortWrite ==>
              RecursiveUpload(st, recursive, hooks).1.ch.outbound ==
              st.ch.outbound + [ErrorByte] + ErrorText(UnacceptableEndDir) + [NewLine]
  {
    NextLine(st.ch, [TagE] + tail, rest);
    var c' := SendErrorMessage(st.ch.(inbound := rest), ErrorText(UnacceptableEndDir));
    assert UploadStep(st, recursive, hooks) == Stop(Some(UnacceptableEndDir), st.(ch := c'));
    StopEndsUpload(st, recursive, hooks);
  }

  /** Leaving a directory entered by name lands back where it was entered. */
  lemma ParentOfChild(dest: string, child: string, name: string)
    requires VirtualPath.Segments(child) == VirtualPath.Segments(dest) + [name]
    ensures VirtualPath.Segments(VirtualPath.Join(child, "..")) == VirtualPath.Segments(dest)
  {
    VirtualPath.JoinParent(child);
    assert (VirtualPath.Segments(dest) + [name])[..|VirtualPath.Segments(dest)|] == VirtualPath.Segments(dest);
  }

  /** A `D` line enters the named directory once it is created. */
  lemma EnterDir(st: UploadState, mode: seq<Byte>, size: nat, name: seq<Byte>, rest: seq<Byte>,
                 recursive: bool, hooks: Hooks) returns (st1: UploadState)
    requires st.ch.readError.None? && st.ch.writeError.None? && !st.ch.shortWrite
    requires Space !in mode && NewLine !in mode && size <= MaxInt64
    requires NewLine !in name && VirtualPath.IsName(Chars(name))
    requires hooks.mkdir(VirtualPath.Join(st.dest, Chars(name))).None?
    requires st.ch.inbound == FormatUploadMessage(TagD, mode, size, name) + [NewLine] + rest
    ensures UploadStep(st, recursive, hooks) == Continue(st1)
    ensures st1 == st.(ch := st.ch.(inbound := rest, outbound := st.ch.outbound + [OkByte]),
                       dest := VirtualPath.Join(st.dest, Chars(name)), depth := st.depth + 1)
    ensures VirtualPath.Segments(st1.dest) == VirtualPath.Segments(st.dest) + [Chars(name)]
  {
    assert name != [] by { assert Chars(name) != ""; }
    var line := FormatUploadMessage(TagD, mode, size, name);
    HeaderLine(TagD, mode, size, name);
    st1 := DirLine(st, line, UploadHeader(size, name), rest, recursive, hooks);
    VirtualPath.JoinName(st.dest, Chars(name));
  }

  /** A rendered `D` or `C` line is a single control line that parses back. */
  lemma HeaderLine(tag: Byte, mode: seq<Byte>, size: nat, name: seq<Byte>)
    requires tag == TagC || tag == TagD
    requires Space !in mode && NewLine !in mode && size <= MaxInt64 && NewLine !in name && name != []
    ensures var line := FormatUploadMessage(tag, mode, size, name);
            line != [] && line[0] == tag && NewLine !in line && !IsTimeMessage(line)
            && ParseUploadMessage(line) == Ok(UploadHeader(size, name))
  {
    var line := FormatUploadMessage(tag, mode, size, name);
    assert line == [tag] + (mode + [Space] + Decimal(size) + [Space] + name);
    FormatThenParse(tag, mode, size, name);
  }

  /** A well-formed `D` line, whatever its text, enters its directory. */
  lemma DirLine(st: UploadState, line: seq<Byte>, h: UploadHeader, rest: seq<Byte>,
                recursive: bool, hooks: Hooks) returns (st1: UploadState)
    requires st.ch.readError.None? && st.ch.writeError.None? && !st.ch.shortWrite
    requires line != [] && line[0] == TagD && NewLine !in line && ParseUploadMessage(line) == Ok(h)
    requires hooks.mkdir(VirtualPath.Join(st.dest, Chars(h.name))).None?
    requires st.ch.inbound == line + [NewLine] + rest
    ensures UploadStep(st, recursive, hooks) == Continue(st1)
    ensures st1 == st.(ch := st.ch.(inbound := rest, outbound := st.ch.outbound + [OkByte]),
                       dest := VirtualPath.Join(st.dest, Chars(h.name)), depth := st.depth + 1)
  {
    NextLine(st.ch, line, rest);
    var st2 := st.(ch := st.ch.(inbound := rest), dest := VirtualPath.Join(st.dest, Chars(h.name)), depth := st.depth + 1);
    assert UploadStep(st, recursive, hooks) == Confirm(st2);
    ConfirmHealthy(st2);
    st1 := st2.(ch := st2.ch.(outbound := st2.ch.outbound + [OkByte]));
  }

  /** An `E` line with a directory open returns to its parent. */
  lemma LeaveDir(st: UploadState, tail: seq<Byte>, rest: seq<Byte>, recursive: bool, hooks: Hooks)
    requires st.ch.readError.None? && st.ch.writeError.None? && !st.ch.shortWrite && st.depth > 0
    requires NewLine !in tail && st.ch.inbound == [TagE] + tail + [NewLine] + rest
    ensures UploadStep(st, recursive, hooks) ==
            Continue(st.(ch := st.ch.(inbound := rest, outbound := st.ch.outbound + [OkByte]),
                         dest := VirtualPath.Join(st.dest, ".."), depth := st.depth - 1))
  {
    NextLine(st.ch, [TagE] + tail, rest);
  }

  // ---------------------------------------------------------------------
  // Properties of a file's receipt

  /** A transfer that writes into an open local file, from offset zero and
      without a quota it could exceed by `more` bytes. */
  predicate HealthyUpload(t: Transfer, more: nat) {
    t.endpoint.LocalFile? && t.endpoint.open && t.minWriteOffset == 0
    && (t.maxWriteSize <= 0 || t.bytesReceived + more <= t.maxWriteSize)
  }

  /** The read loop is about to receive `remaining` of `size` bytes, all of
      which (`data`) the peer has sent, followed by `rest`. */
  predicate Feeding(ch: MockChannel, t: Transfer, size: nat, remaining: nat, data: seq<Byte>, rest: seq<Byte>) {
    0 < remaining <= size && |data| == remaining
    && ch.readError.None? && ch.inbound == data + rest
    && HealthyUpload(t, remaining)
  }

  /** A write within the quota into an open local file succeeds. */
  lemma WriteHealthy(conn: Connection, t: Transfer, data: seq<Byte>, off: nat)
    requires HealthyUpload(t, |data|)
    ensures WriteAt(conn, t, data, off) ==
            WriteOutcome(|data|, None,
                         conn.(files := conn.files[t.endpoint.name := Overwrite(Content(conn.files, t.endpoint.name), off, data)]),
                         t.(bytesReceived := t.bytesReceived + |data|))
  {
  }

  /** What the read loop leaves behind once the `data` meant for offset
      `size - remaining` has been stored: the channel holds only `rest`, the
      file has `data` written over it at that offset and the transfer has
      counted the bytes. */
  function Stored(ch: MockChannel, conn: Connection, t: Transfer, size: nat, remaining: nat,
                  data: seq<Byte>, rest: seq<Byte>): DataOutcome
    requires remaining <= size && t.endpoint.LocalFile?
  {
    DataOutcome(None, ch.(inbound := rest),
                conn.(files := conn.files[t.endpoint.name :=
                        Overwrite(Content(conn.files, t.endpoint.name), size - remaining, data)]),
                t.(bytesReceived := t.bytesReceived + remaining))
  }

  /** Two successive chunk writes add up to one write of both chunks: once
      the first `k` bytes are written (`w`), storing the others from there
      on is storing them all from the start. */
  lemma CombineChunks(ch: MockChannel, conn: Connection, t: Transfer, size: nat, remaining: nat, k: nat,
                      data: seq<Byte>, rest: seq<Byte>, w: WriteOutcome)
    requires Feeding(ch, t, size, remaining, data, rest) && k < remaining
    requires w == WriteOutcome(k, None,
                               conn.(files := conn.files[t.endpoint.name :=
                                       Overwrite(Content(conn.files, t.endpoint.name), size - remaining, data[..k])]),
                               t.(bytesReceived := t.bytesReceived + k))
    ensures Stored(ch.(inbound := data[k..] + rest), w.conn, w.t, size, remaining - k, data[k..], rest)
            == Stored(ch, conn, t, size, remaining, data, rest)
  {
    var name := t.endpoint.name;
    var c0 := Content(conn.files, name);
    var off := size - remaining;
    assert Content(w.conn.files, name) == Overwrite(c0, off, data[..k]);
    OverwriteConcat(c0, off, data[..k], data[k..]);
    assert data[..k] + data[k..] == data;
    UpdateTwice(conn.files, name, Overwrite(c0, off, data[..k]), Overwrite(c0, off, data));
  }

  /** Reading `k` bytes of a healthy channel that holds `data` and then
      `rest` yields the first `k` bytes of `data`. */
  lemma ReadChunk(ch: MockChannel, k: nat, data: seq<Byte>, rest: seq<Byte>)
    requires 0 < k <= |data| && ch.readError.None? && ch.inbound == data + rest
    ensures Read(ch, k) == ReadResult(data[..k], None, ch.(inbound := data[k..] + rest))
  {
    assert (data + rest)[..k] == data[..k];
    assert (data + rest)[k..] == data[k..] + rest;
  }

  /** One round of the read loop when the next chunk is there and its
      write succeeds. */
  lemma ChunkStep(ch: MockChannel, conn: Connection, t: Transfer, size: nat, remaining: nat,
                  data: seq<Byte>, rest: seq<Byte>) returns (k: nat, w: WriteOutcome)
    requires Feeding(ch, t, size, remaining, data, rest)
    ensures k == Min(CopyChunk, remaining) && 0 < k <= remaining && (k == remaining ==> data[..k] == data)
    ensures k < remaining ==> Feeding(ch.(inbound := data[k..] + rest), w.t, size, remaining - k, data[k..], rest)
    ensures w == WriteOutcome(k, None,
                              conn.(files := conn.files[t.endpoint.name :=
                                      Overwrite(Content(conn.files, t.endpoint.name), size - remaining, data[..k])]),
                              t.(bytesReceived := t.bytesReceived + k))
    ensures ReceiveChunks(ch, conn, t, size, remaining) ==
            if k == remaining then Stored(ch, conn, t, size, remaining, data, rest)
            else ReceiveChunks(ch.(inbound := data[k..] + rest), w.conn, w.t, size, remaining - k)
  {
    k := Min(CopyChunk, remaining);
    ReadChunk(ch, k, data, rest);
    var rr := Read(ch, k);
    WriteHealthy(conn, t, rr.data, size - remaining);
    w := WriteAt(conn, t, rr.data, size - remaining);
    if k == remaining {
      assert data[k..] + rest == rest;
    }
  }

  /** When the peer sends all `remaining` bytes, they land in the file at
      the offset where they belong, chunk after chunk, and nothing fails. */
  lemma {:induction false} ReceiveChunksHealthy(ch: MockChannel, conn: Connection, t: Transfer, size: nat, remaining: nat,
                                                data: seq<Byte>, rest: seq<Byte>)
    requires Feeding(ch, t, size, remaining, data, rest)
    ensures ReceiveChunks(ch, conn, t, size, remaining) == Stored(ch, conn, t, size, remaining, data, rest)
    decreases remaining
  {
    var k, w := ChunkStep(ch, conn, t, size, remaining, data, rest);
    if k < remaining {
      ReceiveChunksHealthy(ch.(inbound := data[k..] + rest), w.conn, w.t, size, remaining - k, data[k..], rest);
      CombineChunks(ch, conn, t, size, remaining, k, data, rest, w);
    }
  }

  /** The read loop writes no file but its transfer's, keeps the transfer
      on that file and, on a transfer with no error yet, records exactly the
      error it stops with. */
  lemma {:induction false} ReceiveChunksKeepsOthers(ch: MockChannel, conn: Connection, t: Transfer, size: nat, remaining: nat)
    requires 0 < remaining <= size
    requires t.endpoint.LocalFile? && t.endpoint.name in conn.files
    ensures var r := ReceiveChunks(ch, conn, t, size, remaining);
            && t.endpoint.name in r.conn.files
            && r.conn.files == conn.files[t.endpoint.name := r.conn.files[t.endpoint.name]]
            && r.t.endpoint == t.endpoint && r.t.fsPath == t.fsPath && r.t.direction == t.direction
            && r.t.finished == t.finished
            && (t.errTransfer.None? ==> r.t.errTransfer == r.err)
    decreases remaining
  {
    var rr := Read(ch, Min(CopyChunk, remaining));
    if rr.err.None? {
      WriteKeepsOthers(conn, t, rr.data, size - remaining);
      var w := WriteAt(conn, t, rr.data, size - remaining);
      if w.err.None? && |rr.data| != remaining {
        var next := remaining - |rr.data|;
        assert ReceiveChunks(ch, conn, t, size, remaining) == ReceiveChunks(rr.channel, w.conn, w.t, size, next);
        ReceiveChunksKeepsOthers(rr.channel, w.conn, w.t, size, next);
        var r := ReceiveChunks(rr.channel, w.conn, w.t, size, next);
        UpdatesCompose(conn.files, w.conn.files, r.conn.files, t.endpoint.name);
      }
    }
  }

  /** Two maps that each differ from the previous only at one key differ
      from the first only at that key. */
  lemma UpdatesCompose<K, V>(a: map<K, V>, b: map<K, V>, c: map<K, V>, k: K)
    requires k in b && b == a[k := b[k]]
    requires k in c && c == b[k := c[k]]
    ensures c == a[k := c[k]]
  {
  }

  /** A write into a local file changes no other file, keeps the transfer
      on that file and, on a transfer with no error yet, records exactly the
      error it fails with. */
  lemma WriteKeepsOthers(conn: Connection, t: Transfer, data: seq<Byte>, off: int)
    requires t.endpoint.LocalFile? && t.endpoint.name in conn.files
    ensures var w := WriteAt(conn, t, data, off);
            && t.endpoint.name in w.conn.files
            && w.conn.files == conn.files[t.endpoint.name := w.conn.files[t.endpoint.name]]
            && w.t.endpoint == t.endpoint && w.t.fsPath == t.fsPath && w.t.direction == t.direction
            && w.t.finished == t.finished
            && (t.errTransfer.None? ==> w.t.errTransfer == w.err)
  {
  }

  /** Receiving a file's bytes writes no file but the transfer's and, on a
      transfer with no error yet, records exactly the error it stops with. */
  lemma UploadPhaseKeepsOthers(ch: MockChannel, conn: Connection, t: Transfer, size: int)
    requires t.endpoint.LocalFile? && t.endpoint.name in conn.files
    ensures var r := UploadPhase(ch, conn, t, size);
            && t.endpoint.name in r.conn.files
            && r.conn.files == conn.files[t.endpoint.name := r.conn.files[t.endpoint.name]]
            && r.t.endpoint == t.endpoint && r.t.fsPath == t.fsPath && r.t.direction == t.direction
            && r.t.finished == t.finished
            && (t.errTransfer.None? ==> r.t.errTransfer == r.err)
  {
    var (werr, ch1) := SendConfirmationMessage(ch);
    if werr.None? && size > 0 {
      ReceiveChunksKeepsOthers(ch1, conn, t, size, size);
    }
  }

  /** A failed upload loses the file it was writing and touches no other
      file: an upload stopped by the quota loses what it wrote, and a failed
      atomic upload removes its temporary file and leaves its target as it
      was. */
  lemma HandleUploadDiscards(st: UploadState, target: string, size: int, hooks: Hooks)
    requires hooks.open(target).None?
    ensures var path := UploadPath(st.conn.uploadMode, target, hooks);
            var r := HandleUpload(st, target, size, hooks);
            r.0.Some? && (r.0 == Some(QuotaExceeded) || (st.conn.uploadMode == Atomic && path != target)) ==>
              r.1.conn.files == st.conn.files - {path}
  {
    var path := UploadPath(st.conn.uploadMode, target, hooks);
    var conn0 := st.conn.(files := st.conn.files[path := []]);
    var (conn1, t) := NewTransfer(conn0, st.nextId, LocalFile(path, true), Upload, target, 0, hooks.maxWriteSize(target), false, None);
    var d := GetUploadFileData(st.ch, conn1, t, size);
    var r := HandleUpload(st, target, size, hooks);
    assert r.0 == d.err && r.1.conn == d.conn;
    FileDataDiscards(st.ch, conn1, t, size);
    assert conn1.files - {path} == st.conn.files - {path};
  }

  /** Receiving a file that fails loses the file the transfer wrote and
      touches no other file, when the failure is the quota's or the upload
      is atomic without resume. */
  lemma FileDataDiscards(ch: MockChannel, conn: Connection, t: Transfer, size: int)
    requires t.endpoint.LocalFile? && t.endpoint.open && t.endpoint.name in conn.files
    requires t.direction == Upload && !t.finished && t.errTransfer.None?
    ensures var d := GetUploadFileData(ch, conn, t, size);
            d.err.Some? && (d.err == Some(QuotaExceeded) || (conn.uploadMode == Atomic && IsAtomicUpload(t))) ==>
              d.conn.files == conn.files - {t.endpoint.name}
  {
    UploadPhaseKeepsOthers(ch, conn, t, size);
    UploadPhaseFrame(ch, conn, t, size);
    var p := UploadPhase(ch, conn, t, size);
    assert p.conn.files - {t.endpoint.name} == conn.files - {t.endpoint.name};
    var (ioErr, t1) := CloseIO(p.t.(finished := true));
    assert ioErr.None? && t1.errTransfer == p.err;
    if p.err.Some? {
      FsErrorClassifies(conn.protocol, p.err.value);
    }
  }

  /** A file larger than the quota's write limit (and sent in one chunk)
      is refused with the quota error, and the file it was being written to
      is gone. */
  lemma HandleUploadOverQuota(st: UploadState, target: string, data: seq<Byte>, rest: seq<Byte>, hooks: Hooks)
    requires st.ch.readError.None? && st.ch.writeError.None? && !st.ch.shortWrite
    requires st.ch.inbound == data + rest && |data| <= CopyChunk
    requires hooks.open(target).None? && 0 < hooks.maxWriteSize(target) < |data|
    ensures var r := HandleUpload(st, target, |data|, hooks);
            && r.0 == Some(QuotaExceeded)
            && r.1.conn.files == st.conn.files - {UploadPath(st.conn.uploadMode, target, hooks)}
  {
    var path := UploadPath(st.conn.uploadMode, target, hooks);
    var conn0 := st.conn.(files := st.conn.files[path := []]);
    var (conn1, t) := NewTransfer(conn0, st.nextId, LocalFile(path, true), Upload, target, 0, hooks.maxWriteSize(target), false, None);
    var ch1 := st.ch.(outbound := st.ch.outbound + [OkByte]);
    assert SendConfirmationMessage(st.ch) == (None, ch1);
    ReadChunk(ch1, |data|, data, rest);
    assert data[..|data|] == data;
    WriteAtSpec(conn1, t, data, 0);
    assert ReceiveChunks(ch1, conn1, t, |data|, |data|).err == Some(QuotaExceeded);
    assert UploadPhase(st.ch, conn1, t, |data|).err == Some(QuotaExceeded);
    HandleUploadDiscards(st, target, |data|, hooks);
  }

  /** Closing an upload into an open file with no error recorded succeeds
      and deregisters the transfer; a plain upload keeps its file, an atomic
      one moves its temporary file onto the target. */
  lemma CloseClean(conn: Connection, t: Transfer)
    requires t.endpoint.LocalFile? && t.endpoint.open && !t.finished && t.errTransfer.None?
    requires IsAtomicUpload(t) ==> t.endpoint.name in conn.files
    ensures Close(conn, t) == (None, conn.(transfers := RemoveId(conn.transfers, t.id),
                                           files := if IsAtomicUpload(t) then Commit(conn.files, t.endpoint.name, t.fsPath).1
                                                    else conn.files),
                               t.(finished := true, endpoint := LocalFile(t.endpoint.name, false)))
  {
  }

  /** All of a file's bytes and the peer's confirmation arrive: the `C`
      line is acknowledged once and the bytes are written from the start of
      the file. */
  lemma UploadPhaseHealthy(ch: MockChannel, conn: Connection, t: Transfer, data: seq<Byte>, rest: seq<Byte>)
    requires ch.readError.None? && ch.writeError.None? && !ch.shortWrite
    requires ch.inbound == data + [OkByte] + rest
    requires HealthyUpload(t, |data|) && t.endpoint.name in conn.files
    ensures UploadPhase(ch, conn, t, |data|) ==
            DataOutcome(None, ch.(inbound := rest, outbound := ch.outbound + [OkByte]),
                        conn.(files := conn.files[t.endpoint.name := Overwrite(conn.files[t.endpoint.name], 0, data)]),
                        t.(bytesReceived := t.bytesReceived + |data|))
  {
    var name := t.endpoint.name;
    var ch1 := ch.(outbound := ch.outbound + [OkByte]);
    assert SendConfirmationMessage(ch) == (None, ch1);
    if |data| > 0 {
      assert ch1.inbound == data + ([OkByte] + rest);
      ReceiveChunksHealthy(ch1, conn, t, |data|, |data|, data, [OkByte] + rest);
    } else {
      assert Overwrite(conn.files[name], 0, data) == conn.files[name];
      assert conn.files[name := conn.files[name]] == conn.files;
    }
    assert ReadConfirmationMessage(ch1.(inbound := [OkByte] + rest)) == (None, ch1.(inbound := rest));
  }

  /** A file received in full and confirmed by the peer: the `C` line is
      acknowledged once, the file holds exactly the bytes sent, the transfer
      is closed cleanly (an atomic upload being committed to its target) and
      leaves the registry. */
  lemma UploadFileDataHealthy(ch: MockChannel, conn: Connection, t: Transfer, data: seq<Byte>, rest: seq<Byte>)
    requires ch.readError.None? && ch.writeError.None? && !ch.shortWrite
    requires ch.inbound == data + [OkByte] + rest
    requires HealthyUpload(t, |data|) && !t.finished && t.errTransfer.None?
    requires t.endpoint.name in conn.files
    ensures var d := GetUploadFileData(ch, conn, t, |data|);
            var written := conn.files[t.endpoint.name := Overwrite(conn.files[t.endpoint.name], 0, data)];
            && d.err.None? && d.ch == ch.(inbound := rest, outbound := ch.outbound + [OkByte])
            && d.conn == conn.(files := if IsAtomicUpload(t) then Commit(written, t.endpoint.name, t.fsPath).1 else written,
                               transfers := RemoveId(conn.transfers, t.id))
  {
    UploadPhaseHealthy(ch, conn, t, data, rest);
    var p := UploadPhase(ch, conn, t, |data|);
    CloseClean(p.conn, p.t);
  }

  /** `handleUpload` of a file whose bytes (within the quota's write
      limit) and final confirmation follow: the target ends up holding
      exactly the data, whether written in place or through a temporary file
      that is then moved onto it, and no temporary file remains. */
  lemma HandleUploadHealthy(st: UploadState, target: string, data: seq<Byte>, rest: seq<Byte>, hooks: Hooks)
    requires st.ch.readError.None? && st.ch.writeError.None? && !st.ch.shortWrite
    requires st.ch.inbound == data + [OkByte] + rest
    requires hooks.open(target).None? && st.nextId !in st.conn.transfers
    requires hooks.maxWriteSize(target) <= 0 || |data| <= hooks.maxWriteSize(target)
    ensures HandleUpload(st, target, |data|, hooks) ==
            (None, st.(ch := st.ch.(inbound := rest, outbound := st.ch.outbound + [OkByte]),
                       conn := st.conn.(files := (st.conn.files - {UploadPath(st.conn.uploadMode, target, hooks)})[target := data]),
                       nextId := st.nextId + 1))
  {
    var path := UploadPath(st.conn.uploadMode, target, hooks);
    var conn0 := st.conn.(files := st.conn.files[path := []]);
    var (conn1, t) := NewTransfer(conn0, st.nextId, LocalFile(path, true), Upload, target, 0, hooks.maxWriteSize(target), false, None);
    UploadFileDataHealthy(st.ch, conn1, t, data, rest);
    TruncateFillDeregister(st.conn, path, target, st.nextId, data);
  }

  /** Truncating the file an upload writes, registering a transfer for it,
      overwriting it from the start, committing it to the target when it is
      a temporary file and deregistering the transfer leaves the target
      holding the data, no temporary file and the registry as it was. */
  lemma TruncateFillDeregister(conn: Connection, path: string, target: string, id: nat, data: seq<Byte>)
    requires id !in conn.transfers
    ensures var c1 := conn.(files := conn.files[path := []], transfers := conn.transfers + [id]);
            var written := c1.files[path := Overwrite(c1.files[path], 0, data)];
            c1.(files := if path != target then Commit(written, path, target).1 else written, transfers := RemoveId(c1.transfers, id))
            == conn.(files := (conn.files - {path})[target := data])
  {
    RemoveAppended(conn.transfers, id);
    OverwriteEmpty(data);
    var written := conn.files[path := []][path := data];
    assert written == conn.files[path := data];
    if path != target {
      assert (written - {path})[target := written[path]] == (conn.files - {path})[target := data];
    } else {
      assert written == (conn.files - {path})[target := data];
    }
  }

  /** A well-formed `C` line hands the rest of the stream to `handleUpload`
      for the file's destination path. */
  lemma CopyLine(st: UploadState, line: seq<Byte>, h: UploadHeader, after: seq<Byte>, recursive: bool, hooks: Hooks)
    requires st.ch.readError.None?
    requires line != [] && line[0] == TagC && NewLine !in line && ParseUploadMessage(line) == Ok(h)
    requires st.ch.inbound == line + [NewLine] + after
    ensures var (err, st2) := HandleUpload(st.(ch := st.ch.(inbound := after)),
                                           FileUploadDestPath(st.dest, Chars(h.name), recursive, hooks.isDir), h.size, hooks);
            UploadStep(st, recursive, hooks) == if err.Some? then Stop(err, st2) else Confirm(st2)
  {
    NextLine(st.ch, line, after);
  }

  /** A `C` line whose file is received without an error is acknowledged
      once more when `handleUpload` returns. */
  lemma FileLineConfirmed(st: UploadState, line: seq<Byte>, h: UploadHeader, after: seq<Byte>,
                          recursive: bool, hooks: Hooks, st2: UploadState)
    requires st.ch.readError.None?
    requires line != [] && line[0] == TagC && NewLine !in line && ParseUploadMessage(line) == Ok(h)
    requires st.ch.inbound == line + [NewLine] + after
    requires HandleUpload(st.(ch := st.ch.(inbound := after)),
                          FileUploadDestPath(st.dest, Chars(h.name), recursive, hooks.isDir), h.size, hooks) == (None, st2)
    ensures UploadStep(st, recursive, hooks) == Confirm(st2)
  {
    CopyLine(st, line, h, after, recursive, hooks);
  }

  /** A well-formed `C` line, whatever its text, stores the file that
      follows it and is acknowledged twice: once before the data and once
      after. */
  lemma FileLine(st: UploadState, line: seq<Byte>, h: UploadHeader, data: seq<Byte>, rest: seq<Byte>,
                 recursive: bool, hooks: Hooks) returns (st1: UploadState)
    requires st.ch.readError.None? && st.ch.writeError.None? && !st.ch.shortWrite
    requires line != [] && line[0] == TagC && NewLine !in line && ParseUploadMessage(line) == Ok(h)
    requires h.size == |data| && st.nextId !in st.conn.transfers
    requires var target := FileUploadDestPath(st.dest, Chars(h.name), recursive, hooks.isDir);
             hooks.open(target).None? && (hooks.maxWriteSize(target) <= 0 || |data| <= hooks.maxWriteSize(target))
    requires st.ch.inbound == line + [NewLine] + (data + [OkByte] + rest)
    ensures UploadStep(st, recursive, hooks) == Continue(st1)
    ensures var target := FileUploadDestPath(st.dest, Chars(h.name), recursive, hooks.isDir);
            st1 == st.(ch := st.ch.(inbound := rest, outbound := st.ch.outbound + [OkByte, OkByte]),
                       conn := st.conn.(files := (st.conn.files - {UploadPath(st.conn.uploadMode, target, hooks)})[target := data]),
                       nextId := st.nextId + 1)
  {
    var target := FileUploadDestPath(st.dest, Chars(h.name), recursive, hooks.isDir);
    var stA := st.(ch := st.ch.(inbound := data + [OkByte] + rest));
    HandleUploadHealthy(stA, target, data, rest, hooks);
    var st2 := stA.(ch := stA.ch.(inbound := rest, outbound := stA.ch.outbound + [OkByte]),
                    conn := stA.conn.(files := (stA.conn.files - {UploadPath(st.conn.uploadMode, target, hooks)})[target := data]),
                    nextId := stA.nextId + 1);
    FileLineConfirmed(st, line, h, data + [OkByte] + rest, recursive, hooks, st2);
    ConfirmHealthy(st2);
    TwoAcks(st.ch.outbound);
    st1 := st2.(ch := st2.ch.(outbound := st2.ch.outbound + [OkByte]));
    assert UploadStep(st, recursive, hooks) == Continue(st1);
    assert st1.ch == st.ch.(inbound := rest, outbound := st.ch.outbound + [OkByte, OkByte]);
  }

  /** A control line is acknowledged with one OK byte on a healthy channel. */
  lemma ConfirmHealthy(st: UploadState)
    requires st.ch.writeError.None? && !st.ch.shortWrite
    ensures Confirm(st) == Continue(st.(ch := st.ch.(outbound := st.ch.outbound + [OkByte])))
  {
  }

  /** A `C` line rendered by the source side, its bytes and the peer's
      confirmation store the file under its destination path. */
  lemma FileUploadStored(st: UploadState, mode: seq<Byte>, name: seq<Byte>, data: seq<Byte>, rest: seq<Byte>,
                         recursive: bool, hooks: Hooks) returns (st1: UploadState)
    requires st.ch.readError.None? && st.ch.writeError.None? && !st.ch.shortWrite
    requires Space !in mode && NewLine !in mode && |data| <= MaxInt64 && NewLine !in name && name != []
    requires st.nextId !in st.conn.transfers
    requires var target := FileUploadDestPath(st.dest, Chars(name), recursive, hooks.isDir);
             hooks.open(target).None? && (hooks.maxWriteSize(target) <= 0 || |data| <= hooks.maxWriteSize(target))
    requires st.ch.inbound == FormatUploadMessage(TagC, mode, |data|, name) + [NewLine] + data + [OkByte] + rest
    ensures UploadStep(st, recursive, hooks) == Continue(st1)
    ensures var target := FileUploadDestPath(st.dest, Chars(name), recursive, hooks.isDir);
            st1.conn.files == (st.conn.files - {UploadPath(st.conn.uploadMode, target, hooks)})[target := data]
    ensures st1.conn.transfers == st.conn.transfers
    ensures st1.ch == st.ch.(inbound := rest, outbound := st.ch.outbound + [OkByte, OkByte])
    ensures st1.dest == st.dest && st1.depth == st.depth
  {
    var line := FormatUploadMessage(TagC, mode, |data|, name);
    HeaderLine(TagC, mode, |data|, name);
    Regroup(line, [NewLine], data, [OkByte], rest);
    st1 := FileLine(st, line, UploadHeader(|data|, name), data, rest, recursive, hooks);
  }

  /** A whole `scp -t` session that sends one file: the upload succeeds and
      the file holds what was sent. */
  lemma SingleFileUpload(st: UploadState, mode: seq<Byte>, name: seq<Byte>, data: seq<Byte>,
                         recursive: bool, hooks: Hooks)
    requires st.ch.readError.None? && st.ch.writeError.None? && !st.ch.shortWrite
    requires Space !in mode && NewLine !in mode && |data| <= MaxInt64 && NewLine !in name && name != []
    requires st.nextId !in st.conn.transfers
    requires var target := FileUploadDestPath(st.dest, Chars(name), recursive, hooks.isDir);
             hooks.open(target).None? && (hooks.maxWriteSize(target) <= 0 || |data| <= hooks.maxWriteSize(target))
    requires st.ch.inbound == FormatUploadMessage(TagC, mode, |data|, name) + [NewLine] + data + [OkByte]
    ensures var (err, st') := RecursiveUpload(st, recursive, hooks);
            var target := FileUploadDestPath(st.dest, Chars(name), recursive, hooks.isDir);
            && err.None?
            && st'.conn.files == (st.conn.files - {UploadPath(st.conn.uploadMode, target, hooks)})[target := data]
            && st'.ch.outbound == st.ch.outbound + [OkByte, OkByte]
  {
    NothingAfter(st.ch.inbound);
    var st1 := FileUploadStored(st, mode, name, data, [], recursive, hooks);
    EndOfStream(st1, recursive, hooks);
    StopEndsUpload(st1, recursive, hooks);
  }

  /** A stream that is used up ends the loop without an error. */
  lemma EndOfStream(st: UploadState, recursive: bool, hooks: Hooks)
    requires st.ch.readError.None? && st.ch.inbound == []
    ensures UploadStep(st, recursive, hooks) == Stop(None, st)
  {
  }

  // Regrouping of byte streams, stated over plain sequences so that the
  // streams' contents need not be unfolded to regroup them.

  lemma TwoAcks(out: seq<Byte>)
    ensures out + [OkByte] + [OkByte] == out + [OkByte, OkByte]
  {
  }

  lemma Regroup(a: seq<Byte>, b: seq<Byte>, c: seq<Byte>, d: seq<Byte>, e: seq<Byte>)
    ensures a + b + c + d + e == a + b + (c + d + e)
  {
  }

  lemma NothingAfter(a: seq<Byte>)
    ensures a + [] == a
  {
  }

  // ---------------------------------------------------------------------
  // Properties of the source side's directory header

  /** The rendered mode string is octal digits only. */
  lemma ModeStringPlain(mode: FileMode, isDir: bool)
    ensures Space !in FileModeAsString(mode, isDir) && NewLine !in FileModeAsString(mode, isDir)
  {
    var s := FileModeAsString(mode, isDir);
    assert forall i :: 0 <= i < |s| ==> IsDigitIn(s[i], 8);
  }

  /** A times line is one control line of its own. */
  lemma TimeMessageLine(mtime: nat)
    ensures TimeMessage(mtime) == [TagT] + TimeMessage(mtime)[1..] && NewLine !in TimeMessage(mtime)[1..]
  {
    var tail := Decimal(mtime) + [Space, 48, Space] + Decimal(mtime) + [Space, 48];
    assert TimeMessage(mtime) == [TagT] + tail;
    assert TimeMessage(mtime)[1..] == tail;
  }

  /** The `D` line the source side sends for a directory. */
  function DirHeader(mode: FileMode, dirName: seq<Byte>): seq<Byte> {
    FormatUploadMessage(TagD, FileModeAsString(mode, true), 0, dirName)
  }

  /** A line the peer confirms is written whole and consumes the
      confirmation. */
  lemma LineConfirmed(ch: MockChannel, line: seq<Byte>, rest: seq<Byte>)
    requires ch.readError.None? && ch.writeError.None? && !ch.shortWrite
    requires ch.inbound == [OkByte] + rest
    ensures SendLine(ch, line) == (None, ch.(inbound := rest, outbound := ch.outbound + (line + [NewLine])))
  {
    var c := ch.(outbound := ch.outbound + (line + [NewLine]));
    assert c.inbound[1..] == rest;
  }

  /** What the source side writes for a directory when every confirmation
      arrives: the times line if asked for, then the `D` line. */
  lemma DownloadHeaderSent(ch: MockChannel, preserveTimes: bool, mtime: nat, mode: FileMode, dirName: seq<Byte>, rest: seq<Byte>)
    requires ch.readError.None? && ch.writeError.None? && !ch.shortWrite
    requires ch.inbound == (if preserveTimes then [OkByte, OkByte] else [OkByte]) + rest
    ensures preserveTimes ==>
              SendDownloadProtocolMessages(ch, preserveTimes, mtime, mode, true, dirName) ==
              (None, ch.(inbound := rest,
                         outbound := ch.outbound + (TimeMessage(mtime) + [NewLine]) + (DirHeader(mode, dirName) + [NewLine])))
    ensures !preserveTimes ==>
              SendDownloadProtocolMessages(ch, preserveTimes, mtime, mode, true, dirName) ==
              (None, ch.(inbound := rest, outbound := ch.outbound + (DirHeader(mode, dirName) + [NewLine])))
  {
    if preserveTimes {
      assert ch.inbound == [OkByte] + ([OkByte] + rest);
      LineConfirmed(ch, TimeMessage(mtime), [OkByte] + rest);
      var c := ch.(inbound := [OkByte] + rest, outbound := ch.outbound + (TimeMessage(mtime) + [NewLine]));
      LineConfirmed(c, DirHeader(mode, dirName), rest);
    } else {
      LineConfirmed(ch, DirHeader(mode, dirName), rest);
    }
  }

  /** A sink reads a times line followed by a `D` line as the `D` line
      alone, answering the times line. */
  lemma PeerSkipsTimes(mtime: nat, line: seq<Byte>, more: seq<Byte>)
    requires line != [] && line[0] == TagD && NewLine !in line
    ensures GetNextUploadProtocolMessage(Plain((TimeMessage(mtime) + [NewLine]) + (line + [NewLine]) + more)) ==
            (Ok(line), MockChannel(more, [OkByte], None, None, false))
  {
    TimeMessageLine(mtime);
    var times := TimeMessage(mtime)[1..];
    var after := line + [NewLine] + more;
    var c := Plain((TimeMessage(mtime) + [NewLine]) + (line + [NewLine]) + more);
    assert c.inbound == [TagT] + times + [NewLine] + after;
    TimeMessageSkipped(c, times, after);
    var c1 := MockChannel(after, [OkByte], None, None, false);
    assert c.(inbound := after, outbound := c.outbound + [OkByte]) == c1;
    NextLine(c1, line, more);
  }

  /** What was written to a fresh channel, followed by more bytes. */
  lemma EmptyThen(a: seq<Byte>, b: seq<Byte>)
    ensures [] + a + b == a + b
  {
  }

  /** The directory header the source side sends is read by a sink as the
      `D` line of the same directory, the times line having been answered
      and skipped. */
  lemma DirectoryHeaderRoundTrip(ch: MockChannel, preserveTimes: bool, mtime: nat, mode: FileMode,
                                 dirName: seq<Byte>, rest: seq<Byte>, more: seq<Byte>)
    requires ch.readError.None? && ch.writeError.None? && !ch.shortWrite && ch.outbound == []
    requires NewLine !in dirName && dirName != []
    requires ch.inbound == (if preserveTimes then [OkByte, OkByte] else [OkByte]) + rest
    ensures var r := SendDownloadProtocolMessages(ch, preserveTimes, mtime, mode, true, dirName);
            var next := GetNextUploadProtocolMessage(Plain(r.1.outbound + more));
            && r.0.None? && r.1.inbound == rest
            && next.0.Ok? && next.0.value != [] && next.0.value[0] == TagD
            && ParseUploadMessage(next.0.value) == Ok(UploadHeader(0, dirName))
            && next.1.inbound == more && next.1.outbound == (if preserveTimes then [OkByte] else [])
  {
    var line := DirHeader(mode, dirName);
    DownloadHeaderSent(ch, preserveTimes, mtime, mode, dirName, rest);
    ModeStringPlain(mode, true);
    HeaderLine(TagD, FileModeAsString(mode, true), 0, dirName);
    if preserveTimes {
      EmptyThen(TimeMessage(mtime) + [NewLine], line + [NewLine]);
      PeerSkipsTimes(mtime, line, more);
    } else {
      EmptyThen(line + [NewLine], more);
      NextLine(Plain(line + [NewLine] + more), line, more);
    }
  }
}
