/** The SCP cases the engine's own tests pin down, stated on the model:
    mode strings, rejected control lines, the errors of a broken channel on
    either side of the session, and the receipt of a file's bytes into a
    transfer that fails in each of the ways the tests provoke. */
module ScpExamples {
  import opened Common
  import opened Channel
  import opened ScpWire
  import opened Transfer
  import opened ScpSession

  // ---------------------------------------------------------------------
  // Mode strings

  /** The octal digits of a permission are the ones it was written with. */
  lemma OctalDigits(u: nat, g: nat, o: nat)
    requires u < 8 && g < 8 && o < 8
    ensures Octal(u, g, o) / 64 == u && Octal(u, g, o) / 8 % 8 == g && Octal(u, g, o) % 8 == o
  {
    var p := Octal(u, g, o);
    assert p == (u * 8 + g) * 8 + o;
    assert p / 8 == u * 8 + g;
  }

  /** A four-character Latin-1 string, byte by byte. */
  lemma AsciiFour(text: string)
    requires |text| == 4 && forall i :: 0 <= i < 4 ==> text[i] as int < 256
    ensures Ascii(text) == [text[0] as int, text[1] as int, text[2] as int, text[3] as int]
  {
  }

  /** A mode with some bit set is sent as the four octal digits `text`
      when `text` spells the special digit and the permission bits. */
  lemma ModeText(m: FileMode, isDir: bool, text: string, u: nat, g: nat, o: nat)
    requires u < 8 && g < 8 && o < 8 && m.perm == Octal(u, g, o) && !IsZeroMode(m)
    requires text == [(48 + SpecialDigit(m)) as char, (48 + u) as char, (48 + g) as char, (48 + o) as char]
    ensures FileModeAsString(m, isDir) == Ascii(text)
  {
    OctalDigits(u, g, o);
    AsciiFour(text);
  }

  /** No bit at all gives the default of the kind. */
  lemma DefaultModeStrings()
    ensures FileModeAsString(FileMode(0, false, false, false, 0), true) == Ascii("0755")
    ensures FileModeAsString(FileMode(0, false, false, false, 0), false) == Ascii("0644")
  {
  }

  // Permission bits alone give a leading zero and three octal digits.

  lemma Mode0700()
    ensures FileModeAsString(FileMode(Octal(7, 0, 0), false, false, false, 0), true) == Ascii("0700")
  {
    ModeText(FileMode(Octal(7, 0, 0), false, false, false, 0), true, "0700", 7, 0, 0);
  }

  lemma Mode0750()
    ensures FileModeAsString(FileMode(Octal(7, 5, 0), false, false, false, 0), true) == Ascii("0750")
  {
    ModeText(FileMode(Octal(7, 5, 0), false, false, false, 0), true, "0750", 7, 5, 0);
  }

  lemma Mode0777()
    ensures FileModeAsString(FileMode(Octal(7, 7, 7), false, false, false, 0), true) == Ascii("0777")
  {
    ModeText(FileMode(Octal(7, 7, 7), false, false, false, 0), true, "0777", 7, 7, 7);
  }

  lemma Mode0640()
    ensures FileModeAsString(FileMode(Octal(6, 4, 0), false, false, false, 0), false) == Ascii("0640")
  {
    ModeText(FileMode(Octal(6, 4, 0), false, false, false, 0), false, "0640", 6, 4, 0);
  }

  lemma Mode0600()
    ensures FileModeAsString(FileMode(Octal(6, 0, 0), false, false, false, 0), false) == Ascii("0600")
  {
    ModeText(FileMode(Octal(6, 0, 0), false, false, false, 0), false, "0600", 6, 0, 0);
  }

  // The special bits make up the leading digit: setgid 4, setuid 2,
  // sticky 1.

  lemma Mode7777()
    ensures FileModeAsString(FileMode(Octal(7, 7, 7), true, true, true, 0), false) == Ascii("7777")
  {
    ModeText(FileMode(Octal(7, 7, 7), true, true, true, 0), false, "7777", 7, 7, 7);
  }

  lemma Mode4644()
    ensures FileModeAsString(FileMode(Octal(6, 4, 4), false, true, false, 0), false) == Ascii("4644")
  {
    ModeText(FileMode(Octal(6, 4, 4), false, true, false, 0), false, "4644", 6, 4, 4);
  }

  lemma Mode2600()
    ensures FileModeAsString(FileMode(Octal(6, 0, 0), true, false, false, 0), false) == Ascii("2600")
  {
    ModeText(FileMode(Octal(6, 0, 0), true, false, false, 0), false, "2600", 6, 0, 0);
  }

  lemma Mode1044()
    ensures FileModeAsString(FileMode(Octal(0, 4, 4), false, false, true, 0), false) == Ascii("1044")
  {
    ModeText(FileMode(Octal(0, 4, 4), false, false, true, 0), false, "1044", 0, 4, 4);
  }

  // ---------------------------------------------------------------------
  // Rejected upload messages

  /** A line that does not start with `C` or `D` is refused. */
  lemma ParseRejectsUnknownTag(text: string)
    requires text == "invalid"
    ensures ParseUploadMessage(Ascii(text)).Err?
  {
    assert Ascii(text)[0] == 105;
  }

  /** A line with a single space has no name field. */
  lemma ParseRejectsMissingName(text: string)
    requires text == "D0755 0"
    ensures ParseUploadMessage(Ascii(text)).Err?
  {
    var line := Ascii(text);
    IndexOfFirst(line, Space, 5);
    assert line[6..] == [48];
  }

  /** The size must be a decimal numeral. */
  lemma ParseRejectsWordSize(text: string)
    requires text == "D0755 invalidsize testdir" || text == "D0755 a testdir"
    ensures ParseUploadMessage(Ascii(text)).Err?
  {
    SizeNotNumeral(Ascii(text));
  }

  /** A `D` line whose first space is at index 5 and whose size field
      starts with a letter is refused. */
  lemma SizeNotNumeral(line: seq<Byte>)
    requires |line| > 6 && line[0] == TagD && line[5] == Space && line[6] >= 97
    requires Space !in line[..5]
    ensures ParseUploadMessage(line).Err?
  {
    IndexOfFirst(line, Space, 5);
    match IndexOf(line[6..], Space)
    case None =>
    case Some(j) =>
      assert line[6..][0] == line[6];
      assert line[6..6 + j][0] == line[6];
  }

  /** The name after the second space may not be empty. */
  lemma ParseRejectsEmptyName(text: string)
    requires text == "D0755 0 "
    ensures ParseUploadMessage(Ascii(text)).Err?
  {
    var line := Ascii(text);
    IndexOfFirst(line, Space, 5);
    IndexOfFirst(line[6..], Space, 1);
    assert line[6..7] == [48] && line[8..] == [];
  }

  // ---------------------------------------------------------------------
  // A broken channel

  /** On a channel whose reads and writes both fail, reading a line or the
      next control line reports the read error, and sending a confirmation
      or a message reports the write error. */
  lemma BrokenChannelMessages(inbound: seq<Byte>, readErr: Error, writeErr: Error)
    ensures var c := MockChannel(inbound, [], Some(readErr), Some(writeErr), false);
            && ReadProtocolMessage(c).0 == Err(readErr)
            && SendConfirmationMessage(c).0 == Some(writeErr)
            && SendProtocolMessage(c, [TagE, NewLine]).0 == Some(writeErr)
            && GetNextUploadProtocolMessage(c).0 == Err(readErr)
  {
  }

  /** A times line must be confirmed before the next line is read, so a
      failing write surfaces while skipping it. */
  lemma TimesLineWriteError(text: string, writeErr: Error)
    requires text == "T1183832947 0 1183833773 0"
    ensures GetNextUploadProtocolMessage(MockChannel(Ascii(text) + [NewLine], [], None, Some(writeErr), false)).0 == Err(writeErr)
  {
    var line := Ascii(text);
    var c := MockChannel(line + [NewLine], [], None, Some(writeErr), false);
    assert line[0] == TagT;
    assert NewLine !in line;
    NothingAfter(line + [NewLine]);
    ReadLine(c, line, []);
  }

  /** An error byte, a line without newline and a newline are received as
      an error whose text is that line. */
  lemma ErrorLineReceived(m: seq<Byte>)
    requires NewLine !in m
    ensures ReadConfirmationMessage(Plain([ErrorByte] + m + [NewLine])).0 == Some(Remote(m))
  {
    var inbound := [ErrorByte] + m + [NewLine];
    assert inbound[1..] == m + [NewLine] + [];
    FirstNewlineAfter(m, []);
    assert (m + [NewLine] + [])[..|m|] == m;
  }

  /** The peer's error line "protocol error msg" is received as an error
      whose text is exactly that line. */
  lemma ConfirmationErrorText(text: string)
    requires text == "protocol error msg"
    ensures ReadConfirmationMessage(Plain([ErrorByte] + Ascii(text) + [NewLine])).0 == Some(Remote(Ascii(text)))
    ensures ErrorText(Remote(Ascii(text))) == Ascii(text)
  {
    NoNewLineInText(text);
    ErrorLineReceived(Ascii(text));
  }

  lemma NoNewLineInText(text: string)
    requires text == "protocol error msg"
    ensures NewLine !in Ascii(text)
  {
    assert '\n' !in text;
    AsciiOmitsNewLine(text);
  }

  lemma AsciiOmitsNewLine(text: string)
    requires '\n' !in text
    ensures NewLine !in Ascii(text)
  {
    forall i | 0 <= i < |text| ensures Ascii(text)[i] != NewLine {
      assert text[i] in text;
    }
  }

  /** The source side's directory header fails with the write error first
      and with the read error when only reading fails, with or without the
      times line. */
  lemma DownloadMessageErrors(inbound: seq<Byte>, preserveTimes: bool, mtime: nat, mode: FileMode,
                              dirName: seq<Byte>, readErr: Error, writeErr: Error)
    ensures SendDownloadProtocolMessages(MockChannel(inbound, [], Some(readErr), Some(writeErr), false),
                                         preserveTimes, mtime, mode, true, dirName).0 == Some(writeErr)
    ensures SendDownloadProtocolMessages(MockChannel(inbound, [], Some(readErr), None, false),
                                         preserveTimes, mtime, mode, true, dirName).0 == Some(readErr)
  {
  }

  /** `handle` on a broken channel: the source side first waits for the
      peer, so it reports the read error; the sink side first confirms, so
      it reports the write error; an unknown command type is refused. */
  lemma HandleErrors(inbound: seq<Byte>, conn: Connection, firstId: nat, hooks: Hooks,
                     download: MockChannel -> (Option<Error>, MockChannel), readErr: Error, writeErr: Error)
    ensures Handle(["-f", "/tmp"], MockChannel(inbound, [], Some(readErr), Some(writeErr), false),
                   conn, firstId, hooks, download).0 == Some(readErr)
    ensures Handle(["-i", "/tmp"], MockChannel(inbound, [], Some(readErr), Some(writeErr), false),
                   conn, firstId, hooks, download).0 == Some(UnsupportedCommand)
    ensures Handle(["-t", "/"], MockChannel(inbound, [], None, Some(writeErr), false),
                   conn, firstId, hooks, download).0 == Some(writeErr)
  {
  }

  // ---------------------------------------------------------------------
  // The sink loop

  /** A `D` line, such as "D0755 0 testdir", is confirmed once its
      directory is made, so a failing write ends the upload with the write
      error. */
  lemma DirLineWriteError(st: UploadState, mode: seq<Byte>, name: seq<Byte>, recursive: bool, hooks: Hooks,
                          writeErr: Error)
    requires Space !in mode && NewLine !in mode && NewLine !in name && name != []
    requires st.ch == MockChannel(FormatUploadMessage(TagD, mode, 0, name) + [NewLine], [], None, Some(writeErr), false)
    requires forall p :: hooks.mkdir(p).None?
    ensures RecursiveUpload(st, recursive, hooks).0 == Some(writeErr)
  {
    var line := FormatUploadMessage(TagD, mode, 0, name);
    HeaderLine(TagD, mode, 0, name);
    NothingAfter(line + [NewLine]);
    NextLine(st.ch, line, []);
    StopEndsUpload(st, recursive, hooks);
  }

  /** A `D` line that does not parse ends the upload with an error. */
  lemma BadDirLineEndsUpload(st: UploadState, line: seq<Byte>, recursive: bool, hooks: Hooks)
    requires line != [] && line[0] == TagD && NewLine !in line && ParseUploadMessage(line).Err?
    requires st.ch == Plain(line + [NewLine])
    ensures RecursiveUpload(st, recursive, hooks).0.Some?
  {
    NothingAfter(line + [NewLine]);
    NextLine(st.ch, line, []);
    StopEndsUpload(st, recursive, hooks);
  }

  /** A `D` line whose size field starts with a letter, such as
      "D0755 a testdir", ends the upload with an error. */
  lemma DirLineBadSize(line: seq<Byte>, st: UploadState, recursive: bool, hooks: Hooks)
    requires |line| > 6 && line[0] == TagD && line[5] == Space && line[6] >= 97 && Space !in line[..5]
    requires NewLine !in line
    requires st.ch == Plain(line + [NewLine])
    ensures RecursiveUpload(st, recursive, hooks).0.Some?
  {
    SizeNotNumeral(line);
    BadDirLineEndsUpload(st, line, recursive, hooks);
  }

  /** An `E` line before any `D` line is refused with "unacceptable end dir
      command". */
  lemma TopLevelEndDir(st: UploadState, recursive: bool, hooks: Hooks)
    requires st.ch.inbound == [TagE, NewLine] && st.ch.readError.None? && st.depth == 0
    ensures RecursiveUpload(st, recursive, hooks).0 == Some(UnacceptableEndDir)
  {
    assert st.ch.inbound == [TagE] + [] + [NewLine] + [];
    EndDirAtTopLevel(st, [], [], recursive, hooks);
  }

  // ---------------------------------------------------------------------
  // Receiving a file's bytes

  /** With both directions broken the write error wins, as the `C` line is
      confirmed first; with only reads broken the read error is the result.
      Either way the transfer is closed. */
  lemma FileDataBrokenChannel(inbound: seq<Byte>, conn: Connection, t: Transfer, readErr: Error, writeErr: Error)
    ensures var d := GetUploadFileData(MockChannel(inbound, [], Some(readErr), Some(writeErr), false), conn, t, 2);
            d.err == Some(writeErr) && d.t.finished
    ensures var d := GetUploadFileData(MockChannel(inbound, [], Some(readErr), None, false), conn, t, 2);
            d.err == Some(readErr) && d.t.finished
  {
    GetUploadFileDataFrame(MockChannel(inbound, [], Some(readErr), Some(writeErr), false), conn, t, 2);
    GetUploadFileDataFrame(MockChannel(inbound, [], Some(readErr), None, false), conn, t, 2);
  }

  /** The two bytes of the file arrive but the peer answers with an error
      byte instead of a confirmation: the upload fails with the peer's (empty)
      error text. */
  lemma FileDataPeerError(conn: Connection, t: Transfer)
    requires HealthyUpload(t, 2) && t.endpoint.name in conn.files
    ensures GetUploadFileData(Plain([49, 50, ErrorByte]), conn, t, 2).err == Some(Remote([]))
  {
    var ch1 := MockChannel([49, 50, ErrorByte], [OkByte], None, None, false);
    assert [] + [OkByte] == [OkByte];
    assert SendConfirmationMessage(Plain([49, 50, ErrorByte])) == (None, ch1);
    assert ch1.inbound == [49, 50] + [ErrorByte];
    ReceiveChunksHealthy(ch1, conn, t, 2, 2, [49, 50], [ErrorByte]);
    assert [ErrorByte][1..] == [];
  }

  /** A transfer that was already closed is closed again at the end of an
      otherwise clean upload of nothing: the close reports it. */
  lemma FileDataAlreadyClosed(conn: Connection, t: Transfer, rest: seq<Byte>)
    requires t.finished
    ensures GetUploadFileData(Plain([OkByte] + rest), conn, t, 0).err == Some(TransferClosed)
  {
    var ch1 := MockChannel([OkByte] + rest, [OkByte], None, None, false);
    assert [] + [OkByte] == [OkByte];
    assert SendConfirmationMessage(Plain([OkByte] + rest)) == (None, ch1);
    assert ch1.inbound[1..] == rest;
  }

  /** Writing into a file that is no longer open fails with "file already
      closed". */
  lemma FileDataClosedFile(conn: Connection, t: Transfer, rest: seq<Byte>)
    requires t.endpoint.LocalFile? && !t.endpoint.open && t.minWriteOffset == 0
    ensures GetUploadFileData(Plain([0, 0] + rest), conn, t, 2).err == Some(Closed)
  {
    var ch1 := MockChannel([0, 0] + rest, [OkByte], None, None, false);
    assert [] + [OkByte] == [OkByte];
    assert SendConfirmationMessage(Plain([0, 0] + rest)) == (None, ch1);
    ReadChunk(ch1, 2, [0, 0], rest);
  }
}
