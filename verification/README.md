# sftpgo SSH helpers: a Dafny model

This project models three small pieces of the sftpgo server, which serves
SFTP, SCP and a few SSH exec commands over one SSH listener.

- **The SCP control protocol** (`scp -t` / `scp -f`). This covers:
  - the four-digit octal mode string sent in `D` and `C` lines;
  - the parser of those lines;
  - reading and writing control lines and one-byte confirmations;
  - the sink loop, which receives directories (`D`), ends them (`E`),
    skips times lines (`T`) and receives files (`C`);
  - the read loop that stores a received file;
  - the source side's directory header.
- **The SSH exec helpers**:
  - the tokenizer of an exec payload, with backslash escapes and quotes;
  - the destination path of a command (`getDestPath`);
  - the rule deciding whether an external command (git, rsync) may run
    against a user's virtual folders and extension filters;
  - the link flag added to rsync.
- **Transfer bookkeeping**:
  - the first-error slot and the cancel callback;
  - the minimum write offset of a resumed upload;
  - reads and writes at an offset;
  - close semantics: the per-protocol error mapping, the atomic-upload
    rollback or commit, and removal from the connection's registry;
  - the bounded streaming copy `copyFromReaderToWriter`.

The engine's test double `MockChannel` is the model of an SSH channel
(`Channel.MockChannel`). It has a read error, a write error, and a short
write that accepts nothing and reports no error. The model gives it two
queues: `inbound` holds what reads consume, and `outbound` holds what writes
append. The Go double shares one buffer for both. Keeping them apart lets a
contract say exactly what was sent and what is left to read.

The code under test lives in `sftpd/scp.go`, `sftpd/ssh_cmd.go`,
`sftpd/transfer.go` and the `common` package. None of these is part of this
model. What the model does is pinned by the engine's own test file,
`sftpd/internal_test.go`. Most concrete assertions there that concern the
modelled core are lemmas here; the few that are not are listed under "Left
out". The general rule behind each assertion is a contract on the modelled
operation.

Modules and files:

| file | module | contents |
|---|---|---|
| common.dfy | Common | `Option`, `Result`, bytes, the error values |
| channel.dfy | Channel | `MockChannel` and its `Read`/`Write` |
| scp_wire.dfy | ScpWire | mode strings, numerals, `D`/`C` parsing, control lines, confirmations |
| scp_session.dfy | ScpSession | the SCP sink loop, the file read loop, the source side's header, `handle` |
| scp_examples.dfy | ScpExamples | the SCP test cases as lemmas |
| virtual_path.dfy | VirtualPath | `path.Clean`/`path.Join` on slash-separated paths, ancestry |
| command_line.dfy | CommandLine | the exec payload tokenizer and its inverse |
| ssh_command.dfy | SshCommand | `getDestPath`, permissions, command admissibility, rsync arguments |
| transfer.dfy | Transfer | transfers, the connection registry, close, the streaming copy |

## Model

| member | source | states |
|---|---|---|
| Channel.Read | sftpd/internal_test.go:38-43 | a read fails with the channel's read error and consumes nothing; otherwise it returns the first `min(max, available)` bytes and leaves the rest; an empty buffer gives end of stream |
| Channel.Write | sftpd/internal_test.go:45-53 | a write error is returned before anything is written; a short write appends nothing and reports no error; otherwise the whole data is appended |
| Channel.WriteThenRead | sftpd/internal_test.go:38-53 | bytes written to a healthy channel are read back in order, followed by what was already queued |
| ScpWire.FileModeAsString | sftpd/internal_test.go:1032-1075 | always four octal digits; no mode bit gives 0755 for a directory and 0644 for a file; otherwise the first digit is the special-bit weight and the last three are the permission bits |
| ScpExamples.DefaultModeStrings | sftpd/internal_test.go:1033-1034 | mode 0 is "0755" for a directory and "0644" for a file |
| ScpExamples.ModeText | sftpd/internal_test.go:1036-1074 | a mode with bits set is sent as its special digit followed by its three permission digits |
| ScpExamples.Mode0700 | sftpd/internal_test.go:1036-1037 | 0700 on a directory is "0700" |
| ScpExamples.Mode0750 | sftpd/internal_test.go:1039-1040 | 0750 on a directory is "0750" |
| ScpExamples.Mode0777 | sftpd/internal_test.go:1042-1043 | 0777 on a directory is "0777" |
| ScpExamples.Mode0640 | sftpd/internal_test.go:1045-1046 | 0640 on a file is "0640" |
| ScpExamples.Mode0600 | sftpd/internal_test.go:1048-1049 | 0600 on a file is "0600" |
| ScpExamples.Mode7777 | sftpd/internal_test.go:1054-1059 | 0777 with setgid, setuid and sticky is "7777" |
| ScpExamples.Mode4644 | sftpd/internal_test.go:1061-1064 | 0644 with setgid is "4644" |
| ScpExamples.Mode2600 | sftpd/internal_test.go:1066-1069 | 0600 with setuid is "2600" |
| ScpExamples.Mode1044 | sftpd/internal_test.go:1071-1074 | 0044 with sticky is "1044" |
| ScpWire.ParseSize | sftpd/internal_test.go:1175-1176 | a size is accepted exactly when it is a non-empty decimal numeral within int64, and its value is that numeral's |
| ScpWire.ParseUploadMessage | sftpd/internal_test.go:1169-1179 | a line is accepted exactly when it has the shape of a `D`/`C` line, and then the header is the one that shape carries; any other line is refused |
| ScpWire.ParseUploadSeparated | sftpd/internal_test.go:1169-1179 | once the first two spaces are found, size and name are the fields they delimit, and a well-formed line has no other reading |
| ScpWire.SeparatorsUnique | sftpd/internal_test.go:1169-1179 | the first two spaces of a line are unique, so a line has only one reading |
| ScpWire.FormatThenParse | sftpd/internal_test.go:1169-1179 | round trip: parsing a rendered `D`/`C` line gives back its size and name |
| ScpExamples.ParseRejectsUnknownTag | sftpd/internal_test.go:1169-1170 | "invalid" is refused |
| ScpExamples.ParseRejectsMissingName | sftpd/internal_test.go:1172-1173 | "D0755 0" is refused |
| ScpExamples.ParseRejectsWordSize | sftpd/internal_test.go:1175-1176 | "D0755 invalidsize testdir" and "D0755 a testdir" are refused |
| ScpExamples.SizeNotNumeral | sftpd/internal_test.go:1175-1176 | a `D` line whose size field starts with a letter is refused |
| ScpExamples.ParseRejectsEmptyName | sftpd/internal_test.go:1178-1179 | "D0755 0 " is refused |
| ScpWire.ReadProtocolMessage | sftpd/internal_test.go:1204-1205 | a read error is returned with nothing consumed; otherwise the line up to the first newline is returned and the newline consumed; a stream without a newline ends in end of stream |
| ScpWire.ProtocolMessageRoundTrip | sftpd/internal_test.go:1204-1211 | a message sent with its newline is read back as itself, and what follows stays queued |
| ScpWire.SendProtocolMessage | sftpd/internal_test.go:1210-1211 | the write error is the result; on a healthy channel the message is appended as given |
| ScpWire.SendConfirmationMessage | sftpd/internal_test.go:1207-1208 | the write error is the result; on a healthy channel one OK byte is appended |
| ScpWire.SendErrorMessage | sftpd/internal_test.go:1226-1240 | on a healthy channel the error byte, the text and a newline are appended; nothing else changes |
| ScpWire.ReadErrorText | sftpd/internal_test.go:1226-1240 | the text after a warning or error byte runs to the first newline, which is consumed, or to the end of the stream |
| ScpWire.ReadConfirmationMessage | sftpd/internal_test.go:1226-1240 | a read error or an empty stream fails; a warning or error byte fails with the text that follows it; any other byte is success |
| ScpSession.ErrorText | sftpd/internal_test.go:1226-1240 | the send-side half of `ScpWire.ErrorMessageRoundTrip`: a peer's error is sent back as its own text; any other error is sent as its message, one byte for each character, and a message of one-byte characters decodes back to itself |
| ScpSession.AsciiThenChars | sftpd/internal_test.go:1226-1240 | text of one-byte characters survives the conversion to bytes and back |
| ScpWire.ErrorMessageRoundTrip | sftpd/internal_test.go:1226-1240 | an error sent with `SendErrorMessage` is received as exactly its text |
| ScpWire.ConfirmationRoundTrip | sftpd/internal_test.go:1207-1208 | an OK byte sent with `SendConfirmationMessage` is received as success |
| ScpWire.FirstNewlineAfter | sftpd/internal_test.go:1226-1240 | the first newline of text, newline and more is the one right after the text |
| ScpExamples.ErrorLineReceived | sftpd/internal_test.go:1226-1240 | an error byte, a line and a newline are received as an error whose text is the line |
| ScpExamples.ConfirmationErrorText | sftpd/internal_test.go:1226-1240 | "\x02protocol error msg\n" is received as an error whose text is "protocol error msg" |
| ScpExamples.BrokenChannelMessages | sftpd/internal_test.go:1182-1214 | with reads and writes failing, reading a line or the next control line gives the read error, and sending a confirmation or a message gives the write error |
| ScpSession.Chars | sftpd/internal_test.go:1112-1114 | a byte string becomes a string of the same length, byte for character |
| ScpSession.GetNextUploadProtocolMessage | sftpd/internal_test.go:1213-1224 | times lines are confirmed and skipped; a read error or a failed confirmation ends the read; a returned line is a non-times line without newline and consumed input |
| ScpSession.TimeMessageSkipped | sftpd/internal_test.go:1216-1224 | a times line is answered with one OK byte and the next line is read |
| ScpExamples.TimesLineWriteError | sftpd/internal_test.go:1216-1224 | "T1183832947 0 1183833773 0" on a channel whose writes fail ends the read with the write error |
| ScpSession.ReadLine | sftpd/internal_test.go:1204-1205 | a line and its newline at the front of the stream are read as that line |
| ScpSession.NextLine | sftpd/internal_test.go:1213-1224 | a non-times line at the front of the stream is the next control line |
| ScpSession.Confirm | sftpd/internal_test.go:1109-1114 | acknowledging a control line ends the loop exactly when the write fails, with that write error |
| ScpSession.Fail | sftpd/internal_test.go:1127-1147 | a refused line ends the loop with its error; only the output changes |
| ScpSession.UploadStep | sftpd/internal_test.go:1455-1489 | a round that continues has consumed input |
| ScpSession.UploadStepFrame | sftpd/internal_test.go:1455-1489 | a round only consumes input and appends output; a broken reader ends it with the read error, end of stream being success; a round ending cleanly has read everything |
| ScpSession.RecursiveUploadFrame | sftpd/internal_test.go:1455-1489 | the whole sink loop keeps these properties; with reads failing the upload fails with the read error |
| ScpSession.StopEndsUpload | sftpd/internal_test.go:1455-1489 | a round that ends the loop ends the whole upload with its result |
| ScpSession.EndOfStream | sftpd/internal_test.go:1455-1489 | an exhausted stream ends the loop without error |
| ScpSession.EndDirAtTopLevel | sftpd/internal_test.go:1127-1147 | an `E` line with no directory open fails with "unacceptable end dir command", which is also sent to the peer |
| ScpExamples.TopLevelEndDir | sftpd/internal_test.go:1127-1147 | "E\n" as the first line fails the upload with "unacceptable end dir command" |
| ScpSession.LeaveDir | sftpd/internal_test.go:1127-1147 | an `E` line inside a directory is confirmed and returns to the parent |
| ScpSession.ParentOfChild | sftpd/internal_test.go:1127-1147 | leaving a directory entered by name lands where it was entered |
| ScpSession.DirLine | sftpd/internal_test.go:1109-1114 | a well-formed `D` line whose directory is created is confirmed, enters the directory and increases the depth |
| ScpSession.EnterDir | sftpd/internal_test.go:1109-1114 | a rendered `D` line enters the named directory one level below the current one |
| ScpSession.HeaderLine | sftpd/internal_test.go:1109-1114 | a rendered `D`/`C` line is a single non-times control line that parses back to its size and name |
| ScpExamples.DirLineWriteError | sftpd/internal_test.go:1109-1114 | a `D` line such as "D0755 0 testdir" on a channel whose writes fail ends the upload with the write error |
| ScpExamples.BadDirLineEndsUpload | sftpd/internal_test.go:1116-1124 | a `D` line that does not parse ends the upload with an error |
| ScpExamples.DirLineBadSize | sftpd/internal_test.go:1116-1124 | a `D` line whose size starts with a letter, such as "D0755 a testdir", ends the upload with an error |
| ScpSession.ReceiveChunks | sftpd/internal_test.go:1575-1671 | the read loop only consumes input, keeps the registry and the transfer's identity, records any failure on the transfer, and a broken reader's error is the result |
| ScpSession.ReadChunk | sftpd/internal_test.go:1627-1641 | reading `k` bytes of a queue holding `data` and more yields the first `k` bytes of `data` |
| ScpSession.WriteHealthy | sftpd/internal_test.go:1627-1641 | a write within the quota into an open file at an accepted offset succeeds and counts the bytes |
| ScpSession.ChunkStep | sftpd/internal_test.go:1627-1641 | one round of the read loop writes the next chunk at its offset and leaves the rest of the data queued |
| ScpSession.CombineChunks | sftpd/internal_test.go:1627-1641 | a chunk followed by the rest of the data leaves the file as one write of all of it |
| ScpSession.ReceiveChunksHealthy | sftpd/internal_test.go:1627-1641 | when the peer sends all the bytes, they land in the file at their offsets and nothing fails |
| ScpSession.UploadPhase | sftpd/internal_test.go:1575-1671 | receiving a file never adds input |
| ScpSession.UploadPhaseFrame | sftpd/internal_test.go:1575-1671 | receiving a file keeps the registry; a failure is recorded on the transfer |
| ScpSession.UploadPhaseHealthy | sftpd/internal_test.go:1575-1671 | all bytes and the peer's OK arrive: the `C` line is acknowledged once and the bytes are written from the start of the file |
| ScpSession.GetUploadFileData | sftpd/internal_test.go:1575-1671 | receiving a file never adds input |
| ScpSession.GetUploadFileDataFrame | sftpd/internal_test.go:1575-1671 | the transfer is closed and leaves the registry whatever happened; the first failure is the result |
| ScpSession.UploadFileDataHealthy | sftpd/internal_test.go:1575-1671 | a file received in full and confirmed is stored with exactly the bytes sent (an atomic upload's temporary file replaces its target), and the transfer closes cleanly |
| ScpSession.CloseClean | sftpd/internal_test.go:1648-1653 | closing an open upload with no recorded error succeeds, commits an atomic upload's temporary file over its target, and deregisters the transfer |
| ScpSession.ReceiveChunksKeepsOthers | sftpd/internal_test.go:1627-1641 | the read loop writes no file but its transfer's, keeps the transfer on that file, and on a fresh transfer records exactly the error it stops with |
| ScpSession.WriteKeepsOthers | sftpd/internal_test.go:1657-1667 | one write changes no file but the transfer's and records exactly the error it fails with |
| ScpSession.UploadPhaseKeepsOthers | sftpd/internal_test.go:1575-1671 | receiving a file's bytes writes no file but the transfer's and records exactly the error it stops with |
| ScpExamples.FileDataBrokenChannel | sftpd/internal_test.go:1604-1624 | with both directions broken the write error wins; with only reads broken the read error is the result |
| ScpExamples.FileDataPeerError | sftpd/internal_test.go:1627-1641 | the bytes "12" followed by an error byte with no text fail with an empty peer error |
| ScpExamples.FileDataAlreadyClosed | sftpd/internal_test.go:1643-1655 | a transfer already closed fails at the final close with "transfer already closed" |
| ScpExamples.FileDataClosedFile | sftpd/internal_test.go:1657-1667 | writing into a file no longer open fails with the closed-file error |
| ScpSession.FileUploadDestPath | sftpd/internal_test.go:1491-1520 | a single-file copy to a plain path writes that path; a recursive copy, or one into a directory, writes the name inside the destination |
| ScpSession.HandleUpload | sftpd/internal_test.go:1575-1671 | handling an upload never adds input |
| ScpSession.HandleUploadFrame | sftpd/internal_test.go:1575-1671 | handling an upload keeps the destination directory and the depth; a target that cannot be opened is refused |
| ScpSession.HandleUploadHealthy | sftpd/internal_test.go:1575-1671 | a file whose bytes and confirmation follow, within the write limit, is stored under its target with exactly those bytes; an atomic upload's temporary file is gone; the transfer leaves the registry |
| ScpSession.HandleUploadDiscards | sftpd/internal_test.go:1673-1707 | an upload stopped by the quota loses the file it wrote, and a failed atomic upload removes its temporary file and leaves every other file, its target included, as it was |
| ScpSession.FileDataDiscards | sftpd/internal_test.go:1673-1707 | receiving a file into an open, fresh upload transfer that fails on the quota, or fails in atomic mode without resume, leaves every file but the transfer's as it was and removes the transfer's |
| ScpSession.HandleUploadOverQuota | sftpd/internal_test.go:1575-1671 | an SCP upload applies the write limit of `Transfer.WriteAtSpec`: a file that arrives in one chunk and is larger than the target's positive write limit fails with "denying write due to space limit" and leaves no file at the path it was written to (no test drives an SCP upload over quota) |
| ScpSession.CopyLine | sftpd/internal_test.go:1575-1671 | a well-formed `C` line hands the rest of the stream to the upload of its target |
| ScpSession.FileLineConfirmed | sftpd/internal_test.go:1575-1671 | a `C` line whose file is received without error is acknowledged |
| ScpSession.FileLine | sftpd/internal_test.go:1575-1671 | a well-formed `C` line stores the file under its target (no temporary file left), acknowledges twice, and keeps directory and depth |
| ScpSession.ConfirmHealthy | sftpd/internal_test.go:1207-1208 | on a healthy channel a line is acknowledged with one OK byte |
| ScpSession.FileUploadStored | sftpd/internal_test.go:1575-1671 | a rendered `C` line, its bytes and the peer's OK store the file under its destination path, in either upload mode |
| ScpSession.SingleFileUpload | sftpd/internal_test.go:1575-1671 | a session sending one file succeeds and the file holds exactly the bytes sent, in either upload mode |
| ScpSession.HandleSink | sftpd/internal_test.go:1308-1344 | a `-t` command on a channel that accepts writes sends one OK byte and then runs the sink loop at its destination path, recursive exactly when `-r` is given |
| ScpSession.SendLine | sftpd/internal_test.go:1243-1306 | a source line fails with the write error first, then with the read error of the confirmation |
| ScpSession.SendDownloadProtocolMessages | sftpd/internal_test.go:1243-1306 | the directory header fails with the write error first, then with the read error, with or without a times line |
| ScpExamples.DownloadMessageErrors | sftpd/internal_test.go:1268-1303 | the test's four broken channels give the write error when writes fail and the read error otherwise |
| ScpSession.ModeStringPlain | sftpd/internal_test.go:1243-1306 | the mode string contains no space and no newline |
| ScpSession.TimeMessageLine | sftpd/internal_test.go:1216-1224 | a times line is one control line starting with `T` |
| ScpSession.LineConfirmed | sftpd/internal_test.go:1243-1306 | a line the peer confirms is written whole and consumes the confirmation |
| ScpSession.DownloadHeaderSent | sftpd/internal_test.go:1243-1306 | with every confirmation received, the source writes the optional times line and the `D` line, each with its newline |
| ScpSession.PeerSkipsTimes | sftpd/internal_test.go:1216-1224 | a sink reads a times line followed by a `D` line as the `D` line, after one acknowledgement |
| ScpSession.DirectoryHeaderRoundTrip | sftpd/internal_test.go:1243-1306 | the directory header the source sends is read by a sink as a `D` line carrying the directory's name |
| ScpSession.Handle | sftpd/internal_test.go:1308-1344 | no type argument is a generic failure; an unknown type is refused; a sink fails first on its write error, a source on its read error |
| ScpExamples.HandleErrors | sftpd/internal_test.go:1308-1344 | `-f` on a broken channel fails with the read error, `-i` is refused, and `-t` with failing writes fails with the write error |
| VirtualPath.Split | sftpd/internal_test.go:445-475 | splitting at slashes gives at least one component and none contains a slash |
| VirtualPath.Resolve | sftpd/internal_test.go:445-475 | walking components against a stack yields canonical names only |
| VirtualPath.Clean | sftpd/internal_test.go:445-475 | the cleaned path is rooted, canonical, names the same components, and splits into exactly them |
| VirtualPath.Join | sftpd/internal_test.go:445-475 | joining resolves the name's components against the directory's |
| VirtualPath.SplitJoin | sftpd/internal_test.go:445-475 | round trip: splitting joined components gives them back |
| VirtualPath.SplitConcat | sftpd/internal_test.go:445-475 | splitting at a slash splits the two sides independently |
| VirtualPath.ResolveConcat | sftpd/internal_test.go:445-475 | resolving two lists of components in turn is resolving their concatenation |
| VirtualPath.ResolveCanonical | sftpd/internal_test.go:445-475 | canonical names are pushed unchanged |
| VirtualPath.RenderSegments | sftpd/internal_test.go:445-475 | round trip: canonical names rendered as a path split back into themselves |
| VirtualPath.RenderTrailingSlash | sftpd/internal_test.go:450-475 | only the root is rendered with a slash at the end |
| VirtualPath.CleanIdempotent | sftpd/internal_test.go:445-475 | cleaning a cleaned path changes nothing |
| VirtualPath.TrailingSlashIgnored | sftpd/internal_test.go:450-454 | a slash at the end does not change what a path names |
| VirtualPath.JoinParent | sftpd/internal_test.go:456-472 | joining `..` gives the parent, and the root is its own parent |
| VirtualPath.JoinName | sftpd/internal_test.go:445-475 | joining a plain name descends one level |
| VirtualPath.StrictAncestorAsPrefix | sftpd/internal_test.go:793-815 | component-wise ancestry of canonical paths is the textual prefix test with a slash added, in both directions |
| VirtualPath.StrictAncestorGivesPrefix | sftpd/internal_test.go:793-815 | a strict ancestor's text plus a slash prefixes the descendant's |
| VirtualPath.PrefixGivesStrictAncestor | sftpd/internal_test.go:793-815 | a textual prefix ending in a slash means a strict ancestor |
| VirtualPath.SegmentsOfParts | sftpd/internal_test.go:445-475 | the components of a path written part by part are those parts resolved |
| SshCommand.GetDestPath | sftpd/internal_test.go:445-475 | no argument gives ""; otherwise the result is a cleaned rooted path naming the same components as the last argument, ending in a slash exactly when that argument does and is not the root |
| SshCommand.CleanTrailingSlash | sftpd/internal_test.go:450-475 | a cleaned path ends in a slash exactly when it is the root |
| SshCommand.CleanIsDestPath | sftpd/internal_test.go:445-475 | a cleaned path is a destination path |
| SshCommand.AppendSlash | sftpd/internal_test.go:450-454 | a slash added to a cleaned non-root path keeps its components |
| SshCommand.GetDestPathIdempotent | sftpd/internal_test.go:445-475 | a destination path is its own destination path |
| SshCommand.DestPathOf | sftpd/internal_test.go:445-475 | the destination of a flag and a path written part by part is the rendering of the resolved parts |
| SshCommand.DestPathDotDot | sftpd/internal_test.go:445-448 | no argument gives "", and "/tmp/../path" gives "/path" |
| SshCommand.DestPathTrailingSlash | sftpd/internal_test.go:450-451 | "/tmp/" gives "/tmp/" |
| SshCommand.DestPathRelative | sftpd/internal_test.go:453-454 | "tmp/" gives "/tmp/" |
| SshCommand.DestPathClampedDotDot | sftpd/internal_test.go:456-457 | "/tmp/../../../path" gives "/path" |
| SshCommand.DestPathParentOfRoot | sftpd/internal_test.go:459-460 | ".." gives "/" |
| SshCommand.DestPathDot | sftpd/internal_test.go:462-463 | "." gives "/" |
| SshCommand.DestPathDoubleSlash | sftpd/internal_test.go:465-466 | "//" gives "/" |
| SshCommand.DestPathParentTwice | sftpd/internal_test.go:468-469 | "../.." gives "/" |
| SshCommand.DestPathRootedParent | sftpd/internal_test.go:471-472 | "/.." gives "/" |
| SshCommand.DestPathSpace | sftpd/internal_test.go:474-475 | "/a space.txt" is kept with its space |
| SshCommand.PermissionsFor | sftpd/internal_test.go:837-856 | the permissions of the nearest configured ancestor apply, and none when no ancestor is configured |
| SshCommand.HasPerm | sftpd/internal_test.go:837-856 | a permission is held exactly when it or the wildcard is among those that apply |
| SshCommand.ScanFolders | sftpd/internal_test.go:793-815 | the scan reports exactly whether a virtual folder overlaps the target, equals it, or lies strictly inside it |
| SshCommand.ScanFilters | sftpd/internal_test.go:684-709 | the scan reports exactly whether a filtered directory overlaps the target |
| SshCommand.CheckTarget | sftpd/internal_test.go:684-709 | a target is refused with the unsupported-configuration error exactly when it is not admissible |
| SshCommand.CheckSystemCommand | sftpd/internal_test.go:793-866 | a command is refused with the unsupported-configuration error exactly when it is not admissible |
| SshCommand.AdmissibleByTarget | sftpd/internal_test.go:793-815 | admissibility of a command is that of its resolved destination |
| SshCommand.AdmissibleAtOne | sftpd/internal_test.go:684-815 | with one virtual folder and one filtered directory, the admissibility rule in closed form |
| SshCommand.GitOnVirtualFolder | sftpd/internal_test.go:782-794 | git on "/vdir" with a virtual folder at "/vdir" is allowed |
| SshCommand.GitOnRootWithVirtualFolder | sftpd/internal_test.go:795-797 | git on "/" with a virtual folder at "/vdir" is refused |
| SshCommand.GitOnTextualSibling | sftpd/internal_test.go:798-800 | git on "/vdir1" is allowed, since it only shares text with "/vdir" |
| SshCommand.GitInsideVirtualFolder | sftpd/internal_test.go:809-811 | git on "/vdir/subdir" is allowed |
| SshCommand.GitOutsideVirtualFolder | sftpd/internal_test.go:813-815 | git on "/adir/subdir" is allowed |
| SshCommand.RsyncOnRootWithFilter | sftpd/internal_test.go:679-685 | rsync on "/" with an extension filter on "/subdir" is refused |
| SshCommand.GitOnFilteredDir | sftpd/internal_test.go:687-693 | git on the filtered "/subdir" is refused |
| SshCommand.GitBelowFilteredDir | sftpd/internal_test.go:695-701 | git on "/subdir/dir" is refused |
| SshCommand.GitBesideFilteredDir | sftpd/internal_test.go:703-709 | git on "/adir/subdir" is allowed |
| SshCommand.RsyncLinkFlag | sftpd/internal_test.go:831-856 | rsync gets "--safe-links" when the user may create symlinks and "--munge-links" otherwise, with the other arguments kept |
| SshCommand.RsyncLinkFlagIdempotent | sftpd/internal_test.go:831-856 | adding the link flag twice adds it once |
| SshCommand.SystemCommandArgs | sftpd/internal_test.go:831-856 | the last argument becomes the filesystem path; other commands keep their arguments; rsync gets its link flag |
| SshCommand.GetSystemCommand | sftpd/internal_test.go:793-866 | the command is refused with the unsupported-configuration error exactly when it is not admissible, and otherwise gets its argument list |
| SshCommand.RsyncSafeLinks | sftpd/internal_test.go:831-838 | a user with every permission gets "--safe-links" |
| SshCommand.RsyncMungeLinks | sftpd/internal_test.go:839-866 | a user without the symlink permission gets "--munge-links", and a virtual folder then makes rsync refused |
| CommandLine.Lex | sftpd/internal_test.go:478-487 | the lexer only adds words, fails at the end exactly inside an open quote or escape, and makes no empty word without quotes |
| CommandLine.Tokenize | sftpd/internal_test.go:478-487 | a payload without quotes gives no empty word |
| CommandLine.ParseCommandPayload | sftpd/internal_test.go:478-487 | a payload is accepted exactly when it tokenizes into at least one word; the name and arguments are those words |
| CommandLine.Quote | sftpd/internal_test.go:478-487 | escaping every special character keeps the word |
| CommandLine.LexPieces | sftpd/internal_test.go:478-487 | escaped pieces are read as the characters they stand for |
| CommandLine.LexWord | sftpd/internal_test.go:478-487 | a rendered word is read back as that word |
| CommandLine.RenderThenLex | sftpd/internal_test.go:478-487 | round trip: a rendered list of words lexes back into them |
| CommandLine.RenderThenTokenize | sftpd/internal_test.go:478-487 | round trip: a rendered list of words tokenizes back into them |
| CommandLine.RenderThenParse | sftpd/internal_test.go:478-487 | round trip: a rendered command parses back into itself |
| CommandLine.LexPlain | sftpd/internal_test.go:478-487 | plain characters extend the current word |
| CommandLine.LexBlankBetweenWords | sftpd/internal_test.go:479-482 | repeated blanks make no empty word |
| CommandLine.ExampleOptions | sftpd/internal_test.go:479-482 | "command -a  -f  " gives the words "command", "-a", "-f" |
| CommandLine.ExamplePathTail | sftpd/internal_test.go:479-483 | the escaped tail of the path unescapes to "/ab à/some spaces  ().txt" |
| CommandLine.ExamplePayload | sftpd/internal_test.go:479-483 | the test payload gives "command" and three arguments, the last "/ab à/some spaces  ().txt" |
| CommandLine.EmptyPayloadFails | sftpd/internal_test.go:485-486 | an empty payload is refused |
| Transfer.NewTransfer | sftpd/internal_test.go:348-358 | a new transfer is registered once, fresh, with no error and no cancel call |
| Transfer.TransferError | sftpd/internal_test.go:247-272 | the first error is recorded and fires the cancel callback once; later errors change nothing |
| Transfer.FirstErrorWins | sftpd/internal_test.go:247-272 | after any number of errors the slot holds the first, and the callback fired once if there is one |
| Transfer.RecordedErrorStays | sftpd/internal_test.go:247-272 | a transfer with a recorded error ignores further errors |
| Transfer.OverwriteSpec | sftpd/internal_test.go:153-199 | a write grows the file to cover it, puts the data at its offset, keeps the bytes around it and fills a gap with zeros |
| Transfer.OverwriteConcat | sftpd/internal_test.go:1627-1641 | two adjacent writes equal one write of both |
| Transfer.OverwriteEmpty | sftpd/internal_test.go:1575-1671 | writing into an empty file from its start gives exactly the data |
| Transfer.WriteAtSpec | sftpd/internal_test.go:153-199 | a write below the minimum offset fails with the invalid-offset error and records it; a closed or read-only endpoint fails; a quota overrun fails; otherwise the data is written and counted |
| Transfer.ReadFrom | sftpd/internal_test.go:197-208 | a read returns at most the requested bytes from the offset, and end of stream exactly when fewer are available |
| Transfer.ReadAt | sftpd/internal_test.go:1710-1757 | a transfer created with a read error returns it without reading; a file or pipe is read at the offset; a failure other than end of stream is recorded |
| Transfer.WriteThenReadAt | sftpd/internal_test.go:153-199 | round trip: bytes written at an accepted offset are read back from it |
| Transfer.RemoveId | sftpd/internal_test.go:348-358 | the id is removed and every other id is kept as many times as it was |
| Transfer.CloseIO | sftpd/internal_test.go:210-229 | closing a file twice fails; a pipe writer's close error is recorded; nothing else changes |
| Transfer.BaseClose | sftpd/internal_test.go:224-233 | the transfer leaves the registry and a recorded error is the result |
| Transfer.FsError | sftpd/internal_test.go:171-174 | an error is mapped to one the protocol's client can see, and no error stays no error |
| Transfer.Close | sftpd/internal_test.go:171-174 | a second close fails and changes nothing; the first closes, deregisters, and reports a recorded error as the protocol's failure |
| Transfer.FsErrorClassifies | sftpd/internal_test.go:153-178 | any error but "no such file", "permission denied" and "operation unsupported" becomes the protocol's generic failure; those three reach SFTP clients as their SFTP status errors and other protocols unchanged |
| Transfer.CloseReportsGenericFailure | sftpd/internal_test.go:1673-1707 | the first close of a transfer holding an unnamed error reports the SFTP failure on SFTP and the generic failure on every other protocol |
| Transfer.OpenThenClose | sftpd/internal_test.go:348-358 | opening and closing a transfer leaves the registry as it was |
| Transfer.RemoveAppended | sftpd/internal_test.go:348-358 | removing an id undoes appending it |
| Transfer.AtomicRollback | sftpd/internal_test.go:1673-1707 | a failed atomic upload leaves neither its temporary file nor its target, and counts no bytes |
| Transfer.AtomicCommit | sftpd/internal_test.go:1673-1707 | a successful atomic upload replaces its target with the temporary file |
| Transfer.ChunkCrossing | sftpd/internal_test.go:991-1000 | the chunk that passes the bound ends at the next chunk boundary or the end of the input |
| Transfer.CopyEndsOnRead | sftpd/internal_test.go:976-989 | the copy stops cleanly at the end of the input, and with the reader's error on a failing reader |
| Transfer.CopyEndsOnWrite | sftpd/internal_test.go:1002-1011 | a failing or short-writing writer stops the copy at its first chunk |
| Transfer.CopyChunkWritten | sftpd/internal_test.go:991-1000 | a chunk written whole extends the copied prefix; passing a positive bound stops with "quota exceeded" |
| Transfer.CopyStep | sftpd/internal_test.go:976-1014 | one round of the copy keeps the loop's invariant and consumes input unless it stops |
| Transfer.CopyFromReaderToWriter | sftpd/internal_test.go:976-1014 | the result is the reference outcome of the copy; the writer receives exactly the copied prefix; a negative bound refuses outright; the error lands in the transfer's slot and the direction's byte counter is set to the bytes copied |
| Transfer.CopyScenarios | sftpd/internal_test.go:976-1014 | a read error is returned as it is; a bound of 1 gives "quota exceeded"; a writer accepting nothing gives a short write; a negative bound gives "quota exceeded" |
| Transfer.InvalidOffsetScenario | sftpd/internal_test.go:153-178 | a write at 0 against a minimum of 10 fails with an error whose message begins "Invalid write offset", is recorded, and the close reports the SFTP failure |
| Transfer.CancelScenario | sftpd/internal_test.go:247-276 | a reported error fires the cancel callback; the close reports the SFTP failure and the slot keeps the reported error |
| Transfer.ClosedFileScenario | sftpd/internal_test.go:180-200 | a transfer on a closed file fails to write, to read and to close |
| Transfer.ClosedPipeScenario | sftpd/internal_test.go:202-209 | a download pipe closes cleanly and refuses reads afterwards |
| Transfer.PipeWriterScenario | sftpd/internal_test.go:211-233 | closing an upload pipe reports the backend's error, a write then fails, the base close returns the same error, and the registry is empty |
| Transfer.UnreadableUploadScenario | sftpd/internal_test.go:1710-1733 | reading an SFTP upload whose file cannot be read fails with "operation unsupported" and reads nothing, and the close succeeds and empties the registry |
| Transfer.FailingReaderScenario | sftpd/internal_test.go:1738-1757 | a transfer created with a read error returns it, closes cleanly and leaves the registry |
| Transfer.UploadErrorScenario | sftpd/internal_test.go:1673-1707 | a failed atomic SCP upload reports the generic failure, keeps the first error, counts no bytes and leaves neither file |

## Left out

- `sftpd/scp.go`, `sftpd/ssh_cmd.go`, `sftpd/transfer.go` and the `common` package are not part of this model. Their behaviour is modelled from what `sftpd/internal_test.go` asserts about them.
- Host-key generation and loading, trusted-CA parsing, the listener's accept loop and its retry of temporary errors: file I/O, cryptography and network plumbing.
- The SFTP subsystem's packet framing: it lives in a third-party library.
- Running external processes and piping their output (`executeSystemCommand`), and the S3 and Azure backends.
- `HasSpace`, `getOSOpenFlags`, `getSizeForPath`, `checkCopyDestination`, connection-status strings and the panic recoverer. They depend on a data provider, the operating system or the wall clock. The `getOSOpenFlags` assertions do not pin a result.
- The `md5sum`/hash commands and the list of supported commands: they are not part of the modelled helpers.
- The filesystem under the SCP sink is a parameter (`Hooks`): whether `mkdir` fails, whether a path is a directory, whether a target can be opened, the temporary path an atomic upload writes to, and the write limit the quota allows for a target. Real permissions, `handleCreateDir`, the data provider's quota computation and the OS errors these wrap are not modelled.
- The recursive download walk (`handleRecursiveDownload`, `sendDownloadFileData`) is not modelled. Only the directory header the source side sends is: `ScpSession.SendDownloadProtocolMessages`.
- Virtual-path to filesystem-path mapping is not modelled. `SshCommand.SystemCommandArgs` receives the filesystem path as a parameter.
- Error texts are modelled only where the tests compare them: "unacceptable end dir command", a peer's error text, the generic failures, and the fixed messages of `Common.ErrorMessage`. The invalid-offset error's message is modelled as its leading text "Invalid write offset"; the two offsets Go formats after it are not. Every other error's message is "failure".
- The initial size of an upload to an existing file (`InitialSize`, asserted equal to 123 at `sftpd/internal_test.go:354`) is not modelled: it only feeds the quota reconciliation the data provider does after the transfer.
- ScpWire.ParseSize: refuses a signed numeral. Go's `strconv.ParseInt` accepts a leading `+` or `-`, so "+5" is a size there and "-1" is refused only by the later non-negative check; the model follows the non-negative-size rule and refuses both at the parser.
- ScpSession.HandleUploadOverQuota: no test exercises an SCP upload over quota; the lemma states what the write limit of `Transfer.WriteAtSpec`, which the copy test at `sftpd/internal_test.go:991-1000` pins for exec commands, means for the SCP read loop.
- Quote trimming of the destination argument in `getDestPath` is not modelled; the tests do not exercise it.
- ScpSession.ReceiveChunks: states what the read loop keeps, not what it writes. What it writes is stated by `ScpSession.ReceiveChunksHealthy` and `ScpSession.ReceiveChunksKeepsOthers`.
- ScpSession.UploadPhase: says only that no input is added. Its results are stated by `ScpSession.UploadPhaseFrame` and `ScpSession.UploadPhaseHealthy`.
- ScpSession.GetUploadFileData: says only that no input is added. Its results are stated by `ScpSession.GetUploadFileDataFrame`, `ScpSession.UploadFileDataHealthy` and the `ScpExamples.FileData*` lemmas.
- ScpSession.HandleUpload: says only that no input is added. Its results are stated by `ScpSession.HandleUploadFrame`, `ScpSession.HandleUploadHealthy`, `ScpSession.HandleUploadDiscards` and `ScpSession.HandleUploadOverQuota`.
- ScpSession.UploadStep: says only that a continuing round consumes input. The rounds are stated by `ScpSession.UploadStepFrame` and the per-line lemmas.
- ScpExamples.BadDirLineEndsUpload: states that some error results, not which one; the test asserts only that an error occurs.
- ScpExamples.DirLineBadSize: as above, only that an error results.

## Notes on the model

- **Write offset.** `WriteAt` refuses an offset below the transfer's minimum write offset. The test at `sftpd/internal_test.go:153-178` pins this with offset 0 against a minimum of 10. A stricter reading, that every write must land at the current end, is not what the test shows, so the model follows the test.
- **Leading mode digit.** The first digit of a mode string weighs setgid 4, setuid 2 and sticky 1, as the tests at `sftpd/internal_test.go:1054-1074` pin it: 0644 with setgid is "4644" and 0600 with setuid is "2600". This is not the usual POSIX order.
- **Separate channel queues.** `MockChannel` in Go reads from and writes to the same buffer. The model keeps the two directions apart (see above).
- **Atomic uploads.** In atomic mode an upload writes to the temporary path `Hooks.atomicPath` gives for its target and leaves the target alone. A clean close renames the temporary file over the target; a failed close removes it.
- **Line terminators.** A control line read from the channel is returned without its terminating newline.
