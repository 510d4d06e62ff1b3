/** The SCP control protocol as it travels over the channel: the octal mode
    string of `D`/`C` messages, the parser of upload messages, line framing
    of protocol messages and the one-byte confirmation exchange. */
module ScpWire {
  import opened Common
  import opened Channel

  const NewLine: Byte := 10
  const Space: Byte := 32
  const TagC: Byte := 67   // 'C', file begin
  const TagD: Byte := 68   // 'D', directory begin
  const TagE: Byte := 69   // 'E', end of directory
  const TagT: Byte := 84   // 'T', timestamps
  const OkByte: Byte := 0
  const WarnByte: Byte := 1
  const ErrorByte: Byte := 2

  /** The bytes of a string whose characters are Latin-1, one byte per
      character, as Go stores an ASCII string literal; a character past
      Latin-1 is shown as `?`. */
  function Ascii(s: string): (r: seq<Byte>)
    ensures |r| == |s|
    ensures forall i :: 0 <= i < |s| ==> r[i] == if s[i] as int < 256 then s[i] as int else 63
  {
    if s == [] then [] else [if s[0] as int < 256 then s[0] as int else 63] + Ascii(s[1..])
  }

  // ---------------------------------------------------------------------
  // Numerals

  predicate IsDigitIn(b: Byte, base: nat) {
    48 <= b < 48 + base
  }

  predicate IsNumeral(ds: seq<Byte>, base: nat) {
    forall i :: 0 <= i < |ds| ==> IsDigitIn(ds[i], base)
  }

  /** The value of a big-endian numeral. */
  function NumeralValue(ds: seq<Byte>, base: nat): nat
    requires IsNumeral(ds, base)
  {
    if ds == [] then 0
    else NumeralValue(ds[..|ds| - 1], base) * base + (ds[|ds| - 1] - 48)
  }

  function DigitByte(d: nat): (b: Byte)
    requires d < 10
    ensures IsDigitIn(b, d + 1) && b - 48 == d
  {
    48 + d
  }

  /** The canonical decimal rendering of `n`, as `%d` prints it. */
  function Decimal(n: nat): (ds: seq<Byte>)
    ensures ds != [] && IsNumeral(ds, 10) && Space !in ds && NewLine !in ds
    ensures NumeralValue(ds, 10) == n
  {
    if n < 10 then
      [DigitByte(n)]
    else
      var ds := Decimal(n / 10) + [DigitByte(n % 10)];
      assert ds[..|ds| - 1] == Decimal(n / 10);
      ds
  }

  // ---------------------------------------------------------------------
  // File mode strings

  type Perm = p: nat | p < 512

  /** A POSIX file mode: the nine permission bits, the three special bits,
      and whatever file-type bits are set (directory, symlink, ...). */
  datatype FileMode = FileMode(perm: Perm, setuid: bool, setgid: bool, sticky: bool, typeBits: nat)

  /** Octal literal helper: `Octal(7, 5, 5)` is 0755. */
  function Octal(u: nat, g: nat, o: nat): Perm
    requires u < 8 && g < 8 && o < 8
  {
    u * 64 + g * 8 + o
  }

  predicate IsZeroMode(m: FileMode) {
    m.perm == 0 && !m.setuid && !m.setgid && !m.sticky && m.typeBits == 0
  }

  /** The weight of the special bits in the leading digit of the wire mode:
      setgid counts 4, setuid 2 and sticky 1. */
  function SpecialDigit(m: FileMode): nat {
    (if m.setgid then 4 else 0) + (if m.setuid then 2 else 0) + (if m.sticky then 1 else 0)
  }

  lemma ThreeDigits(a: Byte, b: Byte, c: Byte, base: nat)
    requires IsNumeral([a, b, c], base)
    ensures NumeralValue([a, b, c], base) == ((a - 48) * base + (b - 48)) * base + (c - 48)
  {
    assert [a, b, c][..2] == [a, b];
    assert [a, b][..1] == [a];
    assert [a][..0] == [];
    assert NumeralValue([a], base) == a - 48;
    assert NumeralValue([a, b], base) == (a - 48) * base + (b - 48);
  }

  lemma OctalSplit(p: nat)
    ensures (p / 64 * 8 + p / 8 % 8) * 8 + p % 8 == p
  {
    assert p / 8 / 8 == p / 64;
    assert p / 8 == p / 8 / 8 * 8 + p / 8 % 8;
    assert p == p / 8 * 8 + p % 8;
  }

  /** `getFileModeAsString`: the four octal digits sent in `D` and `C`
      messages. A mode with no bit at all is sent as the default for its kind. */
  function FileModeAsString(m: FileMode, isDir: bool): (s: seq<Byte>)
    ensures |s| == 4 && IsNumeral(s, 8)
    ensures IsZeroMode(m) ==> s == (if isDir then Ascii("0755") else Ascii("0644"))
    ensures !IsZeroMode(m) ==> NumeralValue(s[..1], 8) == SpecialDigit(m)
    ensures !IsZeroMode(m) ==> NumeralValue(s[1..], 8) == m.perm
  {
    if IsZeroMode(m) then
      if isDir then Ascii("0755") else Ascii("0644")
    else
      var u, g, o := m.perm / 64, m.perm / 8 % 8, m.perm % 8;
      var s := [DigitByte(SpecialDigit(m)), DigitByte(u), DigitByte(g), DigitByte(o)];
      assert s[..1] == [DigitByte(SpecialDigit(m))] && s[1..] == [DigitByte(u), DigitByte(g), DigitByte(o)];
      ThreeDigits(DigitByte(u), DigitByte(g), DigitByte(o), 8);
      OctalSplit(m.perm);
      s
  }

  // ---------------------------------------------------------------------
  // Upload messages

  datatype UploadHeader = UploadHeader(size: int, name: seq<Byte>)

  /** Index of the first `b` in `s`. */
  function IndexOf(s: seq<Byte>, b: Byte): (r: Option<nat>)
    ensures r.Some? ==> r.value < |s| && s[r.value] == b && b !in s[..r.value]
    ensures r.None? ==> b !in s
  {
    if s == [] then None
    else if s[0] == b then Some(0)
    else match IndexOf(s[1..], b)
      case None => None
      case Some(i) => assert s[..i + 1] == [s[0]] + s[1..][..i]; Some(i + 1)
  }

  /** The first `b` is at `k` when `s[k]` is one and none comes before. */
  lemma {:induction false} IndexOfFirst(s: seq<Byte>, b: Byte, k: nat)
    requires k < |s| && s[k] == b && b !in s[..k]
    ensures IndexOf(s, b) == Some(k)
  {
    if k > 0 {
      assert s[..k][0] == s[0];
      assert s[1..][..k - 1] == s[1..k];
      IndexOfFirst(s[1..], b, k - 1);
    }
  }

  /** The size field: a non-empty decimal numeral that fits in an int64. */
  function ParseSize(field: seq<Byte>): (r: Result<int>)
    ensures r.Ok? <==> field != [] && IsNumeral(field, 10) && NumeralValue(field, 10) <= MaxInt64
    ensures r.Ok? ==> r.value == NumeralValue(field, 10)
  {
    if field == [] || !IsNumeral(field, 10) then Err(Syntax("invalid size in upload message"))
    else if NumeralValue(field, 10) > MaxInt64 then Err(Syntax("size out of range in upload message"))
    else Ok(NumeralValue(field, 10))
  }

  /** `i` and `j` are the positions of the first two spaces of `line`. */
  predicate Separators(line: seq<Byte>, i: nat, j: nat) {
    && 0 < i < j < |line|
    && line[i] == Space && line[j] == Space
    && Space !in line[..i] && Space !in line[i + 1..j]
  }

  /** The fields between and after the separators carry header `h`: the
      line starts with a `C` or `D` tag, the size is a decimal numeral that
      fits in an int64, and the name, which runs to the end of the line and
      may itself contain spaces, is not empty. */
  predicate FieldsMatch(line: seq<Byte>, i: nat, j: nat, h: UploadHeader)
    requires Separators(line, i, j)
  {
    && (line[0] == TagC || line[0] == TagD)
    && j > i + 1 && IsNumeral(line[i + 1..j], 10)
    && h.size == NumeralValue(line[i + 1..j], 10) && h.size <= MaxInt64
    && h.name == line[j + 1..] && h.name != []
  }

  /** The shape of a well-formed `D`/`C` line. */
  ghost predicate IsUploadLine(line: seq<Byte>, h: UploadHeader) {
    exists i, j :: Separators(line, i, j) && FieldsMatch(line, i, j, h)
  }

  lemma SeparatorsUnique(line: seq<Byte>, i: nat, j: nat, i': nat, j': nat)
    requires Separators(line, i, j) && Separators(line, i', j')
    ensures i == i' && j == j'
  {
  }

  /** `parseUploadMessage`: size and name of a `D`/`C` line, or a syntax error. */
  function ParseUploadMessage(line: seq<Byte>): (r: Result<UploadHeader>)
    ensures r.Ok? ==> IsUploadLine(line, r.value)
    ensures forall h :: IsUploadLine(line, h) ==> r == Ok(h)
  {
    if |line| == 0 || (line[0] != TagC && line[0] != TagD) then
      Err(Syntax("unknown or invalid upload message"))
    else match IndexOf(line, Space)
      case None => Err(Syntax("unable to split upload message"))
      case Some(i) =>
        match IndexOf(line[i + 1..], Space)
        case None => Err(Syntax("unable to split upload message"))
        case Some(j) =>
          assert line[i + 1..][..j] == line[i + 1..i + 1 + j];
          assert Separators(line, i, i + 1 + j);
          ParseUploadSeparated(line, i, i + 1 + j)
  }

  /** The parser, once the first two spaces are found. */
  function ParseUploadSeparated(line: seq<Byte>, i: nat, j: nat): (r: Result<UploadHeader>)
    requires Separators(line, i, j)
    requires line[0] == TagC || line[0] == TagD
    ensures r.Ok? ==> FieldsMatch(line, i, j, r.value)
    ensures forall h :: IsUploadLine(line, h) ==> r == Ok(h)
  {
    var r := match ParseSize(line[i + 1..j])
      case Err(e) => Err(e)
      case Ok(size) =>
        if line[j + 1..] == [] then Err(Syntax("error getting name from upload message, cannot be empty"))
        else Ok(UploadHeader(size, line[j + 1..]));
    assert forall h :: IsUploadLine(line, h) ==> r == Ok(h) by {
      forall h | IsUploadLine(line, h) ensures r == Ok(h) {
        var i', j' :| Separators(line, i', j') && FieldsMatch(line, i', j', h);
        SeparatorsUnique(line, i, j, i', j');
      }
    }
    r
  }

  /** A `D`/`C` line as the download side renders it. */
  function FormatUploadMessage(tag: Byte, mode: seq<Byte>, size: nat, name: seq<Byte>): seq<Byte> {
    [tag] + mode + [Space] + Decimal(size) + [Space] + name
  }

  /** Round trip: the upload parser recovers size and name from any line the
      download side renders. */
  lemma {:induction false} FormatThenParse(tag: Byte, mode: seq<Byte>, size: nat, name: seq<Byte>)
    requires tag == TagC || tag == TagD
    requires Space !in mode && size <= MaxInt64 && name != []
    ensures ParseUploadMessage(FormatUploadMessage(tag, mode, size, name)) == Ok(UploadHeader(size, name))
  {
    var line := FormatUploadMessage(tag, mode, size, name);
    var ds := Decimal(size);
    var i := 1 + |mode|;
    var j := i + 1 + |ds|;
    assert line[..i] == [tag] + mode;
    assert line[i + 1..j] == ds;
    assert line[j + 1..] == name;
    assert line[i] == Space && line[j] == Space;
    assert Separators(line, i, j);
    assert FieldsMatch(line, i, j, UploadHeader(size, name));
  }

  // ---------------------------------------------------------------------
  // Line framing and confirmations

  /** Reading one byte that is not a newline shifts the first newline by one. */
  lemma LineStep(s: seq<Byte>)
    requires s != [] && s[0] != NewLine
    ensures IndexOf(s, NewLine) ==
      match IndexOf(s[1..], NewLine) case None => None case Some(k) => Some(k + 1)
    ensures forall k :: 0 <= k < |s| - 1 ==> s[..k + 1] == [s[0]] + s[1..][..k] && s[k + 2..] == s[1..][k + 1..]
  {
  }

  /** `readProtocolMessage`: reads byte by byte up to the next newline; the
      newline ends the message and is not part of it. A read failure, or the
      end of the stream before a newline, is an error. */
  function ReadProtocolMessage(c: MockChannel): (r: (Result<seq<Byte>>, MockChannel))
    ensures r.1.outbound == c.outbound
    ensures c.readError.Some? ==> r.0 == Err(c.readError.value) && r.1 == c
    ensures c.readError.None? ==>
      match IndexOf(c.inbound, NewLine)
      case Some(k) => r.0 == Ok(c.inbound[..k]) && r.1 == c.(inbound := c.inbound[k + 1..])
      case None => r.0 == Err(Eof) && r.1 == c.(inbound := [])
    decreases |c.inbound|
  {
    var rr := Read(c, 1);
    if rr.err.Some? then
      (Err(rr.err.value), rr.channel)
    else if rr.data[0] == NewLine then
      (Ok([]), rr.channel)
    else
      assert rr.channel.inbound == c.inbound[1..] && rr.data == [c.inbound[0]];
      LineStep(c.inbound);
      var (res, c') := ReadProtocolMessage(rr.channel);
      (if res.Ok? then Ok(rr.data + res.value) else res, c')
  }

  /** `sendProtocolMessage`: writes the message as given. */
  function SendProtocolMessage(c: MockChannel, msg: seq<Byte>): (r: (Option<Error>, MockChannel))
    ensures r.0 == c.writeError
    ensures c.writeError.None? && !c.shortWrite ==> r.1.outbound == c.outbound + msg
    ensures r.1 == c.(outbound := r.1.outbound)
  {
    var w := Write(c, msg);
    (w.err, w.channel)
  }

  /** `sendConfirmationMessage`: the single OK byte. */
  function SendConfirmationMessage(c: MockChannel): (r: (Option<Error>, MockChannel))
    ensures r.0 == c.writeError
    ensures c.writeError.None? && !c.shortWrite ==> r.1.outbound == c.outbound + [OkByte]
    ensures r.1 == c.(outbound := r.1.outbound)
  {
    SendProtocolMessage(c, [OkByte])
  }

  /** `sendErrorMessage`: the fatal byte, the text and a newline. Failures
      of this write are ignored, as the session ends anyway. */
  function SendErrorMessage(c: MockChannel, text: seq<Byte>): (c': MockChannel)
    ensures c.writeError.None? && !c.shortWrite ==> c'.outbound == c.outbound + [ErrorByte] + text + [NewLine]
    ensures c' == c.(outbound := c'.outbound)
  {
    SendProtocolMessage(c, [ErrorByte] + text + [NewLine]).1
  }

  /** Collects the text that follows a warning or error byte, up to the
      newline or the first read failure. */
  function ReadErrorText(c: MockChannel): (r: (seq<Byte>, MockChannel))
    ensures r.1.outbound == c.outbound
    ensures c.readError.Some? ==> r.0 == [] && r.1 == c
    ensures c.readError.None? ==>
      match IndexOf(c.inbound, NewLine)
      case Some(k) => r.0 == c.inbound[..k] && r.1 == c.(inbound := c.inbound[k + 1..])
      case None => r.0 == c.inbound && r.1 == c.(inbound := [])
    ensures r.1 == c.(inbound := r.1.inbound) && |r.1.inbound| <= |c.inbound|
    decreases |c.inbound|
  {
    var rr := Read(c, 1);
    if rr.err.Some? then
      ([], rr.channel)
    else if rr.data[0] == NewLine then
      ([], rr.channel)
    else
      assert rr.channel.inbound == c.inbound[1..] && rr.data == [c.inbound[0]];
      LineStep(c.inbound);
      var (text, c') := ReadErrorText(rr.channel);
      (rr.data + text, c')
  }

  /** `readConfirmationMessage`: reads one status byte; a warning or error
      byte makes the text that follows it, up to the newline, the error. */
  function ReadConfirmationMessage(c: MockChannel): (r: (Option<Error>, MockChannel))
    ensures r.1 == c.(inbound := r.1.inbound) && |r.1.inbound| <= |c.inbound|
    ensures c.readError.Some? ==> r.0 == c.readError
    ensures c.readError.None? && c.inbound == [] ==> r.0 == Some(Eof)
    ensures c.readError.None? && c.inbound != [] ==>
      (r.0.None? <==> c.inbound[0] != WarnByte && c.inbound[0] != ErrorByte)
    ensures c.readError.None? && c.inbound != [] && c.inbound[0] != WarnByte && c.inbound[0] != ErrorByte ==>
      r == (None, c.(inbound := c.inbound[1..]))
    ensures c.readError.None? && c.inbound != [] && (c.inbound[0] == WarnByte || c.inbound[0] == ErrorByte) ==>
      r.0 == Some(Remote(match IndexOf(c.inbound[1..], NewLine)
                         case Some(k) => c.inbound[1..][..k]
                         case None => c.inbound[1..]))
  {
    var rr := Read(c, 1);
    if rr.err.Some? then
      (rr.err, rr.channel)
    else if rr.data[0] == WarnByte || rr.data[0] == ErrorByte then
      assert rr.channel.inbound == c.inbound[1..];
      var (text, c') := ReadErrorText(rr.channel);
      (Some(Remote(text)), c')
    else
      (None, rr.channel)
  }

  /** An error sent with `SendErrorMessage` is received as exactly its text. */
  lemma ErrorMessageRoundTrip(text: seq<Byte>, rest: seq<Byte>)
    requires NewLine !in text
    ensures var sent := SendErrorMessage(Plain([]), text).outbound;
            ReadConfirmationMessage(Plain(sent + rest)) == (Some(Remote(text)), Plain(rest))
  {
    var sent := SendErrorMessage(Plain([]), text).outbound;
    var s := text + [NewLine] + rest;
    assert sent + rest == [ErrorByte] + s;
    assert (sent + rest)[1..] == s;
    FirstNewlineAfter(text, rest);
    assert s[..|text|] == text && s[|text| + 1..] == rest;
  }

  /** A confirmation sent with `SendConfirmationMessage` is received as success. */
  lemma ConfirmationRoundTrip(rest: seq<Byte>)
    ensures var sent := SendConfirmationMessage(Plain([])).1.outbound;
            ReadConfirmationMessage(Plain(sent + rest)) == (None, Plain(rest))
  {
    var sent := SendConfirmationMessage(Plain([])).1.outbound;
    assert (sent + rest)[1..] == rest;
  }

  /** The first newline of `msg + [NewLine] + rest` is the one after `msg`. */
  lemma FirstNewlineAfter(msg: seq<Byte>, rest: seq<Byte>)
    requires NewLine !in msg
    ensures IndexOf(msg + [NewLine] + rest, NewLine) == Some(|msg|)
  {
    var s := msg + [NewLine] + rest;
    assert s[|msg|] == NewLine;
  }

  /** A protocol message sent with its newline is read back as itself. */
  lemma ProtocolMessageRoundTrip(msg: seq<Byte>, rest: seq<Byte>)
    requires NewLine !in msg
    ensures var sent := SendProtocolMessage(Plain([]), msg + [NewLine]).1.outbound;
            ReadProtocolMessage(Plain(sent + rest)) == (Ok(msg), Plain(rest))
  {
    var s := msg + [NewLine] + rest;
    assert SendProtocolMessage(Plain([]), msg + [NewLine]).1.outbound + rest == s;
    FirstNewlineAfter(msg, rest);
    assert s[..|msg|] == msg && s[|msg| + 1..] == rest;
  }
}
