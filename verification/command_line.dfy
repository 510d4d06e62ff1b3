/** The exec payload tokenizer: the command line the client sends with an SSH
    "exec" request is split into words the way a POSIX shell lexer splits
    them (the rules of Go's `shlex` package): runs of blanks separate words,
    a backslash takes the next character literally, single quotes take
    everything up to the closing quote literally, double quotes allow
    backslash escapes inside, a `#` at the start of a word begins a comment
    that runs to the end of the line. An escape or a quote left open at the
    end of the input is an error. */
module CommandLine {
  import opened Common

  predicate IsBlank(c: char) {
    c == ' ' || c == '\t' || c == '\r' || c == '\n'
  }

  /** The characters the lexer gives a meaning to. */
  predicate IsSpecial(c: char) {
    IsBlank(c) || c == '\\' || c == '\'' || c == '"' || c == '#'
  }

  datatype LexState =
    | Start            // between words
    | InWord           // inside an unquoted part of a word
    | Escaping         // after a backslash outside quotes
    | Quoting          // inside single quotes
    | QuotingEscaping  // inside double quotes
    | EscapingQuoted   // after a backslash inside double quotes
    | Comment          // after a `#` that began a word

  predicate IsOpen(st: LexState) {
    st.Escaping? || st.Quoting? || st.QuotingEscaping? || st.EscapingQuoted?
  }

  predicate NoEmpty(ts: seq<string>) {
    forall i :: 0 <= i < |ts| ==> ts[i] != []
  }

  predicate HasQuote(s: string) {
    exists i :: 0 <= i < |s| && (s[i] == '\'' || s[i] == '"')
  }

  /** Runs the lexer over the rest `s` of the input in state `st`, with the
      word read so far `cur` and the finished words `acc`. Words already
      finished are never changed; without quotes in the input, no word can
      come out empty. */
  function Lex(s: string, st: LexState, cur: string, acc: seq<string>): (r: Result<seq<string>>)
    ensures r.Ok? ==> |acc| <= |r.value| && r.value[..|acc|] == acc
    ensures s == [] ==> (r.Err? <==> IsOpen(st))
    ensures r.Ok? && !HasQuote(s) && NoEmpty(acc) && (st.InWord? ==> cur != [])
            && !st.Quoting? && !st.QuotingEscaping? && !st.EscapingQuoted?
            ==> NoEmpty(r.value)
    decreases |s|
  {
    if s == [] then
      match st
      case Start => Ok(acc)
      case Comment => Ok(acc)
      case InWord => Ok(acc + [cur])
      case Escaping => Err(Syntax("EOF found after escape character"))
      case EscapingQuoted => Err(Syntax("EOF found after escape character"))
      case Quoting => Err(Syntax("EOF found when expecting closing quote"))
      case QuotingEscaping => Err(Syntax("EOF found when expecting closing quote"))
    else
      var c, rest := s[0], s[1..];
      assert !HasQuote(s) ==> !HasQuote(rest) by {
        if HasQuote(rest) {
          var i :| 0 <= i < |rest| && (rest[i] == '\'' || rest[i] == '"');
          assert s[i + 1] == rest[i];
        }
      }
      match st
      case Start =>
        if IsBlank(c) then Lex(rest, Start, [], acc)
        else if c == '\\' then Lex(rest, Escaping, [], acc)
        else if c == '\'' then Lex(rest, Quoting, [], acc)
        else if c == '"' then Lex(rest, QuotingEscaping, [], acc)
        else if c == '#' then Lex(rest, Comment, [], acc)
        else Lex(rest, InWord, [c], acc)
      case InWord =>
        if IsBlank(c) then Lex(rest, Start, [], acc + [cur])
        else if c == '\\' then Lex(rest, Escaping, cur, acc)
        else if c == '\'' then Lex(rest, Quoting, cur, acc)
        else if c == '"' then Lex(rest, QuotingEscaping, cur, acc)
        else Lex(rest, InWord, cur + [c], acc)
      case Escaping =>
        Lex(rest, InWord, cur + [c], acc)
      case Quoting =>
        if c == '\'' then Lex(rest, InWord, cur, acc)
        else Lex(rest, Quoting, cur + [c], acc)
      case QuotingEscaping =>
        if c == '"' then Lex(rest, InWord, cur, acc)
        else if c == '\\' then Lex(rest, EscapingQuoted, cur, acc)
        else Lex(rest, QuotingEscaping, cur + [c], acc)
      case EscapingQuoted =>
        Lex(rest, QuotingEscaping, cur + [c], acc)
      case Comment =>
        if c == '\n' then Lex(rest, Start, [], acc)
        else Lex(rest, Comment, [], acc)
  }

  /** The words of a command line. */
  function Tokenize(s: string): (r: Result<seq<string>>)
    ensures r.Ok? && !HasQuote(s) ==> NoEmpty(r.value)
  {
    Lex(s, Start, [], [])
  }

  /** An exec request: the command name and its arguments. */
  datatype Command = Command(name: string, args: seq<string>)

  /** Splits the exec payload into command name and arguments; a payload
      that does not lex, or that holds no word at all, is an error. */
  function ParseCommandPayload(payload: string): (r: Result<Command>)
    ensures r.Ok? <==> Tokenize(payload).Ok? && Tokenize(payload).value != []
    ensures r.Ok? ==> [r.value.name] + r.value.args == Tokenize(payload).value
    ensures Tokenize(payload).Err? ==> r == Err(Tokenize(payload).error)
  {
    var words :- Tokenize(payload);
    if words == [] then Err(Syntax("invalid command"))
    else Ok(Command(words[0], words[1..]))
  }

  // ---------------------------------------------------------------------
  // Rendering words back into a command line

  /** One character of a word as written on the command line: either as
      itself, or behind a backslash. */
  datatype Piece = Lit(c: char) | Esc(c: char)

  function Encode(ps: seq<Piece>): string {
    if ps == [] then []
    else (match ps[0] case Lit(c) => [c] case Esc(c) => ['\\', c]) + Encode(ps[1..])
  }

  function Decode(ps: seq<Piece>): string {
    if ps == [] then [] else [ps[0].c] + Decode(ps[1..])
  }

  /** A literal piece carries no character the lexer would act on. */
  predicate WellFormed(ps: seq<Piece>) {
    forall i :: 0 <= i < |ps| ==> ps[i].Lit? ==> !IsSpecial(ps[i].c)
  }

  /** The pieces of a word with every special character escaped. */
  function Quote(w: string): (ps: seq<Piece>)
    ensures WellFormed(ps) && Decode(ps) == w && |ps| == |w|
  {
    if w == [] then []
    else
      var p := if IsSpecial(w[0]) then Esc(w[0]) else Lit(w[0]);
      assert w == [w[0]] + w[1..];
      [p] + Quote(w[1..])
  }

  /** A word as written on a command line; the empty word needs quotes. */
  function RenderWord(w: string): string {
    if w == [] then "''" else Encode(Quote(w))
  }

  /** A command line whose words are the given ones. */
  function Render(ws: seq<string>): string {
    if ws == [] then []
    else if |ws| == 1 then RenderWord(ws[0])
    else RenderWord(ws[0]) + " " + Render(ws[1..])
  }

  // ---------------------------------------------------------------------
  // Lemmas

  lemma {:induction false} LexPieces(ps: seq<Piece>, rest: string, cur: string, acc: seq<string>)
    requires WellFormed(ps)
    ensures Lex(Encode(ps) + rest, InWord, cur, acc) == Lex(rest, InWord, cur + Decode(ps), acc)
    decreases |ps|
  {
    if ps == [] {
      assert Encode(ps) + rest == rest;
      assert cur + Decode(ps) == cur;
    } else {
      var head := match ps[0] case Lit(c) => [c] case Esc(c) => ['\\', c];
      assert WellFormed(ps[1..]) by {
        forall i | 0 <= i < |ps[1..]| ensures ps[1..][i].Lit? ==> !IsSpecial(ps[1..][i].c) {
          assert ps[1..][i] == ps[i + 1];
        }
      }
      LexPieces(ps[1..], rest, cur + [ps[0].c], acc);
      assert Encode(ps) + rest == head + (Encode(ps[1..]) + rest);
      assert cur + [ps[0].c] + Decode(ps[1..]) == cur + Decode(ps);
      if ps[0].Lit? {
        assert (head + (Encode(ps[1..]) + rest))[1..] == Encode(ps[1..]) + rest;
      } else {
        assert (head + (Encode(ps[1..]) + rest))[1..] == ['\\', ps[0].c][1..] + (Encode(ps[1..]) + rest);
        assert (head + (Encode(ps[1..]) + rest))[2..] == Encode(ps[1..]) + rest;
      }
    }
  }

  lemma LexStartLit(c: char, rest: string, acc: seq<string>)
    requires !IsSpecial(c)
    ensures Lex([c] + rest, Start, [], acc) == Lex(rest, InWord, [c], acc)
  {
    assert ([c] + rest)[1..] == rest;
  }

  lemma LexStartEsc(c: char, rest: string, acc: seq<string>)
    ensures Lex(['\\', c] + rest, Start, [], acc) == Lex(rest, InWord, [c], acc)
  {
    var s := ['\\', c] + rest;
    assert s[0] == '\\' && s[1..] == [c] + rest;
    assert ([c] + rest)[1..] == rest;
    assert Lex(s, Start, [], acc) == Lex([c] + rest, Escaping, [], acc);
    assert [] + [c] == [c];
  }

  lemma LexEmptyQuotes(rest: string, acc: seq<string>)
    ensures Lex("''" + rest, Start, [], acc) == Lex(rest, InWord, [], acc)
  {
    var s := "''" + rest;
    assert s[0] == '\'' && s[1..] == "'" + rest;
    assert ("'" + rest)[1..] == rest;
    assert Lex(s, Start, [], acc) == Lex("'" + rest, Quoting, [], acc);
  }

  /** A rendered word, read from between words, leaves the lexer inside that
      word with the word's text collected. */
  lemma LexWord(w: string, rest: string, acc: seq<string>)
    ensures Lex(RenderWord(w) + rest, Start, [], acc) == Lex(rest, InWord, w, acc)
  {
    if w == [] {
      LexEmptyQuotes(rest, acc);
    } else {
      LexQuoted(Quote(w), rest, acc);
    }
  }

  /** Well-formed pieces, read from between words, leave the lexer inside a
      word holding the characters they stand for. */
  lemma LexQuoted(ps: seq<Piece>, rest: string, acc: seq<string>)
    requires ps != [] && WellFormed(ps)
    ensures Lex(Encode(ps) + rest, Start, [], acc) == Lex(rest, InWord, Decode(ps), acc)
  {
    WellFormedTail(ps);
    LexHead(ps, rest, acc);
    LexPieces(ps[1..], rest, [ps[0].c], acc);
  }

  lemma WellFormedTail(ps: seq<Piece>)
    requires ps != [] && WellFormed(ps)
    ensures WellFormed(ps[1..])
  {
    forall i | 0 <= i < |ps[1..]| ensures ps[1..][i].Lit? ==> !IsSpecial(ps[1..][i].c) {
      assert ps[1..][i] == ps[i + 1];
    }
  }

  /** The first piece starts a word holding its character. */
  lemma LexHead(ps: seq<Piece>, rest: string, acc: seq<string>)
    requires ps != [] && (ps[0].Lit? ==> !IsSpecial(ps[0].c))
    ensures Lex(Encode(ps) + rest, Start, [], acc) == Lex(Encode(ps[1..]) + rest, InWord, [ps[0].c], acc)
  {
    var tail := ps[1..];
    if ps[0].Lit? {
      assert Encode(ps) + rest == [ps[0].c] + (Encode(tail) + rest);
      LexStartLit(ps[0].c, Encode(tail) + rest, acc);
    } else {
      assert Encode(ps) + rest == ['\\', ps[0].c] + (Encode(tail) + rest);
      LexStartEsc(ps[0].c, Encode(tail) + rest, acc);
    }
  }

  lemma LexBlankEndsWord(rest: string, w: string, acc: seq<string>)
    ensures Lex(" " + rest, InWord, w, acc) == Lex(rest, Start, [], acc + [w])
  {
    assert (" " + rest)[1..] == rest;
  }

  lemma LexLastWord(w: string, acc: seq<string>)
    ensures Lex(RenderWord(w), Start, [], acc) == Ok(acc + [w])
  {
    LexWord(w, [], acc);
    assert RenderWord(w) + [] == RenderWord(w);
  }

  lemma LexFirstWord(ws: seq<string>, acc: seq<string>)
    requires |ws| >= 2
    ensures Lex(Render(ws), Start, [], acc) == Lex(Render(ws[1..]), Start, [], acc + [ws[0]])
  {
    var tail := " " + Render(ws[1..]);
    assert Render(ws) == RenderWord(ws[0]) + tail;
    LexWord(ws[0], tail, acc);
    LexBlankEndsWord(Render(ws[1..]), ws[0], acc);
  }

  /** Rendering then tokenizing gives back the words. */
  lemma {:induction false} RenderThenLex(ws: seq<string>, acc: seq<string>)
    ensures Lex(Render(ws), Start, [], acc) == Ok(acc + ws)
    decreases |ws|
  {
    if ws == [] {
      assert acc + ws == acc;
    } else if |ws| == 1 {
      LexLastWord(ws[0], acc);
      assert acc + [ws[0]] == acc + ws;
    } else {
      LexFirstWord(ws, acc);
      RenderThenLex(ws[1..], acc + [ws[0]]);
      assert acc + [ws[0]] + ws[1..] == acc + ws;
    }
  }

  lemma RenderThenTokenize(ws: seq<string>)
    ensures Tokenize(Render(ws)) == Ok(ws)
  {
    RenderThenLex(ws, []);
    assert [] + ws == ws;
  }

  /** A command rendered as a command line parses back into itself. */
  lemma RenderThenParse(cmd: Command)
    ensures ParseCommandPayload(Render([cmd.name] + cmd.args)) == Ok(cmd)
  {
    RenderThenTokenize([cmd.name] + cmd.args);
    assert ([cmd.name] + cmd.args)[1..] == cmd.args;
  }

  predicate IsPlain(w: string) {
    forall i :: 0 <= i < |w| ==> !IsSpecial(w[i])
  }

  lemma {:induction false} LexPlain(w: string, rest: string, cur: string, acc: seq<string>)
    requires IsPlain(w)
    ensures Lex(w + rest, InWord, cur, acc) == Lex(rest, InWord, cur + w, acc)
    decreases |w|
  {
    if w == [] {
      assert w + rest == rest;
      assert cur + w == cur;
    } else {
      assert (w + rest)[0] == w[0];
      assert (w + rest)[1..] == w[1..] + rest;
      LexPlain(w[1..], rest, cur + [w[0]], acc);
      assert cur + [w[0]] + w[1..] == cur + w;
    }
  }

  lemma LexStartPlain(w: string, rest: string, acc: seq<string>)
    requires w != [] && IsPlain(w)
    ensures Lex(w + rest, Start, [], acc) == Lex(rest, InWord, w, acc)
  {
    assert (w + rest)[0] == w[0];
    assert (w + rest)[1..] == w[1..] + rest;
    LexPlain(w[1..], rest, [w[0]], acc);
    assert [w[0]] + w[1..] == w;
  }

  lemma LexEscaped(c: char, rest: string, cur: string, acc: seq<string>)
    ensures Lex(['\\', c] + rest, InWord, cur, acc) == Lex(rest, InWord, cur + [c], acc)
  {
    var s := ['\\', c] + rest;
    assert s[0] == '\\' && s[1..] == [c] + rest;
    assert ([c] + rest)[1..] == rest;
  }

  lemma LexBlankBetweenWords(rest: string, acc: seq<string>)
    ensures Lex(" " + rest, Start, [], acc) == Lex(rest, Start, [], acc)
  {
    assert (" " + rest)[1..] == rest;
  }

  lemma ExampleOptions(rest: string)
    ensures Lex("command -a  -f  " + rest, Start, [], []) == Lex(rest, Start, [], ["command", "-a", "-f"])
  {
    var s2 := "-a  -f  " + rest;
    var s5 := "-f  " + rest;
    assert IsPlain("command") && IsPlain("-a") && IsPlain("-f");
    calc {
      Lex("command -a  -f  " + rest, Start, [], []);
      { assert "command -a  -f  " + rest == "command" + (" " + s2); }
      Lex("command" + (" " + s2), Start, [], []);
      { LexStartPlain("command", " " + s2, []); }
      Lex(" " + s2, InWord, "command", []);
      { LexBlankEndsWord(s2, "command", []); assert [] + ["command"] == ["command"]; }
      Lex(s2, Start, [], ["command"]);
      { assert s2 == "-a" + (" " + (" " + s5)); LexStartPlain("-a", " " + (" " + s5), ["command"]); }
      Lex(" " + (" " + s5), InWord, "-a", ["command"]);
      { LexBlankEndsWord(" " + s5, "-a", ["command"]); assert ["command"] + ["-a"] == ["command", "-a"]; }
      Lex(" " + s5, Start, [], ["command", "-a"]);
      { LexBlankBetweenWords(s5, ["command", "-a"]); }
      Lex(s5, Start, [], ["command", "-a"]);
      { assert s5 == "-f" + (" " + (" " + rest)); LexStartPlain("-f", " " + (" " + rest), ["command", "-a"]); }
      Lex(" " + (" " + rest), InWord, "-f", ["command", "-a"]);
      { LexBlankEndsWord(" " + rest, "-f", ["command", "-a"]); assert ["command", "-a"] + ["-f"] == ["command", "-a", "-f"]; }
      Lex(" " + rest, Start, [], ["command", "-a", "-f"]);
      { LexBlankBetweenWords(rest, ["command", "-a", "-f"]); }
      Lex(rest, Start, [], ["command", "-a", "-f"]);
    }
  }

  lemma ExamplePathHead(rest: string, acc: seq<string>)
    ensures Lex("/ab\\ \U{e0}/some\\ " + rest, Start, [], acc) == Lex(rest, InWord, "/ab \U{e0}/some ", acc)
  {
    var s10 := "\U{e0}/some\\ " + rest;
    assert IsPlain("/ab") && IsPlain("\U{e0}/some");
    calc {
      Lex("/ab\\ \U{e0}/some\\ " + rest, Start, [], acc);
      { assert "/ab\\ \U{e0}/some\\ " + rest == "/ab" + (['\\', ' '] + s10); }
      Lex("/ab" + (['\\', ' '] + s10), Start, [], acc);
      { LexStartPlain("/ab", ['\\', ' '] + s10, acc); }
      Lex(['\\', ' '] + s10, InWord, "/ab", acc);
      { LexEscaped(' ', s10, "/ab", acc); assert "/ab" + [' '] == "/ab "; }
      Lex(s10, InWord, "/ab ", acc);
      { assert s10 == "\U{e0}/some" + (['\\', ' '] + rest); LexPlain("\U{e0}/some", ['\\', ' '] + rest, "/ab ", acc); }
      Lex(['\\', ' '] + rest, InWord, "/ab " + "\U{e0}/some", acc);
      { LexEscaped(' ', rest, "/ab " + "\U{e0}/some", acc); assert "/ab " + "\U{e0}/some" + [' '] == "/ab \U{e0}/some "; }
      Lex(rest, InWord, "/ab \U{e0}/some ", acc);
    }
  }

  lemma ExampleEscapes(rest: string, acc: seq<string>)
    ensures Lex(['\\', ' ', '\\', ' ', '\\', '(', '\\', ')'] + rest, InWord, "/ab \U{e0}/some spaces", acc)
         == Lex(rest, InWord, "/ab \U{e0}/some spaces  ()", acc)
  {
    var w1 := "/ab \U{e0}/some spaces";
    var w2 := w1 + [' '];
    var w3 := w2 + [' '];
    var w4 := w3 + ['('];
    calc {
      Lex(['\\', ' ', '\\', ' ', '\\', '(', '\\', ')'] + rest, InWord, w1, acc);
      { assert ['\\', ' ', '\\', ' ', '\\', '(', '\\', ')'] + rest == ['\\', ' '] + (['\\', ' ', '\\', '(', '\\', ')'] + rest);
        LexEscaped(' ', ['\\', ' ', '\\', '(', '\\', ')'] + rest, w1, acc); }
      Lex(['\\', ' ', '\\', '(', '\\', ')'] + rest, InWord, w2, acc);
      { assert ['\\', ' ', '\\', '(', '\\', ')'] + rest == ['\\', ' '] + (['\\', '(', '\\', ')'] + rest);
        LexEscaped(' ', ['\\', '(', '\\', ')'] + rest, w2, acc); }
      Lex(['\\', '(', '\\', ')'] + rest, InWord, w3, acc);
      { assert ['\\', '(', '\\', ')'] + rest == ['\\', '('] + (['\\', ')'] + rest);
        LexEscaped('(', ['\\', ')'] + rest, w3, acc); }
      Lex(['\\', ')'] + rest, InWord, w4, acc);
      { LexEscaped(')', rest, w4, acc); }
      Lex(rest, InWord, w4 + [')'], acc);
      { assert w4 + [')'] == "/ab \U{e0}/some spaces  ()"; }
      Lex(rest, InWord, "/ab \U{e0}/some spaces  ()", acc);
    }
  }

  lemma ExamplePathTail(acc: seq<string>)
    ensures Lex("spaces\\ \\ \\(\\).txt", InWord, "/ab \U{e0}/some ", acc) == Ok(acc + ["/ab \U{e0}/some spaces  ().txt"])
  {
    var esc: string := ['\\', ' ', '\\', ' ', '\\', '(', '\\', ')'];
    var w1 := "/ab \U{e0}/some spaces";
    var w5 := "/ab \U{e0}/some spaces  ()";
    assert IsPlain("spaces") && IsPlain(".txt");
    assert "spaces\\ \\ \\(\\).txt" == "spaces" + (esc + ".txt");
    LexPlain("spaces", esc + ".txt", "/ab \U{e0}/some ", acc);
    assert "/ab \U{e0}/some " + "spaces" == w1;
    ExampleEscapes(".txt", acc);
    LexPlain(".txt", [], w5, acc);
    assert ".txt" + [] == ".txt";
    assert w5 + ".txt" == "/ab \U{e0}/some spaces  ().txt";
  }

  /** The exec payload of the engine's tests: repeated blanks make no empty
      words, and the escaped blanks and parentheses of the last word lose
      their backslashes. */
  lemma ExamplePayload()
    ensures ParseCommandPayload("command -a  -f  /ab\\ \U{e0}/some\\ spaces\\ \\ \\(\\).txt")
            == Ok(Command("command", ["-a", "-f", "/ab \U{e0}/some spaces  ().txt"]))
  {
    var path := "spaces\\ \\ \\(\\).txt";
    var acc := ["command", "-a", "-f"];
    assert "command -a  -f  /ab\\ \U{e0}/some\\ spaces\\ \\ \\(\\).txt"
        == "command -a  -f  " + ("/ab\\ \U{e0}/some\\ " + path);
    ExampleOptions("/ab\\ \U{e0}/some\\ " + path);
    ExamplePathHead(path, acc);
    ExamplePathTail(acc);
    assert (acc + ["/ab \U{e0}/some spaces  ().txt"])[1..] == ["-a", "-f", "/ab \U{e0}/some spaces  ().txt"];
  }

  /** An empty payload is refused. */
  lemma EmptyPayloadFails()
    ensures ParseCommandPayload("").Err?
  {
  }
}
