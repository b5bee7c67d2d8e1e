/**
 * The two line parsers (blacklist/reader.go).
 *
 * The byte stream behind bufio.Reader is its complete text plus how it ends:
 * at a clean end of file, or with a read failure. A reader object keeps a
 * cursor into the text; ReadBytes is bufio.Reader.ReadBytes('\n') at the
 * cursor. Each Read call consumes lines until one yields a domain, and is
 * specified against NextRecord, a function of the text and the old cursor.
 * Drain, the results of successive calls when every domain fits the
 * caller's buffer, is then shown to be a filter-map of the per-line
 * functions SimpleToken / IPSkipperToken over the lines.
 */
module Reader {
  import opened Wrappers
  import opened Text
  import opened Domain
  import Config

  const SimpleBlacklistComment := "#"
  const HostsPrefix := "0.0.0.0 "
  /** The reserved loopback and broadcast names the IP-skipper never yields. */
  const Localhosts: seq<string> := ["127.0.0.1", "255.255.255.255", "::1", "localhost", "0.0.0.0"]

  /** How the underlying stream ends once its data is used up. A failure is reported on every later read. */
  datatype StreamEnd = AtEOF | Broken(reason: string)

  datatype Stream = Stream(data: string, end: StreamEnd)

  /** The errors Read returns. */
  datatype ReadError = EOF | ErrBufferTooSmall | ReadFailure(reason: string)

  function EndError(e: StreamEnd): ReadError {
    match e
    case AtEOF => EOF
    case Broken(reason) => ReadFailure(reason)
  }

  /** One result of ReadBytes: the bytes read, the new cursor, and the error (None for nil). */
  datatype Chunk = Chunk(line: string, next: nat, err: Option<StreamEnd>)

  /** bufio.Reader.ReadBytes('\n'): up to and including the next newline, or the rest with the stream's end. */
  function ReadBytes(s: Stream, pos: nat): (c: Chunk)
    requires pos <= |s.data|
    ensures pos <= c.next <= |s.data| && c.line == s.data[pos..c.next]
    ensures c.err.None? ==> |c.line| > 0 && c.line[|c.line| - 1] == '\n' && '\n' !in c.line[..|c.line| - 1]
    ensures c.err.Some? ==> c.err.value == s.end && c.next == |s.data| && '\n' !in c.line
  {
    var i := IndexOf(s.data[pos..], '\n');
    if pos + i < |s.data| then Chunk(s.data[pos..pos + i + 1], pos + i + 1, None)
    else Chunk(s.data[pos..], |s.data|, Some(s.end))
  }

  /** The lines of a text as ReadBytes returns them in turn: each keeps its '\n', the last may lack one. */
  function Lines(text: string): (ls: seq<string>)
    ensures |ls| <= |text|
    ensures ls == [] <==> text == []
    decreases |text|
  {
    if text == [] then [] else [text[..LineLength(text)]] + Lines(text[LineLength(text)..])
  }

  /** The length of the first line: up to and including the first newline, or the whole text. */
  function LineLength(text: string): (n: nat)
    requires text != []
    ensures 0 < n <= |text|
  {
    var i := IndexOf(text, '\n');
    if i < |text| then i + 1 else |text|
  }

  predicate Terminated(line: string) {
    |line| > 0 && line[|line| - 1] == '\n'
  }

  /** With a newline at `i`, the first line runs up to and including it. */
  lemma LinesFirst(text: string, i: nat)
    requires text != [] && i == IndexOf(text, '\n') && i < |text|
    ensures Lines(text) == [text[..i + 1]] + Lines(text[i + 1..])
  {
    LineLengthAt(text, i);
    LinesUnfold(text, i + 1);
  }

  lemma LineLengthAt(text: string, i: nat)
    requires text != [] && i == IndexOf(text, '\n') && i < |text|
    ensures LineLength(text) == i + 1
  {
  }

  /** One step of Lines, with the first line's length given by name. */
  lemma LinesUnfold(text: string, n: nat)
    requires text != [] && n == LineLength(text)
    ensures Lines(text) == [text[..n]] + Lines(text[n..])
  {
  }

  /** LinesFirst with the first line and the rest given by name. */
  lemma LinesSplitAt(text: string, i: nat, line: string, rest: string)
    requires text != [] && i == IndexOf(text, '\n') && i < |text|
    requires line == text[..i + 1] && rest == text[i + 1..]
    ensures Lines(text) == [line] + Lines(rest)
  {
    LinesFirst(text, i);
  }

  /** Without a newline, the text is one line. */
  lemma LinesOnly(text: string)
    requires text != [] && IndexOf(text, '\n') == |text|
    ensures Lines(text) == [text]
  {
    var n := LineLength(text);
    assert text[..n] == text && text[n..] == [];
    assert Lines(text) == [text] + Lines([]);
  }

  lemma FirstLineTerminated(text: string)
    requires IndexOf(text, '\n') < |text|
    ensures Terminated(text[..IndexOf(text, '\n') + 1])
  {
    var i := IndexOf(text, '\n');
    TerminatedAt(text, i, text[..i + 1]);
  }

  lemma TerminatedAt(text: string, i: nat, line: string)
    requires i < |text| && text[i] == '\n' && line == text[..i + 1]
    ensures Terminated(line)
  {
    assert line[i] == text[i];
  }

  lemma ConcatCons(x: string, rest: seq<string>)
    ensures Concat([x] + rest) == x + Concat(rest)
  {
    assert ([x] + rest)[0] == x && ([x] + rest)[1..] == rest;
  }

  lemma SliceSplit(text: string, k: nat)
    requires k <= |text|
    ensures text[..k] + text[k..] == text
  {
  }

  /** The lines joined are the text. */
  lemma {:induction false} LinesConcat(text: string)
    ensures Concat(Lines(text)) == text
    decreases |text|
  {
    if text != [] {
      var i := IndexOf(text, '\n');
      if i < |text| {
        LinesFirst(text, i);
        LinesConcat(text[i + 1..]);
        ConcatCons(text[..i + 1], Lines(text[i + 1..]));
        SliceSplit(text, i + 1);
      } else {
        LinesOnly(text);
        ConcatCons(text, []);
        assert [text] + [] == [text];
      }
    }
  }

  /** Every line but the last ends in a newline. */
  lemma {:induction false} LinesTerminated(text: string)
    ensures forall k :: 0 <= k < |Lines(text)| - 1 ==> Terminated(Lines(text)[k])
    decreases |text|
  {
    if text != [] {
      var i := IndexOf(text, '\n');
      if i < |text| {
        LinesTerminated(text[i + 1..]);
        LinesTerminatedStep(text);
      } else {
        LinesOnly(text);
      }
    }
  }

  lemma LinesTerminatedStep(text: string)
    requires text != [] && IndexOf(text, '\n') < |text|
    requires var rest := Lines(text[IndexOf(text, '\n') + 1..]);
             forall k :: 0 <= k < |rest| - 1 ==> Terminated(rest[k])
    ensures forall k :: 0 <= k < |Lines(text)| - 1 ==> Terminated(Lines(text)[k])
  {
    var i := IndexOf(text, '\n');
    var x, rest := text[..i + 1], Lines(text[i + 1..]);
    FirstLineTerminated(text);
    LinesFirst(text, i);
    assert Terminated(x);
    assert forall k :: 0 <= k < |rest| - 1 ==> Terminated(rest[k]);
    TerminatedCons(Lines(text), x, rest);
  }

  /** A terminated line in front keeps every line but the last terminated. */
  lemma TerminatedCons(ls: seq<string>, x: string, rest: seq<string>)
    requires ls == [x] + rest
    requires Terminated(x) && forall k :: 0 <= k < |rest| - 1 ==> Terminated(rest[k])
    ensures forall k :: 0 <= k < |ls| - 1 ==> Terminated(ls[k])
  {
    forall k | 0 <= k < |ls| - 1 ensures Terminated(ls[k]) {
      if k > 0 { assert ls[k] == rest[k - 1]; }
    }
  }

  /** The lines are a partition of the text, and only the last one can lack its newline. */
  lemma LinesPartition(text: string)
    ensures Concat(Lines(text)) == text
    ensures forall k :: 0 <= k < |Lines(text)| - 1 ==> Terminated(Lines(text)[k])
  {
    LinesConcat(text);
    LinesTerminated(text);
  }

  /** A complete line: its only newline is its last character. */
  predicate IsLine(line: string) {
    Terminated(line) && '\n' !in line[..|line| - 1]
  }

  lemma IndexOfLine(line: string, rest: string)
    requires IsLine(line)
    ensures IndexOf(line + rest, '\n') == |line| - 1
  {
    var t := line + rest;
    assert t[|line| - 1] == '\n';
    assert forall j :: 0 <= j < |line| - 1 ==> t[j] == line[..|line| - 1][j];
    IndexOfAt(t, '\n', |line| - 1);
  }

  /** Splitting complete lines that were joined gives them back: the inverse of LinesPartition. */
  lemma {:induction false} LinesOfConcat(lines: seq<string>)
    requires forall k :: 0 <= k < |lines| ==> IsLine(lines[k])
    ensures Lines(Concat(lines)) == lines
    decreases |lines|
  {
    if lines != [] {
      var t := Concat(lines);
      var first := lines[0];
      LinesOfConcat(lines[1..]);
      IndexOfLine(first, Concat(lines[1..]));
      assert t[..|first|] == first;
      assert t[|first|..] == Concat(lines[1..]);
      assert Lines(t) == [first] + Lines(Concat(lines[1..]));
    }
  }

  /** The lines whose contents a reader processes: all of them at end of file, only complete ones after a failure. */
  function Processed(end: StreamEnd, lines: seq<string>): (ps: seq<string>)
    ensures |ps| <= |lines|
    ensures end.AtEOF? ==> ps == lines
  {
    if lines == [] then []
    else if end.AtEOF? || Terminated(lines[0]) then [lines[0]] + Processed(end, lines[1..])
    else Processed(end, lines[1..])
  }

  // ---------------------------------------------------------------------
  // What one line yields

  /** SimpleParsedReader's treatment of one line. */
  function SimpleToken(line: string): (tok: Option<string>)
    ensures tok.Some? ==> tok.value != "" && |tok.value| <= |TrimSpace(line)|
  {
    var t := TrimSpace(line);
    if |t| == 0 then None
    else if HasPrefix(t, SimpleBlacklistComment) then None
    else
      var domain := NormalizeDomain(t);
      if domain == "" then None else Some(domain)
  }

  /** IPSkipperReader's treatment of one line. */
  function IPSkipperToken(line: string): (tok: Option<string>)
    ensures tok.Some? ==> tok.value != "" && |tok.value| + |HostsPrefix| <= |TrimSpace(line)|
  {
    var t := TrimSpace(line);
    if !HasPrefix(t, HostsPrefix) then None
    else
      var rest := TrimPrefix(t, HostsPrefix);
      if |rest| == 0 then None
      else
        var token := CutBefore(rest, ' ');
        if token in Localhosts then None
        else
          var domain := NormalizeDomain(token);
          if domain == "" then None else Some(domain)
  }

  datatype Format = Simple | IPSkipper

  function Token(f: Format, line: string): Option<string> {
    match f
    case Simple => SimpleToken(line)
    case IPSkipper => IPSkipperToken(line)
  }

  /** A per-line function: what one line yields. The stream-level definitions below take it as a parameter. */
  type LineParser = string -> Option<string>

  /** The per-line function of each parser. */
  function Parser(f: Format): (tok: LineParser)
    ensures forall line :: tok(line) == Token(f, line)
  {
    match f
    case Simple => SimpleToken
    case IPSkipper => IPSkipperToken
  }

  /** What one line contributes to the output: its domain, or nothing. */
  function Yield(tok: LineParser, line: string): seq<string> {
    match tok(line)
    case Some(d) => [d]
    case None => []
  }

  /** The domains a sequence of lines yields, in order. */
  function Tokens(tok: LineParser, lines: seq<string>): seq<string> {
    if lines == [] then [] else Yield(tok, lines[0]) + Tokens(tok, lines[1..])
  }

  /** Complete lines are all processed, whether or not the stream later fails. */
  lemma {:induction false} ProcessedComplete(end: StreamEnd, lines: seq<string>)
    requires forall k :: 0 <= k < |lines| ==> Terminated(lines[k])
    ensures Processed(end, lines) == lines
    decreases |lines|
  {
    if lines != [] {
      ProcessedComplete(end, lines[1..]);
      assert lines == [lines[0]] + lines[1..];
    }
  }

  // ---------------------------------------------------------------------
  // What one Read call and a sequence of them yield

  /** The outcome of one Read with a large enough buffer: a domain and the cursor after its line, or the end. */
  datatype Scan = Found(domain: string, next: nat) | Ended(end: StreamEnd)

  /** The lines from `pos` on are consumed up to the first that yields a domain, or to the end of the stream. */
  function NextRecord(tok: LineParser, s: Stream, pos: nat): (r: Scan)
    requires pos <= |s.data|
    ensures r.Found? ==> pos < r.next <= |s.data|
    ensures r.Ended? ==> r.end == s.end
    decreases |s.data| - pos
  {
    var c := ReadBytes(s, pos);
    if c.err.Some? && (c.err.value.Broken? || |c.line| == 0) then Ended(c.err.value)
    else
      match tok(c.line)
      case Some(d) => Found(d, c.next)
      case None => NextRecord(tok, s, c.next)
  }

  /**
   * The domains successive Read calls return from cursor `pos` until the
   * stream's end is reported, when every domain fits the caller's buffer
   * (ReadAdvancesDrain; a longer one is consumed with ErrBufferTooSmall).
   */
  function Drain(tok: LineParser, s: Stream, pos: nat): (ds: seq<string>)
    requires pos <= |s.data|
    ensures |ds| <= |s.data| - pos
    decreases |s.data| - pos
  {
    match NextRecord(tok, s, pos)
    case Found(d, next) => [d] + Drain(tok, s, next)
    case Ended(_) => []
  }

  /** The lines from `pos` on: the one ReadBytes returns, and those after it. */
  lemma LinesStep(s: Stream, pos: nat)
    requires pos < |s.data|
    ensures ReadBytes(s, pos).err.None? ==>
              Lines(s.data[pos..]) == [ReadBytes(s, pos).line] + Lines(s.data[ReadBytes(s, pos).next..])
    ensures ReadBytes(s, pos).err.Some? ==> Lines(s.data[pos..]) == [ReadBytes(s, pos).line]
  {
    var t := s.data[pos..];
    var i := IndexOf(t, '\n');
    var c := ReadBytes(s, pos);
    if i < |t| {
      ReadBytesNewline(s, pos);
      LinesSplitAt(t, i, c.line, s.data[c.next..]);
    } else {
      assert c == Chunk(t, |s.data|, Some(s.end));
      LinesOnly(t);
    }
  }

  /** A line that ends in '\n' is the text up to the first newline, and the cursor moves past it. */
  lemma ReadBytesNewline(s: Stream, pos: nat)
    requires pos < |s.data| && IndexOf(s.data[pos..], '\n') < |s.data[pos..]|
    ensures ReadBytes(s, pos).line == s.data[pos..][..IndexOf(s.data[pos..], '\n') + 1]
    ensures s.data[ReadBytes(s, pos).next..] == s.data[pos..][IndexOf(s.data[pos..], '\n') + 1..]
  {
    var i := IndexOf(s.data[pos..], '\n');
    assert ReadBytes(s, pos).next == pos + i + 1;
    TakeOfDrop(s.data, pos, i + 1);
    DropOfDrop(s.data, pos, i + 1);
  }

  lemma TakeOfDrop(text: string, pos: nat, k: nat)
    requires pos + k <= |text|
    ensures text[pos..][..k] == text[pos..pos + k]
  {
  }

  lemma DropOfDrop(text: string, pos: nat, k: nat)
    requires pos + k <= |text|
    ensures text[pos..][k..] == text[pos + k..]
  {
  }

  /** A Read that meets the stream's end reports it. */
  lemma NextRecordAtEnd(tok: LineParser, s: Stream, pos: nat)
    requires pos <= |s.data|
    requires var c := ReadBytes(s, pos); c.err.Some? && (c.err.value.Broken? || |c.line| == 0)
    ensures NextRecord(tok, s, pos) == Ended(s.end)
  {
  }

  /** A line that yields nothing is consumed and the Read goes on with the next one. */
  lemma NextRecordSkips(tok: LineParser, s: Stream, pos: nat)
    requires pos <= |s.data|
    requires var c := ReadBytes(s, pos);
             !(c.err.Some? && (c.err.value.Broken? || |c.line| == 0)) && tok(c.line).None?
    ensures NextRecord(tok, s, pos) == NextRecord(tok, s, ReadBytes(s, pos).next)
  {
  }

  /** A line that yields a domain ends the Read. */
  lemma NextRecordFinds(tok: LineParser, s: Stream, pos: nat, d: string)
    requires pos <= |s.data|
    requires var c := ReadBytes(s, pos);
             !(c.err.Some? && (c.err.value.Broken? || |c.line| == 0)) && tok(c.line) == Some(d)
    ensures NextRecord(tok, s, pos) == Found(d, ReadBytes(s, pos).next)
  {
  }

  lemma ProcessedCons(end: StreamEnd, line: string, rest: seq<string>)
    ensures Processed(end, [line] + rest) ==
              (if end.AtEOF? || Terminated(line) then [line] else []) + Processed(end, rest)
  {
    assert ([line] + rest)[1..] == rest;
  }

  lemma TokensCons(tok: LineParser, line: string, rest: seq<string>)
    ensures Tokens(tok, [line] + rest) == Yield(tok, line) + Tokens(tok, rest)
  {
    assert ([line] + rest)[1..] == rest;
  }

  /** A complete line contributes its yield, followed by what the lines after it yield. */
  lemma TokensAfterCompleteLine(tok: LineParser, s: Stream, pos: nat)
    requires pos < |s.data| && ReadBytes(s, pos).err.None?
    ensures Tokens(tok, Processed(s.end, Lines(s.data[pos..]))) ==
              Yield(tok, ReadBytes(s, pos).line) + Tokens(tok, Processed(s.end, Lines(s.data[ReadBytes(s, pos).next..])))
  {
    var c := ReadBytes(s, pos);
    var rest := Lines(s.data[c.next..]);
    LinesStep(s, pos);
    ProcessedCons(s.end, c.line, rest);
    TokensCons(tok, c.line, Processed(s.end, rest));
  }

  /** The last line, without a newline, contributes its yield at end of file and nothing after a failure. */
  lemma TokensOfLastLine(tok: LineParser, s: Stream, pos: nat)
    requires pos < |s.data| && ReadBytes(s, pos).err.Some?
    ensures Tokens(tok, Processed(s.end, Lines(s.data[pos..]))) ==
              if s.end.AtEOF? then Yield(tok, ReadBytes(s, pos).line) else []
  {
    var c := ReadBytes(s, pos);
    LinesStep(s, pos);
    TokensOfOneLine(tok, s.end, Lines(s.data[pos..]), c.line);
  }

  /** A single line without its newline is processed only at end of file. */
  lemma TokensOfOneLine(tok: LineParser, end: StreamEnd, lines: seq<string>, line: string)
    requires lines == [line] && '\n' !in line
    ensures Tokens(tok, Processed(end, lines)) == if end.AtEOF? then Yield(tok, line) else []
  {
    assert lines[1..] == [];
    if end.AtEOF? {
      assert Processed(end, lines) == [line];
      assert Tokens(tok, [line]) == Yield(tok, line) + Tokens(tok, []);
    } else {
      assert !Terminated(line);
    }
  }

  /** One Read in terms of the processed lines: the first domain they yield, and the rest of them. */
  lemma {:induction false} NextRecordYieldsFirstToken(tok: LineParser, s: Stream, pos: nat)
    requires pos <= |s.data|
    ensures Tokens(tok, Processed(s.end, Lines(s.data[pos..]))) ==
              match NextRecord(tok, s, pos)
              case Found(d, next) => [d] + Tokens(tok, Processed(s.end, Lines(s.data[next..])))
              case Ended(_) => []
    decreases |s.data| - pos
  {
    var c := ReadBytes(s, pos);
    if pos == |s.data| {
      assert s.data[pos..] == [];
      NextRecordAtEnd(tok, s, pos);
    } else if c.err.None? {
      TokensAfterCompleteLine(tok, s, pos);
      match tok(c.line)
      case Some(d) =>
        NextRecordFinds(tok, s, pos, d);
      case None =>
        NextRecordSkips(tok, s, pos);
        NextRecordYieldsFirstToken(tok, s, c.next);
    } else {
      TokensOfLastLine(tok, s, pos);
      assert s.data[|s.data|..] == [];
      if s.end.AtEOF? && tok(c.line).None? {
        assert NextRecord(tok, s, c.next) == Ended(s.end);
      }
    }
  }

  /**
   * Draining a reader yields exactly the filter-map of the per-line function
   * over the processed lines, in input order: every line at a clean end of
   * file (a last line without '\n' included), and only complete lines when
   * the stream fails, so no partial line is ever yielded.
   */
  lemma {:induction false} DrainIsFilterMap(tok: LineParser, s: Stream, pos: nat)
    requires pos <= |s.data|
    ensures Drain(tok, s, pos) == Tokens(tok, Processed(s.end, Lines(s.data[pos..])))
    decreases |s.data| - pos
  {
    NextRecordYieldsFirstToken(tok, s, pos);
    match NextRecord(tok, s, pos)
    case Found(d, next) => DrainIsFilterMap(tok, s, next);
    case Ended(_) =>
  }

  /** Every domain a reader yields is in canonical form: valid, lower-case, without a trailing dot. */
  lemma {:induction false} DrainYieldsDomains(f: Format, s: Stream, pos: nat)
    requires pos <= |s.data|
    ensures forall k :: 0 <= k < |Drain(Parser(f), s, pos)| ==> IsDomain(Drain(Parser(f), s, pos)[k])
    decreases |s.data| - pos
  {
    var tok := Parser(f);
    match NextRecord(tok, s, pos)
    case Found(d, next) =>
      DrainYieldsDomains(f, s, next);
      TokenIsDomain(f, s, pos);
      DomainsCons(Drain(tok, s, pos), d, Drain(tok, s, next));
    case Ended(_) =>
  }

  /** A domain in front of domains gives domains. */
  lemma DomainsCons(ls: seq<string>, d: string, rest: seq<string>)
    requires ls == [d] + rest
    requires IsDomain(d) && forall k :: 0 <= k < |rest| ==> IsDomain(rest[k])
    ensures forall k :: 0 <= k < |ls| ==> IsDomain(ls[k])
  {
    forall k | 0 <= k < |ls| ensures IsDomain(ls[k]) {
      if k > 0 { assert ls[k] == rest[k - 1]; }
    }
  }

  /** Every yield is a normalized domain. */
  lemma TokenNormalized(f: Format, line: string)
    ensures Token(f, line).Some? ==> IsDomain(Token(f, line).value)
  {
    match f
    case Simple => SimpleTokenIsDomain(line);
    case IPSkipper => IPSkipperTokenIsDomain(line);
  }

  lemma SimpleTokenIsDomain(line: string)
    ensures SimpleToken(line).Some? ==> IsDomain(SimpleToken(line).value)
  {
    NormalizeIsDomain(TrimSpace(line));
  }

  lemma IPSkipperTokenIsDomain(line: string)
    ensures IPSkipperToken(line).Some? ==> IsDomain(IPSkipperToken(line).value)
  {
    var t := TrimSpace(line);
    if HasPrefix(t, HostsPrefix) && |TrimPrefix(t, HostsPrefix)| > 0 {
      NormalizeIsDomain(CutBefore(TrimPrefix(t, HostsPrefix), ' '));
    }
  }

  lemma {:induction false} TokenIsDomain(f: Format, s: Stream, pos: nat)
    requires pos <= |s.data|
    ensures NextRecord(Parser(f), s, pos).Found? ==> IsDomain(NextRecord(Parser(f), s, pos).domain)
    decreases |s.data| - pos
  {
    var c := ReadBytes(s, pos);
    if !(c.err.Some? && (c.err.value.Broken? || |c.line| == 0)) {
      TokenNormalized(f, c.line);
      if Token(f, c.line).None? {
        NextRecordSkips(Parser(f), s, pos);
        TokenIsDomain(f, s, c.next);
      }
    }
  }

  // ---------------------------------------------------------------------
  // Per-line properties

  /** The simple parser yields normalizeDomain of the line, unless the trimmed line is a comment or invalid. */
  lemma SimpleTokenMeaning(line: string)
    ensures SimpleToken(line) ==
              if HasPrefix(TrimSpace(line), SimpleBlacklistComment) || NormalizeDomain(line) == "" then None
              else Some(NormalizeDomain(line))
  {
    var t := TrimSpace(line);
    NormalizeOfTrimSpace(line);
    if |t| == 0 {
      EmptyNormalizesToEmpty(t);
    }
  }

  /** A last line without '\n' is treated exactly as if it had one. */
  lemma FinalNewlineIrrelevant(f: Format, line: string)
    ensures Token(f, line + "\n") == Token(f, line)
  {
    TrimSpaceAppendSpace(line, '\n');
    SameTrimSameToken(f, line + "\n", line);
  }

  /** A line's yield depends only on its trimmed text. */
  lemma SameTrimSameToken(f: Format, a: string, b: string)
    requires TrimSpace(a) == TrimSpace(b)
    ensures Token(f, a) == Token(f, b)
  {
  }

  /**
   * The IP-skipper yields a domain exactly when the trimmed line starts with
   * "0.0.0.0 ", the word after it (cut at the first ' ') is not one of the
   * reserved literals, and that word normalizes to a domain, which is yielded.
   */
  lemma IPSkipperTokenMeaning(line: string, d: string)
    ensures IPSkipperToken(line) == Some(d) <==>
              var t := TrimSpace(line);
              HasPrefix(t, HostsPrefix) &&
              var token := CutBefore(t[|HostsPrefix|..], ' ');
              token !in Localhosts && d != "" && NormalizeDomain(token) == d
  {
    var t := TrimSpace(line);
    if HasPrefix(t, HostsPrefix) && |t[|HostsPrefix|..]| == 0 {
      assert CutBefore(t[|HostsPrefix|..], ' ') == "";
      EmptyNormalizesToEmpty("");
    }
  }

  /** A word that is byte-equal to a reserved literal is never yielded. */
  lemma ReservedNeverYielded(line: string)
    requires var t := TrimSpace(line);
             HasPrefix(t, HostsPrefix) && CutBefore(t[|HostsPrefix|..], ' ') in Localhosts
    ensures IPSkipperToken(line) == None
  {
  }

  /** A line that does not start with "0.0.0.0 " after trimming yields nothing. */
  lemma UnprefixedYieldsNothing(line: string)
    requires !HasPrefix(TrimSpace(line), HostsPrefix)
    ensures IPSkipperToken(line) == None
  {
  }

  /** The reserved check compares bytes before normalization, so a reserved name with a trailing dot is yielded. */
  lemma ReservedWithDotIsYielded()
    ensures IPSkipperToken("0.0.0.0 127.0.0.1.") == Some("127.0.0.1")
  {
    var line := "0.0.0.0 127.0.0.1.";
    var rest := "127.0.0.1.";
    ReservedWithDotTrim(line, rest);
    ReservedWithDotCut(rest);
    ReservedWithDotNotReserved(rest);
    ReservedWithDotNormalize(rest);
  }

  lemma ReservedWithDotTrim(line: string, rest: string)
    requires line == "0.0.0.0 127.0.0.1." && rest == "127.0.0.1."
    ensures TrimSpace(line) == line && HasPrefix(line, HostsPrefix) && TrimPrefix(line, HostsPrefix) == rest
  {
    assert line[0] == '0' && line[|line| - 1] == '.';
    TrimSpaceOfTrimmed(line);
    ReservedWithDotPrefix(line, rest);
  }

  lemma ReservedWithDotPrefix(line: string, rest: string)
    requires line == "0.0.0.0 127.0.0.1." && rest == "127.0.0.1."
    ensures HasPrefix(line, HostsPrefix) && TrimPrefix(line, HostsPrefix) == rest
  {
    assert line[..8] == HostsPrefix;
    assert line[8..] == rest;
  }

  lemma ReservedWithDotCut(rest: string)
    requires rest == "127.0.0.1."
    ensures CutBefore(rest, ' ') == rest
  {
    assert forall i :: 0 <= i < |rest| ==> rest[i] != ' ';
  }

  lemma ReservedWithDotNotReserved(rest: string)
    requires rest == "127.0.0.1."
    ensures rest !in Localhosts
  {
    assert rest != Localhosts[0] by { assert |rest| != |Localhosts[0]|; }
    assert rest != Localhosts[1] by { assert |rest| != |Localhosts[1]|; }
    assert rest != Localhosts[2] by { assert |rest| != |Localhosts[2]|; }
    assert rest != Localhosts[3] by { assert |rest| != |Localhosts[3]|; }
    assert rest != Localhosts[4] by { assert |rest| != |Localhosts[4]|; }
  }

  lemma ReservedWithDotTrimSpace(rest: string)
    requires rest == "127.0.0.1."
    ensures TrimSpace(rest) == rest
  {
    assert rest[0] == '1' && rest[|rest| - 1] == '.';
    TrimSpaceOfTrimmed(rest);
  }

  lemma LoopbackLower(b: string)
    requires b == "127.0.0.1"
    ensures ToLower(b) == b
  {
    assert forall i :: 0 <= i < |b| ==> LowerChar(b[i]) == b[i];
  }

  lemma ReservedWithDotNormalize(rest: string)
    requires rest == "127.0.0.1."
    ensures NormalizeDomain(rest) == "127.0.0.1"
  {
    ReservedWithDotTrimSpace(rest);
    var body := "127.0.0.1";
    assert rest[..|rest| - 1] == body;
    assert StripFinalDot(rest) == body;
    DottedQuadsValid();
    NormalizeValid(rest);
    LoopbackLower(body);
  }

  // ---------------------------------------------------------------------
  // The readers

  /** Go's copy(dst, src): copies min(len(dst), len(src)) characters and returns that count. */
  method Copy(dst: array<char>, src: string) returns (n: nat)
    modifies dst
    ensures n == if |src| < dst.Length then |src| else dst.Length
    ensures dst[..n] == src[..n] && dst[n..] == old(dst[n..])
  {
    n := if |src| < dst.Length then |src| else dst.Length;
    forall i | 0 <= i < n {
      dst[i] := src[i];
    }
  }

  /**
   * What one Read call did: moved the cursor from `from` to `to`, turned the
   * buffer `before` into `after`, and returned (n, err).
   */
  ghost predicate Delivers(tok: LineParser, s: Stream, from: nat, before: seq<char>, after: seq<char>, to: nat,
                           n: nat, err: Option<ReadError>)
    requires from <= |s.data|
  {
    Hands(NextRecord(tok, s, from), |s.data|, before, after, to, n, err)
  }

  /** What a Read returns and leaves in the buffer for the outcome `r` of a stream of `size` bytes. */
  predicate Hands(r: Scan, size: nat, before: seq<char>, after: seq<char>, to: nat, n: nat, err: Option<ReadError>) {
    |after| == |before| &&
    match r
    case Ended(e) => to == size && n == 0 && err == Some(EndError(e)) && after == before
    case Found(d, next) =>
      to == next &&
      if |d| <= |before| then n == |d| && err == None && after[..n] == d && after[n..] == before[n..]
      else n == 0 && err == Some(ErrBufferTooSmall) && after == d[..|before|]
  }

  /** A Read that reaches the stream's end returns its error, leaves the buffer alone and ends at the end. */
  lemma DeliversEnded(tok: LineParser, s: Stream, from: nat, buf: seq<char>)
    requires from <= |s.data| && NextRecord(tok, s, from) == Ended(s.end)
    ensures Delivers(tok, s, from, buf, buf, |s.data|, 0, Some(EndError(s.end)))
  {
  }

  /** A Read that finds a domain returns its length, or ErrBufferTooSmall when the copy was cut short. */
  lemma DeliversFound(tok: LineParser, s: Stream, from: nat, before: seq<char>, after: seq<char>, d: string, next: nat, m: nat)
    requires from <= |s.data| && NextRecord(tok, s, from) == Found(d, next)
    requires m == (if |d| < |before| then |d| else |before|)
    requires |after| == |before| && after[..m] == d[..m] && after[m..] == before[m..]
    ensures m < |d| ==> Delivers(tok, s, from, before, after, next, 0, Some(ErrBufferTooSmall))
    ensures m == |d| ==> Delivers(tok, s, from, before, after, next, m, None)
  {
    HandsFound(d, next, |s.data|, before, after, m);
  }

  lemma HandsFound(d: string, next: nat, size: nat, before: seq<char>, after: seq<char>, m: nat)
    requires m == (if |d| < |before| then |d| else |before|)
    requires |after| == |before| && after[..m] == d[..m] && after[m..] == before[m..]
    ensures m < |d| ==> Hands(Found(d, next), size, before, after, next, 0, Some(ErrBufferTooSmall))
    ensures m == |d| ==> Hands(Found(d, next), size, before, after, next, m, None)
  {
    if m < |d| {
      assert after == after[..m];
    }
  }

  /**
   * One Read against Drain, for any buffer. When nothing is left to drain, the
   * Read reports the stream's end. Otherwise the Read consumes the first domain
   * left, and what remains to drain after it is the rest. It hands that domain
   * over when it fits the buffer, and it loses it with ErrBufferTooSmall when
   * it does not. So successive Reads yield exactly Drain as long as every
   * domain fits the buffer.
   */
  lemma ReadAdvancesDrain(tok: LineParser, s: Stream, from: nat, before: seq<char>, after: seq<char>, to: nat,
                          n: nat, err: Option<ReadError>)
    requires from <= |s.data| && Delivers(tok, s, from, before, after, to, n, err)
    ensures from <= to <= |s.data|
    ensures Drain(tok, s, from) == [] <==> err.Some? && err != Some(ErrBufferTooSmall)
    ensures Drain(tok, s, from) == [] ==> err == Some(EndError(s.end)) && to == |s.data|
    ensures Drain(tok, s, from) != [] ==> Drain(tok, s, to) == Drain(tok, s, from)[1..]
    ensures Drain(tok, s, from) != [] && |Drain(tok, s, from)[0]| <= |before| ==>
              err == None && n == |Drain(tok, s, from)[0]| && after[..n] == Drain(tok, s, from)[0]
    ensures Drain(tok, s, from) != [] && |Drain(tok, s, from)[0]| > |before| ==>
              err == Some(ErrBufferTooSmall) && n == 0
  {
    match NextRecord(tok, s, from)
    case Found(d, next) =>
      assert Drain(tok, s, from) == [d] + Drain(tok, s, next);
    case Ended(e) =>
  }

  /**
   * The per-line branches of SimpleParsedReader.Read: trim, skip blank and
   * comment lines, and normalize. None is each of the Go code's `continue`s.
   */
  method ParseSimpleLine(raw: string) returns (token: Option<string>)
    ensures token == SimpleToken(raw)
  {
    var line := TrimSpace(raw);
    if |line| == 0 {
      return None;
    }
    if HasPrefix(line, SimpleBlacklistComment) {
      return None;
    }
    var domain := NormalizeDomain(line);
    if domain == "" {
      return None;
    }
    return Some(domain);
  }

  /** A reader over a plain list: one domain per line, '#' starts a comment line. */
  class SimpleParsedReader {
    const input: Stream
    var pos: nat

    ghost predicate Valid()
      reads this
    {
      pos <= |input.data|
    }

    constructor (input: Stream)
      ensures Valid() && this.input == input && pos == 0
    {
      this.input := input;
      pos := 0;
    }

    method Read(p: array<char>) returns (n: nat, err: Option<ReadError>)
      requires Valid()
      modifies this, p
      ensures Valid() && old(pos) <= pos
      ensures Delivers(SimpleToken, input, old(pos), old(p[..]), p[..], pos, n, err)
    {
      while true
        invariant old(pos) <= pos <= |input.data|
        invariant NextRecord(SimpleToken, input, pos) == NextRecord(SimpleToken, input, old(pos))
        invariant p[..] == old(p[..])
        decreases |input.data| - pos
      {
        var start := pos;
        var chunk := ReadBytes(input, pos);
        pos := chunk.next;
        var line := chunk.line;
        if chunk.err.Some? && chunk.err.value.Broken? {
          NextRecordAtEnd(SimpleToken, input, start);
          DeliversEnded(SimpleToken, input, old(pos), p[..]);
          return 0, Some(EndError(chunk.err.value));
        }
        if chunk.err.Some? && |line| == 0 {
          NextRecordAtEnd(SimpleToken, input, start);
          DeliversEnded(SimpleToken, input, old(pos), p[..]);
          return 0, Some(EOF);
        }
        var token := ParseSimpleLine(line);
        if token.None? {
          NextRecordSkips(SimpleToken, input, start);
          continue;
        }
        var domain := token.value;
        NextRecordFinds(SimpleToken, input, start, domain);
        ghost var before := p[..];
        n := Copy(p, domain);
        DeliversFound(SimpleToken, input, old(pos), before, p[..], domain, pos, n);
        if n < |domain| {
          return 0, Some(ErrBufferTooSmall);
        }
        return n, None;
      }
    }
  }

  /** The scan of the reserved literals: does `token` equal one of them byte for byte? */
  method IsLocalhost(token: string) returns (reserved: bool)
    ensures reserved <==> token in Localhosts
  {
    var i := 0;
    while i < |Localhosts|
      invariant 0 <= i <= |Localhosts|
      invariant forall j :: 0 <= j < i ==> token != Localhosts[j]
    {
      if token == Localhosts[i] {
        return true;
      }
      i := i + 1;
    }
    return false;
  }

  /**
   * The per-line branches of IPSkipperReader.Read: trim, require the
   * "0.0.0.0 " prefix, cut the word after it, skip the reserved names and
   * normalize. None is each of the Go code's `continue`s.
   */
  method ParseHostsLine(raw: string) returns (token: Option<string>)
    ensures token == IPSkipperToken(raw)
  {
    var line := TrimSpace(raw);
    if !HasPrefix(line, HostsPrefix) {
      return None;
    }
    line := TrimPrefix(line, HostsPrefix);
    if |line| == 0 {
      return None;
    }
    line := CutBefore(line, ' ');
    var reserved := IsLocalhost(line);
    if reserved {
      return None;
    }
    var domain := NormalizeDomain(line);
    if domain == "" {
      return None;
    }
    return Some(domain);
  }

  /** A reader over a hosts-style list: only "0.0.0.0 <name>" lines count, reserved names are skipped. */
  class IPSkipperReader {
    const input: Stream
    var pos: nat

    ghost predicate Valid()
      reads this
    {
      pos <= |input.data|
    }

    constructor (input: Stream)
      ensures Valid() && this.input == input && pos == 0
    {
      this.input := input;
      pos := 0;
    }

    method Read(p: array<char>) returns (n: nat, err: Option<ReadError>)
      requires Valid()
      modifies this, p
      ensures Valid() && old(pos) <= pos
      ensures Delivers(IPSkipperToken, input, old(pos), old(p[..]), p[..], pos, n, err)
    {
      while true
        invariant old(pos) <= pos <= |input.data|
        invariant NextRecord(IPSkipperToken, input, pos) == NextRecord(IPSkipperToken, input, old(pos))
        invariant p[..] == old(p[..])
        decreases |input.data| - pos
      {
        var start := pos;
        var chunk := ReadBytes(input, pos);
        pos := chunk.next;
        var line := chunk.line;
        if chunk.err.Some? && chunk.err.value.Broken? {
          NextRecordAtEnd(IPSkipperToken, input, start);
          DeliversEnded(IPSkipperToken, input, old(pos), p[..]);
          return 0, Some(EndError(chunk.err.value));
        }
        if chunk.err.Some? && |line| == 0 {
          NextRecordAtEnd(IPSkipperToken, input, start);
          DeliversEnded(IPSkipperToken, input, old(pos), p[..]);
          return 0, Some(EOF);
        }
        var token := ParseHostsLine(line);
        if token.None? {
          NextRecordSkips(IPSkipperToken, input, start);
          continue;
        }
        var domain := token.value;
        NextRecordFinds(IPSkipperToken, input, start, domain);
        ghost var before := p[..];
        n := Copy(p, domain);
        DeliversFound(IPSkipperToken, input, old(pos), before, p[..], domain, pos, n);
        if n < |domain| {
          return 0, Some(ErrBufferTooSmall);
        }
        return n, None;
      }
    }
  }

  /** The reader NewParsedReader hands back, one case per parser. */
  datatype ParsedReader = SimpleParsed(simple: SimpleParsedReader) | IPSkipperParsed(ipSkipper: IPSkipperReader)

  /** NewParsedReader: "simple" and "ip_skipper" give a fresh reader over the stream, any other name an error. */
  method NewParsedReader(parserName: string, input: Stream) returns (r: Result<ParsedReader, string>)
    ensures parserName == Config.ParserSimple ==>
              r.Success? && r.value.SimpleParsed? && fresh(r.value.simple) &&
              r.value.simple.input == input && r.value.simple.pos == 0
    ensures parserName == Config.ParserIpSkipper ==>
              r.Success? && r.value.IPSkipperParsed? && fresh(r.value.ipSkipper) &&
              r.value.ipSkipper.input == input && r.value.ipSkipper.pos == 0
    ensures !Config.IsSupportedParser(parserName) ==> r == Failure("parser '" + parserName + "' not implemented")
  {
    if parserName == Config.ParserSimple {
      var reader := new SimpleParsedReader(input);
      r := Success(SimpleParsed(reader));
    } else if parserName == Config.ParserIpSkipper {
      var reader := new IPSkipperReader(input);
      r := Success(IPSkipperParsed(reader));
    } else {
      r := Failure("parser '" + parserName + "' not implemented");
    }
  }
}
