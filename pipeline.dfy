/**
 * Reading a blacklist source with one of the readers and submitting every
 * domain it delivers to a fresh zone file: what the zone file then holds,
 * when every domain fits the caller's buffer and no write fails. A longer
 * domain makes Read return ErrBufferTooSmall (ReadAdvancesDrain), and a
 * failed write makes BlacklistHost return ErrWritingToFile; the driving
 * program stops at either, which this module does not describe.
 */
module Pipeline {
  import opened Wrappers
  import opened Text
  import opened Domain
  import opened Reader
  import opened Rpz

  /**
   * The hosts whose record lines a fresh zone file holds after all domains of
   * `s` were submitted, when every domain fits the caller's buffer and no
   * write fails.
   */
  function Written(f: Format, s: Stream): seq<string> {
    AcceptAll([], Drain(Parser(f), s, 0))
  }

  /** The domains of the processed lines of a source, in order, duplicates included. */
  function SourceDomains(f: Format, s: Stream): seq<string> {
    Tokens(Parser(f), Processed(s.end, Lines(s.data)))
  }

  lemma DrainFromStart(f: Format, s: Stream)
    ensures Drain(Parser(f), s, 0) == SourceDomains(f, s)
  {
    DrainIsFilterMap(Parser(f), s, 0);
    assert s.data[0..] == s.data;
  }

  /** Every domain of the source gets exactly one record line, and nothing else gets one. */
  lemma OneRecordPerSourceDomain(f: Format, s: Stream, h: string)
    ensures Count(RecordLines(Written(f, s)), UpdateLine(h)) == if h in SourceDomains(f, s) then 1 else 0
  {
    DrainFromStart(f, s);
    AcceptAllSpec([], Drain(Parser(f), s, 0));
    OneUpdateLinePerHost(Written(f, s), h);
  }

  /** Every host of the zone file is a normalized valid domain. */
  lemma WrittenHostsAreDomains(f: Format, s: Stream)
    ensures forall h :: h in Written(f, s) ==> IsDomain(h)
  {
    DrainYieldsDomains(f, s, 0);
    AcceptAllSpec([], Drain(Parser(f), s, 0));
    forall h | h in Written(f, s) ensures IsDomain(h) {
      var k :| 0 <= k < |Drain(Parser(f), s, 0)| && Drain(Parser(f), s, 0)[k] == h;
    }
  }

  lemma TwiceLines(line: string, end: StreamEnd)
    requires IsLine(line)
    ensures Processed(end, Lines(line + line)) == [line, line]
  {
    var lines := [line, line];
    assert lines[1..] == [line] && lines[1..][1..] == [];
    assert Concat(lines) == line + line by {
      assert Concat(lines[1..]) == line + "";
    }
    LinesOfConcat(lines);
    ProcessedComplete(end, lines);
  }

  lemma TokensSingle(tok: LineParser, b: string)
    ensures Tokens(tok, [b]) == Yield(tok, b)
  {
    TokensCons(tok, b, []);
    assert [b] + [] == [b];
  }

  lemma TokensPair(tok: LineParser, a: string, b: string)
    ensures Tokens(tok, [a, b]) == Yield(tok, a) + Yield(tok, b)
  {
    TokensSingle(tok, b);
    TokensCons(tok, a, [b]);
    assert [a] + [b] == [a, b];
  }

  lemma YieldOfToken(tok: LineParser, line: string, d: string)
    requires tok(line) == Some(d)
    ensures Yield(tok, line) == [d]
  {
  }

  lemma TwiceTokens(tok: LineParser, line: string, d: string)
    requires tok(line) == Some(d)
    ensures Tokens(tok, [line, line]) == [d, d]
  {
    TokensPair(tok, line, line);
    YieldOfToken(tok, line, d);
    assert [d] + [d] == [d, d];
  }

  lemma TwiceSourceDomains(f: Format, line: string, d: string, end: StreamEnd)
    requires IsLine(line) && Token(f, line) == Some(d)
    ensures SourceDomains(f, Stream(line + line, end)) == [d, d]
  {
    TwiceLines(line, end);
    TwiceTokens(Parser(f), line, d);
  }

  lemma AcceptTwice(d: string)
    ensures AcceptAll([], [d, d]) == [d]
  {
    var once: seq<string> := [d];
    assert [d, d][0] == d && [d, d][1..] == once && once[1..] == [];
    assert Accept([], d) == once;
    assert Accept(once, d) == once;
    assert AcceptAll([], [d, d]) == AcceptAll(once, once);
    assert AcceptAll(once, once) == AcceptAll(once, []);
  }

  /** The same blacklisted line twice in a source yields one record line, whatever follows the source. */
  lemma RepeatedLineWrittenOnce(f: Format, line: string, d: string, end: StreamEnd)
    requires IsLine(line) && Token(f, line) == Some(d)
    ensures Written(f, Stream(line + line, end)) == [d]
    ensures Count(RecordLines(Written(f, Stream(line + line, end))), UpdateLine(d)) == 1
  {
    TwiceSourceDomains(f, line, d, end);
    DrainFromStart(f, Stream(line + line, end));
    AcceptTwice(d);
    OneUpdateLinePerHost([d], d);
  }
}
