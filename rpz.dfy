/**
 * The RPZ zone-file writer (blacklist/rpz.go).
 *
 * The file and its bufio.Writer are one appended text, `output`. Whether an
 * underlying write or flush fails is decided by the environment and passed
 * in as a flag; like bufio.Writer, the writer then stays failed and every
 * later write and flush fails too. The ghost log `accepted` lists the hosts
 * whose record line was written, in order, and Valid() ties the output, the
 * counter and the dedup set to it.
 */
module Rpz {
  import opened Wrappers
  import opened Text

  const FlushRecordCount := 10
  const SendLine := "send\n"
  /** The text around the host in a record line. */
  const UpdatePrefix := "update add "
  const UpdateSuffix := ".bindholerpz CNAME .\n"

  /** The preamble NewRPZFile writes: server directive, TTL and zone. */
  function Header(server: string, port: int): string {
    "server " + server + " " + IntToDecimal(port) + "\nttl 600\nzone bindholerpz\n"
  }

  /** The record line for one host. */
  function UpdateLine(host: string): string {
    UpdatePrefix + host + UpdateSuffix
  }

  /** Whether the record written when `count` records precede it is followed by a send line. */
  predicate SendsAfter(count: nat) {
    count % FlushRecordCount == 0 && count != 0
  }

  /** The text written for the host accepted when `count` records preceded it. */
  function EntryText(host: string, count: nat): string {
    UpdateLine(host) + (if SendsAfter(count) then SendLine else "")
  }

  lemma EntryTextCases(host: string, count: nat)
    ensures EntryText(host, count) == if SendsAfter(count) then UpdateLine(host) + SendLine else UpdateLine(host)
  {
    if !SendsAfter(count) {
      assert UpdateLine(host) + "" == UpdateLine(host);
    }
  }

  /** The same text, line by line. */
  function EntryLines(host: string, count: nat): seq<string> {
    [UpdateLine(host)] + (if SendsAfter(count) then [SendLine] else [])
  }

  /** The lines written for a sequence of accepted hosts, after the header. */
  function RecordLines(hosts: seq<string>): seq<string> {
    if hosts == [] then []
    else RecordLines(hosts[..|hosts| - 1]) + EntryLines(hosts[|hosts| - 1], |hosts| - 1)
  }

  /** The same record text as one string: Concat(RecordLines(hosts)) (RecordTextIsConcat). */
  function RecordText(hosts: seq<string>): string {
    if hosts == [] then ""
    else RecordText(hosts[..|hosts| - 1]) + EntryText(hosts[|hosts| - 1], |hosts| - 1)
  }

  /** No host occurs twice: each one is absent from the hosts before it (DistinctPairwise). */
  predicate Distinct(hosts: seq<string>) {
    hosts == [] || (Distinct(hosts[..|hosts| - 1]) && hosts[|hosts| - 1] !in hosts[..|hosts| - 1])
  }

  /** The log after submitting `host`: unchanged when it was seen before, otherwise extended. */
  function Accept(accepted: seq<string>, host: string): seq<string> {
    if host in accepted then accepted else accepted + [host]
  }

  /** The log after submitting `hosts` in order, as a run does across all its sources. */
  function AcceptAll(accepted: seq<string>, hosts: seq<string>): seq<string>
    decreases |hosts|
  {
    if hosts == [] then accepted else AcceptAll(Accept(accepted, hosts[0]), hosts[1..])
  }

  /** The number of occurrences of `x`. */
  function Count(lines: seq<string>, x: string): nat {
    if lines == [] then 0 else (if lines[0] == x then 1 else 0) + Count(lines[1..], x)
  }

  /**
   * The writer's invariant on values: the output is the header followed by
   * the record lines of the accepted hosts, one record per accepted host,
   * no host accepted twice, every accepted host in the set and, while no
   * write has failed, every host of the set accepted.
   */
  ghost predicate Consistent(header: string, output: string, seen: set<string>, count: nat,
                             failed: bool, accepted: seq<string>)
  {
    output == header + RecordText(accepted) &&
    count == |accepted| &&
    Distinct(accepted) &&
    (forall h :: h in accepted ==> h in seen) &&
    (!failed ==> forall h :: h in seen ==> h in accepted)
  }

  datatype RpzError =
    | CouldNotOpen(path: string, reason: string)
    | HeaderWriteFailed
    | ErrWritingToFile(host: string)
    | LastSendFlushFailed
    | FlushFailed
    | CloseFailed

  class RPZFile {
    /** Everything written through the buffered writer, header first. */
    var output: string
    var blacklistSet: set<string>
    var recordCount: nat
    /** The sticky error of bufio.Writer: once a write or flush failed, all later ones fail. */
    var failed: bool
    ghost const header: string
    ghost var accepted: seq<string>

    ghost predicate Valid()
      reads this
    {
      Consistent(header, output, blacklistSet, recordCount, failed, accepted)
    }

    constructor (server: string, port: int)
      ensures Valid()
      ensures output == Header(server, port) && header == output
      ensures blacklistSet == {} && recordCount == 0 && !failed && accepted == []
    {
      header := Header(server, port);
      output := Header(server, port);
      blacklistSet := {};
      recordCount := 0;
      failed := false;
      accepted := [];
    }

    /** bufio.Writer.WriteString: appends `s`, unless the writer has failed or this write fails. */
    method WriteString(s: string, fails: bool) returns (ok: bool)
      modifies this
      ensures ok == !(old(failed) || fails) && failed == !ok
      ensures output == if ok then old(output) + s else old(output)
      ensures blacklistSet == old(blacklistSet) && recordCount == old(recordCount) && accepted == old(accepted)
    {
      ok := !(failed || fails);
      if ok {
        output := output + s;
      } else {
        failed := true;
      }
    }

    /** bufio.Writer.Flush: only reports whether the buffered text reached the file. */
    method Flush(fails: bool) returns (ok: bool)
      modifies this
      ensures ok == !(old(failed) || fails) && failed == !ok
      ensures output == old(output) && blacklistSet == old(blacklistSet)
      ensures recordCount == old(recordCount) && accepted == old(accepted)
    {
      ok := !(failed || fails);
      failed := !ok;
    }

    /**
     * BlacklistHost: a host seen before is skipped with no error. A new host
     * joins the set first; then its record line (followed by "send\n" when
     * a positive multiple of 10 records precede it) is written, and only a
     * successful write increments the counter.
     */
    method BlacklistHost(host: string, writeFails: bool) returns (err: Option<RpzError>)
      requires Valid()
      modifies this
      ensures Valid()
      ensures old(host in blacklistSet) ==>
                err == None && output == old(output) && blacklistSet == old(blacklistSet) &&
                recordCount == old(recordCount) && failed == old(failed) && accepted == old(accepted)
      ensures !old(host in blacklistSet) ==> blacklistSet == old(blacklistSet) + {host}
      ensures !old(host in blacklistSet) && (old(failed) || writeFails) ==>
                err == Some(ErrWritingToFile(host)) && failed &&
                output == old(output) && recordCount == old(recordCount) && accepted == old(accepted)
      ensures !old(host in blacklistSet) && !(old(failed) || writeFails) ==>
                err == None && !failed && recordCount == old(recordCount) + 1 &&
                output == old(output) + EntryText(host, old(recordCount)) &&
                accepted == old(accepted) + [host]
      ensures !old(failed) && !writeFails ==> accepted == Accept(old(accepted), host)
      ensures !failed ==> recordCount == |blacklistSet|
    {
      if host in blacklistSet {
        if !failed {
          CounterIsSetSize(header, output, blacklistSet, recordCount, accepted);
        }
        return None;
      }
      err := AddHost(host, writeFails);
      if failed {
        ConsistentAfterFailure(header, old(output), old(blacklistSet), old(recordCount), old(failed), old(accepted), host);
      } else {
        ConsistentAfterAccept(header, old(output), old(blacklistSet), old(accepted), host,
                              output, blacklistSet, recordCount, accepted);
        CounterIsSetSize(header, output, blacklistSet, recordCount, accepted);
      }
    }

    /**
     * The part of BlacklistHost after the dedup check: adds the host to the
     * set and writes its entry; on success the counter and the log advance.
     */
    method AddHost(host: string, writeFails: bool) returns (err: Option<RpzError>)
      modifies this
      ensures blacklistSet == old(blacklistSet) + {host}
      ensures (old(failed) || writeFails) ==>
                err == Some(ErrWritingToFile(host)) && failed &&
                output == old(output) && recordCount == old(recordCount) && accepted == old(accepted)
      ensures !(old(failed) || writeFails) ==>
                err == None && !failed && recordCount == old(recordCount) + 1 &&
                output == old(output) + EntryText(host, old(recordCount)) &&
                accepted == old(accepted) + [host]
    {
      blacklistSet := blacklistSet + {host};
      var baseHostLine := UpdateLine(host);
      if SendsAfter(recordCount) {
        baseHostLine := baseHostLine + SendLine;
      }
      EntryTextCases(host, recordCount);
      var ok := WriteString(baseHostLine, writeFails);
      if !ok {
        return Some(ErrWritingToFile(host));
      }
      accepted := accepted + [host];
      recordCount := recordCount + 1;
      return None;
    }

    /**
     * Close: flushes (a first time when the count is a positive multiple of
     * 10, as the Go code does, and then again) and closes the file. It writes
     * no text of its own.
     */
    method Close(flushFails: bool, closeFails: bool) returns (err: Option<RpzError>)
      requires Valid()
      modifies this
      ensures Valid()
      ensures output == old(output) && blacklistSet == old(blacklistSet)
      ensures recordCount == old(recordCount) && accepted == old(accepted)
      ensures failed == (old(failed) || flushFails)
      ensures err == if old(failed) || flushFails then Some(if SendsAfter(recordCount) then LastSendFlushFailed else FlushFailed)
                     else if closeFails then Some(CloseFailed) else None
    {
      if recordCount % FlushRecordCount == 0 && recordCount != 0 {
        var ok := Flush(flushFails);
        if !ok {
          return Some(LastSendFlushFailed);
        }
      }
      var ok := Flush(flushFails);
      if !ok {
        return Some(FlushFailed);
      }
      if closeFails {
        return Some(CloseFailed);
      }
      return None;
    }
  }

  /**
   * NewRPZFile: a fresh writer holding just the header, or the error of
   * opening the file, or the error of writing the header.
   */
  method NewRPZFile(outputPath: string, server: string, port: int, openError: Option<string>, headerWriteFails: bool)
    returns (r: Result<RPZFile, RpzError>)
    ensures openError.Some? ==> r == Failure(CouldNotOpen(outputPath, openError.value))
    ensures openError.None? && headerWriteFails ==> r == Failure(HeaderWriteFailed)
    ensures openError.None? && !headerWriteFails ==>
              r.Success? && fresh(r.value) && r.value.Valid() &&
              r.value.output == "server " + server + " " + IntToDecimal(port) + "\nttl 600\nzone bindholerpz\n" &&
              r.value.blacklistSet == {} && r.value.recordCount == 0 && !r.value.failed
  {
    if openError.Some? {
      return Failure(CouldNotOpen(outputPath, openError.value));
    }
    if headerWriteFails {
      return Failure(HeaderWriteFailed);
    }
    var file := new RPZFile(server, port);
    return Success(file);
  }

  // ---------------------------------------------------------------------
  // Lemmas about the written lines

  lemma ConcatEntry(host: string, count: nat)
    ensures Concat(EntryLines(host, count)) == EntryText(host, count)
  {
    var e := EntryLines(host, count);
    if SendsAfter(count) {
      assert e == [UpdateLine(host), SendLine];
      assert e[1..] == [SendLine] && e[1..][1..] == [];
      assert Concat(e[1..]) == SendLine + "";
    } else {
      assert e == [UpdateLine(host)];
      assert e[1..] == [];
      assert Concat(e) == UpdateLine(host) + "";
    }
  }

  /** Appending the entry of the next host keeps the output equal to header plus all record text. */
  lemma OutputAfterAccept(header: string, accepted: seq<string>, host: string)
    ensures header + RecordText(accepted) + EntryText(host, |accepted|)
            == header + RecordText(accepted + [host])
  {
    assert (accepted + [host])[..|accepted|] == accepted;
    AppendAssociative(header, RecordText(accepted), EntryText(host, |accepted|));
  }

  /** The record text is the concatenation of the record lines. */
  lemma {:induction false} RecordTextIsConcat(hosts: seq<string>)
    ensures RecordText(hosts) == Concat(RecordLines(hosts))
    decreases |hosts|
  {
    if hosts != [] {
      var n := |hosts| - 1;
      var init := hosts[..n];
      RecordTextIsConcat(init);
      ConcatAppend(RecordLines(init), EntryLines(hosts[n], n));
      ConcatEntry(hosts[n], n);
    }
  }

  /** A host new to the set extends the log, which stays duplicate-free and matches the set. */
  lemma LogAfterAccept(accepted: seq<string>, seen: set<string>, host: string)
    requires Distinct(accepted) && host !in seen
    requires forall h :: h in seen <==> h in accepted
    ensures Distinct(accepted + [host])
    ensures forall h :: h in seen + {host} <==> h in accepted + [host]
  {
    DistinctSnoc(accepted, host);
  }

  /** A host not yet in a duplicate-free log can be appended to it. */
  lemma DistinctSnoc(accepted: seq<string>, host: string)
    requires Distinct(accepted) && host !in accepted
    ensures Distinct(accepted + [host])
  {
    assert (accepted + [host])[..|accepted|] == accepted;
  }

  /** Writing the entry of a new host, with no write failed, keeps the writer consistent. */
  lemma ConsistentAfterAccept(header: string, output: string, seen: set<string>, accepted: seq<string>, host: string,
                              output': string, seen': set<string>, count': nat, accepted': seq<string>)
    requires Consistent(header, output, seen, |accepted|, false, accepted) && host !in seen
    requires output' == output + EntryText(host, |accepted|) && seen' == seen + {host}
    requires count' == |accepted| + 1 && accepted' == accepted + [host]
    ensures Consistent(header, output', seen', count', false, accepted')
  {
    OutputAfterAccept(header, accepted, host);
    LogAfterAccept(accepted, seen, host);
  }

  /** A failed write adds the host to the set only; the writer stays consistent, now failed. */
  lemma ConsistentAfterFailure(header: string, output: string, seen: set<string>, count: nat,
                               failed: bool, accepted: seq<string>, host: string)
    requires Consistent(header, output, seen, count, failed, accepted)
    ensures Consistent(header, output, seen + {host}, count, true, accepted)
  {
  }

  /** How often `x` occurs among the lines of one entry. */
  lemma CountEntry(host: string, count: nat, x: string)
    ensures Count(EntryLines(host, count), x) ==
            (if UpdateLine(host) == x then 1 else 0) + (if SendsAfter(count) && SendLine == x then 1 else 0)
  {
    var e := EntryLines(host, count);
    assert e[0] == UpdateLine(host);
    if SendsAfter(count) {
      assert e[1..] == [SendLine] && e[1..][1..] == [];
      assert Count(e[1..], x) == (if SendLine == x then 1 else 0) + Count(e[1..][1..], x);
    } else {
      assert e[1..] == [];
    }
  }

  lemma {:induction false} CountAppend(a: seq<string>, b: seq<string>, x: string)
    ensures Count(a + b, x) == Count(a, x) + Count(b, x)
    decreases |a|
  {
    if a == [] {
      assert a + b == b;
    } else {
      CountAppend(a[1..], b, x);
      assert (a + b)[1..] == a[1..] + b;
    }
  }

  /** Distinct hosts have distinct record lines, and no record line is a send line. */
  lemma UpdateLineInjective(a: string, b: string)
    ensures UpdateLine(a) == UpdateLine(b) ==> a == b
    ensures UpdateLine(a) != SendLine
  {
    if UpdateLine(a) == UpdateLine(b) {
      assert |a| == |b|;
      assert a == UpdateLine(a)[11..11 + |a|];
      assert b == UpdateLine(b)[11..11 + |b|];
    }
    assert UpdateLine(a)[0] == 'u';
  }

  /** n accepted hosts produce floor((n-1)/10) send lines: one after records 11, 21, 31, ... */
  lemma {:induction false} SendLineCount(hosts: seq<string>)
    ensures Count(RecordLines(hosts), SendLine) == if hosts == [] then 0 else (|hosts| - 1) / FlushRecordCount
    decreases |hosts|
  {
    if hosts != [] {
      var n := |hosts| - 1;
      var init := hosts[..n];
      SendLineCount(init);
      CountAppend(RecordLines(init), EntryLines(hosts[n], n), SendLine);
      UpdateLineInjective(hosts[n], hosts[n]);
      CountEntry(hosts[n], n, SendLine);
    }
  }

  /** For 25 accepted hosts, exactly two send lines. */
  lemma TwentyFiveRecordsTwoSends(hosts: seq<string>)
    requires |hosts| == 25
    ensures Count(RecordLines(hosts), SendLine) == 2
  {
    SendLineCount(hosts);
  }

  /** With distinct accepted hosts, each has exactly one record line and no other host has any. */
  lemma {:induction false} OneUpdateLinePerHost(hosts: seq<string>, h: string)
    requires Distinct(hosts)
    ensures Count(RecordLines(hosts), UpdateLine(h)) == if h in hosts then 1 else 0
    decreases |hosts|
  {
    if hosts != [] {
      var n := |hosts| - 1;
      var init := hosts[..n];
      assert Distinct(init);
      OneUpdateLinePerHost(init, h);
      CountAppend(RecordLines(init), EntryLines(hosts[n], n), UpdateLine(h));
      UpdateLineInjective(hosts[n], h);
      UpdateLineInjective(h, h);
      CountEntry(hosts[n], n, UpdateLine(h));
      assert h in hosts <==> h in init || h == hosts[n] by {
        assert hosts == init + [hosts[n]];
      }
      assert h == hosts[n] ==> h !in init;
    }
  }

  /** Distinct means that no two positions hold the same host. */
  lemma {:induction false} DistinctPairwise(hosts: seq<string>)
    ensures Distinct(hosts) <==> forall i, j :: 0 <= i < j < |hosts| ==> hosts[i] != hosts[j]
    decreases |hosts|
  {
    if hosts != [] {
      var n := |hosts| - 1;
      var init := hosts[..n];
      DistinctPairwise(init);
      if Distinct(hosts) {
        forall i, j | 0 <= i < j < |hosts| ensures hosts[i] != hosts[j] {
          if j == n {
            assert hosts[i] == init[i];
          } else {
            assert hosts[i] == init[i] && hosts[j] == init[j];
          }
        }
      } else if hosts[n] in init {
        var i :| 0 <= i < n && init[i] == hosts[n];
        assert hosts[i] == hosts[n];
      } else {
        var i, j :| 0 <= i < j < n && init[i] == init[j];
        assert hosts[i] == hosts[j];
      }
    }
  }

  /** A duplicate-free log has as many distinct hosts as entries. */
  lemma {:induction false} DistinctCard(hosts: seq<string>)
    requires Distinct(hosts)
    ensures |set h | h in hosts| == |hosts|
    decreases |hosts|
  {
    if hosts != [] {
      var n := |hosts| - 1;
      var init := hosts[..n];
      DistinctCard(init);
      assert hosts == init + [hosts[n]];
      assert (set h | h in hosts) == (set h | h in init) + {hosts[n]};
    }
  }

  /** While no write has failed, the record counter is the size of the dedup set. */
  lemma CounterIsSetSize(header: string, output: string, seen: set<string>, count: nat, accepted: seq<string>)
    requires Consistent(header, output, seen, count, false, accepted)
    ensures count == |seen|
  {
    DistinctCard(accepted);
    assert seen == set h | h in accepted;
  }

  /** One submission keeps the log duplicate-free, extends it at the end, and adds just the host. */
  lemma AcceptSpec(accepted: seq<string>, host: string)
    requires Distinct(accepted)
    ensures Distinct(Accept(accepted, host))
    ensures |accepted| <= |Accept(accepted, host)| && Accept(accepted, host)[..|accepted|] == accepted
    ensures forall h :: h in Accept(accepted, host) <==> h in accepted || h == host
  {
    if host !in accepted {
      DistinctSnoc(accepted, host);
      assert (accepted + [host])[..|accepted|] == accepted;
    }
  }

  /** Accepting submissions keeps the log duplicate-free, never reorders it, and holds exactly the hosts seen. */
  lemma {:induction false} AcceptAllSpec(accepted: seq<string>, hosts: seq<string>)
    requires Distinct(accepted)
    ensures Distinct(AcceptAll(accepted, hosts))
    ensures |accepted| <= |AcceptAll(accepted, hosts)| && AcceptAll(accepted, hosts)[..|accepted|] == accepted
    ensures forall h :: h in AcceptAll(accepted, hosts) <==> h in accepted || h in hosts
    decreases |hosts|
  {
    if hosts != [] {
      var next := Accept(accepted, hosts[0]);
      var all := AcceptAll(accepted, hosts);
      AcceptSpec(accepted, hosts[0]);
      AcceptAllSpec(next, hosts[1..]);
      assert all == AcceptAll(next, hosts[1..]);
      PrefixOfPrefix(accepted, next, all);
      MembersCons(hosts);
    }
  }

  lemma PrefixOfPrefix(a: seq<string>, b: seq<string>, c: seq<string>)
    requires |a| <= |b| <= |c| && b[..|a|] == a && c[..|b|] == b
    ensures c[..|a|] == a
  {
    assert c[..|a|] == c[..|b|][..|a|];
  }

  lemma MembersCons(hosts: seq<string>)
    requires hosts != []
    ensures forall h :: h in hosts <==> h == hosts[0] || h in hosts[1..]
  {
    assert hosts == [hosts[0]] + hosts[1..];
  }

  /** Submitting a host that was already accepted changes nothing, so a repeat never adds a line. */
  lemma {:induction false} AcceptAllRepeat(accepted: seq<string>, hosts: seq<string>, h: string)
    requires h in accepted
    ensures AcceptAll(accepted, hosts + [h]) == AcceptAll(accepted, hosts)
    decreases |hosts|
  {
    if hosts == [] {
      assert [h][1..] == [];
    } else {
      assert (hosts + [h])[0] == hosts[0] && (hosts + [h])[1..] == hosts[1..] + [h];
      AcceptAllRepeat(Accept(accepted, hosts[0]), hosts[1..], h);
    }
  }

  /** Submitting one source after another is submitting their concatenation, as one run does across sources. */
  lemma {:induction false} AcceptAllAppend(accepted: seq<string>, a: seq<string>, b: seq<string>)
    ensures AcceptAll(accepted, a + b) == AcceptAll(AcceptAll(accepted, a), b)
    decreases |a|
  {
    if a == [] {
      assert a + b == b;
    } else {
      assert (a + b)[0] == a[0] && (a + b)[1..] == a[1..] + b;
      AcceptAllAppend(Accept(accepted, a[0]), a[1..], b);
    }
  }
}
