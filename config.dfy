/**
 * Blocklist source configuration (blacklist/config.go): the recognized parser
 * names, the filter that drops unusable sources, and the default path of the
 * configuration file. url.ParseRequestURI is a parameter (`parse`), and the
 * environment variables are given as values.
 */
module Config {
  import opened Wrappers
  import opened Text

  const ParserSimple := "simple"
  const ParserIpSkipper := "ip_skipper"

  /** A source as the configuration file lists it. */
  datatype RawBlacklist = RawBlacklist(url: string, reason: string, source: string, parser: string)

  /** A usable source: its URL parsed into a value of type U. */
  datatype ParsedBlacklist<U> = ParsedBlacklist(url: U, reason: string, source: string, parser: string)

  predicate IsSupportedParser(parser: string) {
    parser == ParserSimple || parser == ParserIpSkipper
  }

  /** What the filter makes of one entry: the parsed source, or None when it is skipped. */
  function Admit<U>(raw: RawBlacklist, parse: string -> Option<U>): (r: Option<ParsedBlacklist<U>>)
    ensures r.Some? <==> parse(raw.url).Some? && IsSupportedParser(raw.parser)
    ensures r.Some? ==> r.value == ParsedBlacklist(parse(raw.url).value, raw.reason, raw.source, raw.parser)
  {
    match parse(raw.url)
    case None => None
    case Some(url) =>
      if !IsSupportedParser(raw.parser) then None
      else Some(ParsedBlacklist(url, raw.reason, raw.source, raw.parser))
  }

  /** What one entry contributes: its admitted form, or nothing. */
  function Kept<U>(raw: RawBlacklist, parse: string -> Option<U>): seq<ParsedBlacklist<U>> {
    match Admit(raw, parse)
    case Some(b) => [b]
    case None => []
  }

  /** The admitted entries, in input order. */
  function ValidBlacklists<U>(raws: seq<RawBlacklist>, parse: string -> Option<U>): (bs: seq<ParsedBlacklist<U>>)
    ensures forall k :: 0 <= k < |bs| ==> IsSupportedParser(bs[k].parser)
  {
    if raws == [] then [] else Kept(raws[0], parse) + ValidBlacklists(raws[1..], parse)
  }

  lemma ValidBlacklistsStep<U>(raws: seq<RawBlacklist>, parse: string -> Option<U>)
    requires raws != []
    ensures ValidBlacklists(raws, parse) == Kept(raws[0], parse) + ValidBlacklists(raws[1..], parse)
  {
  }

  /** ValidBlacklistsStep with the first entry and the rest given by name. */
  lemma ValidBlacklistsCons<U>(raws: seq<RawBlacklist>, x: RawBlacklist, rest: seq<RawBlacklist>, parse: string -> Option<U>)
    requires raws == [x] + rest
    ensures ValidBlacklists(raws, parse) == Kept(x, parse) + ValidBlacklists(rest, parse)
  {
    assert raws[0] == x && raws[1..] == rest;
  }

  lemma ConsAppend<T>(a: seq<T>, b: seq<T>, x: T, rest: seq<T>)
    requires a != [] && x == a[0] && rest == a[1..]
    ensures a == [x] + rest && a + b == [x] + (rest + b)
  {
  }

  /** The filter is order-preserving: filtering a concatenation filters each part. */
  lemma {:induction false} ValidBlacklistsAppend<U>(a: seq<RawBlacklist>, b: seq<RawBlacklist>, parse: string -> Option<U>)
    ensures ValidBlacklists(a + b, parse) == ValidBlacklists(a, parse) + ValidBlacklists(b, parse)
    decreases |a|
  {
    if a == [] {
      assert a + b == b;
    } else {
      var x, rest := a[0], a[1..];
      ValidBlacklistsAppend(rest, b, parse);
      ConsAppend(a, b, x, rest);
      ValidBlacklistsCons(a + b, x, rest + b, parse);
      ValidBlacklistsCons(a, x, rest, parse);
      AppendAssociative(Kept(x, parse), ValidBlacklists(rest, parse), ValidBlacklists(b, parse));
    }
  }

  /** The filter never lengthens the list, and keeps every entry when all are valid, field for field. */
  lemma {:induction false} ValidBlacklistsLength<U>(raws: seq<RawBlacklist>, parse: string -> Option<U>)
    ensures |ValidBlacklists(raws, parse)| <= |raws|
    ensures (forall i :: 0 <= i < |raws| ==> Admit(raws[i], parse).Some?) ==>
              |ValidBlacklists(raws, parse)| == |raws| &&
              forall i :: 0 <= i < |raws| ==> ValidBlacklists(raws, parse)[i] == Admit(raws[i], parse).value
  {
    if raws != [] {
      ValidBlacklistsLength(raws[1..], parse);
      if forall i :: 0 <= i < |raws| ==> Admit(raws[i], parse).Some? {
        assert forall i :: 0 <= i < |raws| - 1 ==> raws[1..][i] == raws[i + 1];
        var r := ValidBlacklists(raws, parse);
        assert r == [Admit(raws[0], parse).value] + ValidBlacklists(raws[1..], parse);
      }
    }
  }

  /** An entry is kept exactly when its URL parses and its parser is supported. */
  lemma {:induction false} ValidBlacklistsMembers<U>(raws: seq<RawBlacklist>, parse: string -> Option<U>, b: ParsedBlacklist<U>)
    ensures b in ValidBlacklists(raws, parse) <==> exists i :: 0 <= i < |raws| && Admit(raws[i], parse) == Some(b)
  {
    if raws != [] {
      ValidBlacklistsMembers(raws[1..], parse, b);
      if exists i :: 0 <= i < |raws| && Admit(raws[i], parse) == Some(b) {
        var i :| 0 <= i < |raws| && Admit(raws[i], parse) == Some(b);
        if i > 0 { assert raws[1..][i - 1] == raws[i]; }
      }
      if exists i :: 0 <= i < |raws| - 1 && Admit(raws[1..][i], parse) == Some(b) {
        var i :| 0 <= i < |raws| - 1 && Admit(raws[1..][i], parse) == Some(b);
        assert raws[i + 1] == raws[1..][i];
      }
    }
  }

  /** filterMapInvalidBlacklists: the loop that appends each admitted entry. */
  method FilterMapInvalidBlacklists<U>(rawBlacklists: seq<RawBlacklist>, parse: string -> Option<U>)
    returns (blacklists: seq<ParsedBlacklist<U>>)
    ensures blacklists == ValidBlacklists(rawBlacklists, parse)
  {
    blacklists := [];
    for i := 0 to |rawBlacklists|
      invariant blacklists == ValidBlacklists(rawBlacklists[..i], parse)
    {
      var raw := rawBlacklists[i];
      ValidBlacklistsAppend(rawBlacklists[..i], [raw], parse);
      assert rawBlacklists[..i + 1] == rawBlacklists[..i] + [raw];
      assert [raw][1..] == [];
      var url := parse(raw.url);
      if url.None? {
        continue;
      }
      if raw.parser != ParserSimple && raw.parser != ParserIpSkipper {
        continue;
      }
      blacklists := blacklists + [ParsedBlacklist(url.value, raw.reason, raw.source, raw.parser)];
    }
    assert rawBlacklists[..|rawBlacklists|] == rawBlacklists;
  }

  /** The error GetBlacklistConfigPath reports: no configuration home. */
  datatype ConfigError = NoConfigHome

  const ConfigFileSuffix := "/bindhole/blacklists.toml"

  /** XDG_CONFIG_HOME when the variable is set (even to ""), otherwise the value of $HOME ("" when unset). */
  function ConfigHome(xdgConfigHome: Option<string>, home: string): string {
    match xdgConfigHome
    case Some(v) => v
    case None => home
  }

  /** GetBlacklistConfigPath: the configuration home without one trailing '/', then the fixed suffix. */
  function GetBlacklistConfigPath(xdgConfigHome: Option<string>, home: string): (r: Result<string, ConfigError>)
    ensures r.Failure? <==> ConfigHome(xdgConfigHome, home) == ""
    ensures r.Success? ==>
              var h := ConfigHome(xdgConfigHome, home);
              HasSuffix(r.value, ConfigFileSuffix) &&
              r.value[..|r.value| - |ConfigFileSuffix|] + (if h[|h| - 1] == '/' then "/" else "") == h
  {
    var configHome := ConfigHome(xdgConfigHome, home);
    if configHome == "" then Failure(NoConfigHome)
    else
      var trimmed := if HasSuffix(configHome, "/") then TrimSuffix(configHome, "/") else configHome;
      Success(trimmed + ConfigFileSuffix)
  }

  /** A set but empty XDG_CONFIG_HOME is an error; $HOME is not consulted. */
  lemma EmptyXdgIsError(home: string)
    ensures GetBlacklistConfigPath(Some(""), home) == Failure(NoConfigHome)
  {
  }

  /** A configuration home ending in '/' loses exactly that one '/'. */
  lemma SlashedHomePath(xdgConfigHome: Option<string>, home: string, body: string)
    requires ConfigHome(xdgConfigHome, home) == body + "/"
    ensures GetBlacklistConfigPath(xdgConfigHome, home) == Success(body + ConfigFileSuffix)
  {
    var h := body + "/";
    assert h[|h| - 1..] == "/" && h[..|h| - 1] == body;
  }

  lemma DoubleSlashHome(h: string)
    requires h == "a//"
    ensures GetBlacklistConfigPath(None, h) == Success("a/" + ConfigFileSuffix)
  {
    assert h == "a/" + "/";
    SlashedHomePath(None, h, "a/");
  }

  lemma SlashXdgHome(x: string)
    requires x == "/x/"
    ensures GetBlacklistConfigPath(Some(x), "h") == Success("/x" + ConfigFileSuffix)
  {
    assert x == "/x" + "/";
    SlashedHomePath(Some(x), "h", "/x");
  }

  lemma RootHome(h: string)
    requires h == "/"
    ensures GetBlacklistConfigPath(None, h) == Success(ConfigFileSuffix)
  {
    assert h == "" + "/";
    SlashedHomePath(None, h, "");
    assert "" + ConfigFileSuffix == ConfigFileSuffix;
  }

  /** Only one trailing slash is removed, and a home of "/" gives the path at the root. */
  lemma TrailingSlashExamples()
    ensures GetBlacklistConfigPath(None, "a//") == Success("a/" + ConfigFileSuffix)
    ensures GetBlacklistConfigPath(Some("/x/"), "h") == Success("/x" + ConfigFileSuffix)
    ensures GetBlacklistConfigPath(None, "/") == Success(ConfigFileSuffix)
  {
    DoubleSlashHome("a//");
    SlashXdgHome("/x/");
    RootHome("/");
  }
}
