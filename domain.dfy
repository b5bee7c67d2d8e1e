/**
 * Domain validation and normalization (blacklist/domain.go).
 *
 * The validity test is the regular expression
 *   ^(?i)[a-z0-9-]+(\.[a-z0-9-]+)+\.?$
 * written as recursive predicates over labels: LabelRun finds the longest
 * run of label characters, Dotted is `[a-z0-9-]+(\.[a-z0-9-]+)*` and
 * MoreLabels is `(\.[a-z0-9-]+)+`. A run of label characters is always
 * maximal in a match, because the character after a label is '.' or the end.
 */
module Domain {
  import opened Text

  /** A character class member of `(?i)[a-z0-9-]`, over ASCII. */
  predicate IsLabelChar(c: char) {
    'a' <= c <= 'z' || 'A' <= c <= 'Z' || '0' <= c <= '9' || c == '-'
  }

  /** The length of the longest prefix of label characters. */
  function LabelRun(s: string): (k: nat)
    ensures k <= |s|
    ensures forall i :: 0 <= i < k ==> IsLabelChar(s[i])
    ensures k < |s| ==> !IsLabelChar(s[k])
  {
    if |s| > 0 && IsLabelChar(s[0]) then 1 + LabelRun(s[1..]) else 0
  }

  /** `[a-z0-9-]+(\.[a-z0-9-]+)*`, anchored at both ends. */
  predicate Dotted(t: string)
    decreases |t|
  {
    var k := LabelRun(t);
    k > 0 && (k == |t| || MoreLabels(t[k..]))
  }

  /** `(\.[a-z0-9-]+)+`, anchored at both ends. */
  predicate MoreLabels(t: string)
    decreases |t|
  {
    |t| > 0 && t[0] == '.' && Dotted(t[1..])
  }

  /** `s` without its last character when that is a dot: the part before `\.?$`. */
  function StripFinalDot(s: string): (r: string)
    ensures r == s || (r + "." == s)
  {
    if |s| > 0 && s[|s| - 1] == '.' then s[..|s| - 1] else s
  }

  /** isValidDomain: `s` matches `^(?i)[a-z0-9-]+(\.[a-z0-9-]+)+\.?$`. */
  function IsValidDomain(s: string): (valid: bool)
    ensures valid ==> 3 <= |s| && IsLabelChar(s[0])
  {
    var body := StripFinalDot(s);
    var k := LabelRun(body);
    k > 0 && MoreLabels(body[k..])
  }

  /** The data model's Domain: a valid name in canonical form. */
  predicate IsDomain(d: string) {
    IsValidDomain(d) && (d == [] || d[|d| - 1] != '.') && forall i :: 0 <= i < |d| ==> !IsUpper(d[i])
  }

  /** normalizeDomain: trim, validate, drop the trailing dot, lower-case; "" is the invalid sentinel. */
  function NormalizeDomain(s: string): string {
    var d := TrimSpace(s);
    if !IsValidDomain(d) then "" else ToLower(TrimRight(d, '.'))
  }

  // ---------------------------------------------------------------------
  // The grammar in terms of labels

  /** A label: one or more label characters. */
  predicate IsLabel(l: string) {
    |l| > 0 && forall i :: 0 <= i < |l| ==> IsLabelChar(l[i])
  }

  /** strings.Split(t, "."): the pieces between the dots; never empty. */
  function Split(t: string): (labels: seq<string>)
    ensures |labels| >= 1
    decreases |t|
  {
    var i := IndexOf(t, '.');
    if i == |t| then [t] else [t[..i]] + Split(t[i + 1..])
  }

  /** strings.Join(labels, "."). */
  function Join(labels: seq<string>): string
    requires |labels| >= 1
  {
    if |labels| == 1 then labels[0] else labels[0] + "." + Join(labels[1..])
  }

  predicate AllLabels(labels: seq<string>) {
    forall i :: 0 <= i < |labels| ==> IsLabel(labels[i])
  }

  /** Splitting on dots and joining again gives the string back: the labels are separated by single dots. */
  lemma {:induction false} JoinSplit(t: string)
    ensures Join(Split(t)) == t
    decreases |t|
  {
    var i := IndexOf(t, '.');
    if i < |t| {
      var head, rest := t[..i], t[i + 1..];
      SplitFirst(t, head, rest);
      JoinSplit(rest);
      JoinCons(head, Split(rest));
      DotSplit(t, i, head, rest);
    } else {
      assert Split(t) == [t];
    }
  }

  lemma SplitFirst(t: string, head: string, rest: string)
    requires IndexOf(t, '.') < |t| && head == t[..IndexOf(t, '.')] && rest == t[IndexOf(t, '.') + 1..]
    ensures Split(t) == [head] + Split(rest)
  {
  }

  lemma JoinCons(head: string, ls: seq<string>)
    requires |ls| >= 1
    ensures Join([head] + ls) == head + "." + Join(ls)
  {
    assert ([head] + ls)[0] == head && ([head] + ls)[1..] == ls;
  }

  lemma DotSplit(t: string, i: nat, head: string, rest: string)
    requires i < |t| && t[i] == '.' && head == t[..i] && rest == t[i + 1..]
    ensures t == head + "." + rest
  {
  }

  /** A string has more than one piece exactly when it contains a dot. */
  lemma SplitManyIffDot(t: string)
    ensures |Split(t)| >= 2 <==> '.' in t
  {
    var i := IndexOf(t, '.');
    if '.' in t {
      var j :| 0 <= j < |t| && t[j] == '.';
      assert i <= j;
    }
  }

  /** At the first dot, Split produces the piece before it and the pieces after it. */
  lemma SplitAtDot(t: string, k: nat)
    requires k < |t| && IndexOf(t, '.') == k
    ensures Split(t) == [t[..k]] + Split(t[k + 1..])
  {
  }

  lemma AllLabelsCons(l: string, rest: seq<string>)
    ensures AllLabels([l] + rest) <==> IsLabel(l) && AllLabels(rest)
  {
    var ls := [l] + rest;
    if IsLabel(l) && AllLabels(rest) {
      forall j | 0 <= j < |ls| ensures IsLabel(ls[j]) {
        if j > 0 { assert ls[j] == rest[j - 1]; }
      }
    }
    if AllLabels(ls) {
      assert IsLabel(ls[0]);
      forall j | 0 <= j < |rest| ensures IsLabel(rest[j]) {
        assert rest[j] == ls[j + 1];
      }
    }
  }

  /** When the first non-label character is not a dot, the first piece is not a label. */
  lemma FirstPieceNotLabel(t: string, k: nat)
    requires k < |t| && k == LabelRun(t) && t[k] != '.'
    ensures !AllLabels(Split(t))
  {
    IndexOfNotBefore(t, '.', k + 1);
    var i := IndexOf(t, '.');
    var first := if i < |t| then t[..i] else t;
    assert Split(t)[0] == first;
    PieceNotLabel(t, k, first);
  }

  /** A piece that runs past the first non-label character is not a label. */
  lemma PieceNotLabel(t: string, k: nat, first: string)
    requires k < |t| && !IsLabelChar(t[k]) && k < |first| <= |t| && first == t[..|first|]
    ensures !IsLabel(first)
  {
    assert first[k] == t[k];
  }

  /** `[a-z0-9-]+(\.[a-z0-9-]+)*` holds exactly when every dot-separated piece is a non-empty label. */
  lemma {:induction false} DottedIffAllLabels(t: string)
    ensures Dotted(t) <==> AllLabels(Split(t))
    decreases |t|
  {
    var k := LabelRun(t);
    if k == |t| {
      assert IndexOf(t, '.') == |t|;
      assert Split(t) == [t];
      assert AllLabels([t]) <==> IsLabel(t) by {
        if IsLabel(t) { assert forall j :: 0 <= j < 1 ==> [t][j] == t; }
        if AllLabels([t]) { assert [t][0] == t; }
      }
    } else if t[k] == '.' {
      assert IndexOf(t, '.') == k;
      SplitAtDot(t, k);
      DottedIffAllLabels(t[k + 1..]);
      assert t[k..][1..] == t[k + 1..];
      AllLabelsCons(t[..k], Split(t[k + 1..]));
    } else {
      FirstPieceNotLabel(t, k);
    }
  }

  /**
   * The property the regular expression encodes: at least two non-empty labels
   * over letters, digits and '-', joined by single dots, with at most one
   * trailing dot.
   */
  lemma ValidIffLabels(s: string)
    ensures IsValidDomain(s) <==>
              var body := StripFinalDot(s);
              |Split(body)| >= 2 && AllLabels(Split(body))
  {
    var body := StripFinalDot(s);
    var k := LabelRun(body);
    DottedIffAllLabels(body);
    SplitManyIffDot(body);
    if k < |body| && body[k] == '.' {
      assert '.' in body;
    }
  }

  // ---------------------------------------------------------------------
  // Facts about matches used by the normalization lemmas

  /** Every match ends in a label character. */
  lemma {:induction false} DottedEndsInLabelChar(t: string)
    requires Dotted(t)
    ensures |t| > 0 && IsLabelChar(t[|t| - 1])
    decreases |t|
  {
    var k := LabelRun(t);
    if k < |t| {
      DottedEndsInLabelChar(t[k..][1..]);
    }
  }

  /** Every match starts with a label character. */
  lemma ValidStartsAndEndsWithLabelChar(s: string)
    requires IsValidDomain(s)
    ensures |s| > 0 && IsLabelChar(s[0])
    ensures IsValidDomain(StripFinalDot(s)) && StripFinalDot(StripFinalDot(s)) == StripFinalDot(s)
    ensures IsLabelChar(StripFinalDot(s)[|StripFinalDot(s)| - 1])
  {
    var body := StripFinalDot(s);
    var k := LabelRun(body);
    DottedEndsInLabelChar(body[k..][1..]);
    assert body[k..][1..] == body[k + 1..];
    assert body[|body| - 1] == body[k + 1..][|body[k + 1..]| - 1];
  }

  /** Two strings with the same pattern of label characters and dots. */
  predicate SameShape(a: string, b: string) {
    |a| == |b| &&
    forall i :: 0 <= i < |a| ==> (IsLabelChar(a[i]) <==> IsLabelChar(b[i])) && (a[i] == '.' <==> b[i] == '.')
  }

  lemma {:induction false} SameShapeLabelRun(a: string, b: string)
    requires SameShape(a, b)
    ensures LabelRun(a) == LabelRun(b)
    decreases |a|
  {
    if |a| > 0 && IsLabelChar(a[0]) {
      SameShapeLabelRun(a[1..], b[1..]);
    }
  }

  lemma {:induction false} SameShapeDotted(a: string, b: string)
    requires SameShape(a, b)
    ensures Dotted(a) <==> Dotted(b)
    ensures MoreLabels(a) <==> MoreLabels(b)
    decreases |a|
  {
    SameShapeLabelRun(a, b);
    var k := LabelRun(a);
    if 0 < k < |a| {
      SameShapeDotted(a[k..], b[k..]);
    }
    if |a| > 0 {
      SameShapeDotted(a[1..], b[1..]);
    }
  }

  /** Both lose their final dot or neither does, so the shapes still agree. */
  lemma SameShapeStrip(a: string, b: string)
    requires SameShape(a, b)
    ensures SameShape(StripFinalDot(a), StripFinalDot(b))
  {
    if |a| > 0 && a[|a| - 1] == '.' {
      assert b[|b| - 1] == '.';
      SameShapePrefix(a, b, |a| - 1);
    }
  }

  lemma SameShapePrefix(a: string, b: string, n: nat)
    requires SameShape(a, b) && n <= |a|
    ensures SameShape(a[..n], b[..n])
  {
    forall i | 0 <= i < n
      ensures (IsLabelChar(a[..n][i]) <==> IsLabelChar(b[..n][i])) && (a[..n][i] == '.' <==> b[..n][i] == '.')
    {
      assert a[..n][i] == a[i] && b[..n][i] == b[i];
    }
  }

  /** The grammar depends only on which characters are label characters and which are dots. */
  lemma SameShapeValid(a: string, b: string)
    requires SameShape(a, b)
    ensures IsValidDomain(a) <==> IsValidDomain(b)
  {
    var ba, bb := StripFinalDot(a), StripFinalDot(b);
    SameShapeStrip(a, b);
    SameShapeLabelRun(ba, bb);
    var k := LabelRun(ba);
    SameShapeDotted(ba[k..], bb[k..]);
  }

  /** Lower-casing keeps a name valid (the `(?i)` flag). */
  lemma ToLowerValid(s: string)
    ensures IsValidDomain(ToLower(s)) <==> IsValidDomain(s)
  {
    SameShapeValid(s, ToLower(s));
  }

  // ---------------------------------------------------------------------
  // normalizeDomain

  /** The invalid sentinel "" is returned exactly when the trimmed input fails the grammar. */
  lemma NormalizeEmptyIffInvalid(s: string)
    ensures NormalizeDomain(s) == "" <==> !IsValidDomain(TrimSpace(s))
  {
    var d := TrimSpace(s);
    if IsValidDomain(d) {
      ValidStartsAndEndsWithLabelChar(d);
      assert TrimRight(d, '.') == StripFinalDot(d);
    }
  }

  /** For a valid trimmed input the result is the input without its dot, lower-cased. */
  lemma NormalizeValid(s: string)
    requires IsValidDomain(TrimSpace(s))
    ensures NormalizeDomain(s) == ToLower(StripFinalDot(TrimSpace(s)))
  {
    var d := TrimSpace(s);
    ValidStartsAndEndsWithLabelChar(d);
    assert TrimRight(d, '.') == StripFinalDot(d);
  }

  /** A non-empty result is a Domain: valid, no trailing dot, no upper-case letter. */
  lemma NormalizeIsDomain(s: string)
    ensures NormalizeDomain(s) != "" ==> IsDomain(NormalizeDomain(s))
  {
    var d := TrimSpace(s);
    if IsValidDomain(d) {
      NormalizeValid(s);
      ValidStartsAndEndsWithLabelChar(d);
      LowerBodyIsDomain(StripFinalDot(d), NormalizeDomain(s));
    }
  }

  /** Lower-casing a valid name that ends in a label character gives a domain in canonical form. */
  lemma LowerBodyIsDomain(body: string, r: string)
    requires IsValidDomain(body) && |body| > 0 && IsLabelChar(body[|body| - 1])
    requires r == ToLower(body)
    ensures IsDomain(r)
  {
    ToLowerValid(body);
    assert r[|r| - 1] == LowerChar(body[|body| - 1]) != '.';
  }

  /** Normalizing already trims, so trimming first changes nothing. */
  lemma NormalizeOfTrimSpace(s: string)
    ensures NormalizeDomain(TrimSpace(s)) == NormalizeDomain(s)
  {
    TrimSpaceIdempotent(s);
  }

  /** The result is as long as the trimmed input, or one shorter exactly when that ended in a dot. */
  lemma NormalizeLength(s: string)
    ensures var d := TrimSpace(s);
            var r := NormalizeDomain(s);
            r != "" ==>
              (|d| > 0 && d[|d| - 1] == '.' ==> |r| == |d| - 1 && r == ToLower(d[..|d| - 1])) &&
              (|d| > 0 && d[|d| - 1] != '.' ==> |r| == |d| && r == ToLower(d))
  {
    NormalizeEmptyIffInvalid(s);
    if IsValidDomain(TrimSpace(s)) {
      NormalizeValid(s);
    }
  }

  /** A Domain is already in normal form. */
  lemma NormalizeOfDomain(d: string)
    requires IsDomain(d)
    ensures NormalizeDomain(d) == d
  {
    ValidStartsAndEndsWithLabelChar(d);
    assert StripFinalDot(d) == d;
    assert IsLabelChar(d[0]) && IsLabelChar(d[|d| - 1]);
    TrimSpaceOfTrimmed(d);
    assert TrimSpace(d) == d;
    NormalizeValid(d);
    ToLowerOfLower(d);
  }

  /** normalizeDomain is idempotent. */
  lemma NormalizeIdempotent(s: string)
    ensures NormalizeDomain(NormalizeDomain(s)) == NormalizeDomain(s)
  {
    var r := NormalizeDomain(s);
    NormalizeIsDomain(s);
    if r != "" {
      NormalizeOfDomain(r);
    } else {
      EmptyNormalizesToEmpty(r);
    }
  }

  /** The sentinel normalizes to itself. */
  lemma EmptyNormalizesToEmpty(e: string)
    requires e == ""
    ensures NormalizeDomain(e) == ""
  {
    assert TrimSpace(e) == e;
    assert StripFinalDot(e) == e && LabelRun(e) == 0;
  }

  // ---------------------------------------------------------------------
  // Examples

  /** A label followed by a non-label character (or nothing) is exactly the first label run. */
  lemma LabelRunOfLabel(l: string, rest: string)
    requires IsLabel(l) && (rest == [] || !IsLabelChar(rest[0]))
    ensures LabelRun(l + rest) == |l|
  {
    var t := l + rest;
    assert forall i :: 0 <= i < |l| ==> t[i] == l[i];
    assert |l| < |t| ==> t[|l|] == rest[0];
  }

  lemma LabelIsDotted(l: string)
    requires IsLabel(l)
    ensures Dotted(l)
  {
    LabelRunOfLabel(l, []);
    assert l + [] == l;
  }

  /** A label, a dot and a dotted run: `[L]+` then `(\.[L]+)+`. */
  lemma LabelDotDotted(l: string, t: string)
    requires IsLabel(l) && Dotted(t)
    ensures Dotted(l + "." + t)
    ensures IsValidDomain(l + "." + t) && IsValidDomain(l + "." + t + ".")
  {
    var u := "." + t;
    var s := l + "." + t;
    assert s == l + u;
    LabelRunOfLabel(l, u);
    assert s[|l|..] == u && u[1..] == t;
    assert MoreLabels(u);
    DottedEndsInLabelChar(t);
    assert s[|s| - 1] == t[|t| - 1];
    assert StripFinalDot(s) == s;
    assert StripFinalDot(s + ".") == s;
  }

  /** A single label is not a name, with or without a final dot. */
  lemma SingleLabelInvalid(l: string)
    requires IsLabel(l)
    ensures !IsValidDomain(l) && !IsValidDomain(l + ".")
  {
    LabelRunOfLabel(l, []);
    assert l + [] == l;
    assert StripFinalDot(l) == l;
    assert StripFinalDot(l + ".") == l;
    assert l[|l|..] == [];
  }

  /** No valid name ends in two dots. */
  lemma NoDoubleFinalDot(s: string)
    ensures !IsValidDomain(s + "..")
  {
    var body := s + ".";
    assert StripFinalDot(s + "..") == body;
    var k := LabelRun(body);
    assert body[|body| - 1] == '.';
    var t := body[k..];
    if Dotted(t[1..]) {
      DottedEndsInLabelChar(t[1..]);
    }
  }

  lemma WordIsLabel(w: string)
    requires w == "localhost" || w == "example" || w == "com" || w == "Example" || w == "COM" ||
             w == "0" || w == "1" || w == "127"
    ensures IsLabel(w)
  {
  }

  /** Single-label names such as localhost fail the grammar. */
  lemma LocalhostInvalid()
    ensures !IsValidDomain("localhost")
  {
    WordIsLabel("localhost");
    SingleLabelInvalid("localhost");
  }

  /** Four labels joined by dots form a valid name. */
  lemma FourLabelsValid(a: string, b: string, c: string, d: string)
    requires IsLabel(a) && IsLabel(b) && IsLabel(c) && IsLabel(d)
    ensures IsValidDomain(a + "." + (b + "." + (c + "." + d)))
  {
    LabelIsDotted(d);
    LabelDotDotted(c, d);
    LabelDotDotted(b, c + "." + d);
    LabelDotDotted(a, b + "." + (c + "." + d));
  }

  lemma QuadTexts()
    ensures "0" + "." + ("0" + "." + ("0" + "." + "0")) == "0.0.0.0"
    ensures "127" + "." + ("0" + "." + ("0" + "." + "1")) == "127.0.0.1"
  {
  }

  /** Dotted quads are valid names under this grammar. */
  lemma DottedQuadsValid()
    ensures IsValidDomain("0.0.0.0")
    ensures IsValidDomain("127.0.0.1")
  {
    WordIsLabel("0");
    WordIsLabel("1");
    WordIsLabel("127");
    QuadTexts();
    FourLabelsValid("0", "0", "0", "0");
    FourLabelsValid("127", "0", "0", "1");
  }

  lemma StripDot(s: string)
    ensures StripFinalDot(s + ".") == s
  {
    assert (s + ".")[..|s|] == s;
  }

  lemma NameTexts()
    ensures "example" + "." + "com" + "." == "example.com."
    ensures "Example" + "." + "COM" == "Example.COM" && "Example.COM" + "." == "Example.COM."
  {
  }

  /** One trailing dot is allowed. */
  lemma TrailingDotValid()
    ensures IsValidDomain("example.com.")
  {
    WordIsLabel("example");
    WordIsLabel("com");
    LabelIsDotted("com");
    NameTexts();
    LabelDotDotted("example", "com");
  }

  /** Two trailing dots are not. */
  lemma DoubleTrailingDotInvalid()
    ensures !IsValidDomain("example.com..")
  {
    NoDoubleFinalDot("example.com");
    assert "example.com" + ".." == "example.com..";
  }

  lemma MixedCaseTrimLeft(s: string)
    requires s == "  Example.COM.  "
    ensures TrimLeftSpace(s) == "Example.COM.  "
  {
    var u := "Example.COM.  ";
    assert s == "  " + u && u[0] == 'E';
    TrimLeftSpaceOfSpaces("  ", u);
  }

  lemma MixedCaseTrimRight(u: string)
    requires u == "Example.COM.  "
    ensures TrimRightSpace(u) == "Example.COM."
  {
    var b := "Example.COM.";
    assert u == b + "  " && b[|b| - 1] == '.';
    TrimRightSpaceOfSpaces(b, "  ");
  }

  lemma MixedCaseTrim(s: string)
    requires s == "  Example.COM.  "
    ensures TrimSpace(s) == "Example.COM."
  {
    MixedCaseTrimLeft(s);
    MixedCaseTrimRight("Example.COM.  ");
  }

  lemma MixedCaseValid(d: string)
    requires d == "Example.COM."
    ensures IsValidDomain(d) && StripFinalDot(d) == "Example.COM"
  {
    WordIsLabel("Example");
    WordIsLabel("COM");
    LabelIsDotted("COM");
    NameTexts();
    LabelDotDotted("Example", "COM");
    StripDot("Example.COM");
  }

  lemma MixedCaseLower(b: string)
    requires b == "Example.COM"
    ensures ToLower(b) == "example.com"
  {
  }

  /** Surrounding space, upper case and the trailing dot go. */
  lemma NormalizeExample()
    ensures NormalizeDomain("  Example.COM.  ") == "example.com"
  {
    MixedCaseTrim("  Example.COM.  ");
    MixedCaseValid("Example.COM.");
    NormalizeValid("  Example.COM.  ");
    MixedCaseLower("Example.COM");
  }

  lemma ProseTrim(t: string)
    requires t == "not a domain"
    ensures TrimSpace(t) == t
  {
    assert t[0] == 'n' && t[|t| - 1] == 'n';
    TrimSpaceOfTrimmed(t);
  }

  lemma ProseInvalid(t: string)
    requires t == "not a domain"
    ensures !IsValidDomain(t)
  {
    assert StripFinalDot(t) == t;
    assert t[3] == ' ' && forall i :: 0 <= i < 3 ==> IsLabelChar(t[i]);
    assert LabelRun(t) == 3;
    assert t[3..][0] == ' ';
  }

  /** Prose is rejected with the sentinel. */
  lemma NormalizeProseExample()
    ensures NormalizeDomain("not a domain") == ""
  {
    ProseTrim("not a domain");
    ProseInvalid("not a domain");
  }
}
