/**
  The per-letter extraction rules (the `regexes` table of js/main.js:25-39).
  Each rule is a hand-written matcher for one anchored regular expression,
  returning the text of its first capturing group, or None when the pattern
  does not match. Every matcher is paired with the naming convention it
  recognises (a `Render` function) and a lemma that the matcher recovers the
  site code from every hostname built by that convention; the matcher's own
  contract gives the converse, that every hostname it accepts was built so.
 */
module Rules {
  import opened Wrappers
  import opened Text
  import opened Letters

  const CSuffix := ".c.root-servers.org"
  const DSuffix := ".droot.maxgigapop.net"
  const ESuffix := ".eroot"
  const FSuffix := ".f.root-servers.org"
  const HSuffix := ".h.root-servers.org"
  const KSuffix := ".k.ripe.net"

  // ---------------------------------------------------------------- a
  // /^(?:rootns-|nnn1-)([a-z]{3})\d$/

  function RenderA(nnn1: bool, site: string, d: char): string {
    (if nnn1 then "nnn1-" else "rootns-") + site + [d]
  }

  function MatchA(s: string): (r: Option<string>)
    ensures r.Some? ==>
      && LowerWord(r.value, 3) && |s| > 0 && IsDigit(s[|s| - 1])
      && (s == RenderA(false, r.value, s[|s| - 1]) || s == RenderA(true, r.value, s[|s| - 1]))
  {
    if |s| == 11 && s[..7] == "rootns-" && LowerWord(s[7..10], 3) && IsDigit(s[10]) then
      assert s == s[..7] + s[7..10] + [s[10]];
      Some(s[7..10])
    else if |s| == 9 && s[..5] == "nnn1-" && LowerWord(s[5..8], 3) && IsDigit(s[8]) then
      assert s == s[..5] + s[5..8] + [s[8]];
      Some(s[5..8])
    else
      None
  }

  lemma MatchARender(nnn1: bool, site: string, d: char)
    requires LowerWord(site, 3) && IsDigit(d)
    ensures MatchA(RenderA(nnn1, site, d)) == Some(site)
  {
    var s := RenderA(nnn1, site, d);
    if nnn1 {
      assert s[..5] == "nnn1-" && s[5..8] == site;
    } else {
      assert s[..7] == "rootns-" && s[7..10] == site;
    }
  }

  // ---------------------------------------------------------------- b
  // /^b\d-([a-z]{3})$/

  function RenderB(d: char, site: string): string {
    "b" + [d] + "-" + site
  }

  function MatchB(s: string): (r: Option<string>)
    ensures r.Some? ==> LowerWord(r.value, 3) && |s| > 1 && IsDigit(s[1]) && s == RenderB(s[1], r.value)
  {
    if |s| == 6 && s[0] == 'b' && IsDigit(s[1]) && s[2] == '-' && LowerWord(s[3..], 3) then
      assert s == [s[0]] + [s[1]] + [s[2]] + s[3..];
      Some(s[3..])
    else
      None
  }

  lemma MatchBRender(d: char, site: string)
    requires IsDigit(d) && LowerWord(site, 3)
    ensures MatchB(RenderB(d, site)) == Some(site)
  {
    assert RenderB(d, site)[3..] == site;
  }

  // ---------------------------------------------------------------- c
  // /^([a-z]{3})\d[a-z]\.c\.root-servers\.org$/

  function RenderC(site: string, d: char, x: char): string {
    site + [d, x] + CSuffix
  }

  function MatchC(s: string): (r: Option<string>)
    ensures r.Some? ==>
      && LowerWord(r.value, 3) && |s| == 24 && IsDigit(s[3]) && IsLower(s[4])
      && s == RenderC(r.value, s[3], s[4])
  {
    if |s| == 24 && LowerWord(s[..3], 3) && IsDigit(s[3]) && IsLower(s[4]) && s[5..] == CSuffix then
      assert s == s[..3] + [s[3], s[4]] + s[5..];
      Some(s[..3])
    else
      None
  }

  lemma MatchCRender(site: string, d: char, x: char)
    requires LowerWord(site, 3) && IsDigit(d) && IsLower(x)
    ensures MatchC(RenderC(site, d, x)) == Some(site)
  {
    var s := RenderC(site, d, x);
    assert s[..3] == site && s[5..] == CSuffix;
  }

  // ---------------------------------------------------------------- d
  // /^([a-z]{4})\d\.droot\.maxgigapop\.net$/

  function RenderD(site: string, d: char): string {
    site + [d] + DSuffix
  }

  function MatchD(s: string): (r: Option<string>)
    ensures r.Some? ==> LowerWord(r.value, 4) && |s| == 26 && IsDigit(s[4]) && s == RenderD(r.value, s[4])
  {
    if |s| == 26 && LowerWord(s[..4], 4) && IsDigit(s[4]) && s[5..] == DSuffix then
      assert s == s[..4] + [s[4]] + s[5..];
      Some(s[..4])
    else
      None
  }

  lemma MatchDRender(site: string, d: char)
    requires LowerWord(site, 4) && IsDigit(d)
    ensures MatchD(RenderD(site, d)) == Some(site)
  {
    var s := RenderD(site, d);
    assert s[..4] == site && s[5..] == DSuffix;
  }

  // ---------------------------------------------------------------- e
  // /^(?:[a-z]\d+)\.([a-z]{3}[a-z]?)\.eroot$/

  function RenderE(x: char, digits: string, site: string): string {
    [x] + digits + "." + site + ESuffix
  }

  /** The shape of an E-root site code: three or four letters. */
  predicate ESite(site: string) {
    LowerWord(site, 3) || LowerWord(site, 4)
  }

  /** Recognising `b` + ESuffix, where `b` ends in a dot and an n-letter site code. */
  predicate EShape(s: string, n: nat) {
    && EndsWith(s, ESuffix)
    && var b := s[..|s| - 6];
    && |b| >= n + 3 && b[|b| - n - 1] == '.' && LowerWord(b[|b| - n..], n)
    && IsLower(b[0]) && AllDigits(b[1..|b| - n - 1])
  }

  /** Cutting a recognised E hostname into its pieces. */
  lemma ESplit(s: string, n: nat)
    requires n == 3 || n == 4
    requires EShape(s, n)
    ensures var site := s[..|s| - 6][|s| - 6 - n..];
      && ESite(site) && |site| == n && |s| >= 9 + n && IsLower(s[0])
      && AllDigits(s[1..|s| - 7 - n]) && |s[1..|s| - 7 - n]| > 0
      && s == RenderE(s[0], s[1..|s| - 7 - n], site)
  {
    var b := s[..|s| - 6];
    assert s[1..|s| - 7 - n] == b[1..|b| - n - 1];
    assert b[|b| - n..] == s[|s| - 6 - n..|s| - 6];
    assert s == [s[0]] + s[1..|s| - 7 - n] + "." + s[|s| - 6 - n..|s| - 6] + s[|s| - 6..];
  }

  function MatchE(s: string): (r: Option<string>)
    ensures r.Some? ==>
      && ESite(r.value) && |s| >= 9 + |r.value| && IsLower(s[0])
      && AllDigits(s[1..|s| - 7 - |r.value|]) && |s[1..|s| - 7 - |r.value|]| > 0
      && s == RenderE(s[0], s[1..|s| - 7 - |r.value|], r.value)
  {
    if EShape(s, 4) then
      ESplit(s, 4);
      Some(s[..|s| - 6][|s| - 10..])
    else if EShape(s, 3) then
      ESplit(s, 3);
      Some(s[..|s| - 6][|s| - 9..])
    else
      None
  }

  lemma MatchERender(x: char, digits: string, site: string)
    requires IsLower(x) && |digits| > 0 && AllDigits(digits) && ESite(site)
    ensures MatchE(RenderE(x, digits, site)) == Some(site)
  {
    var s := RenderE(x, digits, site);
    var b := s[..|s| - 6];
    assert s[|s| - 6..] == ESuffix;
    assert b == [x] + digits + "." + site;
    assert b[1..|b| - 1 - |site|] == digits;
    assert b[|b| - |site|..] == site;
    assert EShape(s, |site|);
    if |site| == 3 {
      assert b[|b| - 5] == digits[|digits| - 1];
      assert !EShape(s, 4);
    }
  }

  // ---------------------------------------------------------------- f
  // /^([a-z]{3})(?:\d[a-z]|\.cf)\.f\.root-servers\.org$/

  /** The part between the site code and the suffix: a digit and a letter, or `.cf`. */
  predicate FMiddle(m: string) {
    (|m| == 2 && IsDigit(m[0]) && IsLower(m[1])) || m == ".cf"
  }

  function RenderF(site: string, middle: string): string {
    site + middle + FSuffix
  }

  function MatchF(s: string): (r: Option<string>)
    ensures r.Some? ==>
      && LowerWord(r.value, 3) && 24 <= |s| <= 25 && FMiddle(s[3..|s| - 19])
      && s == RenderF(r.value, s[3..|s| - 19])
  {
    if EndsWith(s, FSuffix) && 24 <= |s| <= 25 && LowerWord(s[..3], 3) && FMiddle(s[3..|s| - 19]) then
      assert s == s[..3] + s[3..|s| - 19] + s[|s| - 19..];
      Some(s[..3])
    else
      None
  }

  lemma MatchFRender(site: string, middle: string)
    requires LowerWord(site, 3) && FMiddle(middle)
    ensures MatchF(RenderF(site, middle)) == Some(site)
  {
    var s := RenderF(site, middle);
    assert s[..3] == site && s[3..|s| - 19] == middle && s[|s| - 19..] == FSuffix;
  }

  // ---------------------------------------------------------------- g
  // /^groot-?-(.*?)-.*?(\.net)?$/
  // The lazy group stops at the first '-' after the prefix; the rest of the
  // string must be free of line terminators for the two `.*?` to consume it.
  // With a doubled dash, the longer prefix is tried first; if nothing
  // follows it, the engine backtracks to the single dash and captures "".

  function RenderG(doubled: bool, site: string, rest: string): string {
    (if doubled then "groot--" else "groot-") + site + "-" + rest
  }

  /** The index of the first '-' of `t`. */
  function FirstDash(t: string): (i: nat)
    requires '-' in t
    ensures i < |t| && t[i] == '-' && '-' !in t[..i]
  {
    if t[0] == '-' then 0 else
      assert t == [t[0]] + t[1..];
      var j := FirstDash(t[1..]);
      assert t[..j + 1] == [t[0]] + t[1..][..j];
      j + 1
  }

  /** The lazy capture can start at index k: after "groot-" (k = 6) or after
      "groot--" (k = 7), with a later '-' and no line terminator before it. */
  predicate GFrom(s: string, k: nat) {
    && StartsWith(s, "groot-") && k <= |s|
    && (k == 7 ==> s[6] == '-')
    && NoLineTerminator(s[k..]) && '-' in s[k..]
  }

  /** The capture from k runs to the first '-' after it. */
  lemma GCapture(s: string, k: nat)
    requires k == 6 || k == 7
    requires GFrom(s, k)
    ensures var site := s[k..k + FirstDash(s[k..])];
      && '-' !in site && NoLineTerminator(site)
      && StartsWith(s, (if k == 7 then "groot--" else "groot-") + site + "-")
    ensures var i := k + FirstDash(s[k..]);
      && NoLineTerminator(s[i + 1..])
      && s == RenderG(k == 7, s[k..i], s[i + 1..])
  {
    var t := s[k..];
    var i := FirstDash(t);
    assert s[k..k + i] == t[..i];
    assert s[..k + i + 1] == s[..k] + t[..i] + "-";
    assert s[..k] == if k == 7 then "groot--" else "groot-";
    assert s[k + i + 1..] == t[i + 1..];
    assert s == s[..k + i + 1] + s[k + i + 1..];
  }

  function MatchG(s: string): (r: Option<string>)
    ensures r.Some? ==>
      && '-' !in r.value && NoLineTerminator(r.value)
      && (StartsWith(s, "groot-" + r.value + "-") || StartsWith(s, "groot--" + r.value + "-"))
    ensures r.Some? ==> exists doubled: bool, rest: string ::
      NoLineTerminator(rest) && s == RenderG(doubled, r.value, rest)
  {
    if GFrom(s, 7) then
      GCapture(s, 7);
      Some(s[7..7 + FirstDash(s[7..])])
    else if GFrom(s, 6) then
      GCapture(s, 6);
      Some(s[6..6 + FirstDash(s[6..])])
    else
      None
  }

  /** What follows the "groot-" prefix of a rendered G hostname. */
  lemma GTail(site: string, rest: string)
    requires '-' !in site && NoLineTerminator(site) && NoLineTerminator(rest)
    ensures var t := site + "-" + rest;
      && NoLineTerminator(t) && '-' in t && FirstDash(t) == |site| && t[..|site|] == site
  {
    var t := site + "-" + rest;
    assert t[..|site|] == site;
    assert t[|site|] == '-';
    forall i | 0 <= i < |t|
      ensures !IsLineTerminator(t[i])
    {
      if i < |site| {
        assert t[i] == site[i];
      } else if i > |site| {
        assert t[i] == rest[i - |site| - 1];
      }
    }
  }

  /** The pieces of a rendered G hostname. */
  lemma GRenderPieces(doubled: bool, site: string, rest: string)
    ensures var s, k := RenderG(doubled, site, rest), if doubled then 7 else 6;
      && k <= |s| && s[..6] == "groot-" && s[k..] == site + "-" + rest
      && (doubled ==> s[6] == '-')
      && (!doubled && |site| > 0 ==> s[6] == site[0])
  {
  }

  /** Where the capture of a rendered G hostname starts, and where it ends. */
  lemma GRenderFrom(doubled: bool, site: string, rest: string)
    requires '-' !in site && NoLineTerminator(site) && NoLineTerminator(rest)
    requires doubled || |site| > 0 || '-' !in rest
    ensures var s, k := RenderG(doubled, site, rest), if doubled then 7 else 6;
      && GFrom(s, k) && (!doubled ==> !GFrom(s, 7))
      && FirstDash(s[k..]) == |site| && s[k..k + |site|] == site
  {
    var s := RenderG(doubled, site, rest);
    var k := if doubled then 7 else 6;
    GTail(site, rest);
    GRenderPieces(doubled, site, rest);
    assert s[k..k + |site|] == s[k..][..|site|];
  }

  lemma MatchGRender(doubled: bool, site: string, rest: string)
    requires '-' !in site && NoLineTerminator(site) && NoLineTerminator(rest)
    requires doubled || |site| > 0 || '-' !in rest
    ensures MatchG(RenderG(doubled, site, rest)) == Some(site)
  {
    GRenderFrom(doubled, site, rest);
  }

  // ---------------------------------------------------------------- h
  // /^\d+\.([a-z]{3})\.h\.root-servers\.org$/

  function RenderH(digits: string, site: string): string {
    digits + "." + site + HSuffix
  }

  function MatchH(s: string): (r: Option<string>)
    ensures r.Some? ==>
      && LowerWord(r.value, 3) && |s| >= 24
      && |s[..|s| - 23]| > 0 && AllDigits(s[..|s| - 23])
      && s == RenderH(s[..|s| - 23], r.value)
  {
    if |s| >= 24 && EndsWith(s, HSuffix) && s[|s| - 23] == '.' && LowerWord(s[|s| - 22..|s| - 19], 3)
      && AllDigits(s[..|s| - 23])
    then
      assert s == s[..|s| - 23] + "." + s[|s| - 22..|s| - 19] + s[|s| - 19..];
      Some(s[|s| - 22..|s| - 19])
    else
      None
  }

  lemma MatchHRender(digits: string, site: string)
    requires |digits| > 0 && AllDigits(digits) && LowerWord(site, 3)
    ensures MatchH(RenderH(digits, site)) == Some(site)
  {
    var s := RenderH(digits, site);
    assert s[..|s| - 23] == digits;
    assert s[|s| - 22..|s| - 19] == site;
    assert s[|s| - 19..] == HSuffix;
  }

  // ---------------------------------------------------------------- i
  // /^s\d\.([a-z]{3})$/

  function RenderI(d: char, site: string): string {
    "s" + [d] + "." + site
  }

  function MatchI(s: string): (r: Option<string>)
    ensures r.Some? ==> LowerWord(r.value, 3) && |s| > 1 && IsDigit(s[1]) && s == RenderI(s[1], r.value)
  {
    if |s| == 6 && s[0] == 's' && IsDigit(s[1]) && s[2] == '.' && LowerWord(s[3..], 3) then
      assert s == [s[0]] + [s[1]] + [s[2]] + s[3..];
      Some(s[3..])
    else
      None
  }

  lemma MatchIRender(d: char, site: string)
    requires IsDigit(d) && LowerWord(site, 3)
    ensures MatchI(RenderI(d, site)) == Some(site)
  {
    assert RenderI(d, site)[3..] == site;
  }

  // ---------------------------------------------------------------- j
  // /^(?:rootns-(?:el)?|nnn1-)([a-z]{3})\d$/

  /** The three prefixes rule j accepts. */
  datatype JPrefix = Rootns | RootnsEl | Nnn1

  function JPrefixText(p: JPrefix): string {
    match p
    case Rootns => "rootns-"
    case RootnsEl => "rootns-el"
    case Nnn1 => "nnn1-"
  }

  function RenderJ(p: JPrefix, site: string, d: char): string {
    JPrefixText(p) + site + [d]
  }

  function MatchJ(s: string): (r: Option<string>)
    ensures r.Some? ==>
      && LowerWord(r.value, 3) && |s| > 0 && IsDigit(s[|s| - 1])
      && (|| s == RenderJ(Rootns, r.value, s[|s| - 1])
          || s == RenderJ(RootnsEl, r.value, s[|s| - 1])
          || s == RenderJ(Nnn1, r.value, s[|s| - 1]))
  {
    if |s| == 13 && s[..9] == "rootns-el" && LowerWord(s[9..12], 3) && IsDigit(s[12]) then
      assert s == s[..9] + s[9..12] + [s[12]];
      Some(s[9..12])
    else if |s| == 11 && s[..7] == "rootns-" && LowerWord(s[7..10], 3) && IsDigit(s[10]) then
      assert s == s[..7] + s[7..10] + [s[10]];
      Some(s[7..10])
    else if |s| == 9 && s[..5] == "nnn1-" && LowerWord(s[5..8], 3) && IsDigit(s[8]) then
      assert s == s[..5] + s[5..8] + [s[8]];
      Some(s[5..8])
    else
      None
  }

  lemma MatchJRender(p: JPrefix, site: string, d: char)
    requires LowerWord(site, 3) && IsDigit(d)
    ensures MatchJ(RenderJ(p, site, d)) == Some(site)
  {
    var s := RenderJ(p, site, d);
    match p
    case Rootns => assert s[..7] == "rootns-" && s[7..10] == site;
    case RootnsEl => assert s[..9] == "rootns-el" && s[9..12] == site;
    case Nnn1 => assert s[..5] == "nnn1-" && s[5..8] == site;
  }

  // ---------------------------------------------------------------- k
  // /^.*?\.([a-z]{2}-[a-z]{3})\.k\.ripe\.net$/

  /** `[a-z]{2}-[a-z]{3}`, the site shape of rules k and l. */
  predicate PairSite(t: string) {
    |t| == 6 && LowerWord(t[..2], 2) && t[2] == '-' && LowerWord(t[3..], 3)
  }

  function RenderK(host: string, site: string): string {
    host + "." + site + KSuffix
  }

  function MatchK(s: string): (r: Option<string>)
    ensures r.Some? ==>
      && PairSite(r.value) && |s| >= 18 && NoLineTerminator(s[..|s| - 18])
      && s == RenderK(s[..|s| - 18], r.value)
  {
    if |s| >= 18 && EndsWith(s, KSuffix) && s[|s| - 18] == '.' && PairSite(s[|s| - 17..|s| - 11])
      && NoLineTerminator(s[..|s| - 18])
    then
      assert s == s[..|s| - 18] + "." + s[|s| - 17..|s| - 11] + s[|s| - 11..];
      Some(s[|s| - 17..|s| - 11])
    else
      None
  }

  lemma MatchKRender(host: string, site: string)
    requires NoLineTerminator(host) && PairSite(site)
    ensures MatchK(RenderK(host, site)) == Some(site)
  {
    var s := RenderK(host, site);
    assert s[..|s| - 18] == host;
    assert s[|s| - 17..|s| - 11] == site;
    assert s[|s| - 11..] == KSuffix;
  }

  // ---------------------------------------------------------------- l
  // /^([a-z]{2}-[a-z]{3})-[a-z]{2}$/

  function RenderL(site: string, tail: string): string {
    site + "-" + tail
  }

  function MatchL(s: string): (r: Option<string>)
    ensures r.Some? ==> PairSite(r.value) && |s| == 9 && LowerWord(s[7..], 2) && s == RenderL(r.value, s[7..])
  {
    if |s| == 9 && PairSite(s[..6]) && s[6] == '-' && LowerWord(s[7..], 2) then
      assert s == s[..6] + "-" + s[7..];
      Some(s[..6])
    else
      None
  }

  lemma MatchLRender(site: string, tail: string)
    requires PairSite(site) && LowerWord(tail, 2)
    ensures MatchL(RenderL(site, tail)) == Some(site)
  {
    var s := RenderL(site, tail);
    assert s[..6] == site && s[7..] == tail;
  }

  // ---------------------------------------------------------------- m
  // /^m-([a-z]{3})(-[a-z]+)?-\d$/

  /** The optional `-[a-z]+` between site code and instance digit, with its dash. */
  predicate MVariant(v: string) {
    v == [] || (|v| >= 2 && v[0] == '-' && AllLower(v[1..]))
  }

  function RenderM(site: string, variant: string, d: char): string {
    "m-" + site + variant + "-" + [d]
  }

  function MatchM(s: string): (r: Option<string>)
    ensures r.Some? ==>
      && LowerWord(r.value, 3) && |s| >= 7 && MVariant(s[5..|s| - 2]) && IsDigit(s[|s| - 1])
      && s == RenderM(r.value, s[5..|s| - 2], s[|s| - 1])
  {
    if |s| >= 7 && s[..2] == "m-" && LowerWord(s[2..5], 3) && MVariant(s[5..|s| - 2]) && s[|s| - 2] == '-'
      && IsDigit(s[|s| - 1])
    then
      assert s == s[..2] + s[2..5] + s[5..|s| - 2] + [s[|s| - 2]] + [s[|s| - 1]];
      Some(s[2..5])
    else
      None
  }

  lemma MatchMRender(site: string, variant: string, d: char)
    requires LowerWord(site, 3) && MVariant(variant) && IsDigit(d)
    ensures MatchM(RenderM(site, variant, d)) == Some(site)
  {
    var s := RenderM(site, variant, d);
    assert s[..2] == "m-" && s[2..5] == site && s[5..|s| - 2] == variant;
  }

  // ---------------------------------------------------------------- table

  /** A site code as every rule but g captures it: letters and dashes only. */
  predicate SiteCode(t: string) {
    3 <= |t| <= 6 && forall i :: 0 <= i < |t| ==> IsLower(t[i]) || t[i] == '-'
  }

  /** `regexes[letter].exec(hostname)`, reduced to its first capturing group. */
  function Extract(l: Letter, s: string): (r: Option<string>)
    ensures r.Some? ==> |r.value| < |s|
    ensures r.Some? && l != 'g' ==> SiteCode(r.value)
  {
    match l
    case 'a' => MatchA(s)
    case 'b' => MatchB(s)
    case 'c' => MatchC(s)
    case 'd' => MatchD(s)
    case 'e' => MatchE(s)
    case 'f' => MatchF(s)
    case 'g' => MatchG(s)
    case 'h' => MatchH(s)
    case 'i' => MatchI(s)
    case 'j' => MatchJ(s)
    case 'k' => MatchK(s)
    case 'l' => MatchL(s)
    case 'm' => MatchM(s)
  }
}
