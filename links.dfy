/** The link classifiers: whether a user-supplied string is a magnet URI, a
    URL, a Google Drive link, a Telegram link, a share-host link, or a bare
    Google Drive ID. Each pattern the bot matches with `re.match` is written
    out as a predicate over the places where its groups begin and end, one
    predicate per alternative of the pattern. */
module Links {
  import opened Text

  // ---------------------------------------------------------------------------
  // is_magnet

  const MagnetPrefix := "magnet:?"
  const BtihTopic := "xt=urn:btih:"
  const BtmhTopic := "xt=urn:btmh:"

  /** `[a-z2-7]`, the lower-case base32 alphabet */
  predicate IsBase32(c: char) { IsLower(c) || ('2' <= c <= '7') }

  /** `[a-zA-Z0-9]{n}` matches at `j`. */
  predicate AlnumRun(s: string, j: nat, n: nat) {
    j + n <= |s| && AllChars(s[j..j + n], IsAlnum)
  }

  /** `[a-zA-Z0-9]{32,40}` matches some stretch of `s` starting at `j`. */
  predicate AlnumHashAt(s: string, j: nat) {
    exists n: nat | 32 <= n <= 40 :: AlnumRun(s, j, n)
  }

  /** `[a-z2-7]{32}` matches at `j`. */
  predicate Base32HashAt(s: string, j: nat) {
    j + 32 <= |s| && AllChars(s[j..j + 32], IsBase32)
  }

  /** `xt=urn:(btih|btmh):(...)` matches at `i`. */
  predicate ExactTopicAt(s: string, i: nat) {
    && (OccursAt(s, BtihTopic, i) || OccursAt(s, BtmhTopic, i))
    && (AlnumHashAt(s, i + |BtihTopic|) || Base32HashAt(s, i + |BtihTopic|))
  }

  /** The leading `.*` covers `s[8..i]` and the exact topic starts at `i`. */
  predicate MagnetSplit(s: string, i: nat) {
    |MagnetPrefix| <= i <= |s| && DotStar(s[|MagnetPrefix|..i]) && ExactTopicAt(s, i)
  }

  /** `^magnet:\?.*xt=urn:(btih|btmh):([a-zA-Z0-9]{32,40}|[a-z2-7]{32}).*`
      under `re.match`; the trailing `.*` may match nothing, so it adds no
      condition. */
  function IsMagnet(s: string): (r: bool)
    ensures r ==> StartsWith(s, MagnetPrefix)
    ensures r ==> |s| >= |MagnetPrefix| + |BtihTopic| + 32
  {
    StartsWith(s, MagnetPrefix) && exists i: nat | i <= |s| :: MagnetSplit(s, i)
  }

  /** A BitTorrent v1 or v2 exact topic at `i`, on the first line after
      `magnet:?`, followed by 32 ASCII letters or digits. */
  predicate TopicWithHash(s: string, i: nat) {
    && |MagnetPrefix| <= i && i + |BtihTopic| + 32 <= |s|
    && DotStar(s[|MagnetPrefix|..i])
    && (OccursAt(s, BtihTopic, i) || OccursAt(s, BtmhTopic, i))
    && AllChars(s[i + |BtihTopic|..i + |BtihTopic| + 32], IsAlnum)
  }

  /** The plain reading of the magnet pattern: `magnet:?`, then somewhere on
      the same line an exact topic followed by at least 32 letters or digits. */
  predicate MagnetByAlnum(s: string) {
    StartsWith(s, MagnetPrefix) && exists i: nat | i <= |s| :: TopicWithHash(s, i)
  }

  /** Every base32 character is an ASCII letter or digit, so the second hash
      alternative never accepts anything the first does not. */
  lemma Base32HashSubsumed(s: string, j: nat)
    requires Base32HashAt(s, j)
    ensures AlnumHashAt(s, j)
  {
    assert AlnumRun(s, j, 32);
  }

  /** The two hash alternatives together accept exactly "32 letters or digits
      follow"; the upper bound 40 is no restriction, as the trailing `.*`
      takes whatever follows. */
  lemma HashAlternatives(s: string, j: nat)
    ensures (AlnumHashAt(s, j) || Base32HashAt(s, j)) <==> AlnumRun(s, j, 32)
  {
    if AlnumHashAt(s, j) {
      var n: nat :| 32 <= n <= 40 && AlnumRun(s, j, n);
      AllCharsSlice(s[j..j + n], IsAlnum, 0, 32);
      assert s[j..j + n][0..32] == s[j..j + 32];
    } else if Base32HashAt(s, j) {
      Base32HashSubsumed(s, j);
    }
  }

  lemma MagnetCharacterization(s: string)
    ensures IsMagnet(s) <==> MagnetByAlnum(s)
  {
    if IsMagnet(s) {
      var i: nat :| i <= |s| && MagnetSplit(s, i);
      HashAlternatives(s, i + |BtihTopic|);
      assert TopicWithHash(s, i);
    }
    if MagnetByAlnum(s) {
      var i: nat :| i <= |s| && TopicWithHash(s, i);
      HashAlternatives(s, i + |BtihTopic|);
      assert MagnetSplit(s, i);
    }
  }

  /** Any `magnet:?` line with an exact topic and a 32-character hash in it
      is accepted, whatever follows the hash. */
  lemma MagnetFromParts(pre: string, topic: string, hash: string, post: string)
    requires topic == BtihTopic || topic == BtmhTopic
    requires StartsWith(pre, MagnetPrefix) && DotStar(pre[|MagnetPrefix|..])
    requires |hash| == 32 && AllChars(hash, IsAlnum)
    ensures IsMagnet(pre + topic + hash + post)
  {
    var q, u := pre + topic, hash + post;
    var s, i := q + u, |pre|;
    assert s == pre + topic + hash + post;
    assert OccursAt(s, topic, i) by {
      OccursInContext(pre, topic, u, topic, 0);
    }
    assert AlnumRun(s, |q|, 32) by {
      SliceAfterPrefix(q, u, 0, 32);
      assert u[0..32] == hash;
    }
    assert StartsWith(s, MagnetPrefix) && DotStar(s[|MagnetPrefix|..i]) by {
      assert s == pre + (topic + u);
      SliceOfPrefix(pre, topic + u, |MagnetPrefix|, i);
      SliceOfPrefix(pre, topic + u, 0, |MagnetPrefix|);
    }
    assert MagnetSplit(s, i);
  }

  /** Thirty-two `A`s, a hash in the alphanumeric form. */
  const HashA32: string := seq(32, _ => 'A')
  /** Thirty-two characters of the base32 alphabet. */
  const Base32Sample := "abcdefghijklmnopqrstuvwxyz234567"

  lemma MagnetExamplesAccepted()
    ensures IsMagnet(MagnetPrefix + BtihTopic + HashA32 + "&dn=x")
    ensures IsMagnet(MagnetPrefix + "dn=x&" + BtmhTopic + Base32Sample + "&tr=y")
  {
    assert MagnetPrefix[|MagnetPrefix|..] == [];
    MagnetFromParts(MagnetPrefix, BtihTopic, HashA32, "&dn=x");
    var pre := MagnetPrefix + "dn=x&";
    SliceOfPrefix(MagnetPrefix, "dn=x&", 0, 8);
    assert pre[8..] == "dn=x&";
    AllCharsBetween(Base32Sample, IsAlnum, 0, 32);
    MagnetFromParts(pre, BtmhTopic, Base32Sample, "&tr=y");
  }

  lemma MagnetExamplesRejected()
    ensures !IsMagnet("magnet:?xt=urn:btih:short")
    ensures !IsMagnet("https://example.com/?xt=urn:btih:" + HashA32)
  {
    var s := "https://example.com/?xt=urn:btih:" + HashA32;
    assert s[0] != MagnetPrefix[0];
    StartsWithOccurs(s, MagnetPrefix);
    NotOccursAt(s, MagnetPrefix, 0, 0);
  }

  // ---------------------------------------------------------------------------
  // is_url

  const UrlSchemes: seq<string> :=
    ["rtmp://", "rtmps://", "mms://", "rtsp://", "http://", "https://", "ftp://"]

  /** `[^/:]` */
  predicate IsUserChar(c: char) { c != '/' && c != ':' }
  /** `[^/@]` */
  predicate IsPasswordChar(c: char) { c != '/' && c != '@' }
  /** `[^/:\s]` */
  predicate IsHostChar(c: char) { c != '/' && c != ':' && !IsSpace(c) }
  /** `[^#\s]` */
  predicate IsQueryChar(c: char) { c != '#' && !IsSpace(c) }

  /** `(rtmps?://|mms://|rtsp://|https?://|ftp://)?` matches `s[..a]`. */
  predicate SchemeSpan(s: string, a: nat) {
    a == 0 || exists k | 0 <= k < |UrlSchemes| :: a == |UrlSchemes[k]| && StartsWith(s, UrlSchemes[k])
  }

  /** `[^/:]+:[^/@]+@` matches `s[a..b]` with its colon at `m`. */
  predicate CredentialsSplit(s: string, a: nat, b: nat, m: nat) {
    && a < m && m + 2 < b <= |s|
    && s[m] == ':' && s[b - 1] == '@'
    && AllChars(s[a..m], IsUserChar) && AllChars(s[m + 1..b - 1], IsPasswordChar)
  }

  /** `([^/:]+:[^/@]+@)?` matches `s[a..b]`. */
  predicate CredentialsSpan(s: string, a: nat, b: nat) {
    a == b || exists m: nat | m <= b :: CredentialsSplit(s, a, b, m)
  }

  /** `(www\.)?` matches `s[b..c]`. */
  predicate WwwSpan(s: string, b: nat, c: nat) {
    c == b || (c == b + 4 && OccursAt(s, "www.", b))
  }

  /** `[^/:\s]+\.[^/:\s]+` matches `s[c..d]`. The lookahead in front of this
      group tests the same pattern at the same place, so it adds nothing. */
  predicate HostSpan(s: string, c: nat, d: nat) {
    c <= d <= |s| && AllChars(s[c..d], IsHostChar) && exists k: nat | c < k < d - 1 :: s[k] == '.'
  }

  /** `(:\d+)?` matches `s[d..e]`. */
  predicate PortSpan(s: string, d: nat, e: nat) {
    d == e || (d + 1 < e <= |s| && s[d] == ':' && AllChars(s[d + 1..e], IsDigit))
  }

  /** `(\?[^#\s]*)?` matches `t[..q]` and `(#.*)?` matches `t[q..]`. */
  predicate QueryFragmentSplit(t: string, q: nat) {
    && q <= |t|
    && (q == 0 || (t[0] == '?' && AllChars(t[1..q], IsQueryChar)))
    && (q == |t| || (t[q] == '#' && DotStar(t[q + 1..])))
  }

  /** `(\?[^#\s]*)?(#.*)?` matches all of `t`. */
  predicate QueryFragment(t: string) {
    exists q: nat | q <= |t| :: QueryFragmentSplit(t, q)
  }

  /** `(/[^#\s]*[\s\S]*)?(\?[^#\s]*)?(#.*)?$` matches all of `t`: a path,
      once it starts, takes every character up to the end. */
  predicate UrlTail(t: string) {
    (|t| > 0 && t[0] == '/') || MatchesToEnd(t, QueryFragment)
  }

  /** One way of reading `s` as scheme, credentials, `www.`, host, port and
      tail, the groups ending at `a`, `b`, `c`, `d` and `e`. */
  predicate UrlParse(s: string, a: nat, b: nat, c: nat, d: nat, e: nat) {
    && a <= b <= c <= d <= e <= |s|
    && SchemeSpan(s, a)
    && CredentialsSpan(s, a, b)
    && WwwSpan(s, b, c)
    && HostSpan(s, c, d)
    && PortSpan(s, d, e)
    && UrlTail(s[e..])
  }

  /** The `is_url` pattern: `(?!/)` and then some reading of the groups. */
  function IsUrl(s: string): (r: bool)
    ensures r ==> |s| >= 3 && s[0] != '/'
  {
    && !StartsWith(s, "/")
    && exists a: nat, b: nat, c: nat, d: nat, e: nat
         | a <= |s| && b <= |s| && c <= |s| && d <= |s| && e <= |s| :: UrlParse(s, a, b, c, d, e)
  }

  /** A dot inside a host has host text on both sides. */
  predicate DottedAt(s: string, k: nat) {
    0 < k < |s| - 1 && s[k] == '.' && IsHostChar(s[k - 1]) && IsHostChar(s[k + 1])
  }

  lemma HostHasDot(s: string, c: nat, d: nat)
    requires c <= d <= |s| && HostSpan(s, c, d)
    ensures exists k: nat | k < |s| :: DottedAt(s, k)
  {
    var k: nat :| c < k < d - 1 && s[k] == '.';
    assert s[c..d][k - 1 - c] == s[k - 1];
    assert s[c..d][k + 1 - c] == s[k + 1];
    assert DottedAt(s, k);
  }

  /** Every accepted URL has a dot with host text on both sides of it. */
  lemma UrlHasDottedHost(s: string)
    ensures IsUrl(s) ==> exists k: nat | k < |s| :: DottedAt(s, k)
  {
    forall a: nat, b: nat, c: nat, d: nat, e: nat | UrlParse(s, a, b, c, d, e)
      ensures exists k: nat | k < |s| :: DottedAt(s, k)
    {
      HostHasDot(s, c, d);
    }
  }

  /** Dropping the `www.` group from a reading: `www.` is host text too. */
  lemma WwwIntoHost(s: string, a: nat, b: nat, d: nat, e: nat)
    requires UrlParse(s, a, b, b + 4, d, e)
    ensures UrlParse(s, a, b, b, d, e)
  {
    assert OccursAt(s, "www.", b);
    assert HostSpan(s, b + 4, d);
    forall i | b <= i < d
      ensures IsHostChar(s[i])
    {
      if i < b + 4 {
        assert s[i] == s[b..b + 4][i - b];
      } else {
        assert s[i] == s[b + 4..d][i - b - 4];
      }
    }
    AllCharsBetween(s, IsHostChar, b, d);
    assert s[b + 3] == s[b..b + 4][3] == '.';
    assert HostSpan(s, b, d);
  }

  /** No scheme starts with `u`. */
  lemma NoSchemeBeforeU(s: string, a: nat)
    requires |s| > 0 && s[0] == 'u' && SchemeSpan(s, a)
    ensures a == 0
  {
  }

  /** After `u:@` the credentials group can only be empty: the user name
      ends at the first colon and the password may not start with `@`. */
  lemma NoCredentialsBeforeEmptyPassword(s: string, b: nat)
    requires |s| > 2 && s[1] == ':' && s[2] == '@' && CredentialsSpan(s, 0, b)
    ensures b == 0
  {
  }

  /** A host starting at 0 cannot cross the colon at 1. */
  lemma NoHostAcrossColon(s: string, d: nat)
    requires |s| > 1 && s[1] == ':'
    ensures !HostSpan(s, 0, d)
  {
  }

  /** Credentials need a password of at least one character: `u:@host` is
      no URL, since without the credentials group the host stops at `:`. */
  lemma EmptyPasswordRejected()
    ensures !IsUrl("u:@example.com")
  {
    var s := "u:@example.com";
    assert s[0] == 'u' && s[1] == ':' && s[2] == '@' && s[3] == 'e';
    forall a: nat, b: nat, c: nat, d: nat, e: nat | UrlParse(s, a, b, c, d, e)
      ensures false
    {
      NoSchemeBeforeU(s, a);
      NoCredentialsBeforeEmptyPassword(s, b);
      NoHostAcrossColon(s, d);
    }
  }

  /** The optional `www.` group never decides acceptance. */
  lemma UrlWwwRedundant(s: string)
    ensures IsUrl(s) <==> !StartsWith(s, "/") && exists a: nat, b: nat, d: nat, e: nat
                            | a <= |s| && b <= |s| && d <= |s| && e <= |s| :: UrlParse(s, a, b, b, d, e)
  {
    forall a: nat, b: nat, c: nat, d: nat, e: nat | UrlParse(s, a, b, c, d, e)
      ensures UrlParse(s, a, b, b, d, e)
    {
      if c != b {
        WwwIntoHost(s, a, b, d, e);
      }
    }
  }

  // Readings carry over to any string holding the same text, shifted.

  lemma CredentialsShift(s: string, t: string, off: nat, a: nat, b: nat)
    requires Agree(s, t, off, a, b) && CredentialsSpan(s, a, b)
    ensures CredentialsSpan(t, off + a, off + b)
  {
    if a != b {
      var m: nat :| m <= b && CredentialsSplit(s, a, b, m);
      AgreeNarrow(s, t, off, a, b, a, m);
      AgreeSlice(s, t, off, a, m);
      AgreeNarrow(s, t, off, a, b, m + 1, b - 1);
      AgreeSlice(s, t, off, m + 1, b - 1);
      assert t[off + m] == s[m] && t[off + b - 1] == s[b - 1];
      assert CredentialsSplit(t, off + a, off + b, off + m);
    }
  }

  lemma WwwShift(s: string, t: string, off: nat, b: nat, c: nat)
    requires Agree(s, t, off, b, c) && WwwSpan(s, b, c)
    ensures WwwSpan(t, off + b, off + c)
  {
    if c != b {
      AgreeSlice(s, t, off, b, c);
    }
  }

  lemma HostShift(s: string, t: string, off: nat, c: nat, d: nat)
    requires Agree(s, t, off, c, d) && HostSpan(s, c, d)
    ensures off + c <= off + d <= |t| && HostSpan(t, off + c, off + d)
  {
    AgreeSlice(s, t, off, c, d);
    var k: nat :| c < k < d - 1 && s[k] == '.';
    assert t[off + k] == '.';
  }

  lemma PortShift(s: string, t: string, off: nat, d: nat, e: nat)
    requires Agree(s, t, off, d, e) && PortSpan(s, d, e)
    ensures off + d <= off + e <= |t| && PortSpan(t, off + d, off + e)
  {
    if d != e {
      AgreeNarrow(s, t, off, d, e, d + 1, e);
      AgreeSlice(s, t, off, d + 1, e);
      assert t[off + d] == ':';
    }
  }

  /** The groups between the scheme and the tail read the same in any `t`
      that holds the same text, shifted by `off`; in `t` they end at `a'`,
      ..., `e'`, each `off` past its counterpart in `s`. */
  lemma GroupsShift(s: string, t: string, off: nat, a: nat, b: nat, c: nat, d: nat, e: nat,
                    a': nat, b': nat, c': nat, d': nat, e': nat)
    requires a' == off + a && b' == off + b && c' == off + c && d' == off + d && e' == off + e
    requires a <= b <= c <= d <= e
    requires Agree(s, t, off, a, e)
    requires CredentialsSpan(s, a, b) && WwwSpan(s, b, c) && HostSpan(s, c, d) && PortSpan(s, d, e)
    ensures CredentialsSpan(t, a', b') && WwwSpan(t, b', c') && HostSpan(t, c', d') && PortSpan(t, d', e')
  {
    AgreeNarrow(s, t, off, a, e, a, b);
    CredentialsShift(s, t, off, a, b);
    AgreeNarrow(s, t, off, a, e, b, c);
    WwwShift(s, t, off, b, c);
    AgreeNarrow(s, t, off, a, e, c, d);
    HostShift(s, t, off, c, d);
    AgreeNarrow(s, t, off, a, e, d, e);
    PortShift(s, t, off, d, e);
  }

  /** A reading of `s` carries over to `t` when `t` holds the text from the
      credentials to the port shifted by `off`, with a scheme before it and
      a well-formed tail after it. */
  lemma ParseShift(s: string, t: string, off: nat, a: nat, b: nat, c: nat, d: nat, e: nat,
                   a': nat, b': nat, c': nat, d': nat, e': nat)
    requires a' == off + a && b' == off + b && c' == off + c && d' == off + d && e' == off + e
    requires UrlParse(s, a, b, c, d, e)
    requires Agree(s, t, off, a, e)
    requires SchemeSpan(t, a') && UrlTail(t[e'..])
    ensures UrlParse(t, a', b', c', d', e')
  {
    GroupsShift(s, t, off, a, b, c, d, e, a', b', c', d', e');
  }

  /** A scheme prefix stays one when text is appended. */
  lemma SchemeExtends(s: string, u: string, a: nat)
    requires SchemeSpan(s, a)
    ensures SchemeSpan(s + u, a)
  {
    if a != 0 {
      var j :| 0 <= j < |UrlSchemes| && a == |UrlSchemes[j]| && StartsWith(s, UrlSchemes[j]);
      SliceOfPrefix(s, u, 0, a);
    }
  }

  /** A reading that leaves the scheme group empty stays a reading, and the
      string a URL, under any of the accepted schemes. */
  lemma UrlAcceptsScheme(s: string, k: nat, b: nat, c: nat, d: nat, e: nat)
    requires k < |UrlSchemes|
    requires UrlParse(s, 0, b, c, d, e)
    ensures IsUrl(UrlSchemes[k] + s)
  {
    var p := UrlSchemes[k];
    PrefixOfConcat(p, s);
    SchemeNotSlash(k);
    var t, n := p + s, |p|;
    UrlUnderPrefix(p, s, t, n, b, c, d, e, n + b, n + c, n + d, n + e);
  }

  lemma SchemeNotSlash(k: nat)
    requires k < |UrlSchemes|
    ensures |UrlSchemes[k]| > 0 && UrlSchemes[k][0] != '/'
  {
  }

  lemma UrlUnderPrefix(p: string, s: string, t: string, n: nat, b: nat, c: nat, d: nat, e: nat,
                       b': nat, c': nat, d': nat, e': nat)
    requires t == p + s && n == |p|
    requires b' == n + b && c' == n + c && d' == n + d && e' == n + e
    requires UrlParse(s, 0, b, c, d, e)
    requires SchemeSpan(t, n) && |p| > 0 && p[0] != '/'
    ensures IsUrl(t)
  {
    assert t[0] == p[0];
    StartsWithChar(t, '/');
    ParseUnderPrefix(p, s, t, n, b, c, d, e, b', c', d', e');
  }

  /** The groups after the scheme read the same behind any prefix that the
      scheme group matches. */
  lemma ParseUnderPrefix(p: string, s: string, t: string, n: nat, b: nat, c: nat, d: nat, e: nat,
                         b': nat, c': nat, d': nat, e': nat)
    requires t == p + s && n == |p|
    requires b' == n + b && c' == n + c && d' == n + d && e' == n + e
    requires UrlParse(s, 0, b, c, d, e)
    requires SchemeSpan(t, n)
    ensures UrlParse(t, n, b', c', d', e')
  {
    SuffixAfterPrefix(p, s, e);
    AgreeAfterPrefix(p, s);
    AgreeNarrow(s, t, n, 0, |s|, 0, e);
    ParseShift(s, t, n, 0, b, c, d, e, n, b', c', d', e');
  }

  /** A reading of `s` is a reading of any `s + u` whose tail from the end
      of the port on is well formed. */
  lemma ParseExtends(s: string, u: string, a: nat, b: nat, c: nat, d: nat, e: nat)
    requires UrlParse(s, a, b, c, d, e)
    requires UrlTail((s + u)[e..])
    ensures UrlParse(s + u, a, b, c, d, e)
  {
    SchemeExtends(s, u, a);
    AgreeBeforeSuffix(s, u);
    AgreeNarrow(s, s + u, 0, 0, |s|, a, e);
    ParseShift(s, s + u, 0, a, b, c, d, e, a, b, c, d, e);
  }

  /** A URL that ends right after its host (or port) accepts any path. */
  lemma UrlAcceptsPath(s: string, a: nat, b: nat, c: nat, d: nat, p: string)
    requires UrlParse(s, a, b, c, d, |s|)
    requires !StartsWith(s, "/")
    ensures IsUrl(s + ("/" + p))
  {
    var t := s + ("/" + p);
    DropPrefix(s, "/" + p);
    ParseExtends(s, "/" + p, a, b, c, d, |s|);
    StartsWithChar(s, '/');
    assert t[0] == s[0];
    StartsWithChar(t, '/');
  }

  lemma BareHostReading()
    ensures UrlParse("example.com", 0, 0, 0, 11, 11)
  {
    var s := "example.com";
    AllCharsBetween(s, IsHostChar, 0, 11);
    assert s[7] == '.';
    assert QueryFragmentSplit(s[11..], 0);
  }

  lemma UrlExampleBareHost()
    ensures IsUrl("example.com")
    ensures !IsUrl("/just/a/path")
  {
    BareHostReading();
    StartsWithChar("example.com", '/');
    StartsWithChar("/just/a/path", '/');
  }

  lemma UrlExampleWithPath()
    ensures IsUrl(UrlSchemes[5] + "example.com" + ("/" + "path?q=1#frag"))
  {
    var h := "example.com";
    var p := UrlSchemes[5];
    BareHostReading();
    PrefixOfConcat(p, h);
    assert SchemeSpan(p + h, |p|);
    assert |p| == 8 && |p + h| == 19;
    ParseUnderPrefix(p, h, p + h, 8, 0, 0, 11, 11, 8, 8, 19, 19);
    assert (p + h)[0] == p[0];
    StartsWithChar(p + h, '/');
    UrlAcceptsPath(p + h, 8, 8, 8, 19, "path?q=1#frag");
  }

  /** A URL with credentials, `www.`, a port, a query and a fragment. */
  const FullSample := "u:p@www.a.io:21?x#y"

  lemma FullSampleCredentials()
    ensures CredentialsSpan(FullSample, 0, 4) && WwwSpan(FullSample, 4, 8)
  {
    var s := FullSample;
    AllCharsBetween(s, IsUserChar, 0, 1);
    AllCharsBetween(s, IsPasswordChar, 2, 3);
    assert CredentialsSplit(s, 0, 4, 1);
    OccursAtEach(s, "www.", 4);
  }

  lemma FullSampleHost()
    ensures HostSpan(FullSample, 8, 12) && PortSpan(FullSample, 12, 15)
  {
    var s := FullSample;
    AllCharsBetween(s, IsHostChar, 8, 12);
    assert s[9] == '.';
    AllCharsBetween(s, IsDigit, 13, 15);
  }

  lemma FullSampleTail()
    ensures UrlTail(FullSample[15..])
  {
    var tail := FullSample[15..];
    assert tail == "?x#y";
    AllCharsBetween(tail, IsQueryChar, 1, 2);
    AllCharsBetween(tail, IsDotChar, 3, 4);
    assert QueryFragmentSplit(tail, 2);
  }

  lemma UrlExampleFull()
    ensures IsUrl(FullSample)
    ensures IsUrl(UrlSchemes[6] + FullSample)
  {
    FullSampleCredentials();
    FullSampleHost();
    FullSampleTail();
    assert UrlParse(FullSample, 0, 4, 8, 12, 15);
    StartsWithChar(FullSample, '/');
    UrlAcceptsScheme(FullSample, 6, 4, 8, 12, 15);
  }

  // ---------------------------------------------------------------------------
  // is_gdrive_link

  const DriveHost := "drive.google.com"
  const DriveContentHost := "drive.usercontent.google.com"

  /** `"drive.google.com" in url or "drive.usercontent.google.com" in url` */
  function IsGdriveLink(s: string): (r: bool)
    ensures r ==> |s| >= |DriveHost|
  {
    Contains(s, DriveHost) || Contains(s, DriveContentHost)
  }

  /** A substring test: text around a Drive link keeps it a Drive link. */
  lemma GdriveLinkInContext(p: string, s: string, q: string)
    requires IsGdriveLink(s)
    ensures IsGdriveLink(p + s + q)
  {
    if Contains(s, DriveHost) {
      var i: nat :| i <= |s| && OccursAt(s, DriveHost, i);
      OccursInContext(p, s, q, DriveHost, i);
    } else {
      var i: nat :| i <= |s| && OccursAt(s, DriveContentHost, i);
      OccursInContext(p, s, q, DriveContentHost, i);
    }
  }

  /** Neither host name contains the other, so both tests are needed. */
  lemma GdriveHostsIndependent()
    ensures IsGdriveLink(DriveContentHost) && !Contains(DriveContentHost, DriveHost)
    ensures IsGdriveLink(DriveHost) && !Contains(DriveHost, DriveContentHost)
  {
    assert OccursAt(DriveContentHost, DriveContentHost, 0);
    assert OccursAt(DriveHost, DriveHost, 0);
    forall i: nat | i <= |DriveContentHost|
      ensures !OccursAt(DriveContentHost, DriveHost, i)
    {
      // the only `d` of the longer name is its first letter, and the text
      // after its `drive.` is not `google`
      if i == 0 {
        NotOccursAt(DriveContentHost, DriveHost, 0, 6);
      } else {
        NotOccursAt(DriveContentHost, DriveHost, i, 0);
      }
    }
  }

  lemma GdriveLinkExamples()
    ensures IsGdriveLink("https://drive.google.com/file/d/x")
    ensures !IsGdriveLink("https://example.com")
  {
    OccursAtEach("https://drive.google.com/file/d/x", DriveHost, 8);
    var s := "https://example.com";
    forall i: nat | i <= |s|
      ensures !OccursAt(s, DriveHost, i)
    {
      NotOccursAt(s, DriveHost, i, 0);
    }
  }

  // ---------------------------------------------------------------------------
  // is_telegram_link

  const TelegramPrefixes: seq<string> := ["https://t.me/", "tg://openmessage?user_id="]

  /** `url.startswith(("https://t.me/", "tg://openmessage?user_id="))` */
  function IsTelegramLink(s: string): (r: bool)
    ensures r ==> |s| >= |TelegramPrefixes[0]| && (s[0] == 'h' || s[0] == 't')
  {
    StartsWith(s, TelegramPrefixes[0]) || StartsWith(s, TelegramPrefixes[1])
  }

  /** A prefix test: whatever follows a Telegram link's prefix is accepted. */
  lemma TelegramLinkExtends(s: string, t: string)
    requires IsTelegramLink(s)
    ensures IsTelegramLink(s + t)
  {
    var p := if StartsWith(s, TelegramPrefixes[0]) then TelegramPrefixes[0] else TelegramPrefixes[1];
    SliceOfPrefix(s, t, 0, |p|);
  }

  /** A Telegram link is never taken for a magnet link. */
  lemma TelegramLinkNotMagnet(s: string)
    requires IsTelegramLink(s)
    ensures !IsMagnet(s)
  {
    if StartsWith(s, TelegramPrefixes[0]) {
      assert s[0] == s[..13][0] == 'h';
    } else {
      assert s[0] == s[..25][0] == 't';
    }
    assert s[0] != MagnetPrefix[0];
    assert !StartsWith(s, MagnetPrefix) by {
      if |s| >= 8 {
        assert s[..8][0] == s[0];
      }
    }
  }

  lemma TelegramLinkExamples()
    ensures IsTelegramLink("https://t.me/c/123/45")
    ensures IsTelegramLink("tg://openmessage?user_id=42")
    ensures !IsTelegramLink("http://t.me/c/123/45")
  {
    OccursAtEach("https://t.me/c/123/45", TelegramPrefixes[0], 0);
    OccursAtEach("tg://openmessage?user_id=42", TelegramPrefixes[1], 0);
    NotOccursAt("http://t.me/c/123/45", TelegramPrefixes[0], 0, 4);
    NotOccursAt("http://t.me/c/123/45", TelegramPrefixes[1], 0, 0);
  }

  // ---------------------------------------------------------------------------
  // is_share_link

  const ShareHosts: seq<string> := ["filepress", "filebee", "appdrive", "gdflix"]
  const GdtotLabel := ".gdtot."

  /** `https?://` matches `s[..a]`. */
  predicate HttpSchemeSpan(s: string, a: nat) {
    (a == 7 && StartsWith(s, "http://")) || (a == 8 && StartsWith(s, "https://"))
  }

  /** `.+` covers `s[a..i]`, then `\.gdtot\.` and one `\S`. */
  predicate GdtotSplit(s: string, a: nat, i: nat) {
    && a < i && i + |GdtotLabel| < |s|
    && DotStar(s[a..i]) && OccursAt(s, GdtotLabel, i) && !IsSpace(s[i + |GdtotLabel|])
  }

  /** `.+\.gdtot\.\S+` matches from `a` on (no end anchor, so one
      non-space character after the label is enough). */
  predicate GdtotAt(s: string, a: nat) {
    exists i: nat | i <= |s| :: GdtotSplit(s, a, i)
  }

  /** Host `ShareHosts[k]`, a dot and one `\S` from `a` on. */
  predicate ShareHostSplit(s: string, a: nat, k: nat) {
    && k < |ShareHosts|
    && OccursAt(s, ShareHosts[k] + ".", a)
    && a + |ShareHosts[k]| + 1 < |s|
    && !IsSpace(s[a + |ShareHosts[k]| + 1])
  }

  /** `(filepress|filebee|appdrive|gdflix)\.\S+` matches from `a` on. */
  predicate ShareHostAt(s: string, a: nat) {
    exists k: nat | k < |ShareHosts| :: ShareHostSplit(s, a, k)
  }

  /** `https?://.+\.gdtot\.\S+|https?://(filepress|filebee|appdrive|gdflix)\.\S+`
      under `re.match` */
  function IsShareLink(s: string): (r: bool)
    ensures r ==> StartsWith(s, "http://") || StartsWith(s, "https://")
  {
    exists a: nat | a <= 8 :: HttpSchemeSpan(s, a) && (GdtotAt(s, a) || ShareHostAt(s, a))
  }

  lemma GdtotExtends(s: string, t: string, a: nat)
    requires GdtotAt(s, a)
    ensures GdtotAt(s + t, a)
  {
    var i: nat :| i <= |s| && GdtotSplit(s, a, i);
    SliceOfPrefix(s, t, a, i);
    SliceOfPrefix(s, t, i, i + |GdtotLabel|);
    assert (s + t)[i + |GdtotLabel|] == s[i + |GdtotLabel|];
    assert GdtotSplit(s + t, a, i);
  }

  lemma ShareHostExtends(s: string, t: string, a: nat)
    requires ShareHostAt(s, a)
    ensures ShareHostAt(s + t, a)
  {
    var k: nat :| k < |ShareHosts| && ShareHostSplit(s, a, k);
    var n := |ShareHosts[k]| + 1;
    SliceOfPrefix(s, t, a, a + n);
    assert (s + t)[a + n] == s[a + n];
    assert ShareHostSplit(s + t, a, k);
  }

  /** The pattern is anchored only at the start, so anything may follow a
      share link. */
  lemma ShareLinkExtends(s: string, t: string)
    requires IsShareLink(s)
    ensures IsShareLink(s + t)
  {
    var a: nat :| a <= 8 && HttpSchemeSpan(s, a) && (GdtotAt(s, a) || ShareHostAt(s, a));
    SliceOfPrefix(s, t, 0, a);
    assert HttpSchemeSpan(s + t, a);
    if GdtotAt(s, a) {
      GdtotExtends(s, t, a);
    } else {
      ShareHostExtends(s, t, a);
    }
  }

  lemma ShareLinkExamples()
    ensures IsShareLink("https://new.gdtot.dad/file/123")
    ensures IsShareLink("http://gdflix.xyz/file/abc")
    ensures !IsShareLink("ftp://new.gdtot.dad/file/123")
  {
    var s1 := "https://new.gdtot.dad/file/123";
    AllCharsBetween(s1, IsDotChar, 8, 11);
    OccursAtEach(s1, GdtotLabel, 11);
    assert GdtotSplit(s1, 8, 11);
    OccursAtEach(s1, "https://", 0);
    assert HttpSchemeSpan(s1, 8);

    var s2 := "http://gdflix.xyz/file/abc";
    OccursAtEach(s2, ShareHosts[3] + ".", 7);
    assert ShareHostSplit(s2, 7, 3);
    OccursAtEach(s2, "http://", 0);
    assert HttpSchemeSpan(s2, 7);

    var s3 := "ftp://new.gdtot.dad/file/123";
    NotOccursAt(s3, "http://", 0, 0);
    NotOccursAt(s3, "https://", 0, 0);
  }

  // ---------------------------------------------------------------------------
  // is_gdrive_id

  /** `[a-zA-Z0-9_-]` */
  predicate IsIdChar(c: char) { IsAlnum(c) || c == '_' || c == '-' }

  /** `(?:[a-zA-Z0-9-_]{33}|[a-zA-Z0-9_-]{19})`: both classes are the same
      set, since a `-` right after a range in a class is a literal hyphen. */
  predicate IdToken(t: string) {
    (|t| == 33 || |t| == 19) && AllChars(t, IsIdChar)
  }

  const IdPrefixes: seq<string> := ["", "tp:", "sa:", "mtp:"]
  const RootIds: seq<string> := ["root", "tp:root", "mtp:root"]

  /** `(tp:|sa:|mtp:)?` takes `IdPrefixes[k]` and the token follows. */
  predicate PrefixedToken(t: string, k: nat) {
    k < |IdPrefixes| && StartsWith(t, IdPrefixes[k]) && IdToken(t[|IdPrefixes[k]|..])
  }

  /** The three alternatives of the pattern without their `^` and `$`:
      `(tp:|sa:|mtp:)?token`, `gdl`, `(tp:|mtp:)?root`. */
  predicate BareGdriveId(t: string) {
    || (exists k: nat | k < |IdPrefixes| :: PrefixedToken(t, k))
    || t == "gdl"
    || t in RootIds
  }

  /** `^(tp:|sa:|mtp:)?(?:[a-zA-Z0-9-_]{33}|[a-zA-Z0-9_-]{19})$|^gdl$|^(tp:|mtp:)?root$`:
      every alternative carries its own `^` and `$`, and `$` also accepts a
      final line feed. */
  function IsGdriveId(s: string): (r: bool)
    ensures r ==> 3 <= |s| <= 38
  {
    MatchesToEnd(s, BareGdriveId)
  }

  /** The accepted identifiers, sorted by length: the literals, a bare token,
      or a token behind a credential prefix. */
  predicate GdriveIdByLength(t: string) {
    || t in {"gdl", "root", "tp:root", "mtp:root"}
    || ((|t| == 19 || |t| == 33) && AllChars(t, IsIdChar))
    || ((|t| == 22 || |t| == 36) && (t[..3] == "tp:" || t[..3] == "sa:") && AllChars(t[3..], IsIdChar))
    || ((|t| == 23 || |t| == 37) && t[..4] == "mtp:" && AllChars(t[4..], IsIdChar))
  }

  lemma GdriveIdShapes(t: string)
    ensures BareGdriveId(t) <==> GdriveIdByLength(t)
  {
    if BareGdriveId(t) && !(t == "gdl" || t in RootIds) {
      var k: nat :| k < |IdPrefixes| && PrefixedToken(t, k);
      assert k == 0 ==> t[0..] == t;
    }
    if GdriveIdByLength(t) && !(t in {"gdl", "root", "tp:root", "mtp:root"}) {
      if |t| == 19 || |t| == 33 {
        assert t[0..] == t;
        assert PrefixedToken(t, 0);
      } else if |t| == 22 || |t| == 36 {
        if t[..3] == "tp:" {
          assert PrefixedToken(t, 1);
        } else {
          assert PrefixedToken(t, 2);
        }
      } else {
        assert PrefixedToken(t, 3);
      }
    }
  }

  /** No identifier ends in a line feed. */
  lemma BareGdriveIdNoNewline(t: string)
    requires |t| > 0 && t[|t| - 1] == '\n'
    ensures !BareGdriveId(t)
  {
    GdriveIdShapes(t);
    var last := |t| - 1;
    assert !IsIdChar(t[last]);
    if |t| >= 4 {
      assert t[3..][last - 3] == t[last];
    }
    if |t| >= 5 {
      assert t[4..][last - 4] == t[last];
    }
  }

  /** Without a final line feed the `$` anchors mean "the whole string";
      with one, the identifier before it is accepted too. */
  lemma GdriveIdTrailingNewline(t: string)
    ensures IsGdriveId(t + "\n") <==> BareGdriveId(t)
    ensures (|t| == 0 || t[|t| - 1] != '\n') ==> (IsGdriveId(t) <==> BareGdriveId(t))
  {
    var s := t + "\n";
    assert s[..|s| - 1] == t;
    BareGdriveIdNoNewline(s);
  }

  /** The root folder, in both spellings, and the `gdl` keyword are IDs;
      the service-account prefix is not one of the accepted prefixes. */
  lemma GdriveIdRootExamples()
    ensures IsGdriveId("root") && IsGdriveId("tp:root") && IsGdriveId("gdl")
    ensures !IsGdriveId("sa:root")
  {
    assert RootIds[0] == "root" && RootIds[1] == "tp:root";
    GdriveIdShapes("sa:root");
    GdriveIdTrailingNewline("sa:root");
  }

  /** A token of nineteen characters behind a credentials prefix is an ID. */
  lemma GdriveIdPrefixedExample()
    ensures IsGdriveId("mtp:0AbCdEfGhIjKlMnOpQr")
  {
    var s := "mtp:0AbCdEfGhIjKlMnOpQr";
    AllCharsBetween(s, IsIdChar, 4, |s|);
    assert s[..4] == "mtp:";
    GdriveIdShapes(s);
  }

  /** A bare token of seventeen characters is too short to be an ID. */
  lemma GdriveIdShortRejected()
    ensures !IsGdriveId("0AbCdEfGhIjKlMnOp")
  {
    GdriveIdShapes("0AbCdEfGhIjKlMnOp");
    GdriveIdTrailingNewline("0AbCdEfGhIjKlMnOp");
  }
}
