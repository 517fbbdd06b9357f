/** Destinations for uploads: whether a string names an rclone remote path,
    the special value `rcl`, or a `local:` directory on the bot's own disk,
    and how the directory is taken out of a `local:` destination. */
module Paths {
  import opened Text

  // ---------------------------------------------------------------------------
  // is_rclone_path

  const MrccPrefix := "mrcc:"
  /** Prefixes of magnet links and Drive credentials, never remote names. */
  const ReservedPrefixes: seq<string> := ["magnet:", "mtp:", "sa:", "tp:"]
  const LocalRootPrefix := "local:/"

  /** `[a-zA-Z0-9_\. -]` */
  predicate IsRemoteChar(c: char) {
    IsAlnum(c) || c == '_' || c == '.' || c == ' ' || c == '-'
  }

  /** `(magnet:|mtp:|sa:|tp:)` matches at `p`. */
  predicate ReservedAt(s: string, p: nat) {
    exists k: nat | k < |ReservedPrefixes| :: OccursAt(s, ReservedPrefixes[k], p)
  }

  /** The lookahead `(?!.*\/\/)` holds at `j`: no `//` starts at a place the
      `.*` can reach from `j` without crossing a line feed. */
  predicate NoDoubleSlashAhead(s: string, j: nat) {
    forall k: nat | j <= k <= |s| :: DotStar(s[j..k]) ==> !OccursAt(s, "//", k)
  }

  /** The first alternative read with the remote name in `s[p..m]` and its
      colon at `m`: `(?!(magnet:|mtp:|sa:|tp:))(?![- ])[a-zA-Z0-9_\. -]+(?<! ):`,
      then the lookahead and `.*$` on the rest. */
  predicate RemoteSplit(s: string, p: nat, m: nat) {
    && p < m < |s|
    && !ReservedAt(s, p)
    && s[p] != '-' && s[p] != ' '
    && AllChars(s[p..m], IsRemoteChar)
    && s[m - 1] != ' '
    && s[m] == ':'
    && NoDoubleSlashAhead(s, m + 1)
    && MatchesToEnd(s[m + 1..], DotStar)
  }

  /** The first alternative matches with the remote name starting at `p`. */
  predicate RemoteAt(s: string, p: nat) {
    exists m: nat | m < |s| :: RemoteSplit(s, p, m)
  }

  predicate IsRcl(t: string) { t == "rcl" }

  /** `^(mrcc:)?(?!...)...:(?!.*\/\/).*$|^rcl$|^local:\/.*$` under
      `re.match`: the optional `mrcc:` is tried first and, when the rest
      fails, the pattern backtracks and reads `mrcc` as the remote name. */
  function IsRclonePath(s: string): (r: bool)
    ensures r ==> |s| >= 2 && s[0] != '-' && s[0] != ' '
  {
    || RemoteAt(s, 0)
    || (StartsWith(s, MrccPrefix) && RemoteAt(s, |MrccPrefix|))
    || MatchesToEnd(s, IsRcl)
    || (StartsWith(s, LocalRootPrefix) && MatchesToEnd(s[|LocalRootPrefix|..], DotStar))
  }

  /** A remote name as the docstring describes it: one or more of
      `[a-zA-Z0-9_. -]`, not starting with `-` or a space, not ending with a
      space. */
  predicate ValidRemoteName(n: string) {
    && |n| > 0
    && AllChars(n, IsRemoteChar)
    && n[0] != '-' && n[0] != ' '
    && n[|n| - 1] != ' '
  }

  /** The plain reading of the first alternative: the name runs up to the
      first colon after `p`, is a valid remote name not starting with a
      reserved prefix, and the rest is one line without `//`. */
  predicate RemoteByFirstColon(s: string, p: nat) {
    && p <= |s|
    && match FindFrom(s, ":", p)
       case None => false
       case Some(m) =>
         && m < |s|
         && ValidRemoteName(s[p..m])
         && !ReservedAt(s, p)
         && !Contains(s[m + 1..], "//")
         && MatchesToEnd(s[m + 1..], DotStar)
  }

  /** A `//` in the rest of a single line is one the lookahead sees: every
      character before it is matched by `.*`. */
  lemma DoubleSlashOnLine(s: string, j: nat, i: nat)
    requires j <= |s| && MatchesToEnd(s[j..], DotStar)
    requires OccursAt(s[j..], "//", i)
    ensures DotStar(s[j..j + i]) && OccursAt(s, "//", j + i)
  {
    var r := s[j..];
    assert r[i] == r[i..i + 2][0] == '/';
    assert r[i + 1] == r[i..i + 2][1] == '/';
    forall x | 0 <= x < i
      ensures IsDotChar(r[x])
    {
      if !DotStar(r) {
        assert r[..|r| - 1][x] == r[x];
      }
    }
    AllCharsBetween(r, IsDotChar, 0, i);
    assert s[j..j + i] == r[0..i];
    assert s[j + i..j + i + 2] == r[i..i + 2];
  }

  /** A `//` at or after `j` is one in `s[j..]`. */
  lemma DoubleSlashInRest(s: string, j: nat, k: nat)
    requires j <= k && OccursAt(s, "//", k)
    ensures OccursAt(s[j..], "//", k - j)
  {
    assert s[j..][k - j..k - j + 2] == s[k..k + 2];
  }

  /** On a single line (a final line feed allowed), the lookahead says no
      more and no less than "the rest contains no `//`". */
  lemma NoDoubleSlashOnLine(s: string, j: nat)
    requires j <= |s| && MatchesToEnd(s[j..], DotStar)
    ensures NoDoubleSlashAhead(s, j) <==> !Contains(s[j..], "//")
  {
    if Contains(s[j..], "//") {
      var i: nat :| i <= |s[j..]| && OccursAt(s[j..], "//", i);
      DoubleSlashOnLine(s, j, i);
    }
    if !NoDoubleSlashAhead(s, j) {
      var k: nat :| j <= k <= |s| && DotStar(s[j..k]) && OccursAt(s, "//", k);
      DoubleSlashInRest(s, j, k);
    }
  }

  /** A colon ending a run of name characters is the first colon. */
  lemma FirstColonAfterName(s: string, p: nat, m: nat)
    requires p < m < |s| && s[m] == ':' && AllChars(s[p..m], IsRemoteChar)
    ensures FindFrom(s, ":", p) == Some(m)
  {
    assert OccursAt(s, ":", m) by {
      assert s[m..m + 1] == [s[m]];
    }
    forall j: nat | p <= j < m
      ensures !OccursAt(s, ":", j)
    {
      assert s[p..m][j - p] == s[j];
      assert s[j..j + 1][0] == s[j];
    }
  }

  lemma RemoteSplitIsPlain(s: string, p: nat, m: nat)
    requires RemoteSplit(s, p, m)
    ensures RemoteByFirstColon(s, p)
  {
    FirstColonAfterName(s, p, m);
    assert s[p..m][0] == s[p] && s[p..m][m - p - 1] == s[m - 1];
    NoDoubleSlashOnLine(s, m + 1);
  }

  lemma PlainIsRemoteSplit(s: string, p: nat, m: nat)
    requires RemoteByFirstColon(s, p) && FindFrom(s, ":", p) == Some(m)
    ensures RemoteSplit(s, p, m)
  {
    assert s[m] == s[m..m + 1][0] == ':';
    assert s[p..m][0] == s[p] && s[p..m][m - p - 1] == s[m - 1];
    NoDoubleSlashOnLine(s, m + 1);
  }

  /** The name can only end at the first colon after `p`, since a colon is
      not a name character: the backtracking reading and the plain reading
      accept the same strings. */
  lemma RemoteAtFirstColon(s: string, p: nat)
    requires p <= |s|
    ensures RemoteAt(s, p) <==> RemoteByFirstColon(s, p)
  {
    if RemoteAt(s, p) {
      var m: nat :| m < |s| && RemoteSplit(s, p, m);
      RemoteSplitIsPlain(s, p, m);
    }
    if RemoteByFirstColon(s, p) {
      var m :| FindFrom(s, ":", p) == Some(m);
      PlainIsRemoteSplit(s, p, m);
    }
  }

  /** `^rcl$`: the literal, with or without one final line feed. */
  lemma RclExactly(s: string)
    ensures MatchesToEnd(s, IsRcl) <==> s == "rcl" || s == "rcl\n"
  {
    if |s| > 0 && s[|s| - 1] == '\n' && s[..|s| - 1] == "rcl" {
      assert s == s[..|s| - 1] + "\n";
    }
    if s == "rcl\n" {
      assert s[..|s| - 1] == "rcl";
    }
  }

  /** The accepted destinations in plain terms: a remote path (possibly
      behind `mrcc:`), `rcl`, or a one-line `local:/` path. */
  predicate RclonePathPlain(s: string) {
    || RemoteByFirstColon(s, 0)
    || (StartsWith(s, MrccPrefix) && RemoteByFirstColon(s, |MrccPrefix|))
    || s == "rcl" || s == "rcl\n"
    || (StartsWith(s, LocalRootPrefix) && MatchesToEnd(s[|LocalRootPrefix|..], DotStar))
  }

  lemma RclonePathCharacterization(s: string)
    ensures IsRclonePath(s) <==> RclonePathPlain(s)
  {
    RemoteAtFirstColon(s, 0);
    if |s| >= |MrccPrefix| {
      RemoteAtFirstColon(s, |MrccPrefix|);
    }
    RclExactly(s);
  }

  /** Every one-line string behind `local:/` is accepted. */
  lemma LocalRootAccepted(r: string)
    requires DotStar(r)
    ensures IsRclonePath(LocalRootPrefix + r)
  {
    var s := LocalRootPrefix + r;
    assert s[..|LocalRootPrefix|] == LocalRootPrefix;
    assert s[|LocalRootPrefix|..] == r;
  }

  /** Magnet links and Drive credential prefixes are never rclone paths. */
  lemma {:induction false} ReservedPrefixRejected(s: string, k: nat)
    requires k < |ReservedPrefixes| && StartsWith(s, ReservedPrefixes[k])
    ensures !IsRclonePath(s)
  {
    var q := ReservedPrefixes[k];
    assert OccursAt(s, q, 0);
    assert ReservedAt(s, 0);
    assert s[0] == q[0] && s[1] == q[1];
    // `magnet:` and `mtp:` share only their first letter with `mrcc:`
    StartsWithOccurs(s, MrccPrefix);
    NotOccursAt(s, MrccPrefix, 0, 1);
    StartsWithOccurs(s, LocalRootPrefix);
    NotOccursAt(s, LocalRootPrefix, 0, 0);
    RclExactly(s);
    assert s[0] != 'r';
  }

  /** The optional `mrcc:` group backtracks: after `mrcc:` a reserved prefix
      is read as the rest of the path of a remote named `mrcc`. */
  lemma MrccBeforeReserved()
    ensures IsRclonePath("mrcc:tp:x")
    ensures !RemoteAt("mrcc:tp:x", |MrccPrefix|)
  {
    var s := "mrcc:tp:x";
    assert OccursAt(s, ReservedPrefixes[3], 5) by {
      OccursAtEach(s, ReservedPrefixes[3], 5);
    }
    forall k: nat | 5 <= k <= |s|
      ensures !OccursAt(s, "//", k)
    {
      NotOccursAt(s, "//", k, 0);
    }
    AllCharsBetween(s, IsRemoteChar, 0, 4);
    AllCharsBetween(s, IsDotChar, 5, |s|);
    assert !RemoteAt(s, 5);
    forall k: nat | k < |ReservedPrefixes|
      ensures !OccursAt(s, ReservedPrefixes[k], 0)
    {
      NotOccursAt(s, ReservedPrefixes[k], 0, if k <= 1 then 1 else 0);
    }
    assert RemoteSplit(s, 0, 4);
  }

  /** A remote name, a colon and a path. */
  lemma RemoteExample()
    ensures IsRclonePath("gdrive:Movies/2024")
  {
    var g := "gdrive:Movies/2024";
    forall k: nat | 7 <= k <= |g|
      ensures !OccursAt(g, "//", k)
    {
      if k < |g| - 1 {
        NotOccursAt(g, "//", k, if g[k] == '/' then 1 else 0);
      } else {
        NotOccursAt(g, "//", k, 0);
      }
    }
    AllCharsBetween(g, IsRemoteChar, 0, 6);
    AllCharsBetween(g, IsDotChar, 7, |g|);
    forall k: nat | k < |ReservedPrefixes|
      ensures !OccursAt(g, ReservedPrefixes[k], 0)
    {
      NotOccursAt(g, ReservedPrefixes[k], 0, 0);
    }
    assert RemoteSplit(g, 0, 6);
  }

  /** An absolute path under the `local:` root, and the bare `rcl` keyword
      with or without a final line feed. */
  lemma LocalAndRclExamples()
    ensures IsRclonePath("local:/home/user/files")
    ensures IsRclonePath("rcl") && IsRclonePath("rcl\n")
  {
    var l := "local:/home/user/files";
    OccursAtEach(l, LocalRootPrefix, 0);
    AllCharsBetween(l, IsDotChar, 7, |l|);
    assert l == LocalRootPrefix + l[7..];
    LocalRootAccepted(l[7..]);
    RclExactly("rcl");
    RclExactly("rcl\n");
  }

  /** A remote name may not start with a dash. */
  lemma DashRemoteRejected()
    ensures !IsRclonePath("-remote:x")
  {
    var r := "-remote:x";
    assert !RemoteAt(r, 0);
    StartsWithOccurs(r, MrccPrefix);
    NotOccursAt(r, MrccPrefix, 0, 0);
    StartsWithOccurs(r, LocalRootPrefix);
    NotOccursAt(r, LocalRootPrefix, 0, 0);
    RclExactly(r);
  }

  /** An https link is not a remote path: the text after the scheme's
      colon starts with `//`. */
  lemma HttpsLinkRejected(rest: string)
    ensures !IsRclonePath("https://" + rest)
  {
    var s := "https://" + rest;
    assert s[..8] == "https://";
    assert s[5] == ':' && s[6] == '/' && s[7] == '/';
    forall m: nat | m < |s|
      ensures !RemoteSplit(s, 0, m)
    {
      if m < 5 {
        assert s[m] != ':';
      } else if m > 5 {
        assert s[0..m][5] == ':';
      } else {
        assert DotStar(s[6..6]);
        assert s[6..8] == "//";
        assert OccursAt(s, "//", 6);
      }
    }
    StartsWithOccurs(s, MrccPrefix);
    NotOccursAt(s, MrccPrefix, 0, 0);
    StartsWithOccurs(s, LocalRootPrefix);
    NotOccursAt(s, LocalRootPrefix, 0, 0);
    RclExactly(s);
  }

  /** Without the slash, `local:` is read as a remote named `local`. */
  lemma LocalWithoutSlashIsRemote()
    ensures IsRclonePath("local:tmp")
    ensures !StartsWith("local:tmp", LocalRootPrefix)
  {
    var s := "local:tmp";
    AllCharsBetween(s, IsRemoteChar, 0, 5);
    AllCharsBetween(s, IsDotChar, 6, |s|);
    forall k: nat | 6 <= k <= |s|
      ensures !OccursAt(s, "//", k)
    {
      NotOccursAt(s, "//", k, 0);
    }
    forall k: nat | k < |ReservedPrefixes|
      ensures !OccursAt(s, ReservedPrefixes[k], 0)
    {
      NotOccursAt(s, ReservedPrefixes[k], 0, 0);
    }
    assert RemoteSplit(s, 0, 5);
    StartsWithOccurs(s, LocalRootPrefix);
    NotOccursAt(s, LocalRootPrefix, 0, 6);
  }

  // ---------------------------------------------------------------------------
  // is_local_path, get_local_path

  const LocalPrefix := "local:"

  /** `path.startswith("local:")`, case-sensitive */
  function IsLocalPath(s: string): (r: bool)
    ensures r ==> |s| >= |LocalPrefix| && s[0] == 'l'
  {
    StartsWith(s, LocalPrefix)
  }

  /** `destination.split("local:", 1)[1]` for a local destination, `None`
      for any other. */
  function GetLocalPath(s: string): (r: Option<string>)
    ensures r.None? <==> !IsLocalPath(s)
    ensures r.Some? ==> s == LocalPrefix + r.value
  {
    if IsLocalPath(s) then
      SplitOnceAtPrefix(s, LocalPrefix);
      Some(SplitOnce(s, LocalPrefix)[1])
    else
      None
  }

  /** Stripping the prefix undoes adding it. */
  lemma GetLocalPathRoundTrip(p: string)
    ensures GetLocalPath(LocalPrefix + p) == Some(p)
  {
    var s := LocalPrefix + p;
    assert s[..|LocalPrefix|] == LocalPrefix;
    var r := GetLocalPath(s);
    assert s == LocalPrefix + r.value;
    assert r.value == s[|LocalPrefix|..] == p;
  }

  lemma GetLocalPathExamples()
    ensures GetLocalPath(LocalPrefix + "/home/user/files") == Some("/home/user/files")
    ensures GetLocalPath("Local:/x") == None
  {
    GetLocalPathRoundTrip("/home/user/files");
    var s := "Local:/x";
    assert !IsLocalPath(s) by {
      StartsWithOccurs(s, LocalPrefix);
      NotOccursAt(s, LocalPrefix, 0, 0);
    }
  }
}
