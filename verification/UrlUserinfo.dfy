/** When stripping userinfo does what the parser of the URL standard takes it to do. */
module UrlUserinfo {
  import opened Common
  import opened Strings
  import opened UrlScrub

  /** For a special scheme, such as `http`, the standard takes both slashes alike. */
  predicate Slash(c: char) { c == '/' || c == '\\' }

  /** How many slashes stand in front. */
  function Leading(s: string): (n: nat)
    ensures n <= |s| && (n < |s| ==> !Slash(s[n]))
    ensures forall k :: 0 <= k < n ==> Slash(s[k])
  {
    if s == "" || !Slash(s[0]) then 0 else 1 + Leading(s[1..])
  }

  /** How much stands before the first slash. */
  function ToSlash(s: string): (n: nat)
    ensures n <= |s| && (n < |s| ==> Slash(s[n]))
    ensures forall k :: 0 <= k < n ==> !Slash(s[k])
  {
    if s == "" || Slash(s[0]) then 0 else 1 + ToSlash(s[1..])
  }

  predicate AllSlashes(s: string) { forall k :: 0 <= k < |s| ==> Slash(s[k]) }

  predicate NoSlashes(s: string) { forall k :: 0 <= k < |s| ==> !Slash(s[k]) }

  predicate IsPath(s: string) { s == "" || Slash(s[0]) }

  function Front(rest: string): string { rest[..Leading(rest)] }

  function AuthorityOf(rest: string): string {
    var r := rest[Leading(rest)..];
    r[..ToSlash(r)]
  }

  function PathOf(rest: string): string {
    var r := rest[Leading(rest)..];
    r[ToSlash(r)..]
  }

  function Locate(authority: string, path: string): Location {
    match RSplitOnce(authority, '@')
    case None => Location(None, authority, path)
    case Some(cut) => Location(Some(cut.0), cut.1, path)
  }

  /** What the parser reads after `scheme:`: any number of slashes, the authority up to the next one, and of
      it as userinfo what stands before its last `@`. */
  function ReadSpecial(rest: string): Location { Locate(AuthorityOf(rest), PathOf(rest)) }

  /** What stripping leaves after `scheme:`. */
  function After(scheme: string, rest: string): string {
    var out := StripUserinfo(scheme + ":" + rest);
    if |out| > |scheme| then out[|scheme| + 1..] else out
  }

  /** The parser reads the same host and path as before, and no userinfo. */
  predicate Cleared(scheme: string, rest: string) {
    ReadSpecial(After(scheme, rest)) == ReadSpecial(rest).(userinfo := None)
  }

  predicate TwoSlashes(rest: string) { |rest| >= 2 && rest[0] == '/' && rest[1] == '/' }

  // ----- Reading -----

  lemma {:induction false} LeadingIs(slashes: string, tail: string)
    requires AllSlashes(slashes) && (tail == "" || !Slash(tail[0]))
    ensures Leading(slashes + tail) == |slashes|
  {
    var s := slashes + tail;
    assert forall k :: 0 <= k < |slashes| ==> s[k] == slashes[k];
    if tail != "" {
      assert s[|slashes|] == tail[0];
    }
  }

  lemma {:induction false} ToSlashIs(front: string, tail: string)
    requires NoSlashes(front) && IsPath(tail)
    ensures ToSlash(front + tail) == |front|
  {
    var s := front + tail;
    assert forall k :: 0 <= k < |front| ==> s[k] == front[k];
    if tail != "" {
      assert s[|front|] == tail[0];
    }
  }

  /** Put together from its parts, a text is read as these. */
  lemma {:induction false} ReadsAs(slashes: string, authority: string, path: string)
    requires AllSlashes(slashes) && authority != "" && NoSlashes(authority) && IsPath(path)
    ensures
      var s := slashes + (authority + path);
      Front(s) == slashes && AuthorityOf(s) == authority && PathOf(s) == path
  {
    var s := slashes + (authority + path);
    assert (authority + path)[0] == authority[0];
    LeadingIs(slashes, authority + path);
    assert s[..|slashes|] == slashes && s[|slashes|..] == authority + path;
    ToSlashIs(authority, path);
    assert (authority + path)[..|authority|] == authority && (authority + path)[|authority|..] == path;
  }

  /** And taken apart, it is put together from them. */
  lemma {:induction false} Taken(rest: string)
    ensures rest == Front(rest) + (AuthorityOf(rest) + PathOf(rest))
    ensures AllSlashes(Front(rest)) && NoSlashes(AuthorityOf(rest)) && IsPath(PathOf(rest))
  {
  }

  // ----- Two slashes -----

  /** What stripping does behind `://`. */
  function Stripped(r: string): string {
    var (authority, path) := SplitPath(r);
    match RSplitOnce(authority, '@')
    case None => r
    case Some(cut) => cut.1 + path
  }

  lemma {:induction false} StripsAt(front: string, q: string)
    requires Find(front + "://" + q, "://") == Some(|front|)
    ensures StripUserinfo(front + "://" + q) == front + "://" + Stripped(q)
  {
    var head := front + "://" + q;
    assert head[|front| + 3..] == q && head[..|front|] == front;
  }

  lemma {:induction false} Joined(scheme: string, r: string)
    ensures scheme + ":" + ("//" + r) == scheme + "://" + r
    ensures (scheme + "://" + r)[|scheme| + 1..] == "//" + r
  {
  }

  lemma {:induction false} BehindTwo(scheme: string, r: string)
    requires ':' !in scheme
    ensures After(scheme, "//" + r) == "//" + Stripped(r)
  {
    Joined(scheme, r);
    Joined(scheme, Stripped(r));
    SchemeFirst(scheme, r);
    StripsAt(scheme, r);
  }

  lemma {:induction false} TwoAreSkipped(r: string)
    ensures ReadSpecial("//" + r) == ReadSpecial(r)
  {
    var s := "//" + r;
    assert s[1..] == "/" + r && ("/" + r)[1..] == r;
    assert Leading(s) == 2 + Leading(r);
    assert s[2 + Leading(r)..] == r[Leading(r)..];
  }

  lemma {:induction false} StrippedIs(a: string, h: string, path: string)
    requires '/' !in a && '/' !in h && '@' !in h && (path == "" || path[0] == '/')
    ensures Stripped(a + "@" + h + path) == h + path
  {
    PathSplits(a + "@" + h, path);
    RSplitOnceLast(a, '@', h);
  }

  lemma {:induction false} NothingStripped(a: string, path: string)
    requires '/' !in a && '@' !in a && (path == "" || path[0] == '/')
    ensures Stripped(a + path) == a + path
  {
    PathSplits(a, path);
  }

  /** A third slash of the kind stripping looks for: it finds an empty authority. */
  lemma {:induction false} ThirdSlash(slashes: string, tail: string)
    requires '/' in slashes && AllSlashes(slashes)
    ensures Stripped(slashes + tail) == slashes + tail
  {
    var cut := SplitOnce(slashes, '/').value;
    assert forall k :: 0 <= k < |cut.0| ==> slashes[k] == cut.0[k];
    assert slashes + tail == cut.0 + ("/" + (cut.1 + tail));
    NothingStripped(cut.0, "/" + (cut.1 + tail));
  }

  /** The last `@` cuts a text where it cuts its last part that holds one. */
  lemma {:induction false} LastAt(before: string, part: string, after: string)
    requires '@' in part && '@' !in after
    ensures
      var cut := RSplitOnce(part, '@').value;
      part == cut.0 + "@" + cut.1 && '@' !in cut.1 &&
      before + part + after == (before + cut.0) + "@" + (cut.1 + after)
  {
  }

  lemma {:induction false} SlashFree(a: string, b: string, s: string)
    requires s == a + "@" + b && '/' !in s
    ensures '/' !in a && '/' !in b
  {
    assert forall k :: 0 <= k < |a| ==> s[k] == a[k];
    assert forall k :: 0 <= k < |b| ==> s[|a| + 1 + k] == b[k];
  }

  /** Cut inside the path: what is left has a shorter one. */
  lemma {:induction false} CutInPath(front: string, between: string, tail: string)
    requires '@' in between && '/' !in front && '/' !in between && (tail == "" || tail[0] == '/')
    ensures |Stripped(front + between + tail)| < |between + tail|
  {
    var cut := RSplitOnce(between, '@').value;
    LastAt(front, between, "");
    SlashFree(cut.0, cut.1, between);
    assert front + between + tail == (front + cut.0) + "@" + cut.1 + tail;
    StrippedIs(front + cut.0, cut.1, tail);
  }

  /** Cut in the authority, at its last `@`: the host and all behind it are left. */
  lemma {:induction false} CutInAuthority(slashes: string, authority: string, between: string, tail: string)
    requires '@' in authority && '@' !in between
    requires '/' !in slashes && '/' !in authority && '/' !in between && (tail == "" || tail[0] == '/')
    ensures
      Stripped(slashes + authority + between + tail) == RSplitOnce(authority, '@').value.1 + (between + tail)
  {
    var cut := RSplitOnce(authority, '@').value;
    LastAt(slashes, authority, between);
    SlashFree(cut.0, cut.1, authority);
    StrippedIs(slashes + cut.0, cut.1 + between, tail);
    assert slashes + authority + between + tail == (slashes + cut.0) + "@" + (cut.1 + between) + tail;
    assert cut.1 + between + tail == cut.1 + (between + tail);
  }

  lemma {:induction false} PathIsShorter(s: string)
    ensures |PathOf(s)| <= |s|
  {
  }

  lemma {:induction false} NoSlashesIn(s: string)
    requires NoSlashes(s)
    ensures '/' !in s
  {
  }

  lemma {:induction false} HostAlone(authority: string, path: string)
    requires '@' in authority && NoSlashes(authority) && IsPath(path) && RSplitOnce(authority, '@').value.1 != ""
    ensures ReadSpecial(RSplitOnce(authority, '@').value.1 + path) == Locate(authority, path).(userinfo := None)
  {
    var cut := RSplitOnce(authority, '@').value;
    assert forall k :: 0 <= k < |cut.1| ==> cut.1[k] == authority[|cut.0| + 1 + k];
    ReadsAs("", cut.1, path);
    assert "" + (cut.1 + path) == cut.1 + path;
  }

  lemma {:induction false} RightInAuthority(slashes: string, authority: string, between: string, tail: string)
    requires '@' in authority && NoSlashes(authority) && RSplitOnce(authority, '@').value.1 != "" && '/' !in slashes
    requires '@' !in between && '/' !in between && (tail == "" || tail[0] == '/') && IsPath(between + tail)
    ensures ReadSpecial(Stripped(slashes + authority + between + tail)) ==
      Locate(authority, between + tail).(userinfo := None)
  {
    NoSlashesIn(authority);
    CutInAuthority(slashes, authority, between, tail);
    HostAlone(authority, between + tail);
  }

  lemma {:induction false} NoAtAtAll(slashes: string, authority: string, between: string, tail: string)
    requires '@' !in authority && '/' !in authority && '@' !in between && '/' !in between
    requires AllSlashes(slashes) && '/' !in slashes && (tail == "" || tail[0] == '/')
    ensures Stripped(slashes + authority + between + tail) == slashes + authority + between + tail
  {
    assert '@' !in slashes;
    NothingStripped(slashes + authority + between, tail);
  }

  lemma {:induction false} WrongInPath(front: string, between: string, tail: string, host: Location)
    requires '@' in between && '/' !in front && '/' !in between && (tail == "" || tail[0] == '/')
    requires host.path == between + tail
    ensures ReadSpecial(Stripped(front + between + tail)) != host
  {
    CutInPath(front, between, tail);
    PathIsShorter(Stripped(front + between + tail));
  }

  /** Behind `://`, only backslashes before the authority: right unless an `@` follows the authority before
      the next forward slash. */
  lemma {:induction false} StrippedIff(r: string)
    requires ReadSpecial(r).host != "" && '/' !in Front(r)
    ensures ReadSpecial(Stripped(r)) == ReadSpecial(r).(userinfo := None) <==> '@' !in SplitPath(PathOf(r)).0
  {
    var between, tail := SplitPath(PathOf(r)).0, SplitPath(PathOf(r)).1;
    Taken(r);
    NoSlashesIn(AuthorityOf(r));
    Grouped(Front(r), AuthorityOf(r), between, tail);
    if '@' in between {
      WrongInPath(Front(r) + AuthorityOf(r), between, tail, ReadSpecial(r).(userinfo := None));
    } else if '@' in AuthorityOf(r) {
      RightInAuthority(Front(r), AuthorityOf(r), between, tail);
    } else {
      NoAtAtAll(Front(r), AuthorityOf(r), between, tail);
    }
  }

  lemma {:induction false} Grouped(a: string, b: string, c: string, d: string)
    ensures a + (b + (c + d)) == a + b + c + d == (a + b) + c + d
  {
  }

  // ----- Otherwise -----

  lemma {:induction false} LocateGrows(authority: string, path: string, z: string)
    ensures Locate(authority, path + z) == Locate(authority, path).(path := path + z)
  {
  }

  /** Once the authority has ended, what follows is path. */
  lemma {:induction false} PathGrows(p: string, z: string)
    requires AuthorityOf(p) != "" && PathOf(p) != ""
    ensures ReadSpecial(p + z) == ReadSpecial(p).(path := PathOf(p) + z)
  {
    PartsGrow(p, z);
    LocateGrows(AuthorityOf(p), PathOf(p), z);
  }

  lemma {:induction false} PartsGrow(p: string, z: string)
    requires AuthorityOf(p) != "" && PathOf(p) != ""
    ensures AuthorityOf(p + z) == AuthorityOf(p) && PathOf(p + z) == PathOf(p) + z
  {
    Taken(p);
    Regrouped(Front(p), AuthorityOf(p), PathOf(p), z);
    assert (PathOf(p) + z)[0] == PathOf(p)[0];
    ReadsAs(Front(p), AuthorityOf(p), PathOf(p) + z);
  }

  lemma {:induction false} Regrouped(a: string, b: string, c: string, z: string)
    ensures a + (b + c) + z == a + (b + (c + z))
  {
  }

  /** By the first colon and slash behind it the authority has ended. */
  lemma {:induction false} EndedBy(w: string)
    ensures AuthorityOf(w + ":/") != "" && PathOf(w + ":/") != ""
  {
    var p := w + ":/";
    assert p[|w|] == ':' && p[|w| + 1] == '/';
    assert Leading(p) <= |w|;
    var r := p[Leading(p)..];
    assert r[0] == p[Leading(p)] && r[|r| - 1] == '/';
    assert 0 < ToSlash(r) < |r|;
  }

  /** Stripping behind a `://` that is part of the path shortens the path and leaves the rest. */
  lemma {:induction false} StrippedInPath(w: string, q: string)
    requires |Stripped(q)| < |q|
    ensures ReadSpecial(w + ":/" + ("/" + Stripped(q))) != ReadSpecial(w + ":/" + ("/" + q)).(userinfo := None)
  {
    EndedBy(w);
    PathGrows(w + ":/", "/" + q);
    PathGrows(w + ":/", "/" + Stripped(q));
  }

  lemma {:induction false} SeparatorChars(s: string, i: int)
    requires OccursAt(s, "://", i)
    ensures s[i] == ':' && s[i + 1] == '/' && s[i + 2] == '/'
  {
    var here := s[i..i + 3];
    assert here[0] == s[i] && here[1] == s[i + 1] && here[2] == s[i + 2];
  }

  lemma {:induction false} CutAt(rest: string, j: nat)
    requires j + 3 <= |rest| && rest[j] == ':' && rest[j + 1] == '/' && rest[j + 2] == '/'
    ensures rest == rest[..j] + ":/" + ("/" + rest[j + 3..])
  {
  }

  /** Where stripping looks when the first two characters are not both forward slashes. */
  lemma {:induction false} FoundLater(scheme: string, rest: string) returns (w: string, q: string)
    requires ':' !in scheme && !TwoSlashes(rest) && Find(scheme + ":" + rest, "://").Some?
    ensures rest == w + ":/" + ("/" + q)
    ensures Find(scheme + ":" + rest, "://") == Some(|scheme| + 1 + |w|)
  {
    var head := scheme + ":" + rest;
    var i := Find(head, "://").value;
    SeparatorChars(head, i);
    assert forall k :: 0 <= k < |scheme| ==> head[k] == scheme[k] != ':';
    assert forall k :: |scheme| < k < |head| ==> head[k] == rest[k - |scheme| - 1];
    var j := i - |scheme| - 1;
    CutAt(rest, j);
    w, q := rest[..j], rest[j + 3..];
  }

  lemma {:induction false} Rejoined(scheme: string, w: string, q: string)
    ensures scheme + ":" + (w + ":/" + ("/" + q)) == (scheme + ":" + w) + "://" + q
  {
  }

  lemma {:induction false} StripsLater(scheme: string, w: string, q: string)
    requires Find(scheme + ":" + (w + ":/" + ("/" + q)), "://") == Some(|scheme| + 1 + |w|)
    ensures
      StripUserinfo(scheme + ":" + (w + ":/" + ("/" + q))) == scheme + ":" + (w + ":/" + ("/" + Stripped(q)))
  {
    Rejoined(scheme, w, q);
    Rejoined(scheme, w, Stripped(q));
    StripsAt(scheme + ":" + w, q);
  }

  /** Without two forward slashes first, stripping changes nothing, or the path. */
  lemma {:induction false} LaterSeparator(scheme: string, rest: string)
    requires ':' !in scheme && !TwoSlashes(rest)
    ensures After(scheme, rest) == rest <==> StripUserinfo(scheme + ":" + rest) == scheme + ":" + rest
    ensures After(scheme, rest) != rest ==> !Cleared(scheme, rest)
  {
    var head := scheme + ":" + rest;
    assert head[|scheme| + 1..] == rest;
    if Find(head, "://").Some? {
      var w, q := FoundLater(scheme, rest);
      StripsLater(scheme, w, q);
      var left := w + ":/" + ("/" + Stripped(q));
      assert (scheme + ":" + left)[|scheme| + 1..] == left;
      ShorterOrSame(q);
      if Stripped(q) != q {
        StrippedInPath(w, q);
      }
    }
  }

  lemma {:induction false} ShorterOrSame(q: string)
    ensures Stripped(q) == q || |Stripped(q)| < |q|
  {
  }

  /** The code's own reading, behind the first `://`, holds userinfo. */
  predicate Strips(head: string) { ReadHead(head).Located? && ReadHead(head).at.userinfo.Some? }

  lemma {:induction false} UnchangedIff(head: string)
    ensures StripUserinfo(head) == head <==> !Strips(head)
  {
    HeadReadBack(head);
    HeadScrubbed(head);
  }

  lemma {:induction false} ClearedBehindTwo(scheme: string, r: string)
    requires ':' !in scheme && ReadSpecial(r).host != ""
    ensures Cleared(scheme, "//" + r) <==>
      if '/' in Front(r) then ReadSpecial(r).userinfo.None? else '@' !in SplitPath(PathOf(r)).0
  {
    BehindTwo(scheme, r);
    TwoAreSkipped(r);
    TwoAreSkipped(Stripped(r));
    if '/' in Front(r) {
      Taken(r);
      ThirdSlash(Front(r), AuthorityOf(r) + PathOf(r));
    } else {
      StrippedIff(r);
    }
  }

  /** Stripping takes the userinfo away, and nothing but it, in exactly these cases. Behind two forward slashes,
      followed by no third one though perhaps by backslashes: if no `@` stands between the end of the authority
      and the next forward slash, where a backslash has ended it. Else: if there is no userinfo to begin with,
      and stripping finds none, where only two forward slashes or a later `://` make it look. */
  lemma {:induction false} ClearedIff(scheme: string, rest: string)
    requires ':' !in scheme && ReadSpecial(rest).host != ""
    ensures Cleared(scheme, rest) <==>
      if TwoSlashes(rest) && '/' !in Front(rest[2..]) then '@' !in SplitPath(PathOf(rest)).0
      else ReadSpecial(rest).userinfo.None? && (TwoSlashes(rest) || !Strips(scheme + ":" + rest))
  {
    if TwoSlashes(rest) {
      assert rest == "//" + rest[2..];
      TwoAreSkipped(rest[2..]);
      ClearedBehindTwo(scheme, rest[2..]);
    } else {
      LaterSeparator(scheme, rest);
      UnchangedIff(scheme + ":" + rest);
    }
  }

  // ----- The family of heads with userinfo -----

  function Repeat(n: nat): (r: string)
    ensures |r| == n && forall k :: 0 <= k < n ==> r[k] == '/'
  {
    if n == 0 then "" else "/" + Repeat(n - 1)
  }

  /** Neither is there a separator behind fewer than two slashes. */
  lemma {:induction false} SeparatorBehind(front: string, tail: string, i: int)
    requires OccursAt(front + tail, "://", i) && |front| <= i
    ensures OccursAt(tail, "://", i - |front|)
  {
    SlicesAgree(front + tail, i, tail, i - |front|, 3);
  }

  lemma {:induction false} NoSeparator(scheme: string, n: nat, tail: string)
    requires ':' !in scheme && n < 2 && tail != "" && tail[0] != '/' && Find(tail, "://").None?
    ensures Find(scheme + ":" + (Repeat(n) + tail), "://").None?
  {
    var front := scheme + ":" + Repeat(n);
    var head := front + tail;
    assert scheme + ":" + (Repeat(n) + tail) == head;
    assert forall k :: 0 <= k < |scheme| ==> head[k] == scheme[k] != ':';
    assert head[|front|] == tail[0] && (n == 1 ==> head[|scheme| + 1] == '/');
    forall i ensures !OccursAt(head, "://", i) {
      if OccursAt(head, "://", i) {
        SeparatorChars(head, i);
        if |front| <= i {
          SeparatorBehind(front, tail, i);
        }
      }
    }
  }

  /** With a host and userinfo, and however many slashes: the userinfo goes if there are exactly two, else the
      head stays byte for byte. The parser skips any number of them. */
  lemma {:induction false} SlashFamily(scheme: string, n: nat, user: string, host: string, path: string)
    requires ':' !in scheme && '/' !in user && '/' !in host && '@' !in host && (path == "" || path[0] == '/')
    requires n < 2 ==> Find(user + "@" + host + path, "://").None?
    ensures
      StripUserinfo(scheme + ":" + (Repeat(n) + (user + "@" + host + path))) ==
      if n == 2 then scheme + ":" + (Repeat(2) + (host + path))
      else scheme + ":" + (Repeat(n) + (user + "@" + host + path))
  {
    var tail := user + "@" + host + path;
    if n < 2 {
      assert tail[0] == if user == "" then '@' else user[0];
      NoSeparator(scheme, n, tail);
    } else if n == 2 {
      StripsTo(scheme, user, host, path);
      JustTwo(scheme, tail);
      JustTwo(scheme, host + path);
    } else {
      MoreThanTwo(scheme, n, tail);
    }
  }

  lemma {:induction false} JustTwo(scheme: string, tail: string)
    ensures scheme + ":" + (Repeat(2) + tail) == scheme + "://" + tail
  {
    assert Repeat(2) == "//";
  }

  lemma {:induction false} MoreThanTwo(scheme: string, n: nat, tail: string)
    requires ':' !in scheme && n > 2
    ensures StripUserinfo(scheme + ":" + (Repeat(n) + tail)) == scheme + ":" + (Repeat(n) + tail)
  {
    var r := Repeat(n - 2) + tail;
    assert Repeat(n) == "//" + Repeat(n - 2);
    assert scheme + ":" + (Repeat(n) + tail) == scheme + "://" + r;
    SchemeFirst(scheme, r);
    assert Repeat(n - 2)[0] == '/' && r[0] == '/';
    assert SplitOnce(r, '/') == Some(("", r[1..]));
  }

  /** The parser reads the userinfo of that family, for any number of slashes. */
  lemma {:induction false} FamilyIsRead(n: nat, user: string, host: string, path: string)
    requires NoSlashes(user) && NoSlashes(host) && '@' !in host && (path == "" || path[0] == '/')
    ensures ReadSpecial(Repeat(n) + (user + "@" + host + path)) == Location(Some(user), host, path)
  {
    var authority := user + "@" + host;
    assert NoSlashes(authority);
    ReadsAs(Repeat(n), authority, path);
    RSplitOnceLast(user, '@', host);
  }

  /** A backslash ends the authority for the parser, not for stripping: the host before it is replaced by what
      follows the last `@` behind it, as in `http://h\@y/p`, which becomes `http://y/p`. */
  lemma {:induction false} BackslashReplacesHost(
    scheme: string, host: string, between: string, other: string, path: string)
    requires ':' !in scheme && host != "" && NoSlashes(host) && '@' !in host && '/' !in between
    requires other != "" && NoSlashes(other) && '@' !in other && (path == "" || path[0] == '/')
    ensures
      var rest := (host + "\\" + between) + "@" + other + path;
      StripUserinfo(scheme + "://" + rest) == scheme + "://" + (other + path) &&
      ReadSpecial("//" + rest).host == host && ReadSpecial("//" + (other + path)).host == other
  {
    StripsTo(scheme, host + "\\" + between, other, path);
    HostFirst(host, between, other, path);
    HostIs(host, "\\" + between + "@" + other + path);
    HostIs(other, path);
  }

  lemma {:induction false} HostFirst(host: string, between: string, other: string, path: string)
    ensures (host + "\\" + between) + "@" + other + path == host + ("\\" + between + "@" + other + path)
  {
  }

  lemma {:induction false} HostIs(host: string, path: string)
    requires host != "" && NoSlashes(host) && '@' !in host && IsPath(path)
    ensures ReadSpecial("//" + (host + path)).host == host
  {
    ReadsAs("//", host, path);
  }
}
