/** Credentials rewritten out of a URL and out of a failed flow's evidence. */
module UrlScrub {
  import opened Common
  import opened Strings
  import opened Redaction
  import opened KeyWords

  // ----- Pair lists -----

  function PairKey(pair: string): string {
    match SplitOnce(pair, '=')
    case None => pair
    case Some(cut) => cut.0
  }

  /** A pair whose value must go: it has a value, and its key names a credential. */
  predicate Credential(pair: string) {
    '=' in pair && IsSecretParam(PairKey(pair))
  }

  function ScrubPair(pair: string): string {
    match SplitOnce(pair, '=')
    case None => pair
    case Some(cut) => if IsSecretParam(cut.0) then cut.0 + "=" + REDACTED else pair
  }

  function ScrubEach(pairs: seq<string>): (r: seq<string>)
    ensures |r| == |pairs|
    ensures forall k :: 0 <= k < |r| ==> r[k] == ScrubPair(pairs[k])
  {
    if pairs == [] then [] else [ScrubPair(pairs[0])] + ScrubEach(pairs[1..])
  }

  function ScrubPairs(pairs: string): string {
    Join(ScrubEach(Split(pairs, '&')), '&')
  }

  /** What scrubbing does to one pair: the key stays, a credential's value becomes the mark, any
      other pair stays byte for byte, and no separator appears. */
  lemma {:induction false} PairScrubbed(pair: string)
    ensures PairKey(ScrubPair(pair)) == PairKey(pair)
    ensures Credential(pair) ==> ScrubPair(pair) == PairKey(pair) + "=" + REDACTED
    ensures !Credential(pair) ==> ScrubPair(pair) == pair
    ensures ScrubPair(ScrubPair(pair)) == ScrubPair(pair)
    ensures forall c :: c in ScrubPair(pair) ==> c in pair || c == '*'
  {
    if Credential(pair) {
      SplitOnceFirst(PairKey(pair), '=', REDACTED);
    }
  }

  /** No credential of the list still has a value of its own. */
  ghost predicate Masked(pairs: string) {
    forall pair :: pair in Split(pairs, '&') && Credential(pair) ==> pair == PairKey(pair) + "=" + REDACTED
  }

  /** The same number of pairs in the same order, each scrubbed on its own. */
  lemma {:induction false} PairsScrubbed(pairs: string)
    ensures Split(ScrubPairs(pairs), '&') == ScrubEach(Split(pairs, '&'))
    ensures Masked(ScrubPairs(pairs))
    ensures ScrubPairs(ScrubPairs(pairs)) == ScrubPairs(pairs)
  {
    var parts := Split(pairs, '&');
    forall k | 0 <= k < |parts| ensures '&' !in ScrubPair(parts[k]) && ScrubPair(ScrubPair(parts[k])) == ScrubPair(parts[k]) {
      PairScrubbed(parts[k]);
    }
    SplitJoin(ScrubEach(parts), '&');
    assert ScrubEach(ScrubEach(parts)) == ScrubEach(parts);
    forall pair | pair in ScrubEach(parts) && Credential(pair) ensures pair == PairKey(pair) + "=" + REDACTED {
      PairScrubbed(pair);
    }
  }

  lemma {:induction false} PairsStayFree(pairs: string, c: char)
    requires c !in pairs && c != '&' && c != '*'
    ensures c !in ScrubPairs(pairs)
  {
    var parts := Split(pairs, '&');
    forall k | 0 <= k < |parts| ensures c !in ScrubPair(parts[k]) {
      PairScrubbed(parts[k]);
      PieceOf(parts, '&', k);
    }
    JoinHolds(ScrubEach(parts), '&', c);
  }

  lemma {:induction false} PieceOf(parts: seq<string>, c: char, k: nat)
    requires k < |parts|
    ensures forall x :: x in parts[k] ==> x in Join(parts, c)
  {
    if k > 0 {
      PieceOf(parts[1..], c, k - 1);
    }
  }

  // ----- Fragments -----

  /** A fragment is a route with its own query, a pair list, or a plain anchor. */
  datatype Fragment = Routed(route: string, params: string) | Params(params: string) | Anchor(text: string)

  function ReadFragment(f: string): Fragment {
    match SplitOnce(f, '?')
    case Some(cut) => Routed(cut.0, cut.1)
    case None => if '=' in f then Params(f) else Anchor(f)
  }

  function ScrubFragment(f: string): string {
    match SplitOnce(f, '?')
    case Some(cut) => cut.0 + "?" + ScrubPairs(cut.1)
    case None => if '=' in f then ScrubPairs(f) else f
  }

  function FragmentScrubbed(f: Fragment): Fragment {
    match f
    case Routed(route, params) => Routed(route, ScrubPairs(params))
    case Params(params) => Params(ScrubPairs(params))
    case Anchor(text) => f
  }

  /** The route and a plain anchor stay, the pair list is scrubbed, and the fragment keeps its kind. */
  lemma {:induction false} FragmentKeepsShape(f: string)
    ensures ReadFragment(ScrubFragment(f)) == FragmentScrubbed(ReadFragment(f))
    ensures !ReadFragment(f).Anchor? ==> Masked(ReadFragment(ScrubFragment(f)).params)
    ensures ScrubFragment(ScrubFragment(f)) == ScrubFragment(f)
  {
    match SplitOnce(f, '?') {
      case Some(cut) =>
        SplitOnceFirst(cut.0, '?', ScrubPairs(cut.1));
        PairsScrubbed(cut.1);
      case None =>
        if '=' in f {
          PairsStayFree(f, '?');
          EqualsStays(f);
          PairsScrubbed(f);
        }
    }
  }

  /** All pairs of a fragment, those before its `?` counted. */
  ghost predicate FragmentMasked(f: string) {
    match SplitOnce(f, '?')
    case Some(cut) => Masked(cut.0) && Masked(cut.1)
    case None => Masked(f)
  }

  /** Every credential of a fragment is masked if and only if none was in the clear before a `?`. */
  lemma {:induction false} FragmentMaskedIff(f: string)
    ensures FragmentMasked(ScrubFragment(f)) <==> '?' !in f || Masked(SplitOnce(f, '?').value.0)
  {
    FragmentKeepsShape(f);
    match SplitOnce(f, '?') {
      case Some(cut) => SplitOnceFirst(cut.0, '?', ScrubPairs(cut.1));
      case None =>
        if '=' in f {
          PairsScrubbed(f);
          PairsStayFree(f, '?');
        } else {
          NothingToMask(f);
        }
    }
  }

  lemma {:induction false} NothingToMask(pairs: string)
    requires '=' !in pairs
    ensures Masked(pairs)
  {
    forall k | 0 <= k < |Split(pairs, '&')| ensures '=' !in Split(pairs, '&')[k] {
      PieceOf(Split(pairs, '&'), '&', k);
    }
  }

  lemma {:induction false} EqualsStays(pairs: string)
    requires '=' in pairs
    ensures '=' in ScrubPairs(pairs)
  {
    var parts := Split(pairs, '&');
    if forall k :: 0 <= k < |parts| ==> '=' !in parts[k] {
      JoinHolds(parts, '&', '=');
    }
    var k :| 0 <= k < |parts| && '=' in parts[k];
    PairScrubbed(parts[k]);
    assert '=' in ScrubEach(parts)[k] by {
      if Credential(parts[k]) {
        assert (PairKey(parts[k]) + "=" + REDACTED)[|PairKey(parts[k])|] == '=';
      }
    }
    PieceOf(ScrubEach(parts), '&', k);
  }

  // ----- The head: scheme, userinfo, host and path -----

  datatype Location = Location(userinfo: Option<string>, host: string, path: string)

  datatype Head = Opaque(text: string) | Located(scheme: string, at: Location)

  /** The authority ends at the first slash. */
  function SplitPath(rest: string): (r: (string, string))
    ensures r.0 + r.1 == rest && '/' !in r.0 && (r.1 == "" || r.1[0] == '/')
  {
    match SplitOnce(rest, '/')
    case None => (rest, "")
    case Some(cut) => (cut.0, "/" + cut.1)
  }

  function ReadLocation(rest: string): (r: Location)
    ensures '@' !in r.host && '/' !in r.host && (r.path == "" || r.path[0] == '/')
  {
    var (authority, path) := SplitPath(rest);
    match RSplitOnce(authority, '@')
    case None => Location(None, authority, path)
    case Some(cut) => Location(Some(cut.0), cut.1, path)
  }

  function ShowLocation(at: Location): string {
    if at.userinfo.Some? then at.userinfo.value + ("@" + (at.host + at.path)) else at.host + at.path
  }

  function ReadHead(head: string): Head {
    match Find(head, "://")
    case None => Opaque(head)
    case Some(i) => Located(head[..i], ReadLocation(head[i + 3..]))
  }

  function ShowHead(h: Head): string {
    match h
    case Opaque(text) => text
    case Located(scheme, at) => scheme + "://" + ShowLocation(at)
  }

  function StripUserinfo(head: string): string {
    match Find(head, "://")
    case None => head
    case Some(i) =>
      var (authority, path) := SplitPath(head[i + 3..]);
      match RSplitOnce(authority, '@')
      case None => head
      case Some(cut) => head[..i] + "://" + (cut.1 + path)
  }

  function WithoutUserinfo(h: Head): Head {
    if h.Located? then Located(h.scheme, h.at.(userinfo := None)) else h
  }

  lemma {:induction false} LocationReadBack(rest: string)
    ensures ShowLocation(ReadLocation(rest)) == rest
  {
  }

  /** A host without slash and `@`, followed by a path, reads as just that. */
  lemma {:induction false} BareLocation(host: string, path: string)
    requires '/' !in host && '@' !in host && (path == "" || path[0] == '/')
    ensures ReadLocation(host + path) == Location(None, host, path)
  {
    if path == "" {
      assert host + path == host;
    } else {
      SplitOnceFirst(host, '/', path[1..]);
      assert host + ['/'] + path[1..] == host + path;
      assert "/" + path[1..] == path;
    }
  }

  /** Where `://` is first found does not depend on what follows it. */
  lemma {:induction false} FirstSeparator(head: string, i: nat, rest: string)
    requires Find(head, "://") == Some(i)
    ensures Find(head[..i] + "://" + rest, "://") == Some(i)
    ensures (head[..i] + "://" + rest)[i + 3..] == rest
  {
    var other := head[..i] + "://" + rest;
    forall j | 0 <= j < i ensures !OccursAt(other, "://", j) {
      assert !OccursAt(head, "://", j);
      assert head[i..i + 3] == "://" && head[i] == ':' && head[i + 1] == '/' && head[i + 2] == '/';
      assert forall x :: 0 <= x < i + 3 ==> other[x] == head[x];
      SlicesAgree(other, j, head, j, 3);
    }
    assert OccursAt(other, "://", i) by { assert other[i..i + 3] == "://"; }
  }

  /** Stripping shows the head again without its userinfo. */
  lemma {:induction false} HeadReadBack(head: string)
    ensures ShowHead(ReadHead(head)) == head
    ensures StripUserinfo(head) == ShowHead(WithoutUserinfo(ReadHead(head)))
  {
    var f := Find(head, "://");
    if f.Some? {
      LocationReadBack(head[f.value + 3..]);
      assert head == head[..f.value] + "://" + head[f.value + 3..];
    }
  }

  /** The userinfo goes; scheme, host and path stay; nothing is left for a second pass. */
  lemma {:induction false} HeadScrubbed(head: string)
    ensures ReadHead(StripUserinfo(head)) == WithoutUserinfo(ReadHead(head))
    ensures StripUserinfo(StripUserinfo(head)) == StripUserinfo(head)
  {
    HeadReadBack(head);
    var h := ReadHead(head);
    if h.Located? {
      var i := Find(head, "://").value;
      var rest := h.at.host + h.at.path;
      FirstSeparator(head, i, rest);
      BareLocation(h.at.host, h.at.path);
      assert (head[..i] + "://" + rest)[..i] == head[..i];
      HeadReadBack(StripUserinfo(head));
    }
  }

  lemma {:induction false} StripStaysFree(head: string, c: char)
    requires c !in head
    ensures c !in StripUserinfo(head)
  {
    HeadReadBack(head);
    var f := Find(head, "://");
    if f.Some? {
      var i := f.value;
      LocationReadBack(head[i + 3..]);
      var at := ReadLocation(head[i + 3..]);
      assert head[i..i + 3] == "://";
      assert forall x :: x in head[i + 3..] || x in head[i..i + 3] || x in head[..i] ==> x in head;
      assert forall x :: x in at.host + at.path ==> x in ShowLocation(at);
    }
  }

  // ----- The whole URL -----

  datatype Parts = Parts(head: string, query: Option<string>, fragment: Option<string>)

  function Cut(raw: string): Parts {
    var (before, fragment) :=
      match SplitOnce(raw, '#')
      case Some(c) => (c.0, Some(c.1))
      case None => (raw, None);
    match SplitOnce(before, '?')
    case Some(c) => Parts(c.0, Some(c.1), fragment)
    case None => Parts(before, None, fragment)
  }

  function Suffix(mark: char, v: Option<string>): string {
    if v.Some? then [mark] + v.value else ""
  }

  function Show(p: Parts): string {
    p.head + Suffix('?', p.query) + Suffix('#', p.fragment)
  }

  predicate Clean(p: Parts) {
    '#' !in p.head && '?' !in p.head && (p.query.Some? ==> '#' !in p.query.value)
  }

  lemma {:induction false} CutIsClean(raw: string)
    ensures Clean(Cut(raw)) && Show(Cut(raw)) == raw
  {
    var p := Cut(raw);
    var before := if SplitOnce(raw, '#').Some? then SplitOnce(raw, '#').value.0 else raw;
    CutBack(raw, '#', before, p.fragment);
    CutBack(before, '?', p.head, p.query);
  }

  lemma {:induction false} CutBack(s: string, c: char, a: string, v: Option<string>)
    requires SplitOnce(s, c) == if v.Some? then Some((a, v.value)) else None
    requires v.None? ==> a == s
    ensures a + Suffix(c, v) == s && c !in a
    ensures forall x :: x in a || (v.Some? && x in v.value) ==> x in s
  {
  }

  lemma {:induction false} SuffixCut(a: string, c: char, v: Option<string>)
    requires c !in a
    ensures SplitOnce(a + Suffix(c, v), c) == if v.Some? then Some((a, v.value)) else None
  {
    var s := a + Suffix(c, v);
    if v.Some? {
      assert s == a + [c] + v.value;
      SplitOnceFirst(a, c, v.value);
    } else {
      assert s == a && c !in s;
      assert SplitOnce(s, c).None?;
    }
  }

  lemma {:induction false} CutShown(p: Parts)
    requires Clean(p)
    ensures Cut(Show(p)) == p
  {
    var before := p.head + Suffix('?', p.query);
    SuffixCut(before, '#', p.fragment);
    SuffixCut(p.head, '?', p.query);
    if p.fragment.None? {
      assert Show(p) == before;
    }
    if p.query.None? {
      assert before == p.head;
    }
  }

  /** `valid` stands for `Url::parse(..).is_ok()`. */
  function Scrubbed(valid: string -> bool, raw: string): string {
    var p := Cut(raw);
    if !valid(raw) then StripUserinfo(p.head) else Show(PartsScrubbed(p))
  }

  function PartsScrubbed(p: Parts): Parts {
    Parts(StripUserinfo(p.head),
          if p.query.Some? then Some(ScrubPairs(p.query.value)) else None,
          if p.fragment.Some? then Some(ScrubFragment(p.fragment.value)) else None)
  }

  method ScrubUrl(valid: string -> bool, raw: string) returns (out: string)
    ensures out == Scrubbed(valid, raw)
  {
    var p := Cut(raw);
    out := StripUserinfo(p.head);
    if !valid(raw) {
      return;
    }
    if p.query.Some? {
      out := out + ("?" + ScrubPairs(p.query.value));
    }
    if p.fragment.Some? {
      out := out + ("#" + ScrubFragment(p.fragment.value));
    }
    var q := PartsScrubbed(p);
    assert q.query.None? ==> q.head + Suffix('?', q.query) == q.head;
    assert q.fragment.None? ==> Show(q) == q.head + Suffix('?', q.query);
  }

  lemma {:induction false} ScrubbedIsClean(p: Parts)
    requires Clean(p)
    ensures Clean(PartsScrubbed(p)) && PartsScrubbed(PartsScrubbed(p)) == PartsScrubbed(p)
  {
    HeadScrubbed(p.head);
    StripStaysFree(p.head, '#');
    StripStaysFree(p.head, '?');
    if p.query.Some? {
      PairsStayFree(p.query.value, '#');
      PairsScrubbed(p.query.value);
    }
    if p.fragment.Some? {
      FragmentKeepsShape(p.fragment.value);
    }
  }

  /** A valid URL keeps its structure: head, query and fragment are each where they were, the head only
      without what stands before an `@` between `://` and the next slash, or byte for byte if it has no
      `://`, every pair list with the same pairs in the same order, scrubbed one by one, and the fragment
      with what comes before its first `?` as it was. */
  lemma {:induction false} ScrubKeepsStructure(valid: string -> bool, raw: string)
    requires valid(raw)
    ensures
      var p, q := Cut(raw), Cut(Scrubbed(valid, raw));
      ReadHead(q.head) == WithoutUserinfo(ReadHead(p.head)) &&
      (ReadHead(q.head).Located? ==> '@' !in ReadHead(q.head).at.host) &&
      (ReadHead(p.head).Opaque? ==> q.head == p.head) &&
      (q.query.Some? <==> p.query.Some?) &&
      (p.query.Some? ==> Split(q.query.value, '&') == ScrubEach(Split(p.query.value, '&')) &&
                         Masked(q.query.value)) &&
      (q.fragment.Some? <==> p.fragment.Some?) &&
      (p.fragment.Some? ==> ReadFragment(q.fragment.value) == FragmentScrubbed(ReadFragment(p.fragment.value)) &&
                            (!ReadFragment(q.fragment.value).Anchor? ==>
                               Masked(ReadFragment(q.fragment.value).params)))
  {
    var p := Cut(raw);
    CutIsClean(raw);
    ScrubbedIsClean(p);
    CutShown(PartsScrubbed(p));
    HeadScrubbed(p.head);
    if p.query.Some? {
      PairsScrubbed(p.query.value);
    }
    if p.fragment.Some? {
      FragmentKeepsShape(p.fragment.value);
    }
  }

  ghost predicate AllMasked(p: Parts) {
    (p.query.Some? ==> Masked(p.query.value)) && (p.fragment.Some? ==> FragmentMasked(p.fragment.value))
  }

  /** Every credential-keyed pair of a valid URL is masked, in the query and in the fragment, if and only if
      the fragment had none in the clear before a `?` of its own. */
  lemma {:induction false} AllMaskedIff(valid: string -> bool, raw: string)
    requires valid(raw)
    ensures
      var f := Cut(raw).fragment;
      AllMasked(Cut(Scrubbed(valid, raw))) <==>
        (f.Some? && '?' in f.value ==> Masked(SplitOnce(f.value, '?').value.0))
  {
    var p := Cut(raw);
    CutIsClean(raw);
    ScrubbedIsClean(p);
    CutShown(PartsScrubbed(p));
    if p.query.Some? {
      PairsScrubbed(p.query.value);
    }
    if p.fragment.Some? {
      FragmentMaskedIff(p.fragment.value);
    }
  }

  /** A URL without query and userinfo. */
  lemma {:induction false} FragmentOnly(valid: string -> bool, head: string, f: string)
    requires '?' !in head && '#' !in head && '@' !in head && valid(head + "#" + f)
    ensures Scrubbed(valid, head + "#" + f) == head + "#" + ScrubFragment(f)
    ensures Cut(head + "#" + f) == Parts(head, None, Some(f))
  {
    CutShown(Parts(head, None, Some(f)));
    FragmentShows(head, f);
    FragmentShows(head, ScrubFragment(f));
    PlainHead(head);
    assert PartsScrubbed(Parts(head, None, Some(f))) == Parts(head, None, Some(ScrubFragment(f)));
  }

  lemma {:induction false} FragmentShows(head: string, f: string)
    ensures Show(Parts(head, None, Some(f))) == head + "#" + f
  {
    assert head + Suffix('?', None) == head && Suffix('#', Some(f)) == "#" + f;
  }

  /** A credential handed back first in a fragment that goes on with a `?`, as in
      `#access_token=...?back=/home`, stays whatever it is: the URL comes back as it was but for the pairs
      after that `?`. */
  lemma {:induction false} TokenBeforeQuestionStays(
    valid: string -> bool, head: string, key: string, secret: string, rest: string)
    requires '?' !in head && '#' !in head && '@' !in head
    requires IsSecretParam(key) && forall c :: c in key ==> c != '=' && c != '&' && c != '?'
    requires '?' !in secret && '&' !in secret
    requires valid(head + "#" + ((key + "=" + secret) + "?" + rest))
    ensures
      var raw := head + "#" + ((key + "=" + secret) + "?" + rest);
      Scrubbed(valid, raw) == head + "#" + ((key + "=" + secret) + "?" + ScrubPairs(rest)) &&
      (AllMasked(Cut(Scrubbed(valid, raw))) <==> secret == REDACTED)
  {
    var route := key + "=" + secret;
    SplitOnceFirst(route, '?', rest);
    FragmentOnly(valid, head, route + "?" + rest);
    AllMaskedIff(valid, head + "#" + (route + "?" + rest));
    OnePair(key, secret);
  }

  lemma {:induction false} AccessTokenKey() returns (key: string)
    ensures key == "access_" + "token" + "" && IsSecretParam(key)
    ensures forall c :: c in key ==> c != '=' && c != '&' && c != '?'
  {
    TokenIsCompact();
    SpelledOut("access_", "token", "");
    key := "access_" + "token" + "";
  }

  lemma {:induction false} TokenIsCompact()
    ensures Compact("token") == "token" && "token" in SECRET_PARAMS_CONTAINING
  {
    assert SECRET_PARAMS_CONTAINING[0] == "token";
  }

  /** For one: `#access_token=SECRET?b`. */
  lemma {:induction false} AccessTokenStays(valid: string -> bool, head: string, secret: string)
    requires '?' !in head && '#' !in head && '@' !in head
    requires '?' !in secret && '&' !in secret && secret != REDACTED
    requires valid(head + "#" + (("access_" + "token" + "" + "=" + secret) + "?" + "b"))
    ensures
      var raw := head + "#" + (("access_" + "token" + "" + "=" + secret) + "?" + "b");
      Scrubbed(valid, raw) == raw && !AllMasked(Cut(raw))
  {
    var key := AccessTokenKey();
    OneBarePair("b");
    TokenBeforeQuestionStays(valid, head, key, secret, "b");
  }

  lemma {:induction false} OnePairScrubbed(key: string, value: string)
    requires '=' !in key && '&' !in key && '&' !in value
    ensures ScrubPairs(key + "=" + value) == key + "=" + if IsSecretParam(key) then "***" else value
  {
    var pair := key + "=" + value;
    SplitOnceFirst(key, '=', value);
    assert '&' !in pair && SplitOnce(pair, '&').None?;
    assert Split(pair, '&') == [pair] && ScrubEach([pair]) == [ScrubPair(pair)];
  }

  /** In so many characters, for a URL of one pair: in the query, as the whole fragment, or behind a fragment's
      own `?`, the value goes exactly if its key names a credential, and nothing else changes. */
  lemma {:induction false} OnePairOfUrl(valid: string -> bool, head: string, route: string, key: string, value: string)
    requires '?' !in head && '#' !in head && '@' !in head && '?' !in route
    requires forall c :: c in key || c in value ==> c != '&' && c != '#' && c != '?'
    requires '=' !in key
    ensures
      var pair, left := key + "=" + value, key + "=" + if IsSecretParam(key) then "***" else value;
      (valid(head + "?" + pair) ==> Scrubbed(valid, head + "?" + pair) == head + "?" + left) &&
      (valid(head + "#" + pair) ==> Scrubbed(valid, head + "#" + pair) == head + "#" + left) &&
      (valid(head + "#" + (route + "?" + pair)) ==>
         Scrubbed(valid, head + "#" + (route + "?" + pair)) == head + "#" + (route + "?" + left))
  {
    var pair := key + "=" + value;
    assert '?' !in pair && '#' !in pair;
    OnePairScrubbed(key, value);
    if valid(head + "?" + pair) {
      QueryOnly(valid, head, pair);
    }
    if valid(head + "#" + pair) {
      FragmentOnly(valid, head, pair);
      assert pair[|key|] == '=' && SplitOnce(pair, '?').None?;
    }
    if valid(head + "#" + (route + "?" + pair)) {
      FragmentOnly(valid, head, route + "?" + pair);
      SplitOnceFirst(route, '?', pair);
    }
  }

  lemma {:induction false} QueryOnly(valid: string -> bool, head: string, query: string)
    requires '?' !in head && '#' !in head && '@' !in head && '#' !in query && valid(head + "?" + query)
    ensures Scrubbed(valid, head + "?" + query) == head + "?" + ScrubPairs(query)
  {
    var p := Parts(head, Some(query), None);
    assert Show(p) == head + "?" + query;
    CutShown(p);
    PlainHead(head);
  }

  /** A pair without a value is left alone. */
  lemma {:induction false} OneBarePair(pair: string)
    requires '=' !in pair && '&' !in pair
    ensures ScrubPairs(pair) == pair
  {
    assert SplitOnce(pair, '&').None? && SplitOnce(pair, '=').None?;
    assert Split(pair, '&') == [pair] && ScrubEach([pair]) == [pair];
  }

  lemma {:induction false} PlainHead(head: string)
    requires '@' !in head
    ensures StripUserinfo(head) == head
  {
    var f := Find(head, "://");
    if f.Some? {
      var (authority, path) := SplitPath(head[f.value + 3..]);
      assert forall c :: c in authority ==> c in head[f.value + 3..];
      assert forall c :: c in head[f.value + 3..] ==> c in head;
    }
  }

  /** A list of one pair. */
  lemma {:induction false} OnePair(key: string, value: string)
    requires '=' !in key && '&' !in key && '&' !in value && IsSecretParam(key)
    ensures Masked(key + "=" + value) <==> value == REDACTED
  {
    var pair := key + "=" + value;
    SplitOnceFirst(key, '=', value);
    assert '&' !in pair && SplitOnce(pair, '&').None?;
    assert Split(pair, '&') == [pair] && pair in Split(pair, '&');
    assert PairKey(pair) == key && Credential(pair);
    assert pair[|key| + 1..] == value && (key + "=" + REDACTED)[|key| + 1..] == REDACTED;
  }

  lemma {:induction false} BareHead(head: string)
    requires '#' !in head && '?' !in head
    ensures Cut(head) == Parts(head, None, None)
  {
    assert SplitOnce(head, '#').None? && SplitOnce(head, '?').None?;
  }

  /** The parts left of a URL. */
  function Left(valid: string -> bool, raw: string): Parts {
    if valid(raw) then PartsScrubbed(Cut(raw)) else Parts(StripUserinfo(Cut(raw).head), None, None)
  }

  lemma {:induction false} ScrubbedShows(valid: string -> bool, raw: string)
    ensures Scrubbed(valid, raw) == Show(Left(valid, raw))
    ensures Clean(Left(valid, raw)) && Cut(Scrubbed(valid, raw)) == Left(valid, raw)
    ensures PartsScrubbed(Left(valid, raw)) == Left(valid, raw)
  {
    var p := Cut(raw);
    CutIsClean(raw);
    ScrubbedIsClean(p);
    HeadScrubbed(p.head);
    CutShown(Left(valid, raw));
  }

  /** Scrubbing twice is scrubbing once, except exactly when the URL has a query or a fragment, the parser
      accepts it, and rejects its scrubbed form: then the second pass drops what the first one kept. */
  lemma {:induction false} IdempotentIff(valid: string -> bool, raw: string)
    ensures Scrubbed(valid, Scrubbed(valid, raw)) == Scrubbed(valid, raw) <==>
      !(('?' in raw || '#' in raw) && valid(raw) && !valid(Scrubbed(valid, raw)))
  {
    var p, out, s := Cut(raw), Scrubbed(valid, raw), Left(valid, raw);
    ScrubbedShows(valid, raw);
    CutIsClean(raw);
    MarksShow(p);
    if !valid(out) {
      assert Scrubbed(valid, out) == s.head;
      MarksShow(s);
    }
  }

  predicate HasMore(raw: string) { '?' in raw || '#' in raw }

  /** Of URLs with a query or a fragment the parser's verdict depends only on what comes before these. */
  ghost predicate JudgesHead(valid: string -> bool) {
    forall a, b :: HasMore(a) && HasMore(b) && Cut(a).head == Cut(b).head ==> valid(a) == valid(b)
  }

  lemma {:induction false} HeadVerdicts(valid: string -> bool, raw: string)
    requires JudgesHead(valid) && HasMore(raw)
    ensures valid(raw) == valid(Cut(raw).head + "?")
    ensures valid(raw) ==> valid(Scrubbed(valid, raw)) == valid(StripUserinfo(Cut(raw).head) + "?")
  {
    var head := Cut(raw).head;
    CutIsClean(raw);
    BareQuery(head);
    StripStaysFree(head, '#');
    StripStaysFree(head, '?');
    BareQuery(StripUserinfo(head));
    ScrubbedShows(valid, raw);
    MarksShow(Cut(raw));
    MarksShow(Left(valid, raw));
  }

  /** For such a parser all of the condition can be read off the URL: scrubbing it twice differs exactly if
      it has a query or a fragment, and with an empty query the parser accepts its head and rejects its head
      without userinfo. In particular it never differs when there is no userinfo to strip. */
  lemma {:induction false} IdempotentByHead(valid: string -> bool, raw: string)
    requires JudgesHead(valid)
    ensures
      var head := Cut(raw).head;
      Scrubbed(valid, Scrubbed(valid, raw)) == Scrubbed(valid, raw) <==>
        !(HasMore(raw) && valid(head + "?") && !valid(StripUserinfo(head) + "?"))
    ensures
      var h := ReadHead(Cut(raw).head);
      (h.Located? ==> h.at.userinfo.None?) ==> Scrubbed(valid, Scrubbed(valid, raw)) == Scrubbed(valid, raw)
  {
    IdempotentIff(valid, raw);
    HeadReadBack(Cut(raw).head);
    if HasMore(raw) {
      HeadVerdicts(valid, raw);
    }
  }

  lemma {:induction false} BareQuery(head: string)
    requires '#' !in head && '?' !in head
    ensures HasMore(head + "?") && Cut(head + "?").head == head
  {
    CutShown(Parts(head, Some(""), None));
    assert Show(Parts(head, Some(""), None)) == head + "?";
    assert (head + "?")[|head|] == '?';
  }

  lemma {:induction false} SchemeFirst(scheme: string, rest: string)
    requires ':' !in scheme
    ensures
      var head := scheme + "://" + rest;
      Find(head, "://") == Some(|scheme|) && head[..|scheme|] == scheme && head[|scheme| + 3..] == rest
  {
    var head := scheme + "://" + rest;
    forall j | 0 <= j < |scheme| ensures !OccursAt(head, "://", j) {
      assert head[j..j + 3][0] == scheme[j];
    }
    assert OccursAt(head, "://", |scheme|) by { assert head[|scheme|..|scheme| + 3] == "://"; }
  }

  lemma {:induction false} PathSplits(authority: string, path: string)
    requires '/' !in authority && (path == "" || path[0] == '/')
    ensures SplitPath(authority + path) == (authority, path)
  {
    if path == "" {
      assert authority + path == authority;
    } else {
      SplitOnceFirst(authority, '/', path[1..]);
      assert authority + ['/'] + path[1..] == authority + path && "/" + path[1..] == path;
    }
  }

  /** A head put together from its parts is read and stripped as such. */
  lemma {:induction false} StripsTo(scheme: string, user: string, host: string, path: string)
    requires ':' !in scheme && '/' !in user && '/' !in host && '@' !in host && (path == "" || path[0] == '/')
    ensures StripUserinfo(scheme + "://" + (user + "@" + host + path)) == scheme + "://" + (host + path)
  {
    var authority := user + "@" + host;
    SchemeFirst(scheme, authority + path);
    PathSplits(authority, path);
    RSplitOnceLast(user, '@', host);
  }

  /** Accepted with its userinfo and rejected without it, a URL loses its query in the second pass. */
  lemma {:induction false} SecondPassDropsQuery(
    valid: string -> bool, scheme: string, user: string, host: string, path: string, query: string)
    requires ':' !in scheme && '/' !in user && '/' !in host && '@' !in host && (path == "" || path[0] == '/')
    requires forall c :: c in scheme + user + host + path ==> c != '?' && c != '#'
    requires '#' !in query
    requires valid(scheme + "://" + (user + "@" + host + path) + "?" + query)
    requires !valid(scheme + "://" + (host + path) + "?" + ScrubPairs(query))
    ensures
      var raw, bare := scheme + "://" + (user + "@" + host + path) + "?" + query, scheme + "://" + (host + path);
      Scrubbed(valid, raw) == bare + "?" + ScrubPairs(query) && Scrubbed(valid, bare + "?" + ScrubPairs(query)) == bare
  {
    var head, bare := scheme + "://" + (user + "@" + host + path), scheme + "://" + (host + path);
    assert '?' !in head && '#' !in head && '?' !in bare && '#' !in bare by {
      assert forall c :: c in head || c in bare ==>
        c in scheme + user + host + path || c == ':' || c == '/' || c == '@';
    }
    StripsTo(scheme, user, host, path);
    HeadScrubbed(head);
    PairsStayFree(query, '#');
    CutShown(Parts(head, Some(query), None));
    CutShown(Parts(bare, Some(ScrubPairs(query)), None));
    assert Show(Parts(head, Some(query), None)) == head + "?" + query;
    assert Show(Parts(bare, Some(ScrubPairs(query)), None)) == bare + "?" + ScrubPairs(query);
  }

  /** Such a URL: for the parser a backslash ends the authority, so it accepts `http://h\@y:99999/p?q`, and
      without what it takes for the host the number is a port out of range. */
  lemma {:induction false} BackslashLosesItsQuery(valid: string -> bool)
    requires valid("http" + "://" + ("h\\" + "@" + "y:99999" + "/p") + "?" + "q")
    requires !valid("http" + "://" + ("y:99999" + "/p") + "?" + "q")
    ensures
      var raw := "http" + "://" + ("h\\" + "@" + "y:99999" + "/p") + "?" + "q";
      var bare := "http" + "://" + ("y:99999" + "/p");
      Scrubbed(valid, raw) == bare + "?" + "q" && Scrubbed(valid, Scrubbed(valid, raw)) == bare
  {
    OneBarePair("q");
    SecondPassDropsQuery(valid, "http", "h\\", "y:99999", "/p", "q");
  }

  lemma {:induction false} MarksShow(p: Parts)
    requires Clean(p)
    ensures Show(p) == p.head <==> p.query.None? && p.fragment.None?
    ensures '?' in Show(p) || '#' in Show(p) <==> p.query.Some? || p.fragment.Some?
  {
  }

  // ----- Flow evidence -----

  datatype ConsoleLine = ConsoleLine(level: string, text: string)

  /** A flow's last page, as captured when it failed. */
  datatype Evidence = Evidence(
    finalUrl: Option<string>, title: Option<string>, textSnippet: Option<string>, console: seq<ConsoleLine>)

  function RedactedOption(v: Option<string>, secrets: seq<string>): Option<string> {
    if v.Some? then Some(Redacted(v.value, secrets)) else None
  }

  function RedactedLines(lines: seq<ConsoleLine>, secrets: seq<string>): (r: seq<ConsoleLine>)
    ensures |r| == |lines|
    ensures forall k :: 0 <= k < |r| ==> r[k] == lines[k].(text := Redacted(lines[k].text, secrets))
  {
    if lines == [] then []
    else [lines[0].(text := Redacted(lines[0].text, secrets))] + RedactedLines(lines[1..], secrets)
  }

  /** The URL is scrubbed always, then every text by the secrets. */
  function EvidenceScrubbed(valid: string -> bool, secrets: seq<string>, e: Evidence): Evidence {
    var url := if e.finalUrl.Some? then Some(Scrubbed(valid, e.finalUrl.value)) else None;
    Evidence(RedactedOption(url, secrets), RedactedOption(e.title, secrets),
             RedactedOption(e.textSnippet, secrets), RedactedLines(e.console, secrets))
  }

  /** Some text of the evidence holds `s`. */
  ghost predicate Holds(e: Evidence, s: string) {
    (e.finalUrl.Some? && Contains(e.finalUrl.value, s)) ||
    (e.title.Some? && Contains(e.title.value, s)) ||
    (e.textSnippet.Some? && Contains(e.textSnippet.value, s)) ||
    exists k :: 0 <= k < |e.console| && Contains(e.console[k].text, s)
  }

  /** No inert secret is left in any field of the evidence, whatever the parser says of the URL. */
  lemma {:induction false} NoSecretLeft(valid: string -> bool, secrets: seq<string>, e: Evidence, s: string)
    requires s in secrets && Inert(s)
    ensures !Holds(EvidenceScrubbed(valid, secrets, e), s)
  {
    forall t ensures !Contains(Redacted(t, secrets), s) {
      CompleteRemoval(t, secrets, s);
    }
  }

  /** Without secrets just the URL is scrubbed; with them each field is what the literal pass makes of it, the
      URL's after its own scrub, and a console line keeps its level. */
  lemma {:induction false} EvidenceFields(valid: string -> bool, secrets: seq<string>, e: Evidence)
    ensures
      var r := EvidenceScrubbed(valid, secrets, e);
      (e.finalUrl.Some? ==> r.finalUrl == Some(Redacted(Scrubbed(valid, e.finalUrl.value), secrets))) &&
      (e.title.Some? ==> r.title == Some(Redacted(e.title.value, secrets))) &&
      (e.textSnippet.Some? ==> r.textSnippet == Some(Redacted(e.textSnippet.value, secrets))) &&
      (e.finalUrl.None? ==> r.finalUrl.None?) && (e.title.None? ==> r.title.None?) &&
      (e.textSnippet.None? ==> r.textSnippet.None?) && |r.console| == |e.console| &&
      (forall k :: 0 <= k < |r.console| ==>
         r.console[k].level == e.console[k].level && r.console[k].text == Redacted(e.console[k].text, secrets))
    ensures secrets == [] ==>
      EvidenceScrubbed(valid, secrets, e) ==
      e.(finalUrl := if e.finalUrl.Some? then Some(Scrubbed(valid, e.finalUrl.value)) else None)
  {
    if secrets == [] {
      assert RedactedLines(e.console, secrets) == e.console;
    }
  }

  class FlowEvidence {
    var finalUrl: Option<string>
    var title: Option<string>
    var textSnippet: Option<string>
    var console: seq<ConsoleLine>

    ghost function State(): Evidence
      reads this
    {
      Evidence(finalUrl, title, textSnippet, console)
    }

    constructor (e: Evidence)
      ensures State() == e
    {
      finalUrl, title, textSnippet, console := e.finalUrl, e.title, e.textSnippet, e.console;
    }

    method RedactField(v: Option<string>, secrets: seq<string>) returns (r: Option<string>)
      ensures r == RedactedOption(v, secrets)
    {
      if v.None? {
        return None;
      }
      var text := RedactSecrets(v.value, secrets);
      r := Some(text);
    }

    method Scrub(valid: string -> bool, secrets: seq<string>)
      modifies this
      ensures State() == EvidenceScrubbed(valid, secrets, old(State()))
    {
      if finalUrl.Some? {
        var url := ScrubUrl(valid, finalUrl.value);
        finalUrl := Some(url);
      }
      if secrets == [] {
        NothingToRedact(State());
        return;
      }
      finalUrl := RedactField(finalUrl, secrets);
      title := RedactField(title, secrets);
      textSnippet := RedactField(textSnippet, secrets);
      for k := 0 to |console|
        invariant |console| == |old(console)|
        invariant forall m :: 0 <= m < k ==> console[m] == RedactedLines(old(console), secrets)[m]
        invariant forall m :: k <= m < |console| ==> console[m] == old(console)[m]
        modifies `console
      {
        var line := RedactSecrets(console[k].text, secrets);
        console := console[k := console[k].(text := line)];
      }
      assert console == RedactedLines(old(console), secrets);
    }

    lemma NothingToRedact(e: Evidence)
      ensures RedactedLines(e.console, []) == e.console
      ensures RedactedOption(e.finalUrl, []) == e.finalUrl && RedactedOption(e.title, []) == e.title
      ensures RedactedOption(e.textSnippet, []) == e.textSnippet
    {
    }
  }
}
