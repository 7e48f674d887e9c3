/** Literal removal of secrets from captured text (`redact_secrets`). */
module Redaction {
  import opened Common
  import opened Strings

  const REDACTED := "***"

  /** `str::replace` for a non-empty pattern: every leftmost, non-overlapping match. */
  function Replace(t: string, p: string): string
    requires p != ""
    decreases |t|
  {
    match Find(t, p)
    case None => t
    case Some(i) => t[..i] + REDACTED + Replace(t[i + |p|..], p)
  }

  /** `str::replace` for the empty pattern: the mark goes between all characters and at both ends. */
  function ReplaceEmpty(t: string): string {
    if t == "" then REDACTED else REDACTED + [t[0]] + ReplaceEmpty(t[1..])
  }

  function RedactOne(t: string, secret: string): string {
    if secret == "" then ReplaceEmpty(t) else Replace(t, secret)
  }

  function Redacted(t: string, secrets: seq<string>): string
    decreases |secrets|
  {
    if secrets == [] then t else Redacted(RedactOne(t, secrets[0]), secrets[1..])
  }

  lemma {:induction false} AbsentUnchanged(t: string, secret: string)
    ensures !Contains(t, secret) ==> RedactOne(t, secret) == t
  {
    if secret == "" {
      assert OccursAt(t, secret, 0);
    }
  }

  /** The loop over the secrets; a text that does not hold a secret is left alone. */
  method RedactSecrets(text: string, secrets: seq<string>) returns (s: string)
    ensures s == Redacted(text, secrets)
  {
    s := text;
    for k := 0 to |secrets|
      invariant Redacted(s, secrets[k..]) == Redacted(text, secrets)
    {
      assert secrets[k..][1..] == secrets[k + 1..];
      var at := Find(s, secrets[k]);
      AbsentUnchanged(s, secrets[k]);
      if at.Some? {
        s := RedactOne(s, secrets[k]);
      }
    }
    assert secrets[|secrets|..] == [];
  }

  // ----- What replacing keeps -----

  /** The text between the matches. */
  function Kept(t: string, p: string): (r: seq<string>)
    requires p != ""
    ensures |r| > 0
    decreases |t|
  {
    match Find(t, p)
    case None => [t]
    case Some(i) => [t[..i]] + Kept(t[i + |p|..], p)
  }

  function Glue(parts: seq<string>, between: string): string
    requires |parts| > 0
  {
    if |parts| == 1 then parts[0] else parts[0] + between + Glue(parts[1..], between)
  }

  lemma {:induction false} GlueFirst(first: string, rest: seq<string>, between: string)
    requires rest != []
    ensures Glue([first] + rest, between) == first + between + Glue(rest, between)
  {
  }

  /** Redacting swaps the matches for the mark and keeps everything else: with the secret put back
      between the same pieces, the original text returns. */
  lemma {:induction false} ReplaceKeepsTheRest(t: string, p: string)
    requires p != ""
    ensures Glue(Kept(t, p), p) == t
    ensures Glue(Kept(t, p), REDACTED) == Replace(t, p)
    ensures forall k :: 0 <= k < |Kept(t, p)| ==> !Contains(Kept(t, p)[k], p)
    decreases |t|
  {
    var f := Find(t, p);
    if f.Some? {
      var i := f.value;
      var rest := t[i + |p|..];
      ReplaceKeepsTheRest(rest, p);
      GlueFirst(t[..i], Kept(rest, p), p);
      GlueFirst(t[..i], Kept(rest, p), REDACTED);
      assert t == t[..i] + p + rest;
      forall j | OccursAt(t[..i], p, j) ensures false {
        OccursInSlice(t, 0, i, p, j);
      }
    }
  }

  // ----- Which secrets are removed from every text -----

  /** A secret the mark can neither begin, end nor spell: exactly the ones redaction always removes. */
  predicate Inert(s: string) {
    s != "" && s[0] != '*' && s[|s| - 1] != '*' && Find(s, REDACTED).None?
  }

  /** An inert text cannot touch a mark. */
  lemma {:induction false} ClearOfTheMark(a: string, b: string, q: string, k: int)
    requires Inert(q) && OccursAt(a + REDACTED + b, q, k)
    ensures (k + |q| <= |a| && OccursAt(a, q, k)) ||
            (k >= |a| + 3 && OccursAt(b, q, k - |a| - 3))
  {
    var out := a + REDACTED + b;
    if k + |q| <= |a| {
      SlicesAgree(out, k, a, k, |q|);
    } else if k >= |a| + 3 {
      SlicesAgree(out, k, b, k - |a| - 3, |q|);
    } else {
      var here := out[k..k + |q|];
      assert q == here && here[0] == out[k] && here[|q| - 1] == out[k + |q| - 1];
      assert forall x :: |a| <= x < |a| + 3 ==> out[x] == REDACTED[x - |a|] == '*';
      var m := |a| - k;
      assert 0 < m && m + 3 < |q|;
      SlicesAgree(out, |a|, REDACTED, 0, 3);
      SlicesAgree(q, m, out, |a|, 3);
      assert REDACTED[0..3] == REDACTED;
      assert OccursAt(q, REDACTED, m);
    }
  }

  /** Every occurrence of an inert `q` after replacing `p` was already there, and it is not `p`. */
  lemma {:induction false} OccurrenceIsOld(t: string, p: string, q: string, k: int) returns (j: int)
    requires p != "" && Inert(q)
    requires OccursAt(Replace(t, p), q, k)
    ensures OccursAt(t, q, j)
    ensures q != p
    decreases |t|
  {
    if Find(t, p).None? {
      return k;
    }
    var i := Find(t, p).value;
    var a, rest := t[0..i], t[i + |p|..|t|];
    assert a == t[..i] && rest == t[i + |p|..];
    ClearOfTheMark(a, Replace(rest, p), q, k);
    if k + |q| <= i {
      j := k;
      OccursInSlice(t, 0, i, q, k);
    } else {
      j := OccurrenceIsOld(rest, p, q, k - i - 3);
      OccursInSlice(t, i + |p|, |t|, q, j);
      j := i + |p| + j;
    }
  }

  /** An empty secret puts a mark before, between and after all characters. */
  lemma {:induction false} EmptyShape(t: string, p: nat)
    ensures |ReplaceEmpty(t)| == 4 * |t| + 3
    ensures p < |ReplaceEmpty(t)| ==> ReplaceEmpty(t)[p] == if p % 4 == 3 then t[p / 4] else '*'
  {
    if t != "" {
      EmptyShape(t[1..], if p >= 4 then p - 4 else 0);
      assert ReplaceEmpty(t) == REDACTED + [t[0]] + ReplaceEmpty(t[1..]);
      if p >= 4 {
        assert (p - 4) / 4 == p / 4 - 1;
      }
    }
  }

  /** Between its marks only single old characters are left. */
  lemma {:induction false} EmptyLeavesSingles(t: string, q: string, k: int) returns (j: int)
    requires Inert(q) && OccursAt(ReplaceEmpty(t), q, k)
    ensures OccursAt(t, q, j)
  {
    var out, last := ReplaceEmpty(t), k + |q| - 1;
    EmptyShape(t, k);
    forall p: int | k <= p <= last ensures q[p - k] == out[p] && out[p] == if p % 4 == 3 then t[p / 4] else '*' {
      EmptyShape(t, p);
      assert out[k..k + |q|][p - k] == out[p];
    }
    assert k % 4 == 3 && last % 4 == 3;
    if |q| > 1 {
      assert q[1] == out[k + 1] && q[2] == out[k + 2] && q[3] == out[k + 3];
      assert q[1..4] == REDACTED;
      assert OccursAt(q, REDACTED, 1);
    }
    j := k / 4;
    assert t[j..j + 1] == q;
  }

  /** The same for a whole list of secrets: what is inert after the pass was there before it,
      and is none of the secrets in the list. */
  lemma {:induction false} SurvivorIsOld(t: string, secrets: seq<string>, q: string)
    requires Inert(q) && Contains(Redacted(t, secrets), q)
    ensures Contains(t, q) && q !in secrets
    decreases |secrets|
  {
    if secrets != [] {
      var t' := RedactOne(t, secrets[0]);
      SurvivorIsOld(t', secrets[1..], q);
      var k :| OccursAt(t', q, k);
      var j;
      if secrets[0] == "" {
        j := EmptyLeavesSingles(t, q, k);
      } else {
        j := OccurrenceIsOld(t, secrets[0], q, k);
      }
      assert q != secrets[0];
    }
  }

  /** Complete removal: no inert secret of the list is left, whatever the text, the order, the overlaps
      and the other secrets of the list. */
  lemma {:induction false} CompleteRemoval(t: string, secrets: seq<string>, s: string)
    requires s in secrets && Inert(s)
    ensures !Contains(Redacted(t, secrets), s)
  {
    if Contains(Redacted(t, secrets), s) {
      SurvivorIsOld(t, secrets, s);
    }
  }

  /** A text that holds none of the secrets is left as it was. */
  lemma {:induction false} CleanTextUnchanged(t: string, secrets: seq<string>)
    requires forall s :: s in secrets ==> !Contains(t, s)
    ensures Redacted(t, secrets) == t
  {
    if secrets != [] {
      assert secrets[0] in secrets;
      if secrets[0] == "" {
        assert OccursAt(t, "", 0);
      }
      CleanTextUnchanged(t, secrets[1..]);
    }
  }

  // ----- The condition is exact -----

  /** A first match at `i` with nothing after it that matches again. */
  lemma {:induction false} ReplaceOnce(t: string, p: string, i: nat)
    requires p != "" && OccursAt(t, p, i)
    requires forall j | 0 <= j < i :: !OccursAt(t, p, j)
    requires |t| - i < 2 * |p|
    ensures Replace(t, p) == t[..i] + REDACTED + t[i + |p|..]
  {
  }

  /** A secret that starts with the mark's character survives in its own text doubled up. */
  lemma {:induction false} LeadingStarSurvives(s: string) returns (t: string)
    requires s != "" && s[0] == '*'
    ensures Contains(RedactOne(t, s), s)
  {
    t := s + s[1..];
    assert OccursAt(t, s, 0);
    ReplaceOnce(t, s, 0);
    assert t[|s|..] == s[1..];
    var out := REDACTED + s[1..];
    assert RedactOne(t, s) == out by { assert t[..0] + REDACTED + t[|s|..] == out; }
    assert out[2..2 + |s|] == s;
    assert OccursAt(out, s, 2);
  }

  /** So does one that ends with it. */
  lemma {:induction false} TrailingStarSurvives(s: string) returns (t: string)
    requires s != "" && s[0] != '*' && s[|s| - 1] == '*'
    ensures Contains(RedactOne(t, s), s)
  {
    var n := |s| - 1;
    t := s[..n] + s;
    forall j | 0 <= j < n ensures !OccursAt(t, s, j) {
      // Its last character would make s[j] the star, its first one forbids that.
      assert t[j..j + |s|][n] == s[j] && t[j..j + |s|][0] == s[j];
    }
    assert t[n..n + |s|] == s;
    ReplaceOnce(t, s, n);
    var out := s[..n] + REDACTED;
    assert t[..n] + REDACTED + t[n + |s|..] == out;
    assert out[0..|s|] == s;
    assert OccursAt(out, s, 0);
  }

  /** And so does one that holds the whole mark. */
  lemma {:induction false} InnerMarkSurvives(s: string) returns (t: string)
    requires s != "" && s[0] != '*' && s[|s| - 1] != '*' && Find(s, REDACTED).Some?
    ensures Contains(RedactOne(t, s), s)
  {
    var m := Find(s, REDACTED).value;
    var u, v := s[..m], s[m + 3..];
    assert s == u + REDACTED + v;
    t := u + s + v;
    forall j | 0 <= j < m ensures !OccursAt(t, s, j) {
      // The mark inside an earlier match would sit in `s` before the first mark of `s`.
      EarlierMatch(u, s, v, j);
      assert !OccursAt(s, REDACTED, j);
    }
    assert t[m..m + |s|] == s;
    ReplaceOnce(t, s, m);
    assert t[..m] == u && t[m + |s|..] == v;
    assert s[0..|s|] == s;
    assert OccursAt(s, s, 0);
  }

  lemma {:induction false} EarlierMatch(u: string, s: string, v: string, j: nat)
    requires |s| == |u| + 3 + |v| && s[|u|..|u| + 3] == REDACTED && j < |u|
    ensures OccursAt(u + s + v, s, j) ==> OccursAt(s, REDACTED, j)
  {
    var t, m := u + s + v, |u|;
    assert t[j..j + |s|][m..m + 3] == t[j + m..j + m + 3] == s[j..j + 3];
  }

  /** `s` is still there after a pass whose only secret is `s`. */
  ghost predicate Survives(t: string, s: string) {
    Contains(Redacted(t, [s]), s)
  }

  lemma {:induction false} NotInertSurvives(s: string) returns (t: string)
    requires !Inert(s)
    ensures Survives(t, s)
  {
    if s == "" {
      t := "";
      assert OccursAt(RedactOne(t, s), s, 0);
    } else if s[0] == '*' {
      t := LeadingStarSurvives(s);
    } else if s[|s| - 1] == '*' {
      t := TrailingStarSurvives(s);
    } else {
      t := InnerMarkSurvives(s);
    }
    assert Redacted(t, [s]) == Redacted(RedactOne(t, s), []);
  }

  /** A secret is removed from every text if and only if it is inert. */
  lemma {:induction false} RemovedFromEveryTextIffInert(s: string)
    ensures (forall t :: !Survives(t, s)) <==> Inert(s)
  {
    if Inert(s) {
      forall t ensures !Survives(t, s) {
        CompleteRemoval(t, [s], s);
      }
    } else {
      var t := NotInertSurvives(s);
    }
  }
}
