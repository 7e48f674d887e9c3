/** Which query keys carry a credential (`key_words`, `is_secret_param`). */
module KeyWords {
  import opened Strings

  predicate Lower(c: char) { 'a' <= c <= 'z' }

  predicate Upper(c: char) { 'A' <= c <= 'Z' }

  predicate Digit(c: char) { '0' <= c <= '9' }

  predicate Alnum(c: char) { Lower(c) || Upper(c) || Digit(c) }

  function ToLower(c: char): char {
    if Upper(c) then (c as int + 32) as char else c
  }

  function LowerAll(s: string): (r: string)
    ensures |r| == |s|
  {
    if s == "" then "" else [ToLower(s[0])] + LowerAll(s[1..])
  }

  /** The key in lower case with everything but ASCII letters and digits taken out. */
  function Compact(key: string): string {
    if key == "" then ""
    else (if Alnum(key[0]) then [ToLower(key[0])] else "") + Compact(key[1..])
  }

  /** A camelCase hump at `i`: `oobCode` before the C, `SAMLResponse` before the R. */
  predicate Hump(key: string, i: nat)
    requires i < |key|
  {
    Upper(key[i]) && 0 < i &&
    (Lower(key[i - 1]) || Digit(key[i - 1]) ||
     (Upper(key[i - 1]) && i + 1 < |key| && Lower(key[i + 1])))
  }

  /** A word that is running at `i` stops there. */
  predicate Stops(key: string, i: nat)
    requires i <= |key|
  {
    i == |key| || !Alnum(key[i]) || Hump(key, i)
  }

  /** Where the word running at `i` ends. */
  function WordEnd(key: string, i: nat): (j: nat)
    requires i <= |key|
    ensures i <= j <= |key| && Stops(key, j)
    ensures forall k :: i <= k < j ==> Alnum(key[k]) && !Hump(key, k)
    decreases |key| - i
  {
    if Stops(key, i) then i else WordEnd(key, i + 1)
  }

  /** The words from position `i` on. */
  function WordsFrom(key: string, i: nat): seq<string>
    requires i <= |key|
    decreases |key| - i
  {
    if i == |key| then []
    else if !Alnum(key[i]) then WordsFrom(key, i + 1)
    else
      var j := WordEnd(key, i + 1);
      [LowerAll(key[i..j])] + WordsFrom(key, j)
  }

  /** After `i` characters `words` is flushed and `word` is running. */
  ghost predicate Scanned(key: string, i: nat, words: seq<string>, word: string) {
    |word| <= i <= |key| &&
    var a := i - |word|;
    word == LowerAll(key[a..i]) &&
    (word != "" ==> Alnum(key[a]) && WordEnd(key, a + 1) == WordEnd(key, i)) &&
    words + WordsFrom(key, a) == WordsFrom(key, 0)
  }

  /** The running word is pushed when it stops at `i`. */
  lemma {:induction false} Flushed(key: string, i: nat, words: seq<string>, word: string)
    requires Scanned(key, i, words, word) && word != "" && Stops(key, i)
    ensures Scanned(key, i, words + [word], "")
  {
  }

  lemma {:induction false} Pushed(key: string, i: nat, words: seq<string>, word: string)
    requires Scanned(key, i, words, word) && i < |key| && Alnum(key[i])
    requires word != "" ==> !Hump(key, i)
    ensures Scanned(key, i + 1, words, word + [ToLower(key[i])])
  {
    var a := i - |word|;
    LowerAllSnoc(key[a..i], key[i]);
    assert key[a..i] + [key[i]] == key[a..i + 1];
    assert word != "" ==> !Stops(key, i) && WordEnd(key, i) == WordEnd(key, i + 1);
    assert word == "" ==> a == i;
  }

  lemma Skipped(key: string, i: nat, words: seq<string>)
    requires Scanned(key, i, words, "") && i < |key| && !Alnum(key[i])
    ensures Scanned(key, i + 1, words, "")
  {
  }

  lemma Finished(key: string, words: seq<string>)
    requires Scanned(key, |key|, words, "")
    ensures words == WordsFrom(key, 0)
  {
  }

  /** The loop of the source: a word buffer flushed at punctuation, at humps and at the end. */
  method Words(key: string) returns (words: seq<string>)
    ensures words == WordsFrom(key, 0)
  {
    words := [];
    var word := "";
    for i := 0 to |key|
      invariant Scanned(key, i, words, word)
    {
      if !Alnum(key[i]) {
        if word != "" {
          Flushed(key, i, words, word);
          words := words + [word];
          word := "";
        }
        Skipped(key, i, words);
      } else {
        if Hump(key, i) && word != "" {
          Flushed(key, i, words, word);
          words := words + [word];
          word := "";
        }
        Pushed(key, i, words, word);
        word := word + [ToLower(key[i])];
      }
    }
    if word != "" {
      Flushed(key, |key|, words, word);
      words := words + [word];
    }
    Finished(key, words);
  }

  lemma {:induction false} LowerAllSnoc(s: string, c: char)
    ensures LowerAll(s + [c]) == LowerAll(s) + [ToLower(c)]
  {
    if s == "" {
      assert (s + [c])[1..] == "";
    } else {
      LowerAllSnoc(s[1..], c);
      assert (s + [c])[1..] == s[1..] + [c];
    }
  }

  function Concat(words: seq<string>): string {
    if words == [] then "" else words[0] + Concat(words[1..])
  }

  lemma {:induction false} CompactAppend(a: string, b: string)
    ensures Compact(a + b) == Compact(a) + Compact(b)
  {
    if a == "" {
      assert a + b == b;
    } else {
      assert (a + b)[1..] == a[1..] + b;
      CompactAppend(a[1..], b);
      var first := if Alnum(a[0]) then [ToLower(a[0])] else "";
      assert Compact(a + b) == first + (Compact(a[1..]) + Compact(b));
      assert Compact(a) == first + Compact(a[1..]);
    }
  }

  lemma {:induction false} CompactWord(a: string)
    requires forall k :: 0 <= k < |a| ==> Alnum(a[k])
    ensures Compact(a) == LowerAll(a)
  {
    if a != "" {
      CompactWord(a[1..]);
    }
  }

  /** Splitting into words loses no letter and no digit and keeps their order. */
  lemma {:induction false} WordsSpellTheKey(key: string, i: nat)
    requires i <= |key|
    ensures Concat(WordsFrom(key, i)) == Compact(key[i..])
    decreases |key| - i
  {
    if i < |key| {
      if !Alnum(key[i]) {
        WordsSpellTheKey(key, i + 1);
        assert key[i..][1..] == key[i + 1..];
      } else {
        var j := WordEnd(key, i + 1);
        WordsSpellTheKey(key, j);
        CompactAppend(key[i..j], key[j..]);
        CompactWord(key[i..j]);
        assert key[i..j] + key[j..] == key[i..];
        var w, rest := LowerAll(key[i..j]), WordsFrom(key, j);
        assert ([w] + rest)[1..] == rest;
      }
    }
  }

  /** `key[a..b]` is one word: it starts at punctuation or a hump, ends at the next one, and holds
      neither inside. */
  ghost predicate IsWord(key: string, a: nat, b: nat) {
    a < b <= |key| &&
    (forall k :: a <= k < b ==> Alnum(key[k])) &&
    (forall k :: a < k < b ==> !Hump(key, k)) &&
    Stops(key, b) &&
    (a == 0 || !Alnum(key[a - 1]) || Hump(key, a))
  }

  /** The words found are exactly the words of the key. */
  lemma {:induction false} WordsAreTheWords(key: string, i: nat, w: string)
    requires i <= |key|
    requires i == |key| || i == 0 || !Alnum(key[i - 1]) || Stops(key, i)
    ensures w in WordsFrom(key, i) <==>
            exists a: nat, b: nat :: i <= a && IsWord(key, a, b) && w == LowerAll(key[a..b])
    decreases |key| - i
  {
    if i < |key| {
      if !Alnum(key[i]) {
        WordsAreTheWords(key, i + 1, w);
        assert forall b: nat :: !IsWord(key, i, b);
      } else {
        var j := WordEnd(key, i + 1);
        assert IsWord(key, i, j);
        WordsAreTheWords(key, j, w);
        forall a: nat, b: nat | i < a < j ensures !IsWord(key, a, b) {
          assert Alnum(key[a - 1]) && !Hump(key, a);
        }
        forall b: nat | IsWord(key, i, b) ensures b == j {
          assert b <= j && j <= b;
        }
      }
    }
  }

  /** Matched against whole words of the key. */
  const SECRET_KEY_SEGMENTS: seq<string> :=
    ["code", "state", "sid", "jwt", "pw", "otp", "ticket", "key", "sig"]

  /** Looked for anywhere in the compact key. */
  const SECRET_PARAMS_CONTAINING: seq<string> :=
    ["token", "secret", "password", "passwd", "signature", "assertion", "session", "apikey",
     "samlresponse", "credential", "bearer"]

  predicate IsSecretParam(key: string) {
    (exists k | 0 <= k < |SECRET_PARAMS_CONTAINING| ::
       Find(Compact(key), SECRET_PARAMS_CONTAINING[k]).Some?) ||
    (exists k | 0 <= k < |SECRET_KEY_SEGMENTS| :: SECRET_KEY_SEGMENTS[k] in WordsFrom(key, 0))
  }

  /** One of the texts occurs in the letters and digits of the key. */
  ghost predicate KeyHolds(key: string, text: string) {
    text in SECRET_PARAMS_CONTAINING && Contains(Compact(key), text)
  }

  /** One of the segments is a whole word of the key, in lower case. */
  ghost predicate WordIsSegment(key: string, a: nat, b: nat) {
    IsWord(key, a, b) && LowerAll(key[a..b]) in SECRET_KEY_SEGMENTS
  }

  lemma {:induction false} SecretHasReason(key: string)
    requires IsSecretParam(key)
    ensures (exists text :: KeyHolds(key, text)) || (exists a: nat, b: nat :: WordIsSegment(key, a, b))
  {
    if k :| 0 <= k < |SECRET_PARAMS_CONTAINING| && Find(Compact(key), SECRET_PARAMS_CONTAINING[k]).Some? {
      assert KeyHolds(key, SECRET_PARAMS_CONTAINING[k]);
    } else {
      var k :| 0 <= k < |SECRET_KEY_SEGMENTS| && SECRET_KEY_SEGMENTS[k] in WordsFrom(key, 0);
      WordsAreTheWords(key, 0, SECRET_KEY_SEGMENTS[k]);
      var a: nat, b: nat :| 0 <= a && IsWord(key, a, b) && SECRET_KEY_SEGMENTS[k] == LowerAll(key[a..b]);
      assert WordIsSegment(key, a, b);
    }
  }

  lemma {:induction false} TextMakesSecret(key: string, text: string)
    requires KeyHolds(key, text)
    ensures IsSecretParam(key)
  {
    var k :| 0 <= k < |SECRET_PARAMS_CONTAINING| && SECRET_PARAMS_CONTAINING[k] == text;
    assert Find(Compact(key), SECRET_PARAMS_CONTAINING[k]).Some?;
  }

  lemma {:induction false} WordMakesSecret(key: string, a: nat, b: nat)
    requires WordIsSegment(key, a, b)
    ensures IsSecretParam(key)
  {
    var w := LowerAll(key[a..b]);
    WordsAreTheWords(key, 0, w);
    var k :| 0 <= k < |SECRET_KEY_SEGMENTS| && SECRET_KEY_SEGMENTS[k] == w;
    assert SECRET_KEY_SEGMENTS[k] in WordsFrom(key, 0);
  }

  /** A key names a credential if and only if one of the texts occurs anywhere in its letters and
      digits, punctuation and case aside, or one of the segments is a whole word of it. */
  lemma {:induction false} SecretParamIff(key: string)
    ensures IsSecretParam(key) <==>
      (exists text :: KeyHolds(key, text)) || (exists a: nat, b: nat :: WordIsSegment(key, a, b))
  {
    if IsSecretParam(key) {
      SecretHasReason(key);
    }
    forall text | KeyHolds(key, text) ensures IsSecretParam(key) {
      TextMakesSecret(key, text);
    }
    forall a: nat, b: nat | WordIsSegment(key, a, b) ensures IsSecretParam(key) {
      WordMakesSecret(key, a, b);
    }
  }

  /** A key that spells out one of the texts anywhere, as `access_token` does, names a credential. */
  lemma {:induction false} SpelledOut(before: string, text: string, after: string)
    requires text in SECRET_PARAMS_CONTAINING && Compact(text) == text
    ensures IsSecretParam(before + text + after)
  {
    var key, a, b := before + text + after, Compact(before), Compact(after);
    CompactAppend(before, text);
    CompactAppend(before + text, after);
    assert Compact(key) == a + text + b;
    assert (a + text + b)[|a|..|a| + |text|] == text;
    assert OccursAt(Compact(key), text, |a|);
    TextMakesSecret(key, text);
  }
}
