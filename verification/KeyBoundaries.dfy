/** Where a key's words end, told on its text: what the rule of humps comes to. */
module KeyBoundaries {
  import opened Strings
  import opened KeyWords
  import opened UrlScrub

  predicate IsLower(c: char) { 'a' <= c <= 'z' }

  predicate IsUpper(c: char) { 'A' <= c <= 'Z' }

  predicate IsAlnum(c: char) { IsLower(c) || IsUpper(c) || '0' <= c <= '9' }

  function End(s: string): char
    requires s != ""
  {
    s[|s| - 1]
  }

  // ----- Where words end -----

  /** What follows changes nothing in front of the cut, where a word ends. */
  ghost predicate CutsAt(a: string, b: string) {
    Stops(a + b, |a|) && forall i :: 0 <= i < |a| ==> Hump(a + b, i) == Hump(a, i)
  }

  lemma {:induction false} HumpRight(a: string, b: string, i: nat)
    requires 0 < i < |b|
    ensures Hump(a + b, |a| + i) == Hump(b, i)
  {
    assert (a + b)[|a| + i] == b[i] && (a + b)[|a| + i - 1] == b[i - 1];
    assert i + 1 < |b| ==> (a + b)[|a| + i + 1] == b[i + 1];
  }

  lemma {:induction false} EndLeft(a: string, b: string, i: nat)
    requires CutsAt(a, b) && i <= |a|
    ensures WordEnd(a + b, i) == WordEnd(a, i)
    decreases |a| - i
  {
    if i < |a| {
      assert (a + b)[i] == a[i] && Stops(a + b, i) == Stops(a, i);
      EndLeft(a, b, i + 1);
    }
  }

  lemma {:induction false} EndRight(a: string, b: string, i: nat)
    requires 0 < i <= |b|
    ensures WordEnd(a + b, |a| + i) == |a| + WordEnd(b, i)
    decreases |b| - i
  {
    if i < |b| {
      HumpRight(a, b, i);
      assert (a + b)[|a| + i] == b[i] && Stops(a + b, |a| + i) == Stops(b, i);
      EndRight(a, b, i + 1);
    }
  }

  lemma {:induction false} WordsRight(a: string, b: string, i: nat)
    requires i <= |b|
    ensures WordsFrom(a + b, |a| + i) == WordsFrom(b, i)
    decreases |b| - i
  {
    if i < |b| {
      assert (a + b)[|a| + i] == b[i];
      if !Alnum(b[i]) {
        WordsRight(a, b, i + 1);
      } else {
        var j := WordEnd(b, i + 1);
        EndRight(a, b, i + 1);
        WordsRight(a, b, j);
        assert (a + b)[|a| + i..|a| + j] == b[i..j];
      }
    }
  }

  lemma {:induction false} WordsLeft(a: string, b: string, i: nat)
    requires CutsAt(a, b) && i <= |a|
    ensures WordsFrom(a + b, i) == WordsFrom(a, i) + WordsFrom(a + b, |a|)
    decreases |a| - i
  {
    if i < |a| {
      assert (a + b)[i] == a[i];
      if !Alnum(a[i]) {
        WordsLeft(a, b, i + 1);
      } else {
        var j := WordEnd(a, i + 1);
        EndLeft(a, b, i + 1);
        WordsLeft(a, b, j);
        assert (a + b)[i..j] == a[i..j];
        assert WordsFrom(a, i) == [LowerAll(a[i..j])] + WordsFrom(a, j);
      }
    } else {
      assert WordsFrom(a, i) == [];
    }
  }

  lemma {:induction false} WordsOfBoth(a: string, b: string)
    requires CutsAt(a, b)
    ensures WordsFrom(a + b, 0) == WordsFrom(a, 0) + WordsFrom(b, 0)
  {
    WordsLeft(a, b, 0);
    WordsRight(a, b, 0);
  }

  /** In front of the cut a hump may look one character ahead: only a small letter there would matter. */
  lemma {:induction false} HumpLeft(a: string, b: string, i: nat)
    requires i < |a| && b != "" && !IsLower(b[0])
    ensures Hump(a + b, i) == Hump(a, i)
  {
    assert (a + b)[i] == a[i] && (i > 0 ==> (a + b)[i - 1] == a[i - 1]);
    assert (a + b)[i + 1] == if i + 1 < |a| then a[i + 1] else b[0];
  }

  lemma {:induction false} CutHere(a: string, b: string)
    requires b != "" && !IsLower(b[0]) && Stops(a + b, |a|)
    ensures WordsFrom(a + b, 0) == WordsFrom(a, 0) + WordsFrom(b, 0)
  {
    forall i | 0 <= i < |a| ensures Hump(a + b, i) == Hump(a, i) {
      HumpLeft(a, b, i);
    }
    WordsOfBoth(a, b);
  }

  /** A lower-case letter or a digit, then a capital: the words of both sides. */
  lemma {:induction false} CapitalStartsWord(a: string, b: string)
    requires a != "" && b != "" && (IsLower(End(a)) || '0' <= End(a) <= '9') && IsUpper(b[0])
    ensures WordsFrom(a + b, 0) == WordsFrom(a, 0) + WordsFrom(b, 0)
  {
    assert (a + b)[|a|] == b[0] && (a + b)[|a| - 1] == End(a);
    CutHere(a, b);
  }

  /** The last capital of a run of capitals goes with the lower-case letter after it. */
  lemma {:induction false} LastCapitalStartsWord(a: string, b: string)
    requires a != "" && |b| >= 2 && IsUpper(End(a)) && IsUpper(b[0]) && IsLower(b[1])
    ensures WordsFrom(a + b, 0) == WordsFrom(a, 0) + WordsFrom(b, 0)
  {
    assert (a + b)[|a|] == b[0] && (a + b)[|a| - 1] == End(a) && (a + b)[|a| + 1] == b[1];
    CutHere(a, b);
  }

  /** Anything but a letter or a digit separates, and belongs to no word. */
  lemma {:induction false} PunctuationSeparates(a: string, c: char, b: string)
    requires !IsAlnum(c)
    ensures WordsFrom(a + [c] + b, 0) == WordsFrom(a, 0) + WordsFrom(b, 0)
  {
    var rest := [c] + b;
    assert a + [c] + b == a + rest && (a + rest)[|a|] == c && rest[0] == c;
    CutHere(a, rest);
    WordsRight([c], b, 0);
    assert WordsFrom(rest, 0) == WordsFrom(rest, 1);
  }

  lemma {:induction false} ConcatFirst(w: string, words: seq<string>, k: nat)
    requires k <= |words|
    ensures Concat(([w] + words)[..k + 1]) == w + Concat(words[..k])
  {
    assert ([w] + words)[..k + 1] == [w] + words[..k];
    assert ([w] + words[..k])[1..] == words[..k];
  }

  /** Between two letters or digits in any other case no word ends: counted in letters and digits, the place
      is strictly inside a word. */
  lemma {:induction false} NowhereElse(key: string, i: nat)
    requires 0 < i < |key| && IsAlnum(key[i - 1]) && IsAlnum(key[i])
    requires !(IsUpper(key[i]) && !IsUpper(key[i - 1]))
    requires !(IsUpper(key[i]) && IsUpper(key[i - 1]) && i + 1 < |key| && IsLower(key[i + 1]))
    ensures exists k :: (
      0 <= k < |WordsFrom(key, 0)| &&
      |Concat(WordsFrom(key, 0)[..k])| < |Compact(key[..i])| < |Concat(WordsFrom(key, 0)[..k + 1])|)
  {
    var k := InsideWord(key, 0, i);
    assert key[0..i] == key[..i];
  }

  lemma {:induction false} InsideWord(key: string, p: nat, i: nat) returns (k: nat)
    requires p < i < |key| && Alnum(key[i - 1]) && !Stops(key, i)
    ensures k < |WordsFrom(key, p)|
    ensures |Concat(WordsFrom(key, p)[..k])| < |Compact(key[p..i])| < |Concat(WordsFrom(key, p)[..k + 1])|
    decreases i - p
  {
    if !Alnum(key[p]) {
      assert key[p..i][1..] == key[p + 1..i];
      k := InsideWord(key, p + 1, i);
    } else {
      var j := WordEnd(key, p + 1);
      var w, rest := LowerAll(key[p..j]), WordsFrom(key, j);
      assert WordsFrom(key, p) == [w] + rest;
      if i < j {
        CompactWord(key[p..i]);
        ConcatFirst(w, rest, 0);
        k := 0;
        assert rest[..0] == [] && ([w] + rest)[..0] == [];
      } else {
        var m := InsideWord(key, j, i);
        CompactAppend(key[p..j], key[j..i]);
        CompactWord(key[p..j]);
        assert key[p..j] + key[j..i] == key[p..i];
        ConcatFirst(w, rest, m);
        ConcatFirst(w, rest, m + 1);
        k := m + 1;
      }
    }
  }

  // ----- Characters -----

  /** Of each character: a small letter or digit stays, a capital becomes small, all else goes. */
  lemma {:induction false} CompactChars(s: string, c: char)
    ensures Compact(s + [c]) == Compact(s) +
      if 'a' <= c <= 'z' || '0' <= c <= '9' then [c]
      else if 'A' <= c <= 'Z' then [(c as int - 'A' as int + 'a' as int) as char]
      else ""
  {
    CompactAppend(s, [c]);
    assert [c][1..] == "";
    assert Compact([c]) == (if Alnum(c) then [ToLower(c)] else "") + "";
  }

  // ----- Which keys name a credential -----

  /** One word in one case, or capitalised: the text itself in lower case. */
  lemma {:induction false} OneWord(s: string)
    requires s != "" && (IsLower(s[0]) || IsUpper(s[0])) && forall k :: 0 < k < |s| ==> IsLower(s[k])
    ensures WordsFrom(s, 0) == [LowerAll(s)]
  {
    OneEnd(s, 1);
    assert s[0..|s|] == s;
  }

  lemma {:induction false} OneEnd(s: string, i: nat)
    requires 0 < i <= |s| && forall k :: 0 < k < |s| ==> IsLower(s[k])
    ensures WordEnd(s, i) == |s|
    decreases |s| - i
  {
    if i < |s| {
      OneEnd(s, i + 1);
    }
  }

  /** What may stand before a word: nothing, punctuation, or, before a capital, a small letter or a digit. */
  predicate WordMayStart(a: string, c: char) {
    a == "" || !IsAlnum(End(a)) || (!IsUpper(End(a)) && IsUpper(c))
  }

  /** What may stand behind one: nothing, punctuation or a capital. */
  predicate WordMayEnd(b: string) { b == "" || !IsAlnum(b[0]) || IsUpper(b[0]) }

  lemma {:induction false} WordsBehind(s: string, b: string)
    requires s != "" && IsLower(End(s)) && WordMayEnd(b)
    ensures WordsFrom(s, 0) <= WordsFrom(s + b, 0)
  {
    if b == "" {
      assert s + b == s;
    } else if IsAlnum(b[0]) {
      CapitalStartsWord(s, b);
    } else {
      PunctuationSeparates(s, b[0], b[1..]);
      assert s + [b[0]] + b[1..] == s + b;
    }
  }

  lemma {:induction false} WordsBefore(a: string, s: string)
    requires s != "" && WordMayStart(a, s[0])
    ensures WordsFrom(a + s, 0) == WordsFrom(a, 0) + WordsFrom(s, 0)
  {
    if a == "" {
      assert a + s == s && WordsFrom(a, 0) == [];
    } else if IsAlnum(End(a)) {
      CapitalStartsWord(a, s);
    } else {
      var front := a[..|a| - 1];
      assert a == front + [End(a)] + "" && a + s == front + [End(a)] + s;
      PunctuationSeparates(front, End(a), s);
      PunctuationSeparates(front, End(a), "");
      assert WordsFrom("", 0) == [];
    }
  }

  /** A listed segment, capitalised or not, where a word may start and may end: `oobCode`, `auth_code`,
      `state2Sig`, `code`. */
  lemma {:induction false} SegmentMakesSecret(a: string, s: string, b: string)
    requires |s| >= 2 && (IsLower(s[0]) || IsUpper(s[0])) && forall k :: 0 < k < |s| ==> IsLower(s[k])
    requires LowerAll(s) in SECRET_KEY_SEGMENTS && WordMayStart(a, s[0]) && WordMayEnd(b)
    ensures IsSecretParam(a + s + b)
  {
    OneWord(s);
    WordsBehind(s, b);
    assert (s + b)[0] == s[0];
    WordsBefore(a, s + b);
    assert a + (s + b) == a + s + b;
    var words := WordsFrom(a + s + b, 0);
    assert words[|WordsFrom(a, 0)|] == WordsFrom(s + b, 0)[0] == LowerAll(s);
    assert LowerAll(s) in words;
    var k :| 0 <= k < |SECRET_KEY_SEGMENTS| && SECRET_KEY_SEGMENTS[k] == LowerAll(s);
    assert SECRET_KEY_SEGMENTS[k] in words;
  }

  /** On one pair: the value behind such a key goes, whatever it is. */
  lemma {:induction false} PairOf(key: string, value: string)
    requires '=' !in key
    ensures ScrubPair(key + "=" + value) == key + "=" + if IsSecretParam(key) then "***" else value
  {
    SplitOnceFirst(key, '=', value);
  }

  lemma {:induction false} OobCodeGoes(value: string)
    ensures IsSecretParam("oob" + "Code" + "")
    ensures ScrubPair("oob" + "Code" + "" + "=" + value) == "oob" + "Code" + "" + "=" + "***"
  {
    assert LowerAll("Code") == "code" && SECRET_KEY_SEGMENTS[0] == "code";
    SegmentMakesSecret("oob", "Code", "");
    PairOf("oob" + "Code" + "", value);
  }

  /** No listed text is in `codeword`: those whose first letter is have no room in it. */
  lemma {:induction false} NotInCodeword(text: string, i: nat)
    requires text in SECRET_PARAMS_CONTAINING
    ensures !OccursAt("codeword", text, i)
  {
    var s := "codeword";
    assert text[0] == 'c' ==> |text| > |s|;
    assert forall k :: 0 <= k < |s| ==> s[k] == 'c' || s[k] !in ['t', 's', 'p', 'a', 'b'];
    assert i + |text| <= |s| ==> s[i..i + |text|][0] == s[i];
  }

  lemma {:induction false} SmallStays(s: string)
    requires forall k :: 0 <= k < |s| ==> IsLower(s[k])
    ensures LowerAll(s) == s && Compact(s) == s
  {
    if s != "" {
      SmallStays(s[1..]);
      assert [s[0]] + s[1..] == s;
    }
  }

  /** A key in small letters throughout names a credential if and only if it holds a listed text or is itself a
      listed segment. */
  lemma {:induction false} SmallKeyIff(key: string)
    requires key != "" && forall k :: 0 <= k < |key| ==> IsLower(key[k])
    ensures IsSecretParam(key) <==>
      key in SECRET_KEY_SEGMENTS || exists text :: text in SECRET_PARAMS_CONTAINING && Contains(key, text)
  {
    SmallStays(key);
    OneWord(key);
    if IsSecretParam(key) {
      SmallReason(key);
    }
    forall text | text in SECRET_PARAMS_CONTAINING && Contains(key, text) ensures IsSecretParam(key) {
      TextMakesSecret(key, text);
    }
    if key in SECRET_KEY_SEGMENTS {
      var k :| 0 <= k < |SECRET_KEY_SEGMENTS| && SECRET_KEY_SEGMENTS[k] == key;
      assert SECRET_KEY_SEGMENTS[k] in WordsFrom(key, 0);
    }
  }

  lemma {:induction false} SmallReason(key: string)
    requires IsSecretParam(key) && Compact(key) == key && WordsFrom(key, 0) == [key]
    ensures key in SECRET_KEY_SEGMENTS || exists text :: text in SECRET_PARAMS_CONTAINING && Contains(key, text)
  {
    if k :| 0 <= k < |SECRET_PARAMS_CONTAINING| && Find(Compact(key), SECRET_PARAMS_CONTAINING[k]).Some? {
      var text := SECRET_PARAMS_CONTAINING[k];
      assert Contains(key, text) && text in SECRET_PARAMS_CONTAINING;
    } else {
      var k :| 0 <= k < |SECRET_KEY_SEGMENTS| && SECRET_KEY_SEGMENTS[k] in WordsFrom(key, 0);
      assert SECRET_KEY_SEGMENTS[k] == key;
    }
  }

  lemma {:induction false} CodewordStays(value: string)
    ensures !IsSecretParam("codeword")
    ensures ScrubPair("codeword" + "=" + value) == "codeword" + "=" + value
  {
    SmallKeyIff("codeword");
    forall text | text in SECRET_PARAMS_CONTAINING ensures !Contains("codeword", text) {
      forall i: nat ensures !OccursAt("codeword", text, i) {
        NotInCodeword(text, i);
      }
    }
    CodewordIsNoSegment();
    PairOf("codeword", value);
  }

  lemma {:induction false} CodewordIsNoSegment()
    ensures "codeword" !in SECRET_KEY_SEGMENTS
  {
    forall k | 0 <= k < |SECRET_KEY_SEGMENTS| ensures |SECRET_KEY_SEGMENTS[k]| < 8 {
    }
  }
}
