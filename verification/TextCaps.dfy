/** Text shaped for channels with a hard length limit or a single line. */
module TextCaps {
  import opened Common

  type Byte = b: int | 0 <= b < 256

  const ELLIPSIS := "\U{2026}"

  /** The encoding of one scalar value (section 3 of RFC 3629). */
  function EncodeChar(c: char): (r: seq<Byte>)
    ensures 1 <= |r| <= 4
  {
    var u := c as int;
    if u < 0x80 then [u]
    else if u < 0x800 then [0xC0 + u / 0x40, 0x80 + u % 0x40]
    else
      var v := u / 0x40;
      var w := v / 0x40;
      if u < 0x1_0000 then [0xE0 + w, 0x80 + v % 0x40, 0x80 + u % 0x40]
      else [0xF0 + w / 0x40, 0x80 + w % 0x40, 0x80 + v % 0x40, 0x80 + u % 0x40]
  }

  function Encode(s: string): seq<Byte> {
    if s == "" then [] else EncodeChar(s[0]) + Encode(s[1..])
  }

  lemma {:induction false} EncodeAppend(a: string, b: string)
    ensures Encode(a + b) == Encode(a) + Encode(b)
  {
    if a == "" {
      assert a + b == b;
    } else {
      assert (a + b)[1..] == a[1..] + b;
      EncodeAppend(a[1..], b);
    }
  }

  /** How many bytes the character led by `b` takes. */
  function LeadLen(b: Byte): nat {
    if b < 0x80 then 1 else if b < 0xE0 then 2 else if b < 0xF0 then 3 else 4
  }

  /** The scalar value of a well-formed sequence, by its own length. */
  function ScalarOf(r: seq<Byte>): int
    requires 1 <= |r| <= 4
  {
    var lead: int := r[0];
    if |r| == 1 then lead
    else if |r| == 2 then (lead - 0xC0) * 0x40 + Tail(r[1])
    else if |r| == 3 then (lead - 0xE0) * 0x1000 + Tail(r[1]) * 0x40 + Tail(r[2])
    else (lead - 0xF0) * 0x4_0000 + Tail(r[1]) * 0x1000 + Tail(r[2]) * 0x40 + Tail(r[3])
  }

  function Tail(b: int): int { b - 0x80 }

  lemma {:induction false} CharReadBack(c: char)
    ensures LeadLen(EncodeChar(c)[0]) == |EncodeChar(c)| && ScalarOf(EncodeChar(c)) == c as int
  {
  }

  predicate Continues(b: int) { 0x80 <= b < 0xC0 }

  function Past(b: int, mark: int): int { b - mark }

  /** The table of the encoding: as few bytes as the value needs, marked by the first, each of the others six
      bits behind the mark of a continuation. */
  lemma {:induction false} EncodingTable(c: char)
    ensures
      var u, r := c as int, EncodeChar(c);
      (u < 0x80 ==> r == [u]) &&
      (0x80 <= u < 0x800 ==>
         |r| == 2 && 0xC2 <= r[0] < 0xE0 && Continues(r[1]) && Past(r[0], 0xC0) * 64 + Past(r[1], 0x80) == u) &&
      (0x800 <= u < 0x1_0000 ==>
         |r| == 3 && 0xE0 <= r[0] < 0xF0 && Continues(r[1]) && Continues(r[2]) &&
         Past(r[0], 0xE0) * 4096 + Past(r[1], 0x80) * 64 + Past(r[2], 0x80) == u) &&
      (0x1_0000 <= u ==>
         |r| == 4 && 0xF0 <= r[0] < 0xF5 && Continues(r[1]) && Continues(r[2]) && Continues(r[3]) &&
         Past(r[0], 0xF0) * 262_144 + Past(r[1], 0x80) * 4096 + Past(r[2], 0x80) * 64 + Past(r[3], 0x80) == u)
  {
  }

  /** The bytes determine the text: no two texts have one encoding. */
  lemma {:induction false} EncodeInjective(a: string, b: string)
    requires Encode(a) == Encode(b)
    ensures a == b
  {
    if a != "" && b != "" {
      CharReadBack(a[0]);
      CharReadBack(b[0]);
      var n := |EncodeChar(a[0])|;
      assert Encode(a)[0] == EncodeChar(a[0])[0] && Encode(b)[0] == EncodeChar(b[0])[0];
      assert Encode(a)[..n] == EncodeChar(a[0]) && Encode(b)[..n] == EncodeChar(b[0]);
      assert Encode(a)[n..] == Encode(a[1..]) && Encode(b)[n..] == Encode(b[1..]);
      EncodeInjective(a[1..], b[1..]);
      assert a == [a[0]] + a[1..] && b == [b[0]] + b[1..];
    }
  }

  lemma {:induction false} EllipsisBytes()
    ensures Encode(ELLIPSIS) == [0xE2, 0x80, 0xA6]
  {
  }

  // ----- The byte cap -----

  /** How many leading characters fit the budget whole. */
  function Fitting(s: string, budget: nat): (k: nat)
    ensures k <= |s|
  {
    if s == "" || |EncodeChar(s[0])| > budget then 0
    else 1 + Fitting(s[1..], budget - |EncodeChar(s[0])|)
  }

  /** `Fitting` is the longest prefix that fits: prefixes fit if and only if they are no longer. */
  lemma {:induction false} FittingIsLongest(s: string, budget: nat, k: nat)
    requires k <= |s|
    ensures |Encode(s[..k])| <= budget <==> k <= Fitting(s, budget)
  {
    if k > 0 {
      assert s[..k][1..] == s[1..][..k - 1];
      if |EncodeChar(s[0])| <= budget {
        FittingIsLongest(s[1..], budget - |EncodeChar(s[0])|, k - 1);
      }
    }
  }

  function Truncated(s: string, maxBytes: nat): string {
    if |Encode(s)| <= maxBytes then s else s[..Fitting(s, Max(maxBytes - 3, 0))] + ELLIPSIS
  }

  lemma {:induction false} FittingStep(s: string, k: nat, budget: nat)
    requires k < |s| && |Encode(s[..k])| <= budget
    ensures Encode(s[..k + 1]) == Encode(s[..k]) + EncodeChar(s[k])
    ensures |Encode(s[..k])| + |EncodeChar(s[k])| > budget ==> Fitting(s, budget) == k
  {
    EncodeAppend(s[..k], [s[k]]);
    assert s[..k + 1] == s[..k] + [s[k]] && [s[k]][1..] == "";
    FittingIsLongest(s, budget, k);
    FittingIsLongest(s, budget, k + 1);
  }

  /** The loop of the source on the bytes: cut at the last character boundary within the budget. What
      comes out is always the encoding of whole characters. */
  method TruncateBytes(s: string, maxBytes: nat) returns (out: seq<Byte>)
    ensures out == Encode(Truncated(s, maxBytes))
  {
    var bytes := Encode(s);
    if |bytes| <= maxBytes {
      return bytes;
    }
    var budget := Max(maxBytes - |EncodeChar(ELLIPSIS[0])|, 0);
    EllipsisBytes();
    assert |EncodeChar(ELLIPSIS[0])| == 3;
    var end, k := 0, 0;
    assert s[..0] == "";
    while k < |s|
      invariant 0 <= k <= |s| && end == |Encode(s[..k])| <= budget
    {
      FittingStep(s, k, budget);
      if end + |EncodeChar(s[k])| > budget {
        break;
      }
      end := end + |EncodeChar(s[k])|;
      k := k + 1;
    }
    assert k == Fitting(s, budget) by {
      FittingIsLongest(s, budget, k);
    }
    EncodeAppend(s[..k], s[k..]);
    assert s == s[..k] + s[k..];
    assert bytes[..end] == Encode(s[..k]);
    EncodeAppend(s[..k], ELLIPSIS);
    out := bytes[..end] + Encode(ELLIPSIS);
  }

  /** The cap holds if and only if the text fits or the cap has room for the ellipsis; text that fits is
      kept, other text keeps the longest prefix of whole characters that leaves that room; and capping
      twice is capping once, under any cap. */
  lemma {:induction false} ByteCapExact(s: string, maxBytes: nat)
    ensures |Encode(Truncated(s, maxBytes))| <= maxBytes <==> |Encode(s)| <= maxBytes || maxBytes >= 3
    ensures |Encode(s)| > maxBytes >= 3 ==>
      exists k :: 0 <= k < |s| && Truncated(s, maxBytes) == s[..k] + ELLIPSIS &&
        |Encode(s[..k])| + 3 <= maxBytes < |Encode(s[..k + 1])| + 3
    ensures Truncated(Truncated(s, maxBytes), maxBytes) == Truncated(s, maxBytes)
  {
    EllipsisBytes();
    if |Encode(s)| > maxBytes {
      var budget := Max(maxBytes - 3, 0);
      var k := Fitting(s, budget);
      EncodeAppend(s[..k], ELLIPSIS);
      FittingIsLongest(s, budget, k);
      FittingIsLongest(s, budget, |s|);
      assert s[..|s|] == s;
      if maxBytes >= 3 {
        FittingIsLongest(s, budget, k + 1);
      } else {
        assert k == 0 && s[..0] + ELLIPSIS == ELLIPSIS;
        assert ELLIPSIS[..0] + ELLIPSIS == ELLIPSIS;
      }
    }
  }

  /** A cap below the ellipsis is not kept: what does not fit becomes the three bytes of the ellipsis. */
  lemma {:induction false} TinyCapOverflows(s: string, maxBytes: nat)
    requires |Encode(s)| > maxBytes && maxBytes < 3
    ensures Truncated(s, maxBytes) == ELLIPSIS && |Encode(Truncated(s, maxBytes))| == 3
    ensures |Encode("ab")| == 2 && |Encode(Truncated("ab", 1))| == 3 > 1
  {
    EllipsisBytes();
    assert Fitting(s, 0) == 0 && Fitting("ab", 0) == 0;
    assert s[..0] + ELLIPSIS == ELLIPSIS && "ab"[..0] + ELLIPSIS == ELLIPSIS;
    assert "ab"[1..] == "b" && "b"[1..] == "";
  }

  // ----- The character cap -----

  function TruncateChars(s: string, maxChars: nat): string {
    if |s| <= maxChars then s else s[..Max(maxChars - 1, 0)] + ELLIPSIS
  }

  lemma {:induction false} CharCapExact(s: string, maxChars: nat)
    ensures |TruncateChars(s, maxChars)| <= maxChars <==> |s| <= maxChars || maxChars >= 1
    ensures |s| > maxChars >= 1 ==> |TruncateChars(s, maxChars)| == maxChars
    ensures |s| <= maxChars ==> TruncateChars(s, maxChars) == s
    ensures |s| > maxChars >= 1 ==> TruncateChars(s, maxChars) == s[..maxChars - 1] + "\U{2026}"
    ensures |s| > maxChars == 0 ==> TruncateChars(s, maxChars) == "\U{2026}"
    ensures TruncateChars(TruncateChars(s, maxChars), maxChars) == TruncateChars(s, maxChars)
  {
    if maxChars == 0 && s != "" {
      assert s[..0] + ELLIPSIS == ELLIPSIS && ELLIPSIS[..0] + ELLIPSIS == ELLIPSIS;
    }
  }

  // ----- One line -----

  /** General category Cc. */
  predicate IsControl(c: char) {
    c as int < 0x20 || 0x7F <= c as int < 0xA0
  }

  /** The White_Space property. */
  predicate IsWhite(c: char) {
    var u := c as int;
    0x09 <= u <= 0x0D || u == 0x20 || u == 0x85 || u == 0xA0 || u == 0x1680 || 0x2000 <= u <= 0x200A ||
    u == 0x2028 || u == 0x2029 || u == 0x202F || u == 0x205F || u == 0x3000
  }

  function Spaced(s: string): (r: string)
    ensures |r| == |s|
    ensures forall k :: 0 <= k < |s| ==> r[k] == if IsControl(s[k]) then ' ' else s[k]
  {
    if s == "" then "" else [if IsControl(s[0]) then ' ' else s[0]] + Spaced(s[1..])
  }

  /** The length of the word at the front. */
  function WordLen(s: string): (n: nat)
    ensures n <= |s| && (n < |s| ==> IsWhite(s[n]))
    ensures forall k :: 0 <= k < n ==> !IsWhite(s[k])
  {
    if s == "" || IsWhite(s[0]) then 0 else 1 + WordLen(s[1..])
  }

  /** `split_whitespace`. */
  function Words(s: string): seq<string>
    decreases |s|
  {
    if s == "" then []
    else if IsWhite(s[0]) then Words(s[1..])
    else [s[..WordLen(s)]] + Words(s[WordLen(s)..])
  }

  function JoinWords(words: seq<string>): string {
    if words == [] then ""
    else if |words| == 1 then words[0]
    else words[0] + " " + JoinWords(words[1..])
  }

  function SingleLine(s: string): string { JoinWords(Words(Spaced(s))) }

  predicate IsWordOf(w: string, s: string) {
    w != "" && forall k :: 0 <= k < |w| ==> !IsWhite(w[k]) && w[k] in s
  }

  lemma {:induction false} WordsAreWords(s: string)
    ensures forall k :: 0 <= k < |Words(s)| ==> IsWordOf(Words(s)[k], s)
    decreases |s|
  {
    if s != "" {
      if IsWhite(s[0]) {
        WordsAreWords(s[1..]);
      } else {
        WordsAreWords(s[WordLen(s)..]);
      }
    }
  }

  lemma {:induction false} WordFirst(w: string, rest: string)
    requires w != "" && (forall k :: 0 <= k < |w| ==> !IsWhite(w[k])) && (rest == "" || IsWhite(rest[0]))
    ensures WordLen(w + rest) == |w|
    ensures Words(w + rest) == [w] + Words(rest)
  {
    var s := w + rest;
    assert forall k :: 0 <= k < |w| ==> s[k] == w[k];
    assert rest != "" ==> s[|w|] == rest[0];
    assert s[..|w|] == w && s[|w|..] == rest;
  }

  /** Joining words and splitting again gives the words. */
  lemma {:induction false} WordsJoined(words: seq<string>)
    requires forall k :: 0 <= k < |words| ==> words[k] != "" && forall j :: 0 <= j < |words[k]| ==> !IsWhite(words[k][j])
    ensures Words(JoinWords(words)) == words
  {
    if |words| == 1 {
      WordFirst(words[0], "");
      assert words[0] + "" == words[0];
    } else if words != [] {
      var rest := JoinWords(words[1..]);
      WordsJoined(words[1..]);
      WordFirst(words[0], " " + rest);
      assert words[0] + " " + rest == words[0] + (" " + rest);
      assert (" " + rest)[1..] == rest;
    }
  }

  /** No control character, no white space but single spaces, and none at either end. */
  ghost predicate OneLine(s: string) {
    (forall k :: 0 <= k < |s| ==> !IsControl(s[k]) && (IsWhite(s[k]) ==> s[k] == ' ')) &&
    (s != "" ==> !IsWhite(s[0]) && !IsWhite(s[|s| - 1])) &&
    (forall k :: 0 < k < |s| ==> !(IsWhite(s[k - 1]) && IsWhite(s[k])))
  }

  lemma {:induction false} JoinedIsOneLine(words: seq<string>)
    requires forall k :: 0 <= k < |words| ==>
      words[k] != "" && forall j :: 0 <= j < |words[k]| ==> !IsWhite(words[k][j]) && !IsControl(words[k][j])
    ensures OneLine(JoinWords(words)) && (words != [] ==> JoinWords(words) != "")
  {
    if |words| > 1 {
      JoinedIsOneLine(words[1..]);
      var w, rest := words[0], JoinWords(words[1..]);
      var s := w + " " + rest;
      assert s == JoinWords(words);
      assert forall k :: 0 <= k < |w| ==> s[k] == w[k];
      assert s[|w|] == ' ';
      assert forall k :: |w| < k < |s| ==> s[k] == rest[k - |w| - 1];
    }
  }

  lemma {:induction false} OneLineTail(s: string, n: nat)
    requires OneLine(s) && n < |s| && IsWhite(s[n])
    ensures n + 1 < |s| && s[n] == ' ' && OneLine(s[n + 1..])
  {
  }

  lemma {:induction false} JoinFirst(w: string, words: seq<string>)
    requires words != []
    ensures JoinWords([w] + words) == w + " " + JoinWords(words)
  {
  }

  lemma {:induction false} FirstWord(s: string, n: nat)
    requires n == WordLen(s) && 0 < n < |s|
    ensures Words(s) == [s[..n]] + Words(s[n + 1..])
  {
  }

  /** A text already on one line is the join of its own words. */
  lemma {:induction false} OneLineIsJoined(s: string)
    requires OneLine(s)
    ensures JoinWords(Words(s)) == s
    ensures s != "" ==> Words(s) != []
    decreases |s|
  {
    if s != "" {
      var n := WordLen(s);
      if n == |s| {
        assert s[..n] == s && s[n..] == "";
      } else {
        OneLineTail(s, n);
        var rest := s[n + 1..];
        OneLineIsJoined(rest);
        FirstWord(s, n);
        JoinFirst(s[..n], Words(rest));
        assert s == s[..n] + " " + rest;
      }
    }
  }

  lemma {:induction false} SingleLineShape(s: string)
    ensures OneLine(SingleLine(s))
    ensures Words(SingleLine(s)) == Words(Spaced(s))
  {
    var words := Words(Spaced(s));
    WordsAreWords(Spaced(s));
    forall k | 0 <= k < |words| ensures
      words[k] != "" && forall j :: 0 <= j < |words[k]| ==> !IsWhite(words[k][j]) && !IsControl(words[k][j])
    {
      assert IsWordOf(words[k], Spaced(s));
    }
    WordsJoined(words);
    JoinedIsOneLine(words);
  }

  lemma {:induction false} OneLineStays(s: string)
    requires OneLine(s)
    ensures SingleLine(s) == s
  {
    assert Spaced(s) == s;
    OneLineIsJoined(s);
  }

  /** The result is on one line; it keeps the words, in order; a text is left alone if and only if it is
      on one line already; so a second pass changes nothing. */
  lemma {:induction false} SingleLineExact(s: string)
    ensures OneLine(SingleLine(s))
    ensures Words(SingleLine(s)) == Words(Spaced(s))
    ensures SingleLine(s) == s <==> OneLine(s)
    ensures SingleLine(SingleLine(s)) == SingleLine(s)
  {
    SingleLineShape(s);
    OneLineStays(SingleLine(s));
    if OneLine(s) {
      OneLineStays(s);
    }
  }

  // ----- In code points -----

  /** The result holds no control character, and of the white space of Unicode only single spaces inside. */
  lemma {:induction false} SingleLineCodePoints(s: string, k: nat)
    requires k < |SingleLine(s)|
    ensures
      var t := SingleLine(s);
      var u := t[k] as int;
      u >= 0x20 && !(0x7F <= u <= 0x9F) && u != 0xA0 && u != 0x1680 && !(0x2000 <= u <= 0x200A) &&
      u != 0x2028 && u != 0x2029 && u != 0x202F && u != 0x205F && u != 0x3000 &&
      (u == 0x20 ==> 0 < k < |t| - 1 && t[k - 1] != ' ' && t[k + 1] != ' ')
  {
    SingleLineShape(s);
    var t := SingleLine(s);
    assert OneLine(t) && !IsControl(t[k]);
    assert 0 < k ==> !(IsWhite(t[k - 1]) && IsWhite(t[k]));
    assert k + 1 < |t| ==> !(IsWhite(t[k + 1 - 1]) && IsWhite(t[k + 1]));
  }

  /** Of words in printable characters, each run of control characters and white space between them becomes one
      space, and what stands before the first and behind the last goes. */
  lemma {:induction false} SingleLineOfTwo(before: string, a: string, between: string, b: string, after: string)
    requires a != "" && b != "" && between != ""
    requires forall k :: 0 <= k < |a| ==> Printable(a[k])
    requires forall k :: 0 <= k < |b| ==> Printable(b[k])
    requires Blank(before) && Blank(between) && Blank(after)
    ensures SingleLine(before + (a + (between + (b + after)))) == a + " " + b
  {
    SpacedAppend(before, a + (between + (b + after)));
    SpacedAppend(a, between + (b + after));
    SpacedAppend(between, b + after);
    SpacedAppend(b, after);
    PrintableStays(a);
    PrintableStays(b);
    BlankStays(before);
    BlankStays(between);
    BlankStays(after);
    var tail := Spaced(between) + (b + Spaced(after));
    assert Spaced(before + (a + (between + (b + after)))) == Spaced(before) + (a + tail);
    SkipBlank(Spaced(before), a + tail);
    WordFirst(a, tail);
    SkipBlank(Spaced(between), b + Spaced(after));
    WordFirst(b, Spaced(after));
    SkipBlank(Spaced(after), "");
    assert Spaced(after) + "" == Spaced(after);
    assert Words(Spaced(before) + (a + tail)) == [a] + ([b] + []);
    assert [a] + ([b] + []) == [a] + [b];
    JoinFirst(a, [b]);
  }

  /** Neither control nor white space, by code point. */
  predicate Printable(c: char) {
    var u := c as int;
    u > 0x20 && !(0x7F <= u <= 0xA0) && u != 0x1680 && !(0x2000 <= u <= 0x200A) &&
    u != 0x2028 && u != 0x2029 && u != 0x202F && u != 0x205F && u != 0x3000
  }

  predicate Blank(s: string) { forall k :: 0 <= k < |s| ==> !Printable(s[k]) }

  lemma {:induction false} SpacedAppend(a: string, b: string)
    ensures Spaced(a + b) == Spaced(a) + Spaced(b)
  {
    assert |Spaced(a + b)| == |Spaced(a) + Spaced(b)|;
    forall k | 0 <= k < |a + b| ensures Spaced(a + b)[k] == (Spaced(a) + Spaced(b))[k] {
    }
  }

  lemma {:induction false} PrintableStays(a: string)
    requires forall k :: 0 <= k < |a| ==> Printable(a[k])
    ensures Spaced(a) == a && forall k :: 0 <= k < |a| ==> !IsWhite(a[k])
  {
    forall k | 0 <= k < |a| ensures Spaced(a)[k] == a[k] && !IsWhite(a[k]) {
      assert Printable(a[k]);
    }
  }

  lemma {:induction false} BlankStays(s: string)
    requires Blank(s)
    ensures forall k :: 0 <= k < |Spaced(s)| ==> IsWhite(Spaced(s)[k])
  {
    forall k | 0 <= k < |Spaced(s)| ensures IsWhite(Spaced(s)[k]) {
      assert !Printable(s[k]);
    }
  }

  lemma {:induction false} SkipBlank(blank: string, rest: string)
    requires forall k :: 0 <= k < |blank| ==> IsWhite(blank[k])
    ensures Words(blank + rest) == Words(rest)
  {
    if blank == "" {
      assert blank + rest == rest;
    } else {
      assert (blank + rest)[0] == blank[0] && (blank + rest)[1..] == blank[1..] + rest;
      SkipBlank(blank[1..], rest);
    }
  }
}
