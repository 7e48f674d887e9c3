/** The sign-in code printed beside a magic link: how it is made, typed back and read. */
module MagicCodes {
  const CODE_ALPHABET := "0123456789ABCDEFGHJKMNPQRSTVWXYZ"
  const CODE_LEN := 6

  type Byte = b: int | 0 <= b < 256

  predicate InAlphabet(c: char) {
    '0' <= c <= '9' || ('A' <= c <= 'Z' && c != 'I' && c != 'L' && c != 'O' && c != 'U')
  }

  function Upper(c: char): char {
    if 'a' <= c <= 'z' then (c as int - 32) as char else c
  }

  /** One typed character: noise disappears, case and look-alikes are folded. */
  function Fold(c: char): string {
    var u := Upper(c);
    if !('0' <= u <= '9' || 'A' <= u <= 'Z') then ""
    else if u == 'O' then "0"
    else if u == 'I' || u == 'L' then "1"
    else [u]
  }

  function Normalize(raw: string): string {
    if raw == "" then "" else Fold(raw[0]) + Normalize(raw[1..])
  }

  predicate WellFormed(code: string) {
    |code| == CODE_LEN && forall k :: 0 <= k < |code| ==> InAlphabet(code[k])
  }

  /** One symbol for each random byte. */
  function Generate(bytes: seq<Byte>): (code: string)
    ensures |code| == |bytes|
    ensures forall k :: 0 <= k < |code| ==> code[k] == CODE_ALPHABET[bytes[k] % 32]
  {
    if bytes == [] then "" else [CODE_ALPHABET[bytes[0] % 32]] + Generate(bytes[1..])
  }

  lemma AlphabetIs(k: nat)
    requires k < 32
    ensures InAlphabet(CODE_ALPHABET[k])
  {
  }

  /** What reading gives is read as itself: folding never rewrites its own output. */
  lemma {:induction false} NormalizeSettles(raw: string)
    ensures Normalize(Normalize(raw)) == Normalize(raw)
  {
    if raw != "" {
      NormalizeSettles(raw[1..]);
      var f, rest := Fold(raw[0]), Normalize(raw[1..]);
      if f != "" {
        assert (f + rest)[1..] == rest;
      } else {
        assert f + rest == rest;
      }
    }
  }

  lemma {:induction false} AlphabetIsFixed(code: string)
    requires forall k :: 0 <= k < |code| ==> InAlphabet(code[k])
    ensures Normalize(code) == code
  {
    if code != "" {
      AlphabetIsFixed(code[1..]);
    }
  }

  /** Every code the generator can make, from any bytes, is well formed and survives its own reader. */
  lemma {:induction false} GeneratedCodesRead(bytes: seq<Byte>)
    requires |bytes| == CODE_LEN
    ensures WellFormed(Generate(bytes)) && Normalize(Generate(bytes)) == Generate(bytes)
  {
    forall k | 0 <= k < CODE_LEN ensures InAlphabet(Generate(bytes)[k]) {
      AlphabetIs(bytes[k] % 32);
    }
    AlphabetIsFixed(Generate(bytes));
  }

  /** `typed` is `code` with any noise between, in any case, with look-alikes for 0 and 1. */
  predicate Spells(typed: string, code: string) {
    if typed == "" then code == ""
    else
      var u := Upper(typed[0]);
      if !('0' <= u <= '9' || 'A' <= u <= 'Z') then Spells(typed[1..], code)
      else
        code != "" && Spells(typed[1..], code[1..]) &&
        if u == 'O' then code[0] == '0' else if u == 'I' || u == 'L' then code[0] == '1' else u == code[0]
  }

  /** Reading undoes exactly the retyping the design allows. */
  lemma {:induction false} ReadsBackIff(typed: string, code: string)
    ensures Normalize(typed) == code <==> Spells(typed, code)
  {
    if typed != "" {
      var f, rest := Fold(typed[0]), Normalize(typed[1..]);
      if f == "" {
        ReadsBackIff(typed[1..], code);
        assert f + rest == rest;
      } else {
        if code != "" {
          ReadsBackIff(typed[1..], code[1..]);
          assert f + rest == code <==> f[0] == code[0] && rest == code[1..] by {
            assert (f + rest)[0] == f[0] && (f + rest)[1..] == rest;
            assert code == [code[0]] + code[1..];
          }
        } else {
          assert |f + rest| > 0;
        }
      }
    }
  }

  // ----- Character by character -----

  /** Digits stay; capitals stay but for I and L, read as 1, and O, read as 0; small letters are read as their
      capitals; nothing else is read. */
  lemma {:induction false} ReadChars(raw: string, c: char)
    ensures Normalize(raw + [c]) == Normalize(raw) +
      if c == 'I' || c == 'i' || c == 'L' || c == 'l' then "1"
      else if c == 'O' || c == 'o' then "0"
      else if '0' <= c <= '9' || 'A' <= c <= 'Z' then [c]
      else if 'a' <= c <= 'z' then [(c as int - 'a' as int + 'A' as int) as char]
      else ""
  {
    NormalizeAppend(raw, [c]);
    assert [c][1..] == "" && Normalize([c]) == Fold(c) + "";
  }

  lemma {:induction false} NormalizeAppend(a: string, b: string)
    ensures Normalize(a + b) == Normalize(a) + Normalize(b)
  {
    if a == "" {
      assert a + b == b;
    } else {
      assert (a + b)[1..] == a[1..] + b;
      NormalizeAppend(a[1..], b);
      assert Fold(a[0]) + (Normalize(a[1..]) + Normalize(b)) == Fold(a[0]) + Normalize(a[1..]) + Normalize(b);
    }
  }

  /** A code has six characters, each of them in the alphabet. */
  lemma {:induction false} WellFormedIff(code: string)
    ensures WellFormed(code) <==> |code| == 6 && forall k :: 0 <= k < 6 ==> code[k] in CODE_ALPHABET
  {
    forall c: char ensures InAlphabet(c) <==> c in CODE_ALPHABET {
      InAlphabetIff(c);
    }
  }

  lemma {:induction false} InAlphabetIff(c: char)
    ensures InAlphabet(c) <==> c in CODE_ALPHABET
  {
    if InAlphabet(c) {
      var u := c as int;
      var k :=
        if c <= '9' then u - 48 else if c < 'I' then u - 55 else if c < 'L' then u - 56
        else if c < 'O' then u - 57 else if c < 'U' then u - 58 else u - 59;
      assert CODE_ALPHABET[k] == c;
    } else {
      forall k | 0 <= k < 32 ensures CODE_ALPHABET[k] != c {
        AlphabetIs(k);
      }
    }
  }
}
