/** Well-formedness of UTF-8 byte sequences, following the syntax of
    section 4 of RFC 3629 (the check std::str::from_utf8 performs). */
module Utf8 {
  import opened IoTypes

  /** UTF8-tail = %x80-BF */
  predicate IsTail(b: byte) {
    0x80 <= b <= 0xBF
  }

  /** The number of bytes of the well-formed character that starts at
      index i of `s`, or 0 when no well-formed character starts there. */
  function CharWidth(s: seq<byte>, i: nat): (n: nat)
    requires i <= |s|
    ensures n <= 4 && i + n <= |s|
    ensures n > 0 ==> (s[i] < 0x80 <==> n == 1)
  {
    if i == |s| then 0
    else if s[i] <= 0x7F then 1
    else if 0xC2 <= s[i] <= 0xDF then
      if i + 2 <= |s| && IsTail(s[i + 1]) then 2 else 0
    else if 0xE0 <= s[i] <= 0xEF then
      var lo: byte := if s[i] == 0xE0 then 0xA0 else 0x80;
      var hi: byte := if s[i] == 0xED then 0x9F else 0xBF;
      if i + 3 <= |s| && lo <= s[i + 1] <= hi && IsTail(s[i + 2]) then 3 else 0
    else if 0xF0 <= s[i] <= 0xF4 then
      var lo: byte := if s[i] == 0xF0 then 0x90 else 0x80;
      var hi: byte := if s[i] == 0xF4 then 0x8F else 0xBF;
      if i + 4 <= |s| && lo <= s[i + 1] <= hi && IsTail(s[i + 2]) && IsTail(s[i + 3]) then 4 else 0
    else 0
  }

  /** s[i..] is a concatenation of well-formed UTF-8 characters. */
  predicate ValidFrom(s: seq<byte>, i: nat)
    requires i <= |s|
    decreases |s| - i
  {
    i == |s| || (CharWidth(s, i) > 0 && ValidFrom(s, i + CharWidth(s, i)))
  }

  /** `s` is well-formed UTF-8 text. */
  predicate ValidUtf8(s: seq<byte>) {
    ValidFrom(s, 0)
  }

  /** The octets C0, C1 and F5 to FF never occur in well-formed text
      (section 1 of RFC 3629). */
  lemma {:induction false} NoForbiddenOctets(s: seq<byte>, i: nat)
    requires i <= |s| && ValidFrom(s, i)
    ensures forall k :: i <= k < |s| ==> s[k] != 0xC0 && s[k] != 0xC1 && s[k] < 0xF5
    decreases |s| - i
  {
    if i < |s| {
      NoForbiddenOctets(s, i + CharWidth(s, i));
    }
  }

  /** Whether a character is well formed depends only on its own bytes:
      appending text after it, or putting text before it, changes nothing. */
  lemma CharWidthJoin(a: seq<byte>, b: seq<byte>, i: nat)
    requires i <= |b|
    ensures CharWidth(a + b, |a| + i) == CharWidth(b, i)
    ensures i <= |a| && CharWidth(a, i) > 0 ==> CharWidth(a + b, i) == CharWidth(a, i)
  {
  }

  /** The text after a prefix `a` is read the same way on its own. */
  lemma {:induction false} ValidShift(a: seq<byte>, b: seq<byte>, i: nat)
    requires i <= |b|
    ensures ValidFrom(a + b, |a| + i) == ValidFrom(b, i)
    decreases |b| - i
  {
    CharWidthJoin(a, b, i);
    if i < |b| && CharWidth(b, i) > 0 {
      ValidShift(a, b, i + CharWidth(b, i));
    }
  }

  /** Well-formed text followed by well-formed text is well formed. */
  lemma {:induction false} ValidJoin(a: seq<byte>, b: seq<byte>, i: nat)
    requires i <= |a| && ValidFrom(a, i) && ValidUtf8(b)
    ensures ValidFrom(a + b, i)
    decreases |a| - i
  {
    if i == |a| {
      ValidShift(a, b, 0);
    } else {
      CharWidthJoin(a, b, 0);
      ValidJoin(a, b, i + CharWidth(a, i));
    }
  }

  /** Joining two well-formed texts gives a well-formed text. */
  lemma ValidConcat(a: seq<byte>, b: seq<byte>)
    requires ValidUtf8(a) && ValidUtf8(b)
    ensures ValidUtf8(a + b)
  {
    ValidJoin(a, b, 0);
  }

  /** Every ASCII text is well formed. */
  lemma {:induction false} AsciiValid(s: seq<byte>, i: nat)
    requires i <= |s| && forall k :: i <= k < |s| ==> s[k] < 0x80
    ensures ValidFrom(s, i)
    decreases |s| - i
  {
    if i < |s| {
      AsciiValid(s, i + 1);
    }
  }

  /** The converse of ValidConcat fails: "é\n" (C3 A9 0A) is well formed,
      but cut after its first byte neither part is. */
  lemma SplitCharacter()
    ensures ValidUtf8([0xC3, 0xA9, 0x0A])
    ensures !ValidUtf8([0xC3]) && !ValidUtf8([0xA9, 0x0A])
  {
    assert CharWidth([0xC3, 0xA9, 0x0A], 0) == 2;
    assert CharWidth([0xC3, 0xA9, 0x0A], 2) == 1;
  }
}
