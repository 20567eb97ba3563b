/** StringDataPoint::ValidateStringUTF8 and the isLegalUTF8Sequence it calls, next to the
    UTF-8 syntax of section 4 of RFC 3629. */
module Utf8 {
  import opened Seqs

  type Byte = b: int | 0 <= b < 256

  /** The source tells lengths by masks; as numbers these are the ranges used below. */
  lemma MaskTests(b: bv8)
    ensures b & 0xe0 == 0xc0 <==> 0xC0 <= b < 0xE0
    ensures b & 0xf0 == 0xe0 <==> 0xE0 <= b < 0xF0
    ensures b & 0xf8 == 0xf0 <==> 0xF0 <= b < 0xF8
  {
  }

  // ----- the reference syntax

  predicate Tail(b: Byte) {
    0x80 <= b <= 0xBF
  }

  /** UTF8-char of RFC 3629, section 4. */
  predicate IsUtf8Char(s: seq<Byte>) {
    match |s|
    case 1 => s[0] <= 0x7F
    case 2 => 0xC2 <= s[0] <= 0xDF && Tail(s[1])
    case 3 =>
      && Tail(s[2])
      && ((s[0] == 0xE0 && 0xA0 <= s[1] <= 0xBF)
          || (0xE1 <= s[0] <= 0xEC && Tail(s[1]))
          || (s[0] == 0xED && 0x80 <= s[1] <= 0x9F)
          || (0xEE <= s[0] <= 0xEF && Tail(s[1])))
    case 4 =>
      && Tail(s[2]) && Tail(s[3])
      && ((s[0] == 0xF0 && 0x90 <= s[1] <= 0xBF)
          || (0xF1 <= s[0] <= 0xF3 && Tail(s[1]))
          || (s[0] == 0xF4 && 0x80 <= s[1] <= 0x8F))
    case _ => false
  }

  /** The three-byte form of a surrogate code point, which RFC 3629 prohibits. */
  predicate IsSurrogate(s: seq<Byte>) {
    |s| == 3 && s[0] == 0xED && 0xA0 <= s[1] <= 0xBF && Tail(s[2])
  }

  /** UTF8-octets: a sequence of characters, one after the other. */
  predicate WellFormed(s: seq<Byte>)
    decreases |s|
  {
    s == [] || exists n :: 1 <= n <= 4 && n <= |s| && IsUtf8Char(s[..n]) && WellFormed(s[n..])
  }

  /** 0xF4 followed by an ASCII byte and two tails, which is no character either. */
  predicate IsLooseF4(s: seq<Byte>) {
    |s| == 4 && s[0] == 0xF4 && s[1] <= 0x7F && Tail(s[2]) && Tail(s[3])
  }

  // ----- the source

  /** trailingBytesForUTF8 */
  function TrailingBytes(b: Byte): nat {
    if b < 0xC0 then 0
    else if b < 0xE0 then 1
    else if b < 0xF0 then 2
    else if b < 0xF8 then 3
    else if b < 0xFC then 4
    else 5
  }

  /** isLegalUTF8 on the length bytes at the head of s. There is no case for 0xED, and the one for
      0xF4 sets no lower bound. */
  predicate IsLegalUtf8(s: seq<Byte>, length: nat)
    requires 1 <= length <= |s|
  {
    && length <= 4
    && (length >= 4 ==> 0x80 <= s[3] <= 0xBF)
    && (length >= 3 ==> 0x80 <= s[2] <= 0xBF)
    && (length >= 2 ==>
        && s[1] <= 0xBF
        && (if s[0] == 0xE0 then s[1] >= 0xA0
            else if s[0] == 0xF0 then s[1] >= 0x90
            else if s[0] == 0xF4 then s[1] <= 0x8F
            else s[1] >= 0x80))
    && !(0x80 <= s[0] < 0xC2)
    && s[0] <= 0xF4
  }

  /** isLegalUTF8Sequence(source, sourceEnd), on the bytes between the two. */
  predicate IsLegalUtf8Sequence(s: seq<Byte>)
    requires s != []
  {
    TrailingBytes(s[0]) + 1 <= |s| && IsLegalUtf8(s, TrailingBytes(s[0]) + 1)
  }

  /** How far the scan moves on from a byte. */
  function CharLength(b: Byte): (n: nat)
    ensures 1 <= n <= 4
  {
    if 0xC0 <= b < 0xE0 then 2
    else if 0xE0 <= b < 0xF0 then 3
    else if 0xF0 <= b < 0xF8 then 4
    else 1
  }

  /** These are the lengths the mask tests of the source tell, for every byte. */
  lemma LengthByMasks(b: bv8)
    ensures CharLength(b as int) ==
      if b & 0xe0 == 0xc0 then 2 else if b & 0xf0 == 0xe0 then 3 else if b & 0xf8 == 0xf0 then 4 else 1
  {
    MaskTests(b);
  }

  /** The verdict on the character at i of a buffer. */
  predicate LegalAt(buf: seq<Byte>, i: nat)
    requires i < |buf| && i + CharLength(buf[i]) <= |buf|
  {
    IsLegalUtf8Sequence(buf[i..i + CharLength(buf[i])])
  }

  // ----- the verdict on one character

  lemma LegalSequence(s: seq<Byte>)
    requires s != [] && |s| == CharLength(s[0])
    ensures IsLegalUtf8Sequence(s) <==> IsUtf8Char(s) || IsSurrogate(s) || IsLooseF4(s)
    ensures !(IsUtf8Char(s) && (IsSurrogate(s) || IsLooseF4(s)))
  {
  }

  /** The first byte of a character tells its length. */
  lemma CharLengthOf(s: seq<Byte>)
    requires IsUtf8Char(s)
    ensures |s| == CharLength(s[0])
  {
  }

  lemma WellFormedStep(s: seq<Byte>)
    requires s != []
    ensures var n := CharLength(s[0]);
      WellFormed(s) <==> n <= |s| && IsUtf8Char(s[..n]) && WellFormed(s[n..])
  {
    if WellFormed(s) {
      var n :| 1 <= n <= 4 && n <= |s| && IsUtf8Char(s[..n]) && WellFormed(s[n..]);
      CharLengthOf(s[..n]);
    }
  }

  // ----- the scan over a NUL-terminated buffer

  function Strlen(buf: seq<Byte>): (n: nat)
    ensures n <= |buf| && (n < |buf| ==> buf[n] == 0)
    ensures forall i :: 0 <= i < n ==> buf[i] != 0
  {
    if buf == [] || buf[0] == 0 then 0
    else
      assert forall i :: 0 < i < |buf| ==> buf[i] == buf[1..][i - 1];
      1 + Strlen(buf[1..])
  }

  /** Every character the scan looks at from i on lies inside the buffer, although the last one
      may reach past the end of the string. */
  predicate ScanFits(buf: seq<Byte>, i: nat, len: nat)
    requires len <= |buf|
    decreases |buf| - i
  {
    i < len ==> i + CharLength(buf[i]) <= |buf| && ScanFits(buf, i + CharLength(buf[i]), len)
  }

  predicate Check(buf: seq<Byte>, i: nat, len: nat)
    requires len <= |buf| && ScanFits(buf, i, len)
    decreases |buf| - i
  {
    i < len ==> LegalAt(buf, i) && Check(buf, i + CharLength(buf[i]), len)
  }

  /** The character at i is one the source accepts and RFC 3629 does not. */
  predicate LaxAt(buf: seq<Byte>, i: nat)
    requires i < |buf| && i + CharLength(buf[i]) <= |buf|
  {
    IsSurrogate(buf[i..i + CharLength(buf[i])]) || IsLooseF4(buf[i..i + CharLength(buf[i])])
  }

  predicate HasLax(buf: seq<Byte>, i: nat, len: nat)
    requires len <= |buf| && ScanFits(buf, i, len)
    decreases |buf| - i
  {
    i < len && (LaxAt(buf, i) || HasLax(buf, i + CharLength(buf[i]), len))
  }

  /** A string is well-formed when its first character is legal and not lax and the rest is
      well-formed. */
  lemma CharVerdict(buf: seq<Byte>, i: nat, len: nat)
    requires i < len < |buf| && buf[len] == 0 && i + CharLength(buf[i]) <= |buf|
    ensures var n := CharLength(buf[i]);
      && (i + n <= len ==>
          (WellFormed(buf[i..len]) <==> LegalAt(buf, i) && !LaxAt(buf, i) && WellFormed(buf[i + n..len])))
      && (i + n > len ==> !WellFormed(buf[i..len]) && (LegalAt(buf, i) ==> LaxAt(buf, i)))
  {
    var n := CharLength(buf[i]);
    var s, c := buf[i..len], buf[i..i + n];
    WellFormedStep(s);
    LegalSequence(c);
    if i + n <= len {
      assert s[..n] == c && s[n..] == buf[i + n..len];
    } else {
      assert c[len - i] == 0;
    }
  }

  /** The string is well-formed UTF-8 exactly when the scan accepts it and met neither a
      surrogate nor a loose 0xF4; so the result of ValidateStringUTF8 is the truth for every
      string without these. */
  lemma {:induction false} CheckExactly(buf: seq<Byte>, i: nat, len: nat)
    requires i <= len < |buf| && buf[len] == 0 && ScanFits(buf, i, len)
    ensures WellFormed(buf[i..len]) <==> Check(buf, i, len) && !HasLax(buf, i, len)
    decreases |buf| - i
  {
    if i < len {
      CharVerdict(buf, i, len);
      if i + CharLength(buf[i]) <= len {
        CheckExactly(buf, i + CharLength(buf[i]), len);
      }
    }
  }

  // ----- correcting

  function Fill(value: Byte, n: nat): (s: seq<Byte>)
    ensures |s| == n && forall i :: 0 <= i < n ==> s[i] == value
  {
    seq(n, _ => value)
  }

  /** The buffer from i on, after correction: illegal characters are overwritten. */
  function Corrected(buf: seq<Byte>, i: nat, len: nat, replaceWith: Byte): (r: seq<Byte>)
    requires len <= |buf| && i <= |buf| && ScanFits(buf, i, len)
    ensures |r| == |buf| - i
    decreases |buf| - i
  {
    if i >= len then buf[i..]
    else
      CorrectedChar(buf, i, replaceWith) + Corrected(buf, i + CharLength(buf[i]), len, replaceWith)
  }

  function CorrectedChar(buf: seq<Byte>, i: nat, replaceWith: Byte): (c: seq<Byte>)
    requires i < |buf| && i + CharLength(buf[i]) <= |buf|
    ensures |c| == CharLength(buf[i])
  {
    var n := CharLength(buf[i]);
    if LegalAt(buf, i) then buf[i..i + n] else Fill(replaceWith, n)
  }

  /** A character of RFC 3629, or one the source accepts besides. */
  predicate Accepted(c: seq<Byte>) {
    IsUtf8Char(c) || IsSurrogate(c) || IsLooseF4(c)
  }

  /** Correction goes on character by character: an accepted one is kept, any other is replaced
      byte for byte, and what lies behind the string is not touched. */
  lemma CorrectedFrom(buf: seq<Byte>, i: nat, len: nat, replaceWith: Byte)
    requires len <= |buf| && i <= |buf| && ScanFits(buf, i, len)
    ensures i >= len ==> Corrected(buf, i, len, replaceWith) == buf[i..]
    ensures i < len ==>
      var n := CharLength(buf[i]);
      Corrected(buf, i, len, replaceWith) ==
        (if Accepted(buf[i..i + n]) then buf[i..i + n] else Fill(replaceWith, n))
          + Corrected(buf, i + n, len, replaceWith)
  {
    if i < len {
      LegalSequence(buf[i..i + CharLength(buf[i])]);
    }
  }

  /** A byte that leads no character, 0x80..0xBF or from 0xF8 on, is replaced alone; the scan goes
      on right behind it. */
  lemma StrayByte(buf: seq<Byte>, i: nat, len: nat, replaceWith: Byte)
    requires i < len <= |buf| && ScanFits(buf, i, len) && (0x80 <= buf[i] <= 0xBF || 0xF8 <= buf[i])
    ensures ScanFits(buf, i + 1, len)
    ensures Corrected(buf, i, len, replaceWith) == [replaceWith] + Corrected(buf, i + 1, len, replaceWith)
  {
    CorrectedFrom(buf, i, len, replaceWith);
    assert Fill(replaceWith, 1) == [replaceWith];
  }

  /** An ASCII byte at a scan position is kept. */
  lemma AsciiByte(buf: seq<Byte>, i: nat, len: nat, replaceWith: Byte)
    requires i < len <= |buf| && ScanFits(buf, i, len) && buf[i] <= 0x7F
    ensures ScanFits(buf, i + 1, len)
    ensures Corrected(buf, i, len, replaceWith) == [buf[i]] + Corrected(buf, i + 1, len, replaceWith)
  {
    CorrectedFrom(buf, i, len, replaceWith);
    assert buf[i..i + 1] == [buf[i]];
  }

  /** The last character of the scan is illegal and reaches past the end of the string. */
  predicate BrokenEnd(buf: seq<Byte>, i: nat, len: nat)
    requires len <= |buf| && ScanFits(buf, i, len)
    decreases |buf| - i
  {
    i < len &&
    var n := CharLength(buf[i]);
    if i + n > len then !LegalAt(buf, i) else BrokenEnd(buf, i + n, len)
  }

  /** p is where the scan from i on finds a character. */
  predicate Scanned(buf: seq<Byte>, i: nat, len: nat, p: nat)
    requires len <= |buf| && ScanFits(buf, i, len)
    decreases |buf| - i
  {
    i < len && (p == i || Scanned(buf, i + CharLength(buf[i]), len, p))
  }

  /** Correction leaves every legal character as it is and overwrites every other one. */
  lemma {:induction false} CorrectsCharacters(buf: seq<Byte>, i: nat, len: nat, replaceWith: Byte, p: nat)
    requires i <= |buf| && len <= |buf| && ScanFits(buf, i, len) && Scanned(buf, i, len, p)
    ensures i <= p < len && p + CharLength(buf[p]) <= |buf|
    ensures Corrected(buf, i, len, replaceWith)[p - i..][..CharLength(buf[p])] == CorrectedChar(buf, p, replaceWith)
    decreases |buf| - i
  {
    var n := CharLength(buf[i]);
    var rest := Corrected(buf, i + n, len, replaceWith);
    if p != i {
      CorrectsCharacters(buf, i + n, len, replaceWith, p);
      DropFurther(CorrectedChar(buf, i, replaceWith), rest, p - i);
    } else {
      DropFurther(CorrectedChar(buf, i, replaceWith), rest, 0);
    }
  }

  lemma DropFurther<T>(a: seq<T>, b: seq<T>, k: nat)
    ensures |a| <= k <= |a + b| ==> (a + b)[k..] == b[k - |a|..]
    ensures k == 0 ==> (a + b)[k..][..|a|] == a
  {
  }

  /** A string the scan accepts is not changed at all. */
  lemma {:induction false} AcceptedUntouched(buf: seq<Byte>, i: nat, len: nat, replaceWith: Byte)
    requires i <= |buf| && len <= |buf| && ScanFits(buf, i, len) && Check(buf, i, len)
    ensures Corrected(buf, i, len, replaceWith) == buf[i..]
    decreases |buf| - i
  {
    if i < len {
      AcceptedUntouched(buf, i + CharLength(buf[i]), len, replaceWith);
    }
  }

  /** With a replacement other than NUL the string keeps its length exactly when it does not
      end in a broken character; otherwise its terminator is overwritten. */
  lemma {:induction false} KeepsLengthExactly(buf: seq<Byte>, i: nat, len: nat, replaceWith: Byte)
    requires i <= len < |buf| && buf[len] == 0 && ScanFits(buf, i, len) && replaceWith != 0
    requires forall k :: i <= k < len ==> buf[k] != 0
    ensures Strlen(Corrected(buf, i, len, replaceWith)) == len - i <==> !BrokenEnd(buf, i, len)
    decreases |buf| - i
  {
    if i == len {
      StrlenIs(buf[i..], 0);
    } else if i + CharLength(buf[i]) <= len {
      KeepsLengthExactly(buf, i + CharLength(buf[i]), len, replaceWith);
      CharInside(buf, i, len, replaceWith, Corrected(buf, i + CharLength(buf[i]), len, replaceWith));
    } else {
      CharAtEnd(buf, i, len, replaceWith, Corrected(buf, i + CharLength(buf[i]), len, replaceWith));
    }
  }

  lemma CharInside(buf: seq<Byte>, i: nat, len: nat, replaceWith: Byte, rest: seq<Byte>)
    requires i < len < |buf| && replaceWith != 0 && i + CharLength(buf[i]) <= len
    requires forall k :: i <= k < len ==> buf[k] != 0
    ensures Strlen(CorrectedChar(buf, i, replaceWith) + rest) == CharLength(buf[i]) + Strlen(rest)
  {
    StrlenConcat(CorrectedChar(buf, i, replaceWith), rest);
  }

  lemma CharAtEnd(buf: seq<Byte>, i: nat, len: nat, replaceWith: Byte, rest: seq<Byte>)
    requires i < len < |buf| && buf[len] == 0 && replaceWith != 0 && len < i + CharLength(buf[i]) <= |buf|
    requires forall k :: i <= k < len ==> buf[k] != 0
    ensures Strlen(CorrectedChar(buf, i, replaceWith) + rest) == len - i <==> LegalAt(buf, i)
  {
    var c := CorrectedChar(buf, i, replaceWith);
    if LegalAt(buf, i) {
      StrlenIs(c + rest, len - i);
    } else {
      StrlenConcat(c, rest);
    }
  }

  lemma {:induction false} StrlenConcat(c: seq<Byte>, rest: seq<Byte>)
    requires forall k :: 0 <= k < |c| ==> c[k] != 0
    ensures Strlen(c + rest) == |c| + Strlen(rest)
  {
    if c == [] {
      assert c + rest == rest;
    } else {
      assert (c + rest)[1..] == c[1..] + rest;
      StrlenConcat(c[1..], rest);
    }
  }

  lemma StrlenIs(r: seq<Byte>, n: nat)
    requires n < |r| && r[n] == 0 && (forall k :: 0 <= k < n ==> r[k] != 0)
    ensures Strlen(r) == n
  {
    if Strlen(r) < n {
      assert r[Strlen(r)] == 0;
    }
  }

  /** A run of ASCII bytes in front of an accepted rest is accepted. */
  lemma {:induction false} AsciiRun(r: seq<Byte>, i: nat, n: nat, len: nat)
    requires i + n <= len <= |r| && ScanFits(r, i + n, len) && Check(r, i + n, len)
    requires forall k :: i <= k < i + n ==> r[k] <= 0x7F
    ensures ScanFits(r, i, len) && Check(r, i, len)
    decreases n
  {
    if n > 0 {
      AsciiRun(r, i + 1, n - 1, len);
    }
  }

  /** What stands in front of the rest of a corrected string, and what is known about that rest. */
  lemma FirstCorrected(buf: seq<Byte>, i: nat, len: nat, replaceWith: Byte, r: seq<Byte>)
    requires i < len <= |buf| == |r| && ScanFits(buf, i, len) && !BrokenEnd(buf, i, len)
    requires r[i..] == Corrected(buf, i, len, replaceWith)
    ensures var n := CharLength(buf[i]);
      && i + n <= |buf| && (i + n <= len || LegalAt(buf, i))
      && ScanFits(buf, i + n, len) && !BrokenEnd(buf, i + n, len)
      && r[i..i + n] == CorrectedChar(buf, i, replaceWith)
      && r[i + n..] == Corrected(buf, i + n, len, replaceWith)
  {
    SplitAt(r, i, CorrectedChar(buf, i, replaceWith), Corrected(buf, i + CharLength(buf[i]), len, replaceWith));
  }

  /** After a correction with an ASCII replacement a second pass accepts the string. Its lax
      characters are those of the original. */
  lemma {:induction false} SecondPassAccepts(buf: seq<Byte>, i: nat, len: nat, replaceWith: Byte, r: seq<Byte>)
    requires i <= |buf| == |r| && len <= |buf| && ScanFits(buf, i, len) && !BrokenEnd(buf, i, len)
    requires replaceWith <= 0x7F && r[i..] == Corrected(buf, i, len, replaceWith)
    ensures ScanFits(r, i, len) && Check(r, i, len) && (HasLax(r, i, len) <==> HasLax(buf, i, len))
    decreases |buf| - i
  {
    if i < len {
      FirstCorrected(buf, i, len, replaceWith, r);
      SecondPassAccepts(buf, i + CharLength(buf[i]), len, replaceWith, r);
      AcceptedInFront(buf, i, len, replaceWith, r);
      LaxInFront(buf, i, len, replaceWith, r);
    }
  }

  /** A run of ASCII bytes adds no lax character. */
  lemma {:induction false} AsciiNotLax(r: seq<Byte>, i: nat, n: nat, len: nat)
    requires i + n <= len <= |r| && ScanFits(r, i + n, len)
    requires forall k :: i <= k < i + n ==> r[k] <= 0x7F
    ensures ScanFits(r, i, len) && (HasLax(r, i, len) <==> HasLax(r, i + n, len))
    decreases n
  {
    if n > 0 {
      AsciiNotLax(r, i + 1, n - 1, len);
    }
  }

  lemma LaxInFront(buf: seq<Byte>, i: nat, len: nat, replaceWith: Byte, r: seq<Byte>)
    requires i < len <= |buf| == |r| && replaceWith <= 0x7F && i + CharLength(buf[i]) <= |buf|
    requires i + CharLength(buf[i]) <= len || LegalAt(buf, i)
    requires r[i..i + CharLength(buf[i])] == CorrectedChar(buf, i, replaceWith)
    requires ScanFits(buf, i, len) && ScanFits(r, i, len) && ScanFits(r, i + CharLength(buf[i]), len)
    requires HasLax(r, i + CharLength(buf[i]), len) <==> HasLax(buf, i + CharLength(buf[i]), len)
    ensures HasLax(r, i, len) <==> HasLax(buf, i, len)
  {
    var n := CharLength(buf[i]);
    LegalSequence(buf[i..i + n]);
    assert forall k :: i <= k < i + n ==> r[k] == r[i..i + n][k - i];
    if LegalAt(buf, i) {
      assert r[i] == buf[i..i + n][0] == buf[i];
    } else {
      AsciiNotLax(r, i, n, len);
    }
  }

  lemma AcceptedInFront(buf: seq<Byte>, i: nat, len: nat, replaceWith: Byte, r: seq<Byte>)
    requires i < len <= |buf| == |r| && replaceWith <= 0x7F
    requires i + CharLength(buf[i]) <= |buf| && (i + CharLength(buf[i]) <= len || LegalAt(buf, i))
    requires r[i..i + CharLength(buf[i])] == CorrectedChar(buf, i, replaceWith)
    requires ScanFits(r, i + CharLength(buf[i]), len) && Check(r, i + CharLength(buf[i]), len)
    ensures ScanFits(r, i, len) && Check(r, i, len)
  {
    var n, c := CharLength(buf[i]), CorrectedChar(buf, i, replaceWith);
    assert forall k :: i <= k < i + n ==> r[k] == r[i..i + n][k - i];
    if LegalAt(buf, i) {
      assert r[i] == c[0] == buf[i];
    } else {
      AsciiRun(r, i, n, len);
    }
  }

  lemma SplitAt<T>(r: seq<T>, i: nat, c: seq<T>, rest: seq<T>)
    requires i <= |r| && r[i..] == c + rest
    ensures i + |c| <= |r| && r[i..i + |c|] == c && r[i + |c|..] == rest
    ensures forall k :: 0 <= k < |c| ==> r[i + k] == c[k]
  {
    assert |r[i..]| == |c| + |rest|;
    assert r[i..i + |c|] == r[i..][..|c|];
    assert r[i + |c|..] == r[i..][|c|..];
    assert forall k :: 0 <= k < |c| ==> r[i + k] == r[i..][k];
  }

  /** The corrected string of a whole buffer: same length, accepted by a second pass. */
  lemma CorrectionWorks(buf: seq<Byte>, replaceWith: Byte)
    requires var len := Strlen(buf); len < |buf| && ScanFits(buf, 0, len)
    requires 0 < replaceWith <= 0x7F
    ensures var len, r := Strlen(buf), Corrected(buf, 0, Strlen(buf), replaceWith);
      && (Strlen(r) == len <==> !BrokenEnd(buf, 0, len))
      && (!BrokenEnd(buf, 0, len) ==>
          ScanFits(r, 0, len) && Check(r, 0, len) && (HasLax(r, 0, len) <==> HasLax(buf, 0, len)))
  {
    var len, r := Strlen(buf), Corrected(buf, 0, Strlen(buf), replaceWith);
    KeepsLengthExactly(buf, 0, len, replaceWith);
    if !BrokenEnd(buf, 0, len) {
      assert r[0..] == r;
      SecondPassAccepts(buf, 0, len, replaceWith, r);
    }
  }

  /** So a correction with an ASCII character other than NUL gives a well-formed string exactly when
      the original had no lax character, which correction does not remove. */
  lemma CorrectedIsWellFormed(buf: seq<Byte>, replaceWith: Byte)
    requires var len := Strlen(buf); len < |buf| && ScanFits(buf, 0, len) && !BrokenEnd(buf, 0, len)
    requires 0 < replaceWith <= 0x7F
    ensures var len, r := Strlen(buf), Corrected(buf, 0, Strlen(buf), replaceWith);
      WellFormed(r[..len]) <==> !HasLax(buf, 0, len)
  {
    var len, r := Strlen(buf), Corrected(buf, 0, Strlen(buf), replaceWith);
    CorrectionWorks(buf, replaceWith);
    assert r[0..] == r && r[..len] == r[0..len];
    CheckExactly(r, 0, len);
  }

  /** A string the scan accepts although it is not UTF-8: the surrogate U+D800. */
  lemma SurrogateAccepted()
    ensures var buf: seq<Byte> := [0xED, 0xA0, 0x80, 0x00];
      && Strlen(buf) == 3 && ScanFits(buf, 0, 3)
      && Check(buf, 0, 3) && HasLax(buf, 0, 3) && !WellFormed(buf[..3])
  {
    var buf: seq<Byte> := [0xED, 0xA0, 0x80, 0x00];
    StrlenIs(buf, 3);
    assert buf[0..3] == buf[..3] && buf[..3][1] == 0xA0 && buf[..3][2] == 0x80;
    CheckExactly(buf, 0, 3);
  }

  /** A string whose correction runs over its terminator: a lone lead byte of three. */
  lemma TerminatorLost(replaceWith: Byte)
    requires replaceWith != 0
    ensures var buf: seq<Byte> := [0xE2, 0x00, 0x41, 0x00];
      && Strlen(buf) == 1 && ScanFits(buf, 0, 1) && BrokenEnd(buf, 0, 1)
      && Strlen(Corrected(buf, 0, 1, replaceWith)) == 3
  {
    var buf: seq<Byte> := [0xE2, 0x00, 0x41, 0x00];
    StrlenIs(buf, 1);
    assert !LegalAt(buf, 0);
    StrlenIs(Corrected(buf, 0, 1, replaceWith), 3);
  }

  // ----- the method

  /** mString is the whole allocated buffer. Every byte the scan looks at must be inside it. */
  method ValidateStringUTF8(mString: array<Byte>, bCorrectStr: bool, replaceWith: Byte) returns (is_str_valid: bool)
    requires Strlen(mString[..]) < mString.Length && ScanFits(mString[..], 0, Strlen(mString[..]))
    modifies mString
    ensures is_str_valid <==> Check(old(mString[..]), 0, Strlen(old(mString[..])))
    ensures mString[..] == if bCorrectStr
      then Corrected(old(mString[..]), 0, Strlen(old(mString[..])), replaceWith) else old(mString[..])
  {
    ghost var buf := mString[..];
    var i := 0;
    var str_length := Strlen(mString[..]);
    is_str_valid := true;
    while i < str_length
      invariant i <= mString.Length == |buf|
      invariant ScanState(buf, mString[..], i, str_length, bCorrectStr, replaceWith, is_str_valid)
      decreases |buf| - i
    {
      ScanTurn(buf, mString[..], i, str_length, bCorrectStr, replaceWith, is_str_valid);
      var char_length, legal := ValidateChar(mString, i, bCorrectStr, replaceWith);
      if !legal {
        is_str_valid := false;
      }
      i := i + char_length;
    }
    ScanDone(buf, mString[..], i, str_length, bCorrectStr, replaceWith, is_str_valid);
  }

  /** The buffer after the turn at i. */
  function Turned(now: seq<Byte>, i: nat, correct: bool, replaceWith: Byte): (next: seq<Byte>)
    requires i < |now| && i + CharLength(now[i]) <= |now|
    ensures |next| == |now|
  {
    now[..i] + (if correct then CorrectedChar(now, i, replaceWith) else now[i..i + CharLength(now[i])])
      + now[i + CharLength(now[i])..]
  }

  /** The middle of the scan: from i on the buffer is the original, correcting that rest would
      complete the result, and checking it would complete the verdict. */
  predicate ScanState(buf: seq<Byte>, now: seq<Byte>, i: nat, len: nat, correct: bool, replaceWith: Byte, valid: bool)
    requires i <= |buf| == |now| && len <= |buf|
  {
    && ScanFits(buf, 0, len) && ScanFits(buf, i, len) && now[i..] == buf[i..]
    && (if correct then now[..i] + Corrected(buf, i, len, replaceWith) == Corrected(buf, 0, len, replaceWith)
        else now[..i] == buf[..i])
    && (valid && Check(buf, i, len) <==> Check(buf, 0, len))
  }

  /** One turn does to the buffer what it would do to the original, and moves the state on. */
  lemma ScanTurn(buf: seq<Byte>, now: seq<Byte>, i: nat, len: nat, correct: bool, replaceWith: Byte, valid: bool)
    requires i < len <= |buf| == |now| && ScanState(buf, now, i, len, correct, replaceWith, valid)
    ensures var n := CharLength(now[i]);
      && i + n <= |buf|
      && ScanState(buf, Turned(now, i, correct, replaceWith), i + n, len, correct, replaceWith,
                   valid && LegalAt(now, i))
  {
    var n := CharLength(buf[i]);
    SameTail(now, buf, i, n);
    var c, rest := CorrectedChar(buf, i, replaceWith), now[i + n..];
    if correct {
      Regroup(now[..i], c, Corrected(buf, i + n, len, replaceWith));
      Parts(now[..i] + c, rest);
    } else {
      assert buf[..i] + buf[i..i + n] == buf[..i + n];
      Parts(now[..i] + now[i..i + n], rest);
    }
  }

  lemma ScanDone(buf: seq<Byte>, now: seq<Byte>, i: nat, len: nat, correct: bool, replaceWith: Byte, valid: bool)
    requires len <= i <= |buf| == |now| && ScanState(buf, now, i, len, correct, replaceWith, valid)
    ensures now == (if correct then Corrected(buf, 0, len, replaceWith) else buf) && (valid <==> Check(buf, 0, len))
  {
    assert now == now[..i] + now[i..] && buf == buf[..i] + buf[i..];
  }

  lemma Parts<T>(a: seq<T>, b: seq<T>)
    ensures (a + b)[..|a|] == a && (a + b)[|a|..] == b
  {
  }

  /** One turn of the scan. */
  method ValidateChar(mString: array<Byte>, i: nat, bCorrectStr: bool, replaceWith: Byte)
    returns (char_length: nat, legal: bool)
    requires i < mString.Length && i + CharLength(mString[i]) <= mString.Length
    modifies mString
    ensures char_length == CharLength(old(mString[i])) && legal == LegalAt(old(mString[..]), i)
    ensures mString[..] == Turned(old(mString[..]), i, bCorrectStr, replaceWith)
  {
    ghost var was := mString[..];
    char_length := 1;
    if 0xC0 <= mString[i] < 0xE0 {
      char_length := 2;
    } else if 0xE0 <= mString[i] < 0xF0 {
      char_length := 3;
    } else if 0xF0 <= mString[i] < 0xF8 {
      char_length := 4;
    }
    assert was[i..i + char_length] == mString[i..i + char_length];
    legal := IsLegalUtf8Sequence(mString[i..i + char_length]);
    if !legal && bCorrectStr {
      Overwrite(mString, i, char_length, replaceWith);
    } else {
      assert was == was[..i] + was[i..i + char_length] + was[i + char_length..];
    }
  }

  /** The inner loop: overwrites n bytes from i on. */
  method Overwrite(mString: array<Byte>, i: nat, n: nat, replaceWith: Byte)
    requires i + n <= mString.Length
    modifies mString
    ensures mString[..] == old(mString[..i]) + Fill(replaceWith, n) + old(mString[i + n..])
  {
    var j := 0;
    while j < n
      invariant 0 <= j <= n
      invariant mString[..i + j] == old(mString[..i]) + Fill(replaceWith, j)
      invariant mString[i + j..] == old(mString[i + j..])
    {
      ghost var was := mString[i + j..];
      mString[i + j] := replaceWith;
      assert mString[..i + j + 1] == mString[..i + j] + [replaceWith];
      assert mString[i + j + 1..] == was[1..];
      j := j + 1;
    }
    assert mString[..] == mString[..i + n] + mString[i + n..];
  }

  lemma SameTail(a: seq<Byte>, b: seq<Byte>, i: nat, n: nat)
    requires i < |a| == |b| && a[i..] == b[i..] && i + n <= |a|
    ensures a[i] == b[i] && a[i..i + n] == b[i..i + n] && a[i + n..] == b[i + n..]
  {
    assert forall k :: i <= k < |a| ==> a[k] == a[i..][k - i] && b[k] == b[i..][k - i];
  }
}
