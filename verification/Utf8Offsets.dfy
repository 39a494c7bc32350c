/** From byte offsets to character offsets in UTF-8 text, and the label ranges a report is given. */
module Utf8Offsets {

  type Byte = x: int | 0 <= x < 256
  /** A Unicode scalar value: a code point that is not a surrogate. */
  type Scalar = c: int | 0 <= c < 0xD800 || 0xE000 <= c < 0x110000

  /** The bytes of a character (section 3 of RFC 3629). */
  function Encode(c: Scalar): (bytes: seq<Byte>)
    ensures 1 <= |bytes| <= 4
  {
    if c < 0x80 then [c]
    else if c < 0x800 then [0xC0 + c / 0x40, 0x80 + c % 0x40]
    else if c < 0x10000 then [0xE0 + c / 0x1000, 0x80 + c / 0x40 % 0x40, 0x80 + c % 0x40]
    else [0xF0 + c / 0x40000, 0x80 + c / 0x1000 % 0x40, 0x80 + c / 0x40 % 0x40, 0x80 + c % 0x40]
  }

  function Utf8(text: seq<Scalar>): seq<Byte> {
    if text == [] then [] else Encode(text[0]) + Utf8(text[1..])
  }

  /** A byte that continues a character rather than starting one. */
  predicate Continues(b: Byte) {
    0x80 <= b < 0xC0
  }

  lemma EncodeStarts(c: Scalar)
    ensures !Continues(Encode(c)[0])
    ensures forall k :: 1 <= k < |Encode(c)| ==> Continues(Encode(c)[k])
  {
  }

  /** Whether the text can be cut at `b`. */
  predicate IsBoundary(bytes: seq<Byte>, b: nat) {
    b == 0 || b == |bytes| || (b < |bytes| && !Continues(bytes[b]))
  }

  /** The number of characters in bytes that hold whole characters. */
  function CountChars(bytes: seq<Byte>): nat {
    if bytes == [] then 0
    else CountChars(bytes[..|bytes| - 1]) + if Continues(bytes[|bytes| - 1]) then 0 else 1
  }

  /** How many bytes the first `k` characters take. */
  function Width(text: seq<Scalar>, k: nat): nat
    requires k <= |text|
  {
    if k == 0 then 0 else Width(text, k - 1) + |Encode(text[k - 1])|
  }

  /** `k` is the number of characters that end at or before the offset. */
  ghost predicate EndBy(text: seq<Scalar>, offset: nat, k: nat) {
    k <= |text| && Width(text, k) <= offset && (k < |text| ==> offset < Width(text, k + 1))
  }

  // ---------- characters and bytes ----------

  lemma {:induction false} Utf8Snoc(text: seq<Scalar>, c: Scalar)
    ensures Utf8(text + [c]) == Utf8(text) + Encode(c)
    decreases |text|
  {
    hide Encode;
    if text == [] {
      assert [c][1..] == [] && Utf8([c]) == Encode(c) + Utf8([]);
    } else {
      assert (text + [c])[1..] == text[1..] + [c];
      Utf8Snoc(text[1..], c);
    }
  }

  lemma {:induction false} Utf8Prefix(text: seq<Scalar>, k: nat)
    requires k <= |text|
    ensures |Utf8(text[..k])| == Width(text, k) <= |Utf8(text)|
    ensures Utf8(text)[..Width(text, k)] == Utf8(text[..k])
    decreases |text| - k
  {
    hide Encode;
    WidthIsLength(text, k);
    if k == |text| {
      assert text[..k] == text;
    } else {
      Utf8Prefix(text, k + 1);
      Utf8Snoc(text[..k], text[k]);
      assert text[..k + 1] == text[..k] + [text[k]];
      WidthIsLength(text, k + 1);
      assert Utf8(text[..k]) == Utf8(text[..k + 1])[..Width(text, k)];
    }
  }

  lemma {:induction false} WidthIsLength(text: seq<Scalar>, k: nat)
    requires k <= |text|
    ensures |Utf8(text[..k])| == Width(text, k)
    decreases k
  {
    hide Encode;
    if k > 0 {
      WidthIsLength(text, k - 1);
      Utf8Snoc(text[..k - 1], text[k - 1]);
      assert text[..k] == text[..k - 1] + [text[k - 1]];
    }
  }

  lemma {:induction false} WidthGrows(text: seq<Scalar>, j: nat, k: nat)
    requires j < k <= |text|
    ensures Width(text, j + 1) <= Width(text, k) && Width(text, j) < Width(text, k)
    decreases k
  {
    hide Encode;
    if j + 1 < k {
      WidthGrows(text, j, k - 1);
    }
  }

  lemma {:induction false} CountAppend(x: seq<Byte>, y: seq<Byte>)
    ensures CountChars(x + y) == CountChars(x) + CountChars(y)
    decreases |y|
  {
    if y == [] {
      assert x + y == x;
    } else {
      var n := |y| - 1;
      assert (x + y)[..|x| + n] == x + y[..n];
      CountAppend(x, y[..n]);
    }
  }

  lemma CountOne(c: Scalar)
    ensures CountChars(Encode(c)) == 1
  {
    var e := Encode(c);
    EncodeStarts(c);
    hide Encode;
    CountContinued(e[1..]);
    assert e == [e[0]] + e[1..];
    CountAppend([e[0]], e[1..]);
    assert CountChars([e[0]]) == 1;
  }

  lemma {:induction false} CountContinued(bytes: seq<Byte>)
    requires forall b :: b in bytes ==> Continues(b)
    ensures CountChars(bytes) == 0
    decreases |bytes|
  {
    if bytes != [] {
      CountContinued(bytes[..|bytes| - 1]);
    }
  }

  lemma {:induction false} CountOfText(text: seq<Scalar>)
    ensures CountChars(Utf8(text)) == |text|
    decreases |text|
  {
    if text != [] {
      hide Encode, CountChars;
      CountOfText(text[1..]);
      CountOne(text[0]);
      CountAppend(Encode(text[0]), Utf8(text[1..]));
    } else {
      assert CountChars([]) == 0;
    }
  }

  // ---------- boundaries ----------

  lemma ByteOfChar(text: seq<Scalar>, k: nat, i: nat)
    requires k < |text| && i < |Encode(text[k])|
    ensures Width(text, k) + i < |Utf8(text)| && Utf8(text)[Width(text, k) + i] == Encode(text[k])[i]
  {
    hide Encode, Utf8;
    Utf8Prefix(text, k + 1);
    Utf8Snoc(text[..k], text[k]);
    WidthIsLength(text, k);
    assert text[..k + 1] == text[..k] + [text[k]];
    var b := Utf8(text)[..Width(text, k + 1)];
    assert b[Width(text, k) + i] == Encode(text[k])[i];
  }

  /** Between the first byte of the character that an offset falls in and the offset there is no boundary,
      and the first byte is one. */
  lemma BoundaryBelow(text: seq<Scalar>, offset: nat, k: nat, b: nat)
    requires EndBy(text, offset, k) && k < |text| && Width(text, k) <= b <= offset
    ensures offset < |Utf8(text)| && offset - Width(text, k) <= 3
    ensures b == Width(text, k) ==> IsBoundary(Utf8(text), b)
    ensures b > Width(text, k) ==> b < |Utf8(text)| && Continues(Utf8(text)[b])
  {
    EncodeStarts(text[k]);
    hide Encode;
    ByteOfChar(text, k, b - Width(text, k));
    ByteOfChar(text, k, offset - Width(text, k));
  }

  /** The number of characters that end by an offset exists and is unique. */
  lemma {:induction false} EndByExists(text: seq<Scalar>, offset: nat, from: nat) returns (k: nat)
    requires from <= |text| && Width(text, from) <= offset
    ensures EndBy(text, offset, k)
    decreases |text| - from
  {
    hide Encode;
    if from == |text| || offset < Width(text, from + 1) {
      k := from;
    } else {
      k := EndByExists(text, offset, from + 1);
    }
  }

  /** Later offsets never give smaller counts; one offset gives one count. */
  lemma EndByMonotone(text: seq<Scalar>, a: nat, b: nat, j: nat, k: nat)
    requires EndBy(text, a, j) && EndBy(text, b, k) && a <= b
    ensures j <= k
  {
    if k < j {
      WidthGrows(text, k, j);
    }
  }

  /** The character offset of a byte offset: walks back to a boundary and counts the characters before it. */
  method ByteToChar(ghost text: seq<Scalar>, bytes: seq<Byte>, offset: nat) returns (chars: nat, ghost stop: nat)
    requires bytes == Utf8(text)
    ensures EndBy(text, offset, chars)
    ensures offset >= |bytes| ==> chars == |text|
    ensures offset < |bytes| ==> stop <= offset <= stop + 3 && stop == Width(text, chars)
  {
    hide Encode, Utf8, CountChars;
    Utf8Prefix(text, |text|);
    assert text[..|text|] == text;
    if offset >= |bytes| {
      CountOfText(text);
      stop := |bytes|;
      return CountChars(bytes), stop;
    }
    ghost var k := EndByExists(text, offset, 0);
    assert k < |text|;
    var b := offset;
    BoundaryBelow(text, offset, k, b);
    while b > 0 && !IsBoundary(bytes, b)
      invariant Width(text, k) <= b <= offset
    {
      BoundaryBelow(text, offset, k, b);
      b := b - 1;
    }
    BoundaryBelow(text, offset, k, b);
    Utf8Prefix(text, k);
    CountOfText(text[..k]);
    chars, stop := CountChars(bytes[..b]), b;
  }

  function Max(a: nat, b: nat): nat {
    if a < b then b else a
  }

  /** The range a label is drawn over: never empty, starting at the character that holds the label's first
      byte (or after the text), and ending after every character that ends by the label's end. */
  method LabelRange(ghost text: seq<Scalar>, bytes: seq<Byte>, startByte: nat, endByte: nat)
    returns (start: nat, end: nat, ghost last: nat)
    requires bytes == Utf8(text)
    ensures start < end
    ensures EndBy(text, startByte, start)
    ensures EndBy(text, Max(endByte, startByte + 1), last) && end == Max(last, start + 1)
    ensures end <= |text| || end == start + 1
  {
    ghost var stop;
    start, stop := ByteToChar(text, bytes, startByte);
    var e;
    e, stop := ByteToChar(text, bytes, Max(endByte, startByte + 1));
    last := e;
    end := Max(e, start + 1);
  }
}
