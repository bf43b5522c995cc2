/**
 * UTF-8 as defined by RFC 3629: the byte syntax of RFC 3629 section 4 (UTF8-char), which a
 * strict decoder such as Python's `bytes.decode('utf-8')` accepts and nothing else, and
 * the encoding table of RFC 3629 section 3. Characters are Unicode scalar values (Dafny's `char`).
 */
module Utf8 {
  import opened Wrappers

  type Byte = b: int | 0 <= b < 0x100

  /** UTF8-tail = %x80-BF */
  predicate IsTail(b: Byte) {
    0x80 <= b <= 0xBF
  }

  /** The number of bytes RFC 3629 section 3 uses for code point `cp`. */
  function EncodedLength(cp: int): nat {
    if cp < 0x80 then 1 else if cp < 0x800 then 2 else if cp < 0x10000 then 3 else 4
  }

  /** A Unicode scalar value: a code point that is not a surrogate. */
  predicate IsScalar(cp: int) {
    0 <= cp < 0xD800 || 0xE000 <= cp <= 0x10FFFF
  }

  /**
   * The length of the UTF8-char of RFC 3629 section 4 that `b` starts with, or 0 when `b` starts
   * with none (an illegal lead byte, a bad second byte, or a character cut short).
   */
  function CharLength(b: seq<Byte>): (n: nat)
    ensures n <= 4 && n <= |b|
  {
    if |b| == 0 then 0
    // UTF8-1 = %x00-7F
    else if b[0] <= 0x7F then 1
    // UTF8-2 = %xC2-DF UTF8-tail
    else if 0xC2 <= b[0] <= 0xDF then
      if 2 <= |b| && IsTail(b[1]) then 2 else 0
    // UTF8-3 = %xE0 %xA0-BF UTF8-tail / %xE1-EC 2( UTF8-tail ) /
    //          %xED %x80-9F UTF8-tail / %xEE-EF 2( UTF8-tail )
    else if b[0] == 0xE0 then
      if 3 <= |b| && 0xA0 <= b[1] <= 0xBF && IsTail(b[2]) then 3 else 0
    else if 0xE1 <= b[0] <= 0xEC || 0xEE <= b[0] <= 0xEF then
      if 3 <= |b| && IsTail(b[1]) && IsTail(b[2]) then 3 else 0
    else if b[0] == 0xED then
      if 3 <= |b| && 0x80 <= b[1] <= 0x9F && IsTail(b[2]) then 3 else 0
    // UTF8-4 = %xF0 %x90-BF 2( UTF8-tail ) / %xF1-F3 3( UTF8-tail ) /
    //          %xF4 %x80-8F 2( UTF8-tail )
    else if b[0] == 0xF0 then
      if 4 <= |b| && 0x90 <= b[1] <= 0xBF && IsTail(b[2]) && IsTail(b[3]) then 4 else 0
    else if 0xF1 <= b[0] <= 0xF3 then
      if 4 <= |b| && IsTail(b[1]) && IsTail(b[2]) && IsTail(b[3]) then 4 else 0
    else if b[0] == 0xF4 then
      if 4 <= |b| && 0x80 <= b[1] <= 0x8F && IsTail(b[2]) && IsTail(b[3]) then 4 else 0
    else 0
  }

  /** Every byte of a UTF8-char after its lead byte is a continuation byte. */
  lemma CharLengthTails(b: seq<Byte>)
    ensures forall i :: 1 <= i < CharLength(b) ==> IsTail(b[i])
  {
  }

  /** The code point of one well-formed UTF8-char: the `x` bits of the RFC 3629 section 3 table. */
  function DecodeChar(c: seq<Byte>): (cp: int)
    requires 0 < |c| == CharLength(c)
    ensures IsScalar(cp) && EncodedLength(cp) == |c|
  {
    var b0: int, b1: int := c[0], if |c| > 1 then c[1] else 0;
    var b2: int, b3: int := if |c| > 2 then c[2] else 0, if |c| > 3 then c[3] else 0;
    if |c| == 1 then b0
    else if |c| == 2 then (b0 - 0xC0) * 0x40 + (b1 - 0x80)
    else if |c| == 3 then (b0 - 0xE0) * 0x1000 + (b1 - 0x80) * 0x40 + (b2 - 0x80)
    else (b0 - 0xF0) * 0x40000 + (b1 - 0x80) * 0x1000 + (b2 - 0x80) * 0x40 + (b3 - 0x80)
  }

  /** The first byte of a character's encoding: the length marker and the high bits of `cp`. */
  function Lead(cp: int): Byte
    requires IsScalar(cp)
  {
    if cp < 0x80 then cp
    else if cp < 0x800 then 0xC0 + cp / 0x40
    else if cp < 0x10000 then 0xE0 + cp / 0x1000
    else 0xF0 + cp / 0x40000
  }

  /** The `k` continuation bytes that carry the low `6 * k` bits of `cp`, most significant first. */
  function Tails(cp: nat, k: nat): (b: seq<Byte>)
    ensures |b| == k
  {
    if k == 0 then [] else Tails(cp / 0x40, k - 1) + [0x80 + cp % 0x40]
  }

  /** `Tails` written out for the lengths UTF-8 uses. */
  lemma TailsValues(cp: nat)
    ensures Tails(cp, 1) == [0x80 + cp % 0x40]
    ensures Tails(cp, 2) == [0x80 + (cp / 0x40) % 0x40, 0x80 + cp % 0x40]
    ensures Tails(cp, 3) == [0x80 + (cp / 0x1000) % 0x40, 0x80 + (cp / 0x40) % 0x40, 0x80 + cp % 0x40]
  {
    var q := cp / 0x40;
    var q2 := q / 0x40;
    assert q2 == cp / 0x1000 by {
      assert cp == q * 0x40 + cp % 0x40;
      assert q == q2 * 0x40 + q % 0x40;
    }
    assert Tails(q, 1) == Tails(q2, 0) + [0x80 + q % 0x40];
    assert Tails(q, 2) == Tails(q2, 1) + [0x80 + q % 0x40];
    assert Tails(q2, 1) == Tails(q2 / 0x40, 0) + [0x80 + q2 % 0x40];
  }

  /** The bytes of one character, per the table of RFC 3629 section 3. */
  function EncodeChar(ch: char): (b: seq<Byte>)
    ensures |b| == EncodedLength(ch as int)
  {
    [Lead(ch as int)] + Tails(ch as int, EncodedLength(ch as int) - 1)
  }

  /** `str.encode('utf-8')`. */
  function Encode(s: string): (b: seq<Byte>)
    ensures |b| >= |s|
  {
    if s == [] then [] else EncodeChar(s[0]) + Encode(s[1..])
  }

  /** Strict `bytes.decode('utf-8')`: the text, or None where the decoder raises. */
  function Decode(b: seq<Byte>): (r: Option<string>)
    ensures r.Some? ==> |r.value| <= |b|
    decreases |b|
  {
    if b == [] then Some("")
    else
      var n := CharLength(b);
      if n == 0 then None
      else
        match Decode(b[n..])
        case None => None
        case Some(rest) => Some([DecodeChar(b[..n]) as char] + rest)
  }

  /** Byte strings that are the UTF-8 encoding of some text. */
  ghost predicate WellFormed(b: seq<Byte>) {
    exists s :: Encode(s) == b
  }

  /** The RFC 3629 section 3 table for two-byte characters, as arithmetic on the code point. */
  lemma TwoBytes(cp: int)
    requires 0x80 <= cp < 0x800
    ensures 0xC2 <= 0xC0 + cp / 0x40 <= 0xDF && 0 <= cp % 0x40 < 0x40
    ensures (cp / 0x40) * 0x40 + cp % 0x40 == cp
  {
  }

  lemma ThreeBytes(cp: int)
    requires 0x800 <= cp < 0x10000
    ensures 0 <= cp / 0x1000 < 0x10 && 0 <= (cp / 0x40) % 0x40 < 0x40 && 0 <= cp % 0x40 < 0x40
    ensures cp / 0x1000 == 0 ==> 0x20 <= (cp / 0x40) % 0x40
    ensures cp / 0x1000 == 0xD && cp < 0xD800 ==> (cp / 0x40) % 0x40 < 0x20
    ensures (cp / 0x1000) * 0x1000 + ((cp / 0x40) % 0x40) * 0x40 + cp % 0x40 == cp
  {
    var q := cp / 0x40;
    assert cp == q * 0x40 + cp % 0x40;
    assert q == (q / 0x40) * 0x40 + q % 0x40;
    assert q / 0x40 == cp / 0x1000;
  }

  lemma FourBytes(cp: int)
    requires 0x10000 <= cp <= 0x10FFFF
    ensures 0 <= cp / 0x40000 <= 4 && 0 <= (cp / 0x1000) % 0x40 < 0x40
    ensures 0 <= (cp / 0x40) % 0x40 < 0x40 && 0 <= cp % 0x40 < 0x40
    ensures cp / 0x40000 == 0 ==> 0x10 <= (cp / 0x1000) % 0x40
    ensures cp / 0x40000 == 4 ==> (cp / 0x1000) % 0x40 < 0x10
    ensures (cp / 0x40000) * 0x40000 + ((cp / 0x1000) % 0x40) * 0x1000
            + ((cp / 0x40) % 0x40) * 0x40 + cp % 0x40 == cp
  {
    var q := cp / 0x40;
    var q2 := q / 0x40;
    assert cp == q * 0x40 + cp % 0x40;
    assert q == q2 * 0x40 + q % 0x40;
    assert q2 == (q2 / 0x40) * 0x40 + q2 % 0x40;
    assert q2 == cp / 0x1000;
    assert q2 / 0x40 == cp / 0x40000;
  }

  /** An encoded character is recognised as one UTF8-char whatever follows it, and decodes back. */
  lemma EncodeCharDecodes(ch: char, rest: seq<Byte>)
    ensures CharLength(EncodeChar(ch) + rest) == |EncodeChar(ch)|
    ensures (EncodeChar(ch) + rest)[..|EncodeChar(ch)|] == EncodeChar(ch)
    ensures DecodeChar(EncodeChar(ch)) == ch as int
  {
    var cp := ch as int;
    var e := EncodeChar(ch);
    var b := e + rest;
    TailsValues(cp);
    assert b[..|e|] == e;
    assert forall i :: 0 <= i < |e| ==> b[i] == e[i];
    if cp < 0x80 {
    } else if cp < 0x800 {
      TwoBytes(cp);
    } else if cp < 0x10000 {
      ThreeBytes(cp);
    } else {
      FourBytes(cp);
    }
  }

  /** The inverse reading of the table: the bytes of a UTF8-char come back from its code point. */
  lemma TwoBytesBack(cp: int, b0: int, b1: int)
    requires 0xC2 <= b0 <= 0xDF && 0x80 <= b1 <= 0xBF
    requires cp == (b0 - 0xC0) * 0x40 + (b1 - 0x80) && IsScalar(cp)
    ensures Lead(cp) == b0 && Tails(cp, 1) == [b1]
  {
    TailsValues(cp);
  }

  lemma ThreeBytesBack(cp: int, b0: int, b1: int, b2: int)
    requires 0xE0 <= b0 <= 0xEF && 0x80 <= b1 <= 0xBF && 0x80 <= b2 <= 0xBF
    requires cp == (b0 - 0xE0) * 0x1000 + (b1 - 0x80) * 0x40 + (b2 - 0x80) && IsScalar(cp)
    requires EncodedLength(cp) == 3
    ensures Lead(cp) == b0 && Tails(cp, 2) == [b1, b2]
  {
    TailsValues(cp);
    assert cp / 0x40 == (b0 - 0xE0) * 0x40 + (b1 - 0x80);
  }

  lemma FourBytesBack(cp: int, b0: int, b1: int, b2: int, b3: int)
    requires 0xF0 <= b0 <= 0xF4 && 0x80 <= b1 <= 0xBF && 0x80 <= b2 <= 0xBF && 0x80 <= b3 <= 0xBF
    requires cp == (b0 - 0xF0) * 0x40000 + (b1 - 0x80) * 0x1000 + (b2 - 0x80) * 0x40 + (b3 - 0x80)
    requires IsScalar(cp) && EncodedLength(cp) == 4
    ensures Lead(cp) == b0 && Tails(cp, 3) == [b1, b2, b3]
  {
    TailsValues(cp);
    assert cp / 0x40 == (b0 - 0xF0) * 0x1000 + (b1 - 0x80) * 0x40 + (b2 - 0x80);
    assert cp / 0x1000 == (b0 - 0xF0) * 0x40 + (b1 - 0x80);
  }

  /** A well-formed UTF8-char is the encoding of the character it decodes to. */
  lemma DecodeCharEncodes(c: seq<Byte>)
    requires 0 < |c| == CharLength(c)
    ensures EncodeChar(DecodeChar(c) as char) == c
  {
    var cp := DecodeChar(c);
    assert EncodeChar(cp as char) == [Lead(cp)] + Tails(cp, |c| - 1);
    if |c| == 2 {
      TwoBytesBack(cp, c[0], c[1]);
    } else if |c| == 3 {
      ThreeBytesBack(cp, c[0], c[1], c[2]);
    } else if |c| == 4 {
      FourBytesBack(cp, c[0], c[1], c[2], c[3]);
    }
    assert c == [c[0]] + c[1..];
  }

  lemma {:induction false} EncodeAppend(s: string, t: string)
    ensures Encode(s + t) == Encode(s) + Encode(t)
  {
    if s == [] {
      assert s + t == t;
    } else {
      assert (s + t)[1..] == s[1..] + t;
      EncodeAppend(s[1..], t);
    }
  }

  /** Round trip: decoding an encoded text gives the text back. */
  lemma {:induction false} DecodeEncode(s: string)
    ensures Decode(Encode(s)) == Some(s)
  {
    if s != [] {
      var b := Encode(s);
      var c := EncodeChar(s[0]);
      EncodeCharDecodes(s[0], Encode(s[1..]));
      assert b[|c|..] == Encode(s[1..]);
      DecodeEncode(s[1..]);
      assert [s[0]] + s[1..] == s;
    }
  }

  /** The character `Decode` reads first is the one those bytes encode. */
  lemma DecodeStep(b: seq<Byte>)
    requires b != [] && Decode(b).Some?
    ensures var n, s := CharLength(b), Decode(b).value;
      && 0 < n && s != [] && Decode(b[n..]).Some?
      && s[1..] == Decode(b[n..]).value
      && EncodeChar(s[0]) == b[..n]
  {
    var n := CharLength(b);
    var c := b[..n];
    assert CharLength(c) == n;
    var rest := Decode(b[n..]).value;
    assert Decode(b).value == [DecodeChar(c) as char] + rest;
    DecodeCharEncodes(c);
  }

  /** Round trip: whatever decodes is the encoding of its decoding. */
  lemma {:induction false} EncodeDecode(b: seq<Byte>)
    requires Decode(b).Some?
    ensures Encode(Decode(b).value) == b
    decreases |b|
  {
    if b != [] {
      var n, s := CharLength(b), Decode(b).value;
      DecodeStep(b);
      EncodeDecode(b[n..]);
      assert Encode(s) == EncodeChar(s[0]) + Encode(s[1..]);
      assert b[..n] + b[n..] == b;
    }
  }

  /** Strict decoding succeeds exactly on the byte strings that encode some text. */
  lemma DecodeSucceedsIffWellFormed(b: seq<Byte>)
    ensures Decode(b).Some? <==> WellFormed(b)
  {
    if Decode(b).Some? {
      EncodeDecode(b);
    }
    if WellFormed(b) {
      var s :| Encode(s) == b;
      DecodeEncode(s);
    }
  }

  /** Two encodings that agree as byte strings start with the same character. */
  lemma SameLeadChar(c: char, d: char, x: seq<Byte>, y: seq<Byte>)
    requires EncodeChar(c) + x == EncodeChar(d) + y
    ensures c == d && x == y
  {
    EncodeCharDecodes(c, x);
    EncodeCharDecodes(d, y);
    var n := |EncodeChar(c)|;
    assert EncodeChar(c) == (EncodeChar(c) + x)[..n] == EncodeChar(d);
    EncodeCharDecodes(c, []);
    EncodeCharDecodes(d, []);
    assert x == (EncodeChar(c) + x)[n..] == y;
  }

  /** An encoded character followed by `x` that is a prefix of one followed by `y` is the same character. */
  lemma SameLeadCharPrefix(c: char, d: char, x: seq<Byte>, y: seq<Byte>)
    requires |EncodeChar(c) + x| <= |EncodeChar(d) + y|
    requires (EncodeChar(d) + y)[..|EncodeChar(c) + x|] == EncodeChar(c) + x
    ensures c == d && |x| <= |y| && y[..|x|] == x
  {
    var ec, ed := EncodeChar(c), EncodeChar(d);
    var tail := (ed + y)[|ec + x|..];
    assert ec + (x + tail) == ed + y;
    SameLeadChar(c, d, x + tail, y);
  }

  /** One step of self-synchronisation: an encoded prefix starts with the same character. */
  lemma EncodedPrefixStep(t: string, s: string)
    requires t != [] && |Encode(t)| <= |Encode(s)| && Encode(s)[..|Encode(t)|] == Encode(t)
    ensures s != [] && s[0] == t[0]
    ensures |Encode(t[1..])| <= |Encode(s[1..])| && Encode(s[1..])[..|Encode(t[1..])|] == Encode(t[1..])
  {
    assert s != [];
    assert Encode(t) == EncodeChar(t[0]) + Encode(t[1..]);
    assert Encode(s) == EncodeChar(s[0]) + Encode(s[1..]);
    SameLeadCharPrefix(t[0], s[0], Encode(t[1..]), Encode(s[1..]));
  }

  /** UTF-8 is self-synchronising: an encoding that is a prefix of another comes from a prefix. */
  lemma {:induction false} EncodedPrefix(t: string, s: string)
    requires |Encode(t)| <= |Encode(s)| && Encode(s)[..|Encode(t)|] == Encode(t)
    ensures |t| <= |s| && s[..|t|] == t
  {
    if t != [] {
      EncodedPrefixStep(t, s);
      EncodedPrefix(t[1..], s[1..]);
      assert s[..|t|] == [s[0]] + s[1..][..|t[1..]|];
    }
  }

  /**
   * A prefix of an encoded text decodes exactly when it ends on a character boundary:
   * a byte string cut in the middle of a multi-byte character is rejected.
   */
  lemma TruncatedDecode(s: string, k: nat)
    requires k <= |Encode(s)|
    ensures Decode(Encode(s)[..k]).Some? <==> exists j :: 0 <= j <= |s| && |Encode(s[..j])| == k
  {
    var p := Encode(s)[..k];
    if Decode(p).Some? {
      var t := Decode(p).value;
      EncodeDecode(p);
      EncodedPrefix(t, s);
      assert |Encode(s[..|t|])| == k;
    }
    if j :| 0 <= j <= |s| && |Encode(s[..j])| == k {
      EncodeAppend(s[..j], s[j..]);
      assert s[..j] + s[j..] == s;
      assert p == Encode(s[..j]);
      DecodeEncode(s[..j]);
    }
  }
}
