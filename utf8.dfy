/** The bytes of a Rust `str`: `write_string` walks `s.bytes()`, which is the
    UTF-8 encoding of the string's characters, one byte at a time. */
module Utf8 {
  import opened Bytes

  /** The UTF-8 encoding of one Unicode scalar value: one byte below U+0080,
      otherwise a lead byte and one to three continuation bytes, none of
      which is an ASCII byte. */
  function EncodeChar(c: char): (r: seq<uint8>)
    ensures 1 <= |r| <= 4
    ensures |r| == 1 <==> c as int < 0x80
    ensures |r| == 1 ==> r[0] as int == c as int
    ensures |r| > 1 ==> forall k :: 0 <= k < |r| ==> r[k] >= 0x80
  {
    var n := c as int;
    if n < 0x80 then
      [n as uint8]
    else if n < 0x800 then
      [(0xC0 + n / 0x40) as uint8, (0x80 + n % 0x40) as uint8]
    else if n < 0x1_0000 then
      [(0xE0 + n / 0x1000) as uint8, (0x80 + n / 0x40 % 0x40) as uint8, (0x80 + n % 0x40) as uint8]
    else
      [(0xF0 + n / 0x4_0000) as uint8, (0x80 + n / 0x1000 % 0x40) as uint8,
       (0x80 + n / 0x40 % 0x40) as uint8, (0x80 + n % 0x40) as uint8]
  }

  /** Byte strings joined end to end. */
  function Concat(parts: seq<seq<uint8>>): (r: seq<uint8>)
    ensures (forall k :: 0 <= k < |parts| ==> 1 <= |parts[k]| <= 4) ==> |parts| <= |r| <= 4 * |parts|
  {
    if parts == [] then [] else parts[0] + Concat(parts[1..])
  }

  /** `s.bytes()`: the characters' encodings, in order. */
  function Encode(s: string): (r: seq<uint8>)
    ensures |s| <= |r| <= 4 * |s|
  {
    Concat(seq(|s|, i requires 0 <= i < |s| => EncodeChar(s[i])))
  }

  /** Joining distributes over concatenation. */
  lemma {:induction false} ConcatAppend(p: seq<seq<uint8>>, q: seq<seq<uint8>>)
    ensures Concat(p + q) == Concat(p) + Concat(q)
  {
    if p == [] {
      assert p + q == q;
    } else {
      assert (p + q)[1..] == p[1..] + q;
      ConcatAppend(p[1..], q);
    }
  }

  /** A non-empty string encodes as its first character's bytes followed by
      the encoding of the rest. */
  lemma EncodeCons(s: string)
    requires s != []
    ensures Encode(s) == EncodeChar(s[0]) + Encode(s[1..])
  {
    var parts := seq(|s|, i requires 0 <= i < |s| => EncodeChar(s[i]));
    assert parts[1..] == seq(|s[1..]|, i requires 0 <= i < |s[1..]| => EncodeChar(s[1..][i]));
  }

  /** Encoding distributes over concatenation. */
  lemma EncodeAppend(s: string, t: string)
    ensures Encode(s + t) == Encode(s) + Encode(t)
  {
    var p := seq(|s|, i requires 0 <= i < |s| => EncodeChar(s[i]));
    var q := seq(|t|, i requires 0 <= i < |t| => EncodeChar(t[i]));
    assert seq(|s + t|, i requires 0 <= i < |s + t| => EncodeChar((s + t)[i])) == p + q;
    ConcatAppend(p, q);
  }

  /** An ASCII string is its own byte string: one byte per character,
      with the character's code as its value. */
  lemma {:induction false} EncodeAscii(s: string)
    requires forall i :: 0 <= i < |s| ==> s[i] as int < 0x80
    ensures |Encode(s)| == |s|
    ensures forall i :: 0 <= i < |s| ==> Encode(s)[i] as int == s[i] as int
  {
    if s != [] {
      EncodeAscii(s[1..]);
      EncodeCons(s);
      forall i | 0 <= i < |s|
        ensures Encode(s)[i] as int == s[i] as int
      {
        if i > 0 {
          assert Encode(s)[i] == Encode(s[1..])[i - 1];
          assert s[i] == s[1..][i - 1];
        }
      }
    }
  }
}
