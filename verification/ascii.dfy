/**
  Bytes, ASCII character classes and the conversions between ASCII text
  and its bytes, as the slug scan of src/lib.rs uses them
  (`u8::is_ascii_alphanumeric`, `u8::to_ascii_lowercase`, `String::into_bytes`,
  `u8 as char`).
 */
module Ascii {

  /** Rust's `u8`. */
  newtype byte = x: int | 0 <= x < 256

  predicate IsDigit(b: byte) { 48 <= b <= 57 }      // '0' ..= '9'
  predicate IsUpper(b: byte) { 65 <= b <= 90 }      // 'A' ..= 'Z'
  predicate IsLower(b: byte) { 97 <= b <= 122 }     // 'a' ..= 'z'

  /** `u8::is_ascii_alphanumeric`: `[0-9A-Za-z]`, nothing else (in particular no byte >= 128). */
  predicate IsAlphanumeric(b: byte): (r: bool)
    ensures r ==> b < 128
  {
    IsDigit(b) || IsUpper(b) || IsLower(b)
  }

  /** `u8::to_ascii_lowercase`: upper-case ASCII letters move to lower case, every other byte is kept. */
  function ToLower(b: byte): (r: byte)
    ensures IsUpper(b) ==> IsLower(r) && r as int == b as int + 32
    ensures !IsUpper(b) ==> r == b
    ensures !IsUpper(r)
    ensures IsAlphanumeric(r) <==> IsAlphanumeric(b)
  {
    if IsUpper(b) then b + 32 else b
  }

  predicate IsAsciiChar(c: char) { c as int < 128 }

  /** An ASCII alphanumeric character, the characters the slug scan keeps. */
  predicate IsAlphanumericChar(c: char) {
    IsAsciiChar(c) && IsAlphanumeric(ToByte(c))
  }

  predicate NoAlphanumericChar(s: string) {
    forall i :: 0 <= i < |s| ==> !IsAlphanumericChar(s[i])
  }

  predicate IsAsciiString(s: string) {
    forall i :: 0 <= i < |s| ==> IsAsciiChar(s[i])
  }

  predicate IsAsciiBytes(bs: seq<byte>) {
    forall i :: 0 <= i < |bs| ==> bs[i] < 128
  }

  /** `b as char`: the character whose code point is the byte's value. */
  function ToChar(b: byte): (c: char)
    ensures c as int == b as int
  {
    (b as int) as char
  }

  /** The byte of an ASCII character. */
  function ToByte(c: char): (b: byte)
    requires IsAsciiChar(c)
    ensures b as int == c as int && b < 128
  {
    (c as int) as byte
  }

  /** `String::into_bytes` restricted to ASCII text, where each character is one byte. */
  function Bytes(s: string): (bs: seq<byte>)
    requires IsAsciiString(s)
    ensures |bs| == |s|
    ensures forall i :: 0 <= i < |s| ==> bs[i] as int == s[i] as int
    ensures IsAsciiBytes(bs)
  {
    seq(|s|, i requires 0 <= i < |s| => ToByte(s[i]))
  }

  /** `Bytes` distributes over concatenation. */
  lemma BytesAppend(a: string, b: string)
    requires IsAsciiString(a) && IsAsciiString(b)
    ensures IsAsciiString(a + b)
    ensures Bytes(a + b) == Bytes(a) + Bytes(b)
  {
    assert IsAsciiString(a + b) by {
      forall i | 0 <= i < |a + b| ensures IsAsciiChar((a + b)[i]) {
        if i >= |a| { assert (a + b)[i] == b[i - |a|]; }
      }
    }
    var l, r := Bytes(a + b), Bytes(a) + Bytes(b);
    forall i | 0 <= i < |l| ensures l[i] == r[i] {
      if i < |a| { assert (a + b)[i] == a[i]; } else { assert (a + b)[i] == b[i - |a|]; }
    }
  }
}
