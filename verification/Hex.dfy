/**
  Hexadecimal text as the `hex` crate writes and reads it (section 8 of RFC 4648):
  lower case out, either case in, an odd number of digits or any other character refused.
 */
module Hex {
  import opened Prelude

  function Digit(v: nat): (c: char)
    requires v < 16
  {
    if v < 10 then '0' + v as char else 'a' + (v - 10) as char
  }

  ghost predicate IsHexDigit(c: char)
  {
    '0' <= c <= '9' || 'a' <= c <= 'f' || 'A' <= c <= 'F'
  }

  function Value(c: char): (v: Option<nat>)
    ensures v.Some? <==> IsHexDigit(c)
    ensures v.Some? ==> v.value < 16
  {
    if '0' <= c <= '9' then Some((c - '0') as nat)
    else if 'a' <= c <= 'f' then Some((c - 'a') as nat + 10)
    else if 'A' <= c <= 'F' then Some((c - 'A') as nat + 10)
    else None
  }

  function Encode(bytes: seq<byte>): string
  {
    if bytes == [] then "" else [Digit(bytes[0] / 16), Digit(bytes[0] % 16)] + Encode(bytes[1..])
  }

  function Decode(s: string): Option<seq<byte>>
  {
    if s == "" then Some([])
    else if |s| == 1 then None
    else
      match (Value(s[0]), Value(s[1]), Decode(s[2..]))
      case (Some(hi), Some(lo), Some(rest)) => Some([(16 * hi + lo) as byte] + rest)
      case _ => None
  }

  function LowerChar(c: char): char
  {
    if 'A' <= c <= 'Z' then (c - 'A') + 'a' else c
  }

  function Lower(s: string): (r: string)
    ensures |r| == |s|
    ensures forall i :: 0 <= i < |s| ==> r[i] == LowerChar(s[i])
  {
    if s == "" then "" else [LowerChar(s[0])] + Lower(s[1..])
  }

  /** Decoding undoes encoding, for every byte string. */
  lemma {:induction false} DecodeEncode(bytes: seq<byte>)
    ensures Decode(Encode(bytes)) == Some(bytes)
  {
    if bytes != [] {
      DecodeEncode(bytes[1..]);
      assert Encode(bytes)[2..] == Encode(bytes[1..]);
      assert bytes == [bytes[0]] + bytes[1..];
    }
  }

  /** The digits, in order of their values. */
  lemma DigitsInOrder(v: nat)
    requires v < 16
    ensures Digit(v) == "0123456789abcdef"[v] && Value(Digit(v)) == Some(v)
  {
  }

  lemma DigitOfValue(c: char)
    requires Value(c).Some?
    ensures Digit(Value(c).value) == LowerChar(c)
  {
  }

  lemma LowerPair(s: string)
    requires |s| >= 2
    ensures Lower(s) == [LowerChar(s[0]), LowerChar(s[1])] + Lower(s[2..])
  {
  }

  lemma EncodePair(hi: nat, lo: nat, rest: seq<byte>)
    requires hi < 16 && lo < 16
    ensures Encode([(16 * hi + lo) as byte] + rest) == [Digit(hi), Digit(lo)] + Encode(rest)
  {
    var all := [(16 * hi + lo) as byte] + rest;
    assert all[0] / 16 == hi && all[0] % 16 == lo && all[1..] == rest;
  }

  /** Encoding what was decoded gives the text back in lower case. */
  lemma {:induction false} EncodeDecode(s: string)
    requires Decode(s).Some?
    ensures Encode(Decode(s).value) == Lower(s)
  {
    if s != "" {
      EncodeDecode(s[2..]);
      DigitOfValue(s[0]);
      DigitOfValue(s[1]);
      EncodePair(Value(s[0]).value, Value(s[1]).value, Decode(s[2..]).value);
      LowerPair(s);
    }
  }

  /** Exactly the texts of even length made of hexadecimal digits are accepted. */
  lemma {:induction false} Accepts(s: string)
    ensures Decode(s).Some? <==> |s| % 2 == 0 && forall i :: 0 <= i < |s| ==> IsHexDigit(s[i])
  {
    if |s| >= 2 {
      Accepts(s[2..]);
      assert forall i :: 2 <= i < |s| ==> s[i] == s[2..][i - 2];
    }
  }

  /** What is encoded is in lower case, two digits a byte. */
  lemma {:induction false} EncodeIsLower(bytes: seq<byte>)
    ensures |Encode(bytes)| == 2 * |bytes| && Lower(Encode(bytes)) == Encode(bytes)
  {
    if bytes != [] {
      EncodeIsLower(bytes[1..]);
      LowerPair(Encode(bytes));
      assert Encode(bytes)[2..] == Encode(bytes[1..]);
    }
  }

  /** Two spellings name the same bytes exactly when they agree up to letter case. */
  lemma SameBytes(s: string, t: string)
    requires Decode(s).Some? && Decode(t).Some?
    ensures Decode(s) == Decode(t) <==> Lower(s) == Lower(t)
  {
    EncodeDecode(s);
    EncodeDecode(t);
    DecodeEncode(Decode(s).value);
    DecodeEncode(Decode(t).value);
  }
}
