/** Percent decoding of paths, on bytes. */
module PercentDecode {
  import opened Basics
  import opened Bytes
  import opened Options

  const PERCENT: byte := '%' as int
  const PLUS: byte := '+' as int

  /** The value of a hexadecimal digit of either case. */
  function HexValue(b: byte): Option<byte> {
    if '0' as int <= b <= '9' as int then Some(b - '0' as int)
    else if 'A' as int <= b <= 'F' as int then Some(b - 'A' as int + 10)
    else if 'a' as int <= b <= 'f' as int then Some(b - 'a' as int + 10)
    else None
  }

  predicate IsHex(b: byte) {
    HexValue(b).Some?
  }

  function Pair(high: byte, low: byte): byte
    requires IsHex(high) && IsHex(low)
  {
    16 * HexValue(high).value + HexValue(low).value
  }

  /** u8::from_str_radix of two bytes: it also takes a plus sign and one digit. */
  function FromStrRadix(first: byte, second: byte): Option<byte> {
    if !IsHex(second) then None
    else if IsHex(first) then Some(Pair(first, second))
    else if first == PLUS then HexValue(second)
    else None
  }

  // ---------- What escapes mean ----------

  /** An escape as section 2.1 of RFC 3986 has it. */
  predicate StartsWithEscape(s: seq<byte>) {
    |s| >= 3 && s[0] == PERCENT && IsHex(s[1]) && IsHex(s[2])
  }

  predicate StartsWithPlusEscape(s: seq<byte>) {
    |s| >= 3 && s[0] == PERCENT && s[1] == PLUS && IsHex(s[2])
  }

  /** Every escape replaced by the byte it stands for, anything else kept. */
  function Unescape(s: seq<byte>): seq<byte> {
    if s == [] then []
    else if StartsWithEscape(s) then [Pair(s[1], s[2])] + Unescape(s[3..])
    else [s[0]] + Unescape(s[1..])
  }

  /** `e` is `d` with some of its bytes escaped, every '%' among them. */
  predicate Encodes(e: seq<byte>, d: seq<byte>) {
    if d == [] then e == []
    else
      || (e != [] && e[0] == d[0] != PERCENT && Encodes(e[1..], d[1..]))
      || (StartsWithEscape(e) && Pair(e[1], e[2]) == d[0] && Encodes(e[3..], d[1..]))
  }

  // ---------- What the decoder does ----------

  function Decode(s: seq<byte>): seq<byte> {
    if s == [] then []
    else if StartsWithEscape(s) then [Pair(s[1], s[2])] + Decode(s[3..])
    else if StartsWithPlusEscape(s) then [HexValue(s[2]).value] + Decode(s[3..])
    else [s[0]] + Decode(s[1..])
  }

  method PercentDecodePath(bytes: seq<byte>) returns (result: seq<byte>)
    ensures result == Decode(bytes)
  {
    result := [];
    var i := 0;
    while i < |bytes|
      invariant 0 <= i <= |bytes|
      invariant result + Decode(bytes[i..]) == Decode(bytes)
    {
      ghost var rest := bytes[i..];
      assert bytes[i + 1..] == rest[1..];
      if bytes[i] == PERCENT && i + 2 < |bytes| {
        assert bytes[i + 3..] == rest[3..];
        var parsed := FromStrRadix(bytes[i + 1], bytes[i + 2]);
        if parsed.Some? {
          Regroup(result, [parsed.value], Decode(rest[3..]));
          result := result + [parsed.value];
          i := i + 3;
          continue;
        }
      }
      Regroup(result, [bytes[i]], Decode(rest[1..]));
      result := result + [bytes[i]];
      i := i + 1;
    }
  }

  // ---------- Decoding undoes encoding ----------

  /** Every '%' starts an escape. */
  predicate WellEscaped(s: seq<byte>) {
    forall i | 0 <= i < |s| :: s[i] == PERCENT ==> i + 2 < |s| && IsHex(s[i + 1]) && IsHex(s[i + 2])
  }

  lemma WellEscapedTail(s: seq<byte>, n: nat)
    requires 0 < n <= |s|
    requires forall i | 1 <= i < n :: s[i] != PERCENT
    ensures WellEscaped(s) <==> WellEscaped(s[n..]) && (s[0] == PERCENT ==> StartsWithEscape(s))
  {
    var t := s[n..];
    if WellEscaped(t) && (s[0] == PERCENT ==> StartsWithEscape(s)) {
      forall i | 0 <= i < |s| && s[i] == PERCENT
        ensures i + 2 < |s| && IsHex(s[i + 1]) && IsHex(s[i + 2])
      {
        if i >= n {
          assert t[i - n] == s[i];
        }
      }
    }
    if WellEscaped(s) {
      forall i | 0 <= i < |t| && t[i] == PERCENT
        ensures i + 2 < |t| && IsHex(t[i + 1]) && IsHex(t[i + 2])
      {
        assert s[n + i] == t[i];
      }
    }
  }

  /** Decoding inverts every encoder that escapes at least '%', whatever else it escapes; and the strings that
      such encoders make are the ones in which every '%' starts an escape. */
  lemma {:induction false} EncodesIff(e: seq<byte>, d: seq<byte>)
    ensures Encodes(e, d) <==> WellEscaped(e) && Decode(e) == d
  {
    if e == [] {
    } else if StartsWithEscape(e) {
      WellEscapedTail(e, 3);
      if d != [] {
        EncodesIff(e[3..], d[1..]);
        ConsEqual(Pair(e[1], e[2]), Decode(e[3..]), d);
      }
    } else {
      WellEscapedTail(e, 1);
      if d != [] {
        EncodesIff(e[1..], d[1..]);
        if e[0] != PERCENT {
          ConsEqual(e[0], Decode(e[1..]), d);
        }
      }
    }
  }

  lemma ConsEqual(b: byte, rest: seq<byte>, d: seq<byte>)
    requires d != []
    ensures [b] + rest == d <==> b == d[0] && rest == d[1..]
  {
    if [b] + rest == d {
      assert ([b] + rest)[1..] == rest;
    }
  }

  /** The digit for `v`, as an encoder writes it. */
  function Digit(v: nat, upper: bool): byte
    requires v < 16
  {
    if v < 10 then '0' as int + v else (if upper then 'A' as int else 'a' as int) + v - 10
  }

  /** The digits 0 to 9, A to F and a to f have these values, and nothing else is a digit. */
  lemma DigitsMeaning(b: byte, v: byte)
    ensures HexValue(b) == Some(v) <==> v < 16 && (b == Digit(v, true) || b == Digit(v, false))
  {
  }

  /** An encoder: bytes for which `keep` does not hold, and '%', become escapes of either case. */
  function Encode(d: seq<byte>, keep: byte -> bool, upper: byte -> bool): seq<byte> {
    if d == [] then []
    else
      (if keep(d[0]) && d[0] != PERCENT then [d[0]]
       else [PERCENT, Digit(d[0] / 16, upper(d[0])), Digit(d[0] % 16, upper(d[0]))])
      + Encode(d[1..], keep, upper)
  }

  /** Decoding undoes it, whatever it escapes. */
  lemma {:induction false} DecodeInvertsEncode(d: seq<byte>, keep: byte -> bool, upper: byte -> bool)
    ensures Decode(Encode(d, keep, upper)) == d
  {
    if d != [] {
      var b, rest := d[0], Encode(d[1..], keep, upper);
      DecodeInvertsEncode(d[1..], keep, upper);
      if keep(b) && b != PERCENT {
        assert ([b] + rest)[1..] == rest;
      } else {
        var e := [PERCENT, Digit(b / 16, upper(b)), Digit(b % 16, upper(b))] + rest;
        DigitsMeaning(e[1], b / 16);
        DigitsMeaning(e[2], b % 16);
        assert e[3..] == rest;
      }
    }
  }

  // ---------- Where it differs from the standard ----------

  /** A plus sign and a digit are taken for the digit. */
  lemma PlusIsDecoded(v: nat, upper: bool, rest: seq<byte>)
    requires v < 16
    ensures Decode([PERCENT, PLUS, Digit(v, upper)] + rest) == [v] + Decode(rest)
  {
    var s := [PERCENT, PLUS, Digit(v, upper)] + rest;
    DigitsMeaning(s[2], v);
    assert s[3..] == rest;
  }

  /** How many times a '%' is followed by '+' and a hexadecimal digit. */
  function PlusEscapes(s: seq<byte>): nat {
    if s == [] then 0 else (if StartsWithPlusEscape(s) then 1 else 0) + PlusEscapes(s[1..])
  }

  predicate PlusEscapeAt(s: seq<byte>, i: nat) {
    i + 2 < |s| && s[i] == PERCENT && s[i + 1] == PLUS && IsHex(s[i + 2])
  }

  lemma PlusEscapesSkip(s: seq<byte>)
    requires StartsWithEscape(s) || StartsWithPlusEscape(s)
    ensures PlusEscapes(s[1..]) == PlusEscapes(s[3..])
  {
    assert s[1..][1..] == s[2..] && s[2..][1..] == s[3..];
    assert s[1..][0] == s[1] && s[2..][0] == s[2];
  }

  lemma UnescapeKeepsPlus(s: seq<byte>)
    requires StartsWithPlusEscape(s)
    ensures Unescape(s) == s[..3] + Unescape(s[3..])
  {
    assert s[1..][1..] == s[2..] && s[2..][1..] == s[3..];
    assert s[1..][0] == s[1] && s[2..][0] == s[2];
    assert Unescape(s[1..]) == [s[1]] + ([s[2]] + Unescape(s[3..]));
  }

  /** Each of them makes the result two bytes shorter than it should be. */
  lemma {:induction false} DecodeLength(s: seq<byte>)
    ensures |Unescape(s)| == |Decode(s)| + 2 * PlusEscapes(s)
  {
    if s == [] {
    } else if StartsWithEscape(s) {
      PlusEscapesSkip(s);
      DecodeLength(s[3..]);
    } else if StartsWithPlusEscape(s) {
      PlusEscapesSkip(s);
      UnescapeKeepsPlus(s);
      DecodeLength(s[3..]);
    } else {
      DecodeLength(s[1..]);
    }
  }

  lemma {:induction false} DecodeWithoutPlus(s: seq<byte>)
    requires PlusEscapes(s) == 0
    ensures Decode(s) == Unescape(s)
  {
    if s == [] {
    } else if StartsWithEscape(s) {
      PlusEscapesSkip(s);
      DecodeWithoutPlus(s[3..]);
    } else {
      DecodeWithoutPlus(s[1..]);
    }
  }

  lemma {:induction false} PlusEscapesIff(s: seq<byte>)
    ensures PlusEscapes(s) > 0
       <==> exists i | 0 <= i < |s| :: PlusEscapeAt(s, i)
  {
    if s != [] {
      var t := s[1..];
      PlusEscapesIff(t);
      if PlusEscapes(t) > 0 {
        var i :| 0 <= i < |t| && PlusEscapeAt(t, i);
        assert PlusEscapeAt(s, i + 1);
      }
      if i :| 0 < i < |s| && PlusEscapeAt(s, i) {
        assert PlusEscapeAt(t, i - 1);
      }
      assert PlusEscapeAt(s, 0) <==> StartsWithPlusEscape(s);
    }
  }

  /** The decoder does what RFC 3986 asks for exactly on the strings without "%+h", h a hexadecimal digit. */
  lemma DecodeIsUnescapeIff(s: seq<byte>)
    ensures Decode(s) == Unescape(s)
       <==> !exists i | 0 <= i < |s| :: PlusEscapeAt(s, i)
  {
    PlusEscapesIff(s);
    DecodeLength(s);
    if PlusEscapes(s) == 0 {
      DecodeWithoutPlus(s);
    }
  }
}
