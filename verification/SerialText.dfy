/** The text of a certificate serial, `{serial:016x}`: lower-case hexadecimal, zero-padded to 16. */
module SerialText {
  import opened Prelude
  import Hex

  const WIDTH := 16

  /** `{n:x}`: the shortest hexadecimal numeral of `n`. */
  function Numeral(n: nat): (s: string)
    ensures |s| >= 1
  {
    if n < 16 then [Hex.Digit(n)] else Numeral(n / 16) + [Hex.Digit(n % 16)]
  }

  function Pad(s: string, width: nat): string
    decreases width - |s|
  {
    if |s| >= width then s else Pad("0" + s, width)
  }

  function Text(n: nat): string
  {
    Pad(Numeral(n), WIDTH)
  }

  function Rank(c: char): (r: nat)
    ensures r < 16
  {
    var v := Hex.Value(c);
    if v.Some? then v.value else 0
  }

  /** The number a text of hexadecimal digits stands for; other characters count as zero. */
  function Number(s: string): nat
  {
    if s == "" then 0
    else 16 * Number(s[..|s| - 1]) + Rank(s[|s| - 1])
  }

  ghost predicate LowerDigit(c: char)
  {
    '0' <= c <= '9' || 'a' <= c <= 'f'
  }

  ghost predicate LowerDigits(s: string)
  {
    forall i :: 0 <= i < |s| ==> LowerDigit(s[i])
  }

  /** `a` comes strictly before `b` in the dictionary order of texts of one length. */
  ghost predicate Before(a: string, b: string)
    requires |a| == |b|
  {
    exists i :: 0 <= i < |a| && a[..i] == b[..i] && a[i] < b[i]
  }

  function Power16(k: nat): nat
  {
    if k == 0 then 1 else 16 * Power16(k - 1)
  }

  lemma {:induction false} NumeralMeaning(n: nat, w: nat)
    requires n < Power16(w) && w >= 1
    ensures Number(Numeral(n)) == n && LowerDigits(Numeral(n)) && |Numeral(n)| <= w
  {
    if n < 16 {
      assert Numeral(n)[..0] == "";
    } else {
      assert Power16(1) == 16 * Power16(0);
      NumeralMeaning(n / 16, w - 1);
      assert Numeral(n)[..|Numeral(n)| - 1] == Numeral(n / 16);
    }
  }

  lemma {:induction false} LeadingZero(s: string)
    ensures Number("0" + s) == Number(s)
  {
    var z := "0" + s;
    if s == "" {
      assert z[..0] == "";
    } else {
      LeadingZero(s[..|s| - 1]);
      assert z[..|z| - 1] == "0" + s[..|s| - 1];
    }
  }

  lemma {:induction false} PadMeaning(s: string, width: nat)
    requires LowerDigits(s) && |s| <= width
    ensures Number(Pad(s, width)) == Number(s) && LowerDigits(Pad(s, width)) && |Pad(s, width)| == width
    decreases width - |s|
  {
    if |s| < width {
      LeadingZero(s);
      PadMeaning("0" + s, width);
    }
  }

  lemma RangeIsPower()
    ensures Power16(WIDTH) == U64_RANGE
  {
    assert Power16(4) == 0x1_0000;
    assert Power16(8) == 0x1_0000_0000;
    assert Power16(12) == 0x1_0000_0000_0000;
  }

  /** Every 64-bit serial is written in exactly 16 characters and can be read back. */
  lemma TextMeaning(n: u64)
    ensures |Text(n)| == 16 && LowerDigits(Text(n)) && Number(Text(n)) == n
  {
    RangeIsPower();
    NumeralMeaning(n, WIDTH);
    PadMeaning(Numeral(n), WIDTH);
  }

  lemma Injective(m: u64, n: u64)
    ensures Text(m) == Text(n) <==> m == n
  {
    TextMeaning(m);
    TextMeaning(n);
  }

  /** The characters of the digits are ordered as the digits are. */
  lemma RankOrder(c: char, d: char)
    requires LowerDigit(c) && LowerDigit(d)
    ensures c < d <==> Rank(c) < Rank(d)
    ensures c == d <==> Rank(c) == Rank(d)
  {
  }

  lemma LastDigit(s: string)
    requires s != ""
    ensures Number(s) == 16 * Number(s[..|s| - 1]) + Rank(s[|s| - 1])
  {
  }

  lemma EqualByParts(a: string, b: string)
    requires |a| == |b| > 0
    requires var k := |a| - 1; a[..k] == b[..k] && a[k] == b[k]
    ensures a == b
  {
    var k := |a| - 1;
    assert a == a[..k] + [a[k]] && b == b[..k] + [b[k]];
  }

  lemma {:induction false} SameNumber(a: string, b: string)
    requires |a| == |b| && LowerDigits(a) && LowerDigits(b) && Number(a) == Number(b)
    ensures a == b
  {
    if a != "" {
      var k := |a| - 1;
      LastDigit(a);
      LastDigit(b);
      RankOrder(a[k], b[k]);
      SameNumber(a[..k], b[..k]);
      EqualByParts(a, b);
    }
  }

  /** Adding a last digit to two texts: the earlier digits decide first. */
  lemma BeforeStep(a: string, b: string)
    requires |a| == |b| > 0
    ensures var k := |a| - 1;
            Before(a, b) <==> Before(a[..k], b[..k]) || (a[..k] == b[..k] && a[k] < b[k])
  {
    var k := |a| - 1;
    if Before(a, b) {
      var i :| 0 <= i < |a| && a[..i] == b[..i] && a[i] < b[i];
      if i < k {
        assert a[..k][..i] == a[..i] && b[..k][..i] == b[..i];
      }
    }
    if Before(a[..k], b[..k]) {
      var i :| 0 <= i < k && a[..k][..i] == b[..k][..i] && a[..k][i] < b[..k][i];
      assert a[..i] == a[..k][..i] && b[..i] == b[..k][..i];
    }
  }

  lemma {:induction false} BeforeIsLess(a: string, b: string)
    requires |a| == |b| && LowerDigits(a) && LowerDigits(b)
    ensures Before(a, b) <==> Number(a) < Number(b)
  {
    if a != "" {
      var k := |a| - 1;
      BeforeStep(a, b);
      LastDigit(a);
      LastDigit(b);
      RankOrder(a[k], b[k]);
      BeforeIsLess(a[..k], b[..k]);
      if Number(a[..k]) == Number(b[..k]) {
        SameNumber(a[..k], b[..k]);
      }
    }
  }

  /** Dictionary order of the texts is numeric order of the serials. */
  lemma OrderPreserving(m: u64, n: u64)
    ensures |Text(m)| == |Text(n)|
    ensures Before(Text(m), Text(n)) <==> m < n
  {
    TextMeaning(m);
    TextMeaning(n);
    BeforeIsLess(Text(m), Text(n));
  }
}
