/**
 * The gateway's amount format: the request amount with every decimal point
 * removed, left-padded with '0' to twelve characters. Padding never shortens
 * a string, so an amount longer than twelve characters is passed through.
 */
module Amount {

  /** The width the amount is padded to. */
  const Width: nat := 12

  /** Every character of `s` except '.', in order. */
  function StripDots(s: string): (r: string)
    ensures '.' !in r
    ensures |r| <= |s|
  {
    if s == [] then []
    else (if s[0] == '.' then [] else [s[0]]) + StripDots(s[1..])
  }

  /** `n` copies of `c`. */
  function Repeat(c: char, n: nat): (r: string)
    ensures |r| == n
    ensures forall i :: 0 <= i < n ==> r[i] == c
  {
    seq(n, _ => c)
  }

  /**
   * Left padding to `width` with `pad`; a string already `width` long or
   * longer is returned unchanged.
   */
  function PadLeft(s: string, width: nat, pad: char): (r: string)
    ensures |r| == if |s| < width then width else |s|
    ensures r[|r| - |s|..] == s
    ensures forall i :: 0 <= i < |r| - |s| ==> r[i] == pad
  {
    if |s| >= width then s else Repeat(pad, width - |s|) + s
  }

  /** The amount as the gateway expects it. */
  function FormatAmount(amount: string): (r: string)
    ensures '.' !in r
    ensures |r| == if |StripDots(amount)| < Width then Width else |StripDots(amount)|
    ensures r == Repeat('0', |r| - |StripDots(amount)|) + StripDots(amount)
  {
    var digits := StripDots(amount);
    var r := PadLeft(digits, Width, '0');
    var zeros := Repeat('0', |r| - |digits|);
    assert r == zeros + digits by {
      if |digits| >= Width {
        assert zeros == [];
      }
    }
    assert '.' !in zeros;
    r
  }

  /** Removing dots distributes over concatenation: the order of what is kept is the input's order. */
  lemma {:induction false} StripDotsAppend(a: string, b: string)
    ensures StripDots(a + b) == StripDots(a) + StripDots(b)
  {
    if a == [] {
      assert a + b == b;
    } else {
      var kept := if a[0] == '.' then [] else [a[0]];
      assert (a + b)[0] == a[0] && (a + b)[1..] == a[1..] + b;
      StripDotsAppend(a[1..], b);
      assert StripDots(a + b) == kept + (StripDots(a[1..]) + StripDots(b));
      assert StripDots(a) == kept + StripDots(a[1..]);
    }
  }

  /** Removing dots keeps every other character, as many times as it occurs, and no dot. */
  lemma {:induction false} StripDotsCounts(s: string)
    ensures multiset(StripDots(s)) == multiset(s)['.' := 0]
  {
    if s != [] {
      StripDotsCounts(s[1..]);
      assert s == [s[0]] + s[1..];
    }
  }

  /** A string without dots is left alone; in particular removing dots is idempotent. */
  lemma {:induction false} StripDotsNoDots(s: string)
    requires '.' !in s
    ensures StripDots(s) == s
  {
    if s != [] {
      assert '.' !in s[1..] by {
        forall i | 0 <= i < |s[1..]| ensures s[1..][i] != '.' {
          assert s[1..][i] == s[i + 1];
        }
      }
      StripDotsNoDots(s[1..]);
    }
  }

  /** Short amounts: exactly twelve characters, zeros followed by the digits. */
  lemma FormatAmountShort(amount: string)
    requires |StripDots(amount)| <= Width
    ensures |FormatAmount(amount)| == Width
    ensures FormatAmount(amount) == Repeat('0', Width - |StripDots(amount)|) + StripDots(amount)
  {
  }

  /** Long amounts: neither padded nor truncated. */
  lemma FormatAmountLong(amount: string)
    requires |StripDots(amount)| >= Width
    ensures FormatAmount(amount) == StripDots(amount)
  {
  }

  /** Formatting an already formatted amount changes nothing. */
  lemma FormatAmountIdempotent(amount: string)
    ensures FormatAmount(FormatAmount(amount)) == FormatAmount(amount)
  {
    var r := FormatAmount(amount);
    StripDotsNoDots(r);
    assert Repeat('0', 0) == [];
  }

  predicate IsDigit(c: char) {
    '0' <= c <= '9'
  }

  /** An amount made of digits and dots formats to digits only. */
  lemma FormatAmountDigits(amount: string)
    requires forall i :: 0 <= i < |amount| ==> IsDigit(amount[i]) || amount[i] == '.'
    ensures forall i :: 0 <= i < |FormatAmount(amount)| ==> IsDigit(FormatAmount(amount)[i])
  {
    var digits := StripDots(amount);
    StripDotsCounts(amount);
    forall i | 0 <= i < |digits| ensures IsDigit(digits[i]) {
      var c := digits[i];
      assert c in multiset(digits);
      assert c in multiset(amount);
      assert c in amount;
    }
  }

  /** Worked amount: "12.34" keeps its four digits behind eight zeros. */
  lemma FormatAmountCents()
    ensures FormatAmount("12.34") == "000000001234"
  {
    assert StripDots("12.34") == "1234";
  }

  /** Worked amount: "10.00" becomes one thousand cents. */
  lemma FormatAmountWhole()
    ensures FormatAmount("10.00") == "000000001000"
  {
    assert StripDots("10.00") == "1000";
  }

  /**
   * Worked amounts: "0" is all zeros, and "0.5" is not rescaled, so it reads
   * as five cents rather than fifty.
   */
  lemma FormatAmountUnscaled()
    ensures FormatAmount("0") == "000000000000"
    ensures FormatAmount("0.5") == "000000000005"
  {
    assert StripDots("0.5") == "05";
  }

  /** One more copy at the end is one more copy. */
  lemma RepeatSnoc(c: char, n: nat)
    ensures Repeat(c, n) + [c] == Repeat(c, n + 1)
  {
  }

  /** Padding a string that starts with the pad character, while it is short, is padding its rest. */
  lemma PadLeftAbsorbs(d: string, width: nat, pad: char)
    requires |d| < width
    ensures PadLeft([pad] + d, width, pad) == PadLeft(d, width, pad)
  {
    var n := width - |d| - 1;
    RepeatSnoc(pad, n);
    if n == 0 {
      assert Repeat(pad, 0) == [];
    } else {
      assert Repeat(pad, n) + ([pad] + d) == (Repeat(pad, n) + [pad]) + d;
    }
  }

  /** A leading zero is absorbed by the padding while the digits are shorter than the width. */
  lemma FormatAmountLeadingZero(amount: string)
    requires |StripDots(amount)| < Width
    ensures FormatAmount(['0'] + amount) == FormatAmount(amount)
  {
    var z := ['0'] + amount;
    assert z[1..] == amount;
    assert StripDots(z) == ['0'] + StripDots(amount);
    PadLeftAbsorbs(StripDots(amount), Width, '0');
  }

  /** Dot removal on the worked spellings of ten units. */
  lemma StripDotsSpellings()
    ensures StripDots("10.00") == "1000" && StripDots("1000") == "1000"
  {
    assert StripDots("10.00") == "1000";
  }

  /** Worked amounts: "10.00", "1000" and "01000" all format alike. */
  lemma FormatAmountSpellings()
    ensures FormatAmount("10.00") == FormatAmount("1000") == FormatAmount("01000")
  {
    StripDotsSpellings();
    assert "01000" == ['0'] + "1000";
    FormatAmountLeadingZero("1000");
  }
}
