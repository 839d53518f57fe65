/** `formatTime`: a floored millisecond count rendered as `M:SS.CC` when at
    least a minute has passed and as `S.CC` otherwise; a missing value
    (`null`, `undefined`, `NaN`) renders as `--`. */
module TimeFormat {
  import opened Wrappers

  const Placeholder: string := "--"

  predicate IsDigit(c: char)
  {
    '0' <= c <= '9'
  }

  predicate AllDigits(s: string)
  {
    forall i :: 0 <= i < |s| ==> IsDigit(s[i])
  }

  function DigitChar(d: nat): (c: char)
    requires d < 10
    ensures IsDigit(c)
  {
    "0123456789"[d]
  }

  function DigitValue(c: char): nat
    requires IsDigit(c)
  {
    (c as int - '0' as int) as nat
  }

  /** Decimal notation of a natural number, as JavaScript's `toString()`
      writes an integer. */
  function NatToString(n: nat): (s: string)
    ensures |s| > 0
    ensures AllDigits(s)
    ensures n < 10 <==> |s| == 1
    ensures 10 <= n < 100 ==> |s| == 2
  {
    if n < 10 then [DigitChar(n)] else NatToString(n / 10) + [DigitChar(n % 10)]
  }

  /** The value of a string of decimal digits. */
  function ParseNat(s: string): nat
    requires AllDigits(s)
  {
    if |s| == 0 then 0 else ParseNat(s[..|s| - 1]) * 10 + DigitValue(s[|s| - 1])
  }

  lemma {:induction false} ParseNatToString(n: nat)
    ensures ParseNat(NatToString(n)) == n
  {
    var s := NatToString(n);
    if n >= 10 {
      assert s[..|s| - 1] == NatToString(n / 10);
      ParseNatToString(n / 10);
    }
  }

  /** `toString().padStart(2, "0")` of a number below 100. */
  function Pad2(n: nat): (s: string)
    requires n < 100
    ensures |s| == 2
    ensures AllDigits(s)
  {
    var digits := NatToString(n);
    if |digits| < 2 then "0" + digits else digits
  }

  lemma ParsePad2(n: nat)
    requires n < 100
    ensures ParseNat(Pad2(n)) == n
  {
    ParseNatToString(n);
    var s := Pad2(n);
    if n < 10 {
      assert s[..1] == "0";
      assert ParseNat(s[..1]) == 0;
    }
  }

  function Minutes(total: nat): nat { total / 60000 }
  function Seconds(total: nat): nat { (total % 60000) / 1000 }
  function Centiseconds(total: nat): nat { (total % 1000) / 10 }

  /** The rendering of an optional, already floored, millisecond count. */
  function FormatTime(ms: Option<nat>): (r: string)
    ensures ms.None? <==> r == Placeholder
    ensures ms.Some? ==> |r| >= 4 && r[|r| - 3] == '.'
    ensures ms.Some? ==> (':' in r <==> ms.value >= 60000)
  {
    match ms
    case None => Placeholder
    case Some(total) =>
      var minutes := Minutes(total);
      var seconds := Seconds(total);
      var centis := Centiseconds(total);
      if minutes > 0 then
        var m := NatToString(minutes);
        var r := m + ":" + Pad2(seconds) + "." + Pad2(centis);
        assert forall i :: 0 <= i < |m| ==> r[i] == m[i] && r[i] != ':';
        assert r[|m|] == ':';
        r
      else
        var sec := NatToString(seconds);
        var r := sec + "." + Pad2(centis);
        assert forall i :: 0 <= i < |r| ==> r[i] != ':' by {
          assert forall i :: 0 <= i < |sec| ==> r[i] == sec[i];
          assert forall i :: |sec| < i < |r| ==> r[i] == Pad2(centis)[i - |sec| - 1];
        }
        r
  }

  /** `M:SS.CC`: digits, a colon, two digits, a point and two digits. */
  predicate IsLongForm(s: string)
  {
    |s| >= 6 && s[|s| - 6] == ':' && s[|s| - 3] == '.'
    && AllDigits(s[..|s| - 6]) && AllDigits(s[|s| - 5..|s| - 3]) && AllDigits(s[|s| - 2..])
  }

  function LongValue(s: string): nat
    requires IsLongForm(s)
  {
    ParseNat(s[..|s| - 6]) * 60000 + ParseNat(s[|s| - 5..|s| - 3]) * 1000 + ParseNat(s[|s| - 2..]) * 10
  }

  /** `S.CC`: digits, a point and two digits. */
  predicate IsShortForm(s: string)
  {
    |s| >= 4 && s[|s| - 3] == '.' && AllDigits(s[..|s| - 3]) && AllDigits(s[|s| - 2..])
  }

  function ShortValue(s: string): nat
    requires IsShortForm(s)
  {
    ParseNat(s[..|s| - 3]) * 1000 + ParseNat(s[|s| - 2..]) * 10
  }

  /** Reads a rendered time back, to centisecond precision: the partner of
      FormatTime used to state what the rendering means. */
  function ReadTime(s: string): Option<nat>
  {
    if s == Placeholder then None
    else if IsLongForm(s) then Some(LongValue(s))
    else if IsShortForm(s) then Some(ShortValue(s))
    else None
  }

  /** Quotient and remainder by a constant divisor are the unique ones. */
  lemma DivMod1000(x: nat, q: nat, m: nat)
    requires x == q * 1000 + m && m < 1000
    ensures x / 1000 == q && x % 1000 == m
  {
  }

  lemma DivMod10(x: nat, q: nat, m: nat)
    requires x == q * 10 + m && m < 10
    ensures x / 10 == q && x % 10 == m
  {
  }

  lemma Decompose(total: nat)
    ensures Minutes(total) * 60000 + Seconds(total) * 1000 + Centiseconds(total) * 10
            == total - total % 10
    ensures Seconds(total) < 60 && Centiseconds(total) < 100
  {
    var m := total / 60000;
    var r := total % 60000;
    var sec := r / 1000;
    var r2 := r % 1000;
    var c := r2 / 10;
    var r3 := r2 % 10;
    assert total == m * 60000 + r && r < 60000;
    assert r == sec * 1000 + r2 && r2 < 1000;
    assert r2 == c * 10 + r3 && r3 < 10;
    DivMod1000(total, m * 60 + sec, r2);
    DivMod10(total, (m * 60 + sec) * 100 + c, r3);
    assert Minutes(total) == m && Seconds(total) == sec && Centiseconds(total) == c;
  }

  /** The parts of a sequence joined from two. */
  lemma SplitAppend(a: string, b: string)
    ensures (a + b)[..|a|] == a && (a + b)[|a|..] == b
  {
  }

  /** Digit strings joined with a colon and a point have the long form, and
      its value is read part by part. */
  lemma LongParts(m: string, ss: string, cs: string)
    requires |m| > 0 && |ss| == 2 && |cs| == 2
    requires AllDigits(m) && AllDigits(ss) && AllDigits(cs)
    ensures IsLongForm(m + ":" + ss + "." + cs)
    ensures LongValue(m + ":" + ss + "." + cs)
            == ParseNat(m) * 60000 + ParseNat(ss) * 1000 + ParseNat(cs) * 10
  {
    var p1 := m + ":";
    var p2 := p1 + ss;
    var p3 := p2 + ".";
    var r := p3 + cs;
    SplitAppend(p3, cs);
    SplitAppend(p2, ".");
    SplitAppend(p1, ss);
    SplitAppend(m, ":");
    assert r[..|p2|] == p2 by {
      assert r[..|p2|] == r[..|p3|][..|p2|];
    }
    assert r[..|m|] == m by {
      assert r[..|m|] == r[..|p2|][..|p1|][..|m|];
    }
    assert r[|p1|..|p2|] == ss by {
      assert r[|p1|..|p2|] == r[..|p2|][|p1|..];
    }
    assert r[|m|] == p1[|m|] == ':' by {
      assert r[|m|] == r[..|p2|][..|p1|][|m|];
    }
    assert r[|p2|] == p3[|p2|] == '.' by {
      assert r[|p2|] == r[..|p3|][|p2|];
    }
    assert |r| - 6 == |m| && |r| - 5 == |p1| && |r| - 3 == |p2| && |r| - 2 == |p3|;
  }

  /** The short form read part by part. */
  lemma ShortParts(sec: string, cs: string)
    requires 0 < |sec| && |cs| == 2
    requires AllDigits(sec) && AllDigits(cs)
    ensures IsShortForm(sec + "." + cs)
    ensures ShortValue(sec + "." + cs) == ParseNat(sec) * 1000 + ParseNat(cs) * 10
  {
    var p1 := sec + ".";
    var r := p1 + cs;
    SplitAppend(p1, cs);
    SplitAppend(sec, ".");
    assert r[..|sec|] == sec by {
      assert r[..|sec|] == r[..|p1|][..|sec|];
    }
    assert r[|sec|] == p1[|sec|] == '.' by {
      assert r[|sec|] == r[..|p1|][|sec|];
    }
    assert |r| - 3 == |sec| && |r| - 2 == |p1|;
  }

  /** Digit strings joined with a colon and a point read back part by part. */
  lemma ReadLong(m: string, ss: string, cs: string)
    requires |m| > 0 && |ss| == 2 && |cs| == 2
    requires AllDigits(m) && AllDigits(ss) && AllDigits(cs)
    ensures ReadTime(m + ":" + ss + "." + cs).Some?
    ensures ReadTime(m + ":" + ss + "." + cs).value
            == ParseNat(m) * 60000 + ParseNat(ss) * 1000 + ParseNat(cs) * 10
  {
    LongParts(m, ss, cs);
    var r := m + ":" + ss + "." + cs;
    assert |r| != |Placeholder|;
  }

  /** Without a colon six places from the end, a rendering reads as the
      short form. */
  lemma ReadShort(sec: string, cs: string)
    requires 0 < |sec| <= 2 && |cs| == 2
    requires AllDigits(sec) && AllDigits(cs)
    ensures ReadTime(sec + "." + cs).Some?
    ensures ReadTime(sec + "." + cs).value == ParseNat(sec) * 1000 + ParseNat(cs) * 10
  {
    ShortParts(sec, cs);
    var r := sec + "." + cs;
    assert |r| != |Placeholder| && |r| < 6;
    assert !IsLongForm(r);
  }

  /** The two shapes of a rendered time. */
  lemma FormatShape(t: nat)
    ensures Minutes(t) > 0 ==>
              FormatTime(Some(t)) == NatToString(Minutes(t)) + ":" + Pad2(Seconds(t)) + "." + Pad2(Centiseconds(t))
    ensures Minutes(t) == 0 ==>
              FormatTime(Some(t)) == NatToString(Seconds(t)) + "." + Pad2(Centiseconds(t))
  {
    Decompose(t);
  }

  /** A time of at least a minute reads back truncated to whole centiseconds. */
  lemma RoundTripLong(t: nat)
    requires Minutes(t) > 0
    ensures ReadTime(FormatTime(Some(t))).Some?
    ensures ReadTime(FormatTime(Some(t))).value == t - t % 10
  {
    var m := NatToString(Minutes(t));
    var ss := Pad2(Seconds(t));
    var cs := Pad2(Centiseconds(t));
    Decompose(t);
    FormatShape(t);
    assert FormatTime(Some(t)) == m + ":" + ss + "." + cs;
    ParseNatToString(Minutes(t));
    ParsePad2(Seconds(t));
    ParsePad2(Centiseconds(t));
    ReadLong(m, ss, cs);
  }

  /** A time under a minute reads back truncated to whole centiseconds. */
  lemma RoundTripShort(t: nat)
    requires Minutes(t) == 0
    ensures ReadTime(FormatTime(Some(t))).Some?
    ensures ReadTime(FormatTime(Some(t))).value == t - t % 10
  {
    var sec := NatToString(Seconds(t));
    var cs := Pad2(Centiseconds(t));
    Decompose(t);
    FormatShape(t);
    assert FormatTime(Some(t)) == sec + "." + cs;
    ParseNatToString(Seconds(t));
    ParsePad2(Centiseconds(t));
    ReadShort(sec, cs);
  }

  /** The placeholder reads back as no value. */
  lemma RoundTripNone()
    ensures ReadTime(FormatTime(None)) == None
  {
    assert FormatTime(None) == Placeholder;
  }

  /** Rendering and reading back recovers the time truncated to whole
      centiseconds: minutes, seconds and centiseconds are all rendered
      exactly. */
  lemma FormatRoundTrip(t: nat)
    ensures ReadTime(FormatTime(Some(t))) == Some(t - t % 10)
  {
    if Minutes(t) > 0 {
      RoundTripLong(t);
    } else {
      RoundTripShort(t);
    }
  }
}
