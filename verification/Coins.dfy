/** Printing an amount in Go and parsing it back in the web client. */
module Coins {
  import opened Wrappers

  const PRECISION := 6
  const BASE_UNITS_PER_COIN := 1_000_000
  const SUFFIX := " DYL"

  // ----- decimal -----

  function Digit(d: nat): char
    requires d < 10
  {
    ('0' as int + d) as char
  }

  predicate IsDigit(c: char) {
    '0' <= c <= '9'
  }

  predicate AllDigits(s: string) {
    forall i | 0 <= i < |s| :: IsDigit(s[i])
  }

  function Decimal(n: nat): (s: string)
    ensures s != "" && AllDigits(s)
  {
    if n < 10 then [Digit(n)] else Decimal(n / 10) + [Digit(n % 10)]
  }

  function Number(s: string): nat
    requires AllDigits(s)
  {
    if s == "" then 0 else 10 * Number(s[..|s| - 1]) + (s[|s| - 1] as int - '0' as int)
  }

  function Zeros(k: nat): (s: string)
    ensures |s| == k && AllDigits(s) && forall i | 0 <= i < k :: s[i] == '0'
  {
    seq(k, _ => '0')
  }

  function PadStart(s: string, width: nat): string {
    if |s| < width then Zeros(width - |s|) + s else s
  }

  function PadEnd(s: string, width: nat): string {
    if |s| < width then s + Zeros(width - |s|) else s
  }

  /** Without its trailing zeros. */
  function TrimZeros(s: string): string {
    if s != "" && s[|s| - 1] == '0' then TrimZeros(s[..|s| - 1]) else s
  }

  // ----- FormatAmount -----

  /** The amount as FormatAmount prints it, before the denomination. */
  function Amount(base: nat): string {
    var whole, frac := base / BASE_UNITS_PER_COIN, base % BASE_UNITS_PER_COIN;
    if frac == 0 then Decimal(whole)
    else Decimal(whole) + "." + TrimZeros(PadStart(Decimal(frac), PRECISION))
  }

  function FormatAmount(base: nat): string {
    Amount(base) + SUFFIX
  }

  // ----- dylToUdyl -----

  /** What String.prototype.trim strips. */
  predicate IsSpace(c: char) {
    var u := c as int;
    || 0x9 <= u <= 0xD || u == 0x20 || u == 0xA0 || u == 0x1680 || 0x2000 <= u <= 0x200A
    || u == 0x2028 || u == 0x2029 || u == 0x202F || u == 0x205F || u == 0x3000 || u == 0xFEFF
  }

  function Trim(s: string): string
    decreases |s|
  {
    if s != "" && IsSpace(s[0]) then Trim(s[1..])
    else if s != "" && IsSpace(s[|s| - 1]) then Trim(s[..|s| - 1])
    else s
  }

  /** Where the first dot is, or the length. */
  function Dot(s: string): (k: nat)
    ensures k <= |s| && (k < |s| ==> s[k] == '.') && forall j | 0 <= j < k :: s[j] != '.'
  {
    if s == "" || s[0] == '.' then 0 else 1 + Dot(s[1..])
  }

  /** One or more digits, then perhaps a dot and one to six more. */
  predicate WellFormed(s: string) {
    var k := Dot(s);
    && 0 < k && AllDigits(s[..k])
    && (k < |s| ==> 1 <= |s| - k - 1 <= PRECISION && AllDigits(s[k + 1..]))
  }

  function DylToUdyl(input: string): Option<nat> {
    var s := Trim(input);
    if !WellFormed(s) then None
    else
      var k := Dot(s);
      var frac := if k < |s| then s[k + 1..] else "";
      var base := Number(s[..k]) * BASE_UNITS_PER_COIN + Number(PadEnd(frac, PRECISION));
      if base > 0 then Some(base) else None
  }

  // ----- they undo each other -----

  lemma {:induction false} DecimalNumber(n: nat)
    ensures Number(Decimal(n)) == n
  {
    if n >= 10 {
      DecimalNumber(n / 10);
      assert Decimal(n)[..|Decimal(n)| - 1] == Decimal(n / 10);
    }
  }

  lemma {:induction false} LeadingZeros(k: nat, s: string)
    requires AllDigits(s)
    ensures AllDigits(Zeros(k) + s) && Number(Zeros(k) + s) == Number(s)
    decreases |s|, k
  {
    if s != "" {
      LeadingZeros(k, s[..|s| - 1]);
      assert (Zeros(k) + s)[..k + |s| - 1] == Zeros(k) + s[..|s| - 1];
    } else if k > 0 {
      LeadingZeros(k - 1, s);
      assert (Zeros(k) + s)[..k - 1] == Zeros(k - 1) + s;
    }
  }

  function Pow10(k: nat): nat {
    if k == 0 then 1 else 10 * Pow10(k - 1)
  }

  lemma {:induction false} DecimalLength(n: nat, k: nat)
    requires 0 < k && n < Pow10(k)
    ensures |Decimal(n)| <= k
  {
    if n >= 10 {
      assert k > 1;
      DecimalLength(n / 10, k - 1);
    }
  }

  lemma {:induction false} TrimmedPadsBack(s: string)
    requires AllDigits(s)
    ensures AllDigits(TrimZeros(s)) && |TrimZeros(s)| <= |s| && PadEnd(TrimZeros(s), |s|) == s
    ensures Number(s) > 0 ==> TrimZeros(s) != ""
  {
    if s != "" && s[|s| - 1] == '0' {
      var init := s[..|s| - 1];
      TrimmedPadsBack(init);
      var t := TrimZeros(init);
      assert s == init + ['0'];
      assert t + Zeros(|s| - |t|) == t + Zeros(|init| - |t|) + ['0'];
    }
  }

  /** The six-digit fraction, trimmed, is at least one digit and pads back. */
  lemma Fraction(frac: nat)
    requires 0 < frac < BASE_UNITS_PER_COIN
    ensures
      var t := TrimZeros(PadStart(Decimal(frac), PRECISION));
      && 1 <= |t| <= PRECISION && AllDigits(t)
      && AllDigits(PadEnd(t, PRECISION)) && Number(PadEnd(t, PRECISION)) == frac
  {
    assert Pow10(6) == BASE_UNITS_PER_COIN;
    DecimalLength(frac, PRECISION);
    DecimalNumber(frac);
    LeadingZeros(PRECISION - |Decimal(frac)|, Decimal(frac));
    TrimmedPadsBack(PadStart(Decimal(frac), PRECISION));
  }

  /** Digits, a dot and digits split where they were joined. */
  lemma Joined(whole: string, frac: string)
    requires whole != "" && AllDigits(whole) && 1 <= |frac| <= PRECISION && AllDigits(frac)
    ensures
      var s := whole + "." + frac;
      Trim(s) == s && WellFormed(s) && Dot(s) == |whole| && s[..|whole|] == whole && s[|whole| + 1..] == frac
  {
    var s := whole + "." + frac;
    assert s[|whole|] == '.' && forall j | 0 <= j < |whole| :: s[j] == whole[j];
    assert Dot(s) == |whole|;
    assert s[0] == whole[0] && s[|s| - 1] == frac[|frac| - 1];
    assert s[..|whole|] == whole && s[|whole| + 1..] == frac;
  }

  lemma Alone(whole: string)
    requires whole != "" && AllDigits(whole)
    ensures Trim(whole) == whole && WellFormed(whole) && Dot(whole) == |whole| && whole[..|whole|] == whole
  {
    assert whole[..|whole|] == whole;
  }

  /** Every positive amount printed is parsed back to itself; zero is refused. */
  lemma ParseUndoesFormat(base: nat)
    ensures DylToUdyl(Amount(base)) == if base > 0 then Some(base) else None
    ensures FormatAmount(base) == Amount(base) + SUFFIX
  {
    hide Trim, WellFormed, Number, PadEnd, PadStart, TrimZeros, Decimal;
    var whole, frac := base / BASE_UNITS_PER_COIN, base % BASE_UNITS_PER_COIN;
    DecimalNumber(whole);
    if frac == 0 {
      Alone(Decimal(whole));
      NoFraction();
    } else {
      Fraction(frac);
      Joined(Decimal(whole), TrimZeros(PadStart(Decimal(frac), PRECISION)));
    }
  }

  lemma NoFraction()
    ensures AllDigits(PadEnd("", PRECISION)) && Number(PadEnd("", PRECISION)) == 0
  {
    LeadingZeros(PRECISION, "");
    assert Zeros(PRECISION) + "" == "" + Zeros(PRECISION);
  }

  /** Hence no two amounts print alike. */
  lemma FormatInjective(a: nat, b: nat)
    ensures FormatAmount(a) == FormatAmount(b) <==> a == b
  {
    hide Amount, DylToUdyl;
    ParseUndoesFormat(a);
    ParseUndoesFormat(b);
    if FormatAmount(a) == FormatAmount(b) {
      assert FormatAmount(a)[..|FormatAmount(a)| - |SUFFIX|] == Amount(a);
      assert FormatAmount(b)[..|FormatAmount(b)| - |SUFFIX|] == Amount(b);
    }
  }

  /** What the parser accepts, and how it reads it: blanks around are dropped, the
      part before the dot (leading zeros allowed) is the whole coins, the part after
      it, zero-padded to six digits, the base units left over. */
  lemma ParseMeans(input: string, base: nat)
    ensures DylToUdyl(input) == Some(base) <==>
      var s := Trim(input);
      && base > 0 && WellFormed(s)
      && Number(s[..Dot(s)]) == base / BASE_UNITS_PER_COIN
      && Number(PadEnd(if Dot(s) < |s| then s[Dot(s) + 1..] else "", PRECISION)) == base % BASE_UNITS_PER_COIN
  {
    hide Trim, Number, WellFormed;
    var s := Trim(input);
    if WellFormed(s) {
      WellFormedParts(s);
    }
  }

  lemma WellFormedParts(s: string)
    requires WellFormed(s)
    ensures
      var frac := if Dot(s) < |s| then s[Dot(s) + 1..] else "";
      AllDigits(PadEnd(frac, PRECISION)) && Number(PadEnd(frac, PRECISION)) < BASE_UNITS_PER_COIN
  {
    hide Number;
    var frac := if Dot(s) < |s| then s[Dot(s) + 1..] else "";
    SmallNumber(PadEnd(frac, PRECISION));
    assert Pow10(6) == BASE_UNITS_PER_COIN;
  }

  lemma {:induction false} SmallNumber(s: string)
    requires AllDigits(s)
    ensures Number(s) < Pow10(|s|)
  {
    if s != "" {
      SmallNumber(s[..|s| - 1]);
    }
  }

  // ----- exactly which strings, and the shortest of them -----

  predicate AllSpace(s: string) {
    forall i | 0 <= i < |s| :: IsSpace(s[i])
  }

  /** The digits of an amount: whole coins, then up to six more after a dot. */
  ghost predicate Spells(s: string, whole: string, frac: string, base: nat) {
    && whole != "" && AllDigits(whole) && AllDigits(frac) && |frac| <= 6
    && s == (if frac == "" then whole else whole + "." + frac)
    && base == Number(whole) * 1_000_000 + Number(frac) * Pow10(6 - |frac|)
  }

  ghost predicate SpellsSome(s: string, base: nat) {
    exists whole, frac :: Spells(s, whole, frac, base)
  }

  lemma {:induction false} PaddedNumber(frac: string, k: nat)
    requires AllDigits(frac)
    ensures AllDigits(frac + Zeros(k)) && Number(frac + Zeros(k)) == Number(frac) * Pow10(k)
  {
    if k == 0 {
      assert frac + Zeros(0) == frac;
    } else {
      PaddedNumber(frac, k - 1);
      assert (frac + Zeros(k))[..|frac| + k - 1] == frac + Zeros(k - 1);
      TimesTen(Number(frac), Pow10(k - 1));
    }
  }

  lemma TimesTen(a: nat, b: nat)
    ensures 10 * (a * b) == a * (10 * b)
  {
  }

  lemma PadEndNumber(frac: string)
    requires AllDigits(frac) && |frac| <= PRECISION
    ensures AllDigits(PadEnd(frac, PRECISION))
    ensures Number(PadEnd(frac, PRECISION)) == Number(frac) * Pow10(PRECISION - |frac|)
  {
    PaddedNumber(frac, PRECISION - |frac|);
    assert frac + Zeros(0) == frac;
  }

  lemma SplitsAlone(s: string, whole: string, frac: string, base: nat)
    requires Spells(s, whole, frac, base)
    ensures Trim(s) == s && WellFormed(s)
    ensures s[..Dot(s)] == whole && (if Dot(s) < |s| then s[Dot(s) + 1..] else "") == frac
  {
    hide Trim, WellFormed, Number;
    if frac == "" {
      Alone(whole);
    } else {
      Joined(whole, frac);
    }
  }

  /** What a well-formed string reads as. */
  ghost function Reading(s: string): nat {
    if !WellFormed(s) then 0
    else
      var frac := Fractional(s);
      Number(s[..Dot(s)]) * BASE_UNITS_PER_COIN
      + if AllDigits(PadEnd(frac, PRECISION)) then Number(PadEnd(frac, PRECISION)) else 0
  }

  ghost function Fractional(s: string): string {
    if Dot(s) < |s| then s[Dot(s) + 1..] else ""
  }

  lemma WellFormedSpells(s: string)
    requires WellFormed(s)
    ensures Spells(s, s[..Dot(s)], Fractional(s), Reading(s))
  {
    hide Number, Dot;
    PadEndNumber(Fractional(s));
    assert s == if Fractional(s) == "" then s[..Dot(s)] else s[..Dot(s)] + "." + Fractional(s);
  }

  lemma SpellingReads(s: string, whole: string, frac: string, base: nat)
    requires Spells(s, whole, frac, base)
    ensures WellFormed(s) && Reading(s) == base
  {
    hide Number, Dot, WellFormed, PadEnd;
    SplitsAlone(s, whole, frac, base);
    PadEndNumber(frac);
  }

  /** The parser without the blanks around: it reads exactly these spellings. */
  lemma ReadsSpellings(s: string, base: nat)
    ensures SpellsSome(s, base) <==> WellFormed(s) && Reading(s) == base
  {
    hide Number, WellFormed, Dot, Spells, Reading;
    if WellFormed(s) {
      WellFormedSpells(s);
    }
    if whole, frac :| Spells(s, whole, frac, base) {
      SpellingReads(s, whole, frac, base);
    }
  }

  lemma TrimStep(s: string)
    ensures s != "" && IsSpace(s[0]) ==> Trim(s) == Trim(s[1..])
    ensures s != "" && !IsSpace(s[0]) && IsSpace(s[|s| - 1]) ==> Trim(s) == Trim(s[..|s| - 1])
    ensures s == "" || (!IsSpace(s[0]) && !IsSpace(s[|s| - 1])) ==> Trim(s) == s
  {
    hide IsSpace;
  }

  lemma {:induction false} TrimSplits(s: string) returns (l: string, r: string)
    ensures AllSpace(l) && AllSpace(r) && s == l + Trim(s) + r
    decreases |s|
  {
    hide Trim, IsSpace;
    TrimStep(s);
    l, r := "", "";
    if s != "" && IsSpace(s[0]) {
      l, r := TrimSplits(s[1..]);
      assert s == ([s[0]] + l) + Trim(s) + r;
      l := [s[0]] + l;
    } else if s != "" && IsSpace(s[|s| - 1]) {
      l, r := TrimSplits(s[..|s| - 1]);
      assert s == l + Trim(s) + (r + [s[|s| - 1]]);
      r := r + [s[|s| - 1]];
    } else {
      assert s == "" + Trim(s) + "";
    }
  }

  lemma {:induction false} TrimDrops(l: string, s: string, r: string)
    requires AllSpace(l) && AllSpace(r) && s != "" && !IsSpace(s[0]) && !IsSpace(s[|s| - 1])
    ensures Trim(l + s + r) == s
    decreases |l| + |r|
  {
    hide Trim, IsSpace;
    var t := l + s + r;
    TrimStep(t);
    if l != "" {
      assert t[0] == l[0] && t[1..] == l[1..] + s + r;
      TrimDrops(l[1..], s, r);
    } else if r != "" {
      assert t[0] == s[0] && t[|t| - 1] == r[|r| - 1] && t[..|t| - 1] == l + s + r[..|r| - 1];
      TrimDrops(l, s, r[..|r| - 1]);
    } else {
      assert t == s;
    }
  }

  lemma SpellingEnds(s: string, base: nat)
    requires SpellsSome(s, base)
    ensures s != "" && !IsSpace(s[0]) && !IsSpace(s[|s| - 1])
  {
    hide Number;
    var whole, frac :| Spells(s, whole, frac, base);
    assert s[0] == whole[0] && s[|s| - 1] == if frac == "" then whole[|whole| - 1] else frac[|frac| - 1];
  }

  /** The parser accepts exactly a spelling of a positive amount with blanks around it,
      and reads it as whole coins and millionths. */
  lemma ParseExactly(input: string, base: nat)
    ensures DylToUdyl(input) == Some(base) <==>
      && 0 < base
      && exists l, s, r :: AllSpace(l) && AllSpace(r) && input == l + s + r && SpellsSome(s, base)
  {
    hide Trim, WellFormed, Number, SpellsSome, AllSpace, Reading;
    ReadsSpellings(Trim(input), base);
    ParsesReading(input);
    if DylToUdyl(input) == Some(base) {
      var l, r := TrimSplits(input);
      assert AllSpace(l) && AllSpace(r) && input == l + Trim(input) + r && SpellsSome(Trim(input), base);
    }
    if l, s, r :| AllSpace(l) && AllSpace(r) && input == l + s + r && SpellsSome(s, base) {
      SpellingEnds(s, base);
      TrimDrops(l, s, r);
    }
  }

  lemma ParsesReading(input: string)
    ensures
      var s := Trim(input);
      DylToUdyl(input) == if WellFormed(s) && 0 < Reading(s) then Some(Reading(s)) else None
  {
    hide Trim, Number, WellFormed;
    if WellFormed(Trim(input)) {
      WellFormedParts(Trim(input));
    }
  }

  // ----- the shortest spelling -----

  lemma {:induction false} ShortestDecimal(s: string)
    requires s != "" && AllDigits(s)
    ensures |Decimal(Number(s))| <= |s|
  {
    SmallNumber(s);
    DecimalLength(Number(s), |s|);
  }

  lemma {:induction false} ShortestFraction(frac: string, s: string)
    requires AllDigits(frac) && |frac| <= |s| && PadEnd(frac, |s|) == s
    ensures |TrimZeros(s)| <= |frac|
    decreases |s|
  {
    if |frac| < |s| {
      var init := s[..|s| - 1];
      assert s == frac + Zeros(|s| - |frac|);
      assert init == frac + Zeros(|init| - |frac|);
      assert frac + Zeros(0) == frac;
      ShortestFraction(frac, init);
    } else {
      TrimShorter(s);
    }
  }

  lemma {:induction false} TrimShorter(s: string)
    ensures |TrimZeros(s)| <= |s|
  {
    if s != "" && s[|s| - 1] == '0' {
      TrimShorter(s[..|s| - 1]);
    }
  }

  /** Digits of one length and one value are the same digits. */
  lemma {:induction false} SameDigits(s: string, t: string)
    requires AllDigits(s) && AllDigits(t) && |s| == |t| && Number(s) == Number(t)
    ensures s == t
  {
    if s != "" {
      SameDigits(s[..|s| - 1], t[..|t| - 1]);
      assert s == s[..|s| - 1] + [s[|s| - 1]] && t == t[..|t| - 1] + [t[|t| - 1]];
    }
  }

  /** What FormatAmount prints is the shortest way to write the amount: no string the
      parser reads as it is shorter. So no zero is printed that could be left out. */
  lemma FormatShortest(base: nat, input: string)
    requires DylToUdyl(input) == Some(base)
    ensures |Amount(base)| <= |input|
  {
    hide Trim, Number, Decimal, TrimZeros, PadStart, PadEnd, Spells;
    ParseExactly(input, base);
    var l, s, r :| AllSpace(l) && AllSpace(r) && input == l + s + r && SpellsSome(s, base);
    var whole, frac :| Spells(s, whole, frac, base);
    SpellingLonger(s, whole, frac, base);
  }

  lemma SpellingLonger(s: string, whole: string, frac: string, base: nat)
    requires Spells(s, whole, frac, base)
    ensures |Amount(base)| <= |s|
  {
    hide Trim, Number, Decimal, TrimZeros, PadStart, PadEnd, Zeros;
    PadEndNumber(frac);
    PadEndLength(frac);
    var padded := PadEnd(frac, PRECISION);
    SmallNumber(padded);
    assert Pow10(6) == BASE_UNITS_PER_COIN;
    var f := Number(padded);
    SplitBase(base, Number(whole), f);
    ShortestDecimal(whole);
    if f != 0 {
      Fraction(f);
      PaddedIs(f, padded);
      ShortestFraction(frac, padded);
      NothingSpelled(frac);
    }
  }

  lemma PadEndLength(frac: string)
    requires |frac| <= PRECISION
    ensures |PadEnd(frac, PRECISION)| == PRECISION
  {
  }

  lemma SplitBase(base: nat, whole: nat, f: nat)
    requires base == whole * BASE_UNITS_PER_COIN + f && f < BASE_UNITS_PER_COIN
    ensures base / BASE_UNITS_PER_COIN == whole && base % BASE_UNITS_PER_COIN == f
  {
  }

  /** The six digits of a fraction are its decimal digits, padded in front. */
  lemma PaddedIs(f: nat, padded: string)
    requires 0 < f < BASE_UNITS_PER_COIN && |padded| == PRECISION && AllDigits(padded) && Number(padded) == f
    ensures PadStart(Decimal(f), PRECISION) == padded
  {
    assert Pow10(6) == BASE_UNITS_PER_COIN;
    DecimalLength(f, PRECISION);
    DecimalNumber(f);
    LeadingZeros(PRECISION - |Decimal(f)|, Decimal(f));
    SameDigits(PadStart(Decimal(f), PRECISION), padded);
  }

  lemma NothingSpelled(frac: string)
    requires AllDigits(frac)
    ensures frac == "" ==> Number(frac) == 0
  {
  }
}
