/** The printed form of an amount, with eleven decimals, and the parser that reads amounts back. */
module Amount {
  import opened Base
  import opened Decimal

  const DECIMALS: nat := 11
  const ATOMIC_PER_COIN: nat := 100_000_000_000

  datatype ParseError = Required | NotAnAmount | TwoPoints | TooManyPlaces | NotWhole | TooLarge
  datatype Parsed = Ok(atomic: nat) | Err(error: ParseError)

  /** The whole coins, a point, and always eleven digits. */
  function Print(atomic: nat): string {
    AtLeast(atomic / ATOMIC_PER_COIN, 1) + "." + Padded(atomic % ATOMIC_PER_COIN, DECIMALS)
  }

  /** One point with eleven digits behind it, at least one before it, and no zero too many in front. */
  lemma PrintShape(atomic: nat)
    ensures var s := Print(atomic);
      && |s| >= 13 && s[|s| - 12] == '.'
      && (forall i :: 0 <= i < |s| && i != |s| - 12 ==> IsDigit(s[i]))
      && (|s| > 13 ==> s[0] != '0')
  {
    NoLeadingZero(atomic / ATOMIC_PER_COIN);
  }

  // ------------------------------------------------------------------- reading

  predicate IsSpace(c: char) {
    var u := c as int;
    9 <= u <= 13 || u == 0x20 || u == 0x85 || u == 0xA0 || u == 0x1680 || 0x2000 <= u <= 0x200A
    || u == 0x2028 || u == 0x2029 || u == 0x202F || u == 0x205F || u == 0x3000
  }

  /** The twenty-five characters of white space. */
  lemma SpacesAre(c: char)
    ensures IsSpace(c) <==> c as int in {
      9, 10, 11, 12, 13, 32, 133, 160, 5760, 8192, 8193, 8194, 8195, 8196, 8197, 8198, 8199, 8200, 8201, 8202,
      8232, 8233, 8239, 8287, 12288}
  {}

  function TrimLeft(s: string): string {
    if s != [] && IsSpace(s[0]) then TrimLeft(s[1..]) else s
  }

  function TrimRight(s: string): string {
    if s != [] && IsSpace(s[|s| - 1]) then TrimRight(s[..|s| - 1]) else s
  }

  function Trim(s: string): string { TrimRight(TrimLeft(s)) }

  predicate MayAppear(c: char) { IsDigit(c) || c == '.' || c == '_' }

  predicate AllMayAppear(s: string) { forall i :: 0 <= i < |s| ==> MayAppear(s[i]) }

  /** The text without its `_` separators. */
  function Strip(s: string): string {
    if s == [] then [] else (if s[0] == '_' then [] else [s[0]]) + Strip(s[1..])
  }

  /** Index of the first point, or the length where there is none. */
  function PointAt(s: string): (i: nat)
    ensures i <= |s| && (forall j :: 0 <= j < i ==> s[j] != '.') && (i < |s| ==> s[i] == '.')
  {
    if s == [] || s[0] == '.' then 0 else 1 + PointAt(s[1..])
  }

  function Whole(s: string): string { s[..PointAt(s)] }

  function Fraction(s: string): string { if PointAt(s) < |s| then s[PointAt(s) + 1..] else "" }

  lemma {:induction false} StripKeeps(s: string)
    requires AllMayAppear(s)
    ensures forall i :: 0 <= i < |Strip(s)| ==> IsDigit(Strip(s)[i]) || Strip(s)[i] == '.'
    decreases |s|
  {
    if s != [] { StripKeeps(s[1..]); }
  }

  lemma PartsAreDigits(s: string)
    requires forall i :: 0 <= i < |s| ==> IsDigit(s[i]) || s[i] == '.'
    ensures AllDigits(Whole(s)) && ('.' !in Fraction(s) ==> AllDigits(Fraction(s)))
  {
    if '.' !in Fraction(s) {
      forall i | 0 <= i < |Fraction(s)| ensures IsDigit(Fraction(s)[i]) {
        assert Fraction(s)[i] in Fraction(s);
      }
    }
  }

  function Atomic(whole: string, fraction: string): nat
    requires AllDigits(whole) && AllDigits(fraction) && |fraction| <= DECIMALS
  {
    Value(whole) * ATOMIC_PER_COIN + Value(fraction + Zeros(DECIMALS - |fraction|))
  }

  /** From the whole part and the fraction, each an unsigned 64-bit parse, then a checked sum. */
  function Assemble(whole: string, fraction: string): Parsed
    requires AllDigits(whole) && AllDigits(fraction)
  {
    if |fraction| > DECIMALS then Err(TooManyPlaces)
    else if Value(whole) > U64_MAX then Err(NotWhole)
    else
      var total := Atomic(whole, fraction);
      if total > U64_MAX then Err(TooLarge) else Ok(total)
  }

  function ParseStripped(s: string): Parsed
    requires forall i :: 0 <= i < |s| ==> IsDigit(s[i]) || s[i] == '.'
  {
    PartsAreDigits(s);
    if '.' in Fraction(s) then Err(TwoPoints) else Assemble(Whole(s), Fraction(s))
  }

  function Parse(s: string): Parsed {
    var t := Trim(s);
    if t == [] then Err(Required)
    else if !AllMayAppear(t) then Err(NotAnAmount)
    else
      StripKeeps(t);
      ParseStripped(Strip(t))
  }

  /** Reading as the program does it, the fraction padded in a loop. */
  method ParseAmount(s: string) returns (r: Parsed)
    ensures r == Parse(s)
  {
    var t := Trim(s);
    if t == [] { return Err(Required); }
    if !AllMayAppear(t) { return Err(NotAnAmount); }
    StripKeeps(t);
    var u := Strip(t);
    PartsAreDigits(u);
    var whole, fraction := Whole(u), Fraction(u);
    if '.' in fraction { return Err(TwoPoints); }
    r := AssembleInTurn(whole, fraction);
  }

  method AssembleInTurn(whole: string, fraction: string) returns (r: Parsed)
    requires AllDigits(whole) && AllDigits(fraction)
    ensures r == Assemble(whole, fraction)
  {
    if |fraction| > DECIMALS { return Err(TooManyPlaces); }
    var coins := 0;
    if whole != [] { coins := Value(whole); }
    if coins > U64_MAX { return Err(NotWhole); }
    var padded := fraction;
    while |padded| < DECIMALS
      invariant |fraction| <= |padded| <= DECIMALS
      invariant padded == fraction + Zeros(|padded| - |fraction|)
    {
      padded := padded + ['0'];
    }
    var scaled := coins * ATOMIC_PER_COIN;
    if scaled > U64_MAX { return Err(TooLarge); }
    var total := scaled + Value(padded);
    if total > U64_MAX { return Err(TooLarge); }
    return Ok(total);
  }

  // ---------------------------------------------------------------- properties

  /** `text` is digits, with at most one point. */
  ghost predicate Reads(text: string, whole: string, fraction: string) {
    && AllDigits(whole) && AllDigits(fraction)
    && (text == whole + "." + fraction || (text == whole && fraction == ""))
  }

  lemma {:induction false} PointAfterDigits(whole: string, rest: string)
    requires AllDigits(whole) && (rest == [] || rest[0] == '.')
    ensures PointAt(whole + rest) == |whole|
    decreases |whole|
  {
    if whole == [] {
      assert whole + rest == rest;
    } else {
      assert (whole + rest)[1..] == whole[1..] + rest;
      PointAfterDigits(whole[1..], rest);
    }
  }

  lemma ReadsSplits(text: string, whole: string, fraction: string)
    requires Reads(text, whole, fraction)
    ensures Whole(text) == whole && Fraction(text) == fraction && '.' !in fraction
  {
    if text == whole + "." + fraction {
      var rest := "." + fraction;
      assert text == whole + rest;
      PointAfterDigits(whole, rest);
    } else {
      assert text == whole + [];
      PointAfterDigits(whole, []);
    }
  }

  lemma Pow10Of11()
    ensures Pow10(DECIMALS) == ATOMIC_PER_COIN
  {}

  /** The value in atomic units, times ten to the places written, is all the digits in atomic units. */
  predicate IsExact(atomic: nat, whole: string, fraction: string) {
    AllDigits(whole + fraction) && atomic * Pow10(|fraction|) == Value(whole + fraction) * ATOMIC_PER_COIN
  }

  lemma AssembledIsExact(whole: string, fraction: string)
    requires AllDigits(whole) && AllDigits(fraction) && |fraction| <= DECIMALS
    ensures IsExact(Atomic(whole, fraction), whole, fraction)
  {
    var total, digits, p := Atomic(whole, fraction), Value(whole + fraction), Pow10(|fraction|);
    assert total * p == digits * ATOMIC_PER_COIN by {
      var rest := DECIMALS - |fraction|;
      PaddedFraction(fraction, rest);
      PowersMeet(|fraction|, rest);
      ValueConcat(whole, fraction);
      Regroup(Value(whole), Value(fraction), p, Pow10(rest), ATOMIC_PER_COIN, total, digits);
    }
  }

  lemma PaddedFraction(fraction: string, rest: nat)
    requires AllDigits(fraction)
    ensures AllDigits(fraction + Zeros(rest)) && Value(fraction + Zeros(rest)) == Value(fraction) * Pow10(rest)
  {
    ValueConcat(fraction, Zeros(rest));
    ZerosValue(rest);
  }

  lemma PowersMeet(k: nat, rest: nat)
    requires k + rest == DECIMALS
    ensures Pow10(k) * Pow10(rest) == ATOMIC_PER_COIN
  {
    PowAdd(k, rest);
    Pow10Of11();
  }

  lemma Regroup(w: nat, f: nat, p: nat, q: nat, unit: nat, total: nat, digits: nat)
    requires unit == p * q && total == w * unit + f * q && digits == w * p + f
    ensures total * p == digits * unit
  {
    assert (f * q) * p == f * unit;
    assert (w * unit) * p == (w * p) * unit;
    assert total * p == (w * unit) * p + (f * q) * p;
    assert digits * unit == (w * p) * unit + f * unit;
  }

  lemma ExactIsUnique(a: nat, b: nat, whole: string, fraction: string)
    requires IsExact(a, whole, fraction) && IsExact(b, whole, fraction)
    ensures a == b
  {
    var p := Pow10(|fraction|);
    assert (a - b) * p == a * p - b * p == 0;
  }

  /** A text that reads as an amount gives that amount, digit for digit, or is refused; it never wraps. */
  lemma ReadExactly(s: string, whole: string, fraction: string)
    requires Trim(s) != [] && AllMayAppear(Trim(s)) && Reads(Strip(Trim(s)), whole, fraction)
    ensures Parse(s).Ok? <==> |fraction| <= DECIMALS && exists a: nat :: a <= U64_MAX && IsExact(a, whole, fraction)
    ensures Parse(s).Ok? ==> Parse(s).atomic <= U64_MAX && IsExact(Parse(s).atomic, whole, fraction)
  {
    StripKeeps(Trim(s));
    ReadsSplits(Strip(Trim(s)), whole, fraction);
    assert Parse(s) == Assemble(whole, fraction);
    if |fraction| <= DECIMALS {
      var total := Atomic(whole, fraction);
      AssembledIsExact(whole, fraction);
      forall a: nat | IsExact(a, whole, fraction) ensures a == total { ExactIsUnique(a, total, whole, fraction); }
    }
  }

  /** What each refusal means. */
  lemma Refusals(s: string, whole: string, fraction: string)
    ensures Parse(s) == Err(Required) <==> Trim(s) == []
    ensures Parse(s) == Err(NotAnAmount) <==> Trim(s) != [] && !AllMayAppear(Trim(s))
    ensures Trim(s) != [] && AllMayAppear(Trim(s)) ==>
      (Parse(s) == Err(TwoPoints) <==>
         exists i, j :: 0 <= i < j < |Strip(Trim(s))| && Strip(Trim(s))[i] == '.' == Strip(Trim(s))[j])
    ensures Trim(s) != [] && AllMayAppear(Trim(s)) && Reads(Strip(Trim(s)), whole, fraction) ==>
      && (Parse(s) == Err(TooManyPlaces) <==> |fraction| > 11)
      && (Parse(s) == Err(NotWhole) <==> |fraction| <= 11 && Value(whole) > U64_MAX)
      && (Parse(s) == Err(TooLarge) <==>
            |fraction| <= 11 && Value(whole) <= U64_MAX < Atomic(whole, fraction))
  {
    if Trim(s) != [] && AllMayAppear(Trim(s)) {
      var t := Strip(Trim(s));
      StripKeeps(Trim(s));
      TwoPointsIff(t);
      if Reads(t, whole, fraction) { ReadsSplits(t, whole, fraction); }
    }
  }

  lemma TwoPointsIff(t: string)
    ensures '.' in Fraction(t) <==> exists i, j :: 0 <= i < j < |t| && t[i] == '.' == t[j]
  {
    var n := PointAt(t);
    if '.' in Fraction(t) {
      var k :| 0 <= k < |Fraction(t)| && Fraction(t)[k] == '.';
      assert t[n] == '.' && t[n + 1 + k] == '.';
    }
    if i, j :| 0 <= i < j < |t| && t[i] == '.' == t[j] {
      assert n <= i < j;
      assert Fraction(t)[j - n - 1] == t[j];
    }
  }

  predicate AllSpaces(s: string) { forall i :: 0 <= i < |s| ==> IsSpace(s[i]) }

  /** Blanks around the text change nothing, tabs and line ends among them. */
  lemma BlanksAroundAreIgnored(lead: string, s: string, trail: string)
    requires AllSpaces(lead) && AllSpaces(trail)
    ensures Parse(lead + s + trail) == Parse(s)
    ensures IsSpace(' ') && IsSpace('\t') && IsSpace('\n') && IsSpace('\r')
  {
    assert lead + s + trail == lead + (s + trail);
    TrimsLead(lead, s + trail);
    if AllSpaces(s) {
      TrimsAll(s + trail);
      TrimsAll(s);
    } else {
      TrimLeftStops(s, trail);
      TrimsTrail(TrimLeft(s), trail);
    }
  }

  lemma {:induction false} TrimsLead(lead: string, s: string)
    requires AllSpaces(lead)
    ensures TrimLeft(lead + s) == TrimLeft(s)
    decreases |lead|
  {
    if lead == [] {
      assert lead + s == s;
    } else {
      assert (lead + s)[1..] == lead[1..] + s;
      TrimsLead(lead[1..], s);
    }
  }

  lemma {:induction false} TrimsAll(s: string)
    requires AllSpaces(s)
    ensures TrimLeft(s) == []
    decreases |s|
  {
    if s != [] { TrimsAll(s[1..]); }
  }

  lemma {:induction false} TrimLeftStops(s: string, trail: string)
    requires !AllSpaces(s)
    ensures TrimLeft(s + trail) == TrimLeft(s) + trail
    decreases |s|
  {
    assert s + trail == [s[0]] + (s[1..] + trail);
    if IsSpace(s[0]) {
      assert (s + trail)[1..] == s[1..] + trail;
      assert !AllSpaces(s[1..]) by {
        var i :| 0 <= i < |s| && !IsSpace(s[i]);
        assert s[1..][i - 1] == s[i];
      }
      TrimLeftStops(s[1..], trail);
    }
  }

  lemma {:induction false} TrimsTrail(s: string, trail: string)
    requires AllSpaces(trail)
    ensures TrimRight(s + trail) == TrimRight(s)
    decreases |trail|
  {
    if trail == [] {
      assert s + trail == s;
    } else {
      var n := |trail| - 1;
      assert (s + trail)[..|s + trail| - 1] == s + trail[..n];
      TrimsTrail(s, trail[..n]);
    }
  }

  /** Only such texts are accepted. */
  lemma OnlyAmountsAreRead(s: string)
    requires Parse(s).Ok?
    ensures Trim(s) != [] && AllMayAppear(Trim(s))
    ensures exists whole, fraction :: Reads(Strip(Trim(s)), whole, fraction)
  {
    var t := Strip(Trim(s));
    StripKeeps(Trim(s));
    PartsAreDigits(t);
    if PointAt(t) < |t| { assert t == Whole(t) + "." + Fraction(t); }
    assert Reads(t, Whole(t), Fraction(t));
  }

  lemma {:induction false} NothingToStrip(s: string)
    requires '_' !in s
    ensures Strip(s) == s
    decreases |s|
  {
    if s != [] {
      assert s == [s[0]] + s[1..];
      NothingToStrip(s[1..]);
    }
  }

  lemma PrintReads(atomic: nat)
    ensures var s := Print(atomic);
      Trim(s) == s != [] && AllMayAppear(s) && Strip(s) == s
      && Reads(s, AtLeast(atomic / ATOMIC_PER_COIN, 1), Padded(atomic % ATOMIC_PER_COIN, DECIMALS))
  {
    var s := Print(atomic);
    assert IsDigit(s[0]) && IsDigit(s[|s| - 1]);
    forall i | 0 <= i < |s| ensures MayAppear(s[i]) && s[i] != '_' {}
    NothingToStrip(s);
  }

  lemma PrintedIsExact(atomic: nat)
    ensures IsExact(atomic, AtLeast(atomic / ATOMIC_PER_COIN, 1), Padded(atomic % ATOMIC_PER_COIN, DECIMALS))
  {
    PrintedPartsValue(atomic / ATOMIC_PER_COIN, atomic % ATOMIC_PER_COIN);
  }

  lemma PrintedPartsValue(coins: nat, rest: nat)
    requires rest < ATOMIC_PER_COIN
    ensures IsExact(coins * ATOMIC_PER_COIN + rest, AtLeast(coins, 1), Padded(rest, DECIMALS))
  {
    Pow10Of11();
    AtLeastValue(coins, 1);
    PaddedValue(rest, DECIMALS);
    ValueConcat(AtLeast(coins, 1), Padded(rest, DECIMALS));
  }

  /** Reading undoes printing, for every 64-bit amount. */
  lemma ParseUndoesPrint(atomic: nat)
    requires atomic <= U64_MAX
    ensures Parse(Print(atomic)) == Ok(atomic)
  {
    var s := Print(atomic);
    var whole, fraction := AtLeast(atomic / ATOMIC_PER_COIN, 1), Padded(atomic % ATOMIC_PER_COIN, DECIMALS);
    PrintReads(atomic);
    PrintedIsExact(atomic);
    ReadExactly(s, whole, fraction);
    ExactIsUnique(atomic, Parse(s).atomic, whole, fraction);
  }

  predicate NoDigits(s: string) { forall i :: 0 <= i < |s| ==> !IsDigit(s[i]) }

  lemma {:induction false} StripNoDigits(s: string)
    requires AllMayAppear(s)
    ensures NoDigits(s) <==> NoDigits(Strip(s))
    decreases |s|
  {
    if s != [] {
      assert s == [s[0]] + s[1..];
      StripNoDigits(s[1..]);
      NoDigitsCons(s[0], s[1..]);
      NoDigitsCons(s[0], Strip(s[1..]));
      if s[0] == '_' { assert Strip(s) == Strip(s[1..]); }
    }
  }

  lemma NoDigitsCons(c: char, rest: string)
    ensures NoDigits([c] + rest) <==> !IsDigit(c) && NoDigits(rest)
  {
    var s := [c] + rest;
    assert forall i :: 0 <= i < |rest| ==> s[i + 1] == rest[i];
    if NoDigits(s) {
      assert s[0] == c;
      forall i | 0 <= i < |rest| ensures !IsDigit(rest[i]) { assert s[i + 1] == rest[i]; }
    }
  }

  /** An accepted text without a digit is one point or nothing, and reads as zero; the others have a digit. */
  lemma DigitlessReadsAsZero(s: string)
    requires Parse(s).Ok?
    ensures NoDigits(Trim(s)) <==> Strip(Trim(s)) == "" || Strip(Trim(s)) == "."
    ensures NoDigits(Trim(s)) ==> Parse(s) == Ok(0)
  {
    OnlyAmountsAreRead(s);
    StripNoDigits(Trim(s));
    var whole, fraction :| Reads(Strip(Trim(s)), whole, fraction);
    if NoDigits(Strip(Trim(s))) {
      if whole != "" || fraction != "" { DigitIsSeen(Strip(Trim(s)), whole, fraction); }
      ReadExactly(s, "", "");
    }
  }

  lemma DigitIsSeen(text: string, whole: string, fraction: string)
    requires Reads(text, whole, fraction) && (whole != "" || fraction != "")
    ensures !NoDigits(text)
  {
    if whole != "" {
      assert text[0] == whole[0];
    } else {
      assert text[|text| - 1] == fraction[|fraction| - 1];
    }
  }

  /** And every such text is accepted. */
  lemma DigitlessIsRead(s: string)
    requires Trim(s) != [] && AllMayAppear(Trim(s)) && (Strip(Trim(s)) == "" || Strip(Trim(s)) == ".")
    ensures Parse(s) == Ok(0)
  {
    assert Reads(".", "", "") && Reads("", "", "");
    assert IsExact(0, "", "");
    ReadExactly(s, "", "");
    ExactIsUnique(0, Parse(s).atomic, "", "");
  }

  /** A lone point and a lone underscore are such texts. */
  lemma BarePointIsRead()
    ensures Parse(".") == Ok(0) && Parse("_") == Ok(0)
  {
    assert Strip("_") == [] + Strip([]) == "";
    assert Strip(".") == "." + Strip([]) == ".";
    assert Trim(".") == "." && Trim("_") == "_";
    DigitlessIsRead(".");
    DigitlessIsRead("_");
  }
}
