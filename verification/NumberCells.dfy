/** Numeric source cells (providers/lianjia/values.py), over case-folded text with ASCII digits. */
module NumberCells {
  import opened Text

  datatype NumberResult = Number(value: real) | WrongCount(found: nat) | UnexpectedText | NotWhole

  // ---- Unit tokens, longer ones first ----

  const AREA_UNITS := ["平方米", "平方公尺", "平米", "平方", "m2", "㎡", "平"]
  const WAN_UNITS := ["万元", "万"]
  const UNIT_PRICE_UNITS := ["元/平方米", "元/平米", "元/m2", "元/㎡", "元每平米", "元", "/"] + AREA_UNITS
  const CNY_PER_WAN := 10000.0

  /** `text.replace(unit, " ")`: leftmost, non-overlapping. */
  function Replace(text: string, unit: string): string
    requires unit != ""
  {
    if text == "" then ""
    else if unit <= text then " " + Replace(text[|unit|..], unit)
    else [text[0]] + Replace(text[1..], unit)
  }

  /** The text left once every unit token has been read as a blank, in list order. */
  function Residual(text: string, units: seq<string>): string
    requires "" !in units
    decreases |units|
  {
    if units == [] then text else Residual(Replace(text, units[0]), units[1..])
  }

  // ---- The pattern [+-]?\d+(?:\.\d+)? ----

  predicate IsDigit(c: char) { '0' <= c <= '9' }

  predicate AllDigits(s: string) {
    forall i :: 0 <= i < |s| ==> IsDigit(s[i])
  }

  function DigitRun(s: string): (n: nat)
    ensures n <= |s| && AllDigits(s[..n]) && (n < |s| ==> !IsDigit(s[n]))
  {
    if s == "" || !IsDigit(s[0]) then 0
    else
      var n := DigitRun(s[1..]);
      assert s[..1 + n] == [s[0]] + s[1..][..n];
      1 + n
  }

  function SignLength(s: string): nat {
    if s != "" && (s[0] == '+' || s[0] == '-') then 1 else 0
  }

  function FractionLength(s: string): (n: nat)
    ensures n <= |s|
  {
    if |s| >= 2 && s[0] == '.' && IsDigit(s[1]) then 1 + DigitRun(s[1..]) else 0
  }

  function UnsignedLength(s: string): (n: nat)
    ensures n <= |s|
  {
    var whole := DigitRun(s);
    if whole == 0 then 0 else whole + FractionLength(s[whole..])
  }

  /** Length of the greedy match at the start of `s`; 0 when there is none. */
  function MatchLength(s: string): (n: nat)
    ensures n <= |s|
    ensures n > 0 ==> !IsSpace(s[0])
  {
    var sign := SignLength(s);
    var n := UnsignedLength(s[sign..]);
    if n == 0 then 0 else sign + n
  }

  function FindAll(s: string): seq<string> {
    if s == "" then []
    else
      var n := MatchLength(s);
      if n > 0 then [s[..n]] + FindAll(s[n..]) else FindAll(s[1..])
  }

  /** Every match replaced by one blank. */
  function BlankOut(s: string): string {
    if s == "" then ""
    else
      var n := MatchLength(s);
      if n > 0 then " " + BlankOut(s[n..]) else [s[0]] + BlankOut(s[1..])
  }

  // ---- Values ----

  function Digit(c: char): int
  {
    c as int - '0' as int
  }

  function WholeValue(s: string): int {
    if s == "" then 0 else WholeValue(s[..|s| - 1]) * 10 + Digit(s[|s| - 1])
  }

  function FractionValue(s: string): real {
    if s == "" then 0.0 else (Digit(s[0]) as real + FractionValue(s[1..])) / 10.0
  }

  /** The value of `digits` or `digits.digits`. */
  function Magnitude(s: string): real {
    var whole := DigitRun(s);
    WholeValue(s[..whole]) as real + (if whole < |s| then FractionValue(s[whole + 1..]) else 0.0)
  }

  /** `float(match)`, without rounding. */
  function FloatOf(s: string): real {
    var magnitude := Magnitude(s[SignLength(s)..]);
    if s != "" && s[0] == '-' then -magnitude else magnitude
  }

  /** `parse_number` from the residual on. */
  function NumberIn(residual: string): NumberResult {
    var matches := FindAll(residual);
    if |matches| != 1 then WrongCount(|matches|)
    else if Strip(BlankOut(residual)) != "" then UnexpectedText
    else Number(FloatOf(matches[0]))
  }

  // ---- The one-line grammar the recogniser implements ----

  /** `digits` is digits ('.' digits)? and its value is `v`. */
  ghost predicate Unsigned(digits: string, v: real) {
    exists whole: string, fraction: string ::
      && whole != "" && AllDigits(whole) && AllDigits(fraction)
      && digits == whole + (if fraction == "" then "" else "." + fraction)
      && v == WholeValue(whole) as real + FractionValue(fraction)
  }

  /** `lit` is sign? digits ('.' digits)? and its value is `v`. */
  ghost predicate Denotes(lit: string, v: real) {
    if lit != "" && lit[0] == '-' then Unsigned(lit[1..], -v)
    else if lit != "" && lit[0] == '+' then Unsigned(lit[1..], v)
    else Unsigned(lit, v)
  }

  /** White space, one literal, white space. */
  ghost predicate BlankLiteralBlank(text: string, v: real) {
    exists l: string, lit: string, r: string ::
      text == l + lit + r && AllSpace(l) && AllSpace(r) && Denotes(lit, v)
  }

  lemma {:induction false} DigitRunOf(digits: string, rest: string)
    requires AllDigits(digits) && (rest == "" || !IsDigit(rest[0]))
    ensures DigitRun(digits + rest) == |digits|
  {
    var s := digits + rest;
    var n := DigitRun(s);
    var head := s[..n];
    assert forall k :: 0 <= k < |digits| ==> s[k] == digits[k];
    assert forall k :: 0 <= k < |head| ==> head[k] == s[k];
    assert |digits| < |s| ==> s[|digits|] == rest[0];
  }

  lemma FractionMatched(fraction: string, rest: string)
    requires AllDigits(fraction) && (rest == "" || IsSpace(rest[0]))
    ensures var tail := if fraction == "" then "" else "." + fraction;
            FractionLength(tail + rest) == |tail|
  {
    if fraction == "" {
      Empty(rest);
    } else {
      DropInto("." + fraction, rest, 1);
      assert ("." + fraction)[1..] == fraction;
      DigitRunOf(fraction, rest);
    }
  }

  lemma PartsMatched(whole: string, fraction: string, rest: string)
    requires whole != "" && AllDigits(whole) && AllDigits(fraction)
    requires rest == "" || IsSpace(rest[0])
    ensures var digits := whole + (if fraction == "" then "" else "." + fraction);
            UnsignedLength(digits + rest) == |digits|
  {
    var tail := if fraction == "" then "" else "." + fraction;
    Assoc(whole, tail, rest);
    DigitRunOf(whole, tail + rest);
    Drop(whole, tail + rest);
    FractionMatched(fraction, rest);
  }

  lemma {:induction false} PartsValue(whole: string, fraction: string)
    requires whole != "" && AllDigits(whole) && AllDigits(fraction)
    ensures var digits := whole + (if fraction == "" then "" else "." + fraction);
            Magnitude(digits) == WholeValue(whole) as real + FractionValue(fraction)
  {
    var tail := if fraction == "" then "" else "." + fraction;
    var digits := whole + tail;
    DigitRunOf(whole, tail);
    assert digits[..|whole|] == whole;
    assert digits[|whole|..] == tail;
    assert fraction != "" ==> digits[|whole| + 1..] == tail[1..] == fraction;
    assert FractionValue("") == 0.0;
  }

  /** Followed by white space or nothing, an unsigned literal is matched whole. */
  lemma UnsignedMatched(digits: string, v: real, rest: string)
    requires Unsigned(digits, v) && (rest == "" || IsSpace(rest[0]))
    ensures UnsignedLength(digits + rest) == |digits| > 0 && IsDigit(digits[0])
    ensures Magnitude(digits) == v
  {
    var whole: string, fraction: string :|
      && whole != "" && AllDigits(whole) && AllDigits(fraction)
      && digits == whole + (if fraction == "" then "" else "." + fraction)
      && v == WholeValue(whole) as real + FractionValue(fraction);
    PartsMatched(whole, fraction, rest);
    PartsValue(whole, fraction);
    assert digits[0] == whole[0];
  }

  lemma LiteralMatched(lit: string, v: real, rest: string)
    requires Denotes(lit, v) && (rest == "" || IsSpace(rest[0]))
    ensures MatchLength(lit + rest) == |lit| > 0
    ensures FloatOf(lit) == v
  {
    if lit != "" && (lit[0] == '-' || lit[0] == '+') {
      assert (lit + rest)[1..] == lit[1..] + rest;
      UnsignedMatched(lit[1..], if lit[0] == '-' then -v else v, rest);
    } else {
      UnsignedMatched(lit, v, rest);
      assert (lit + rest)[0..] == lit + rest && lit[0..] == lit;
      assert (lit + rest)[0] == lit[0];
    }
  }

  /** Conversely, what is matched is a literal. */
  lemma MatchedUnsigned(s: string)
    requires UnsignedLength(s) > 0
    ensures var digits := s[..UnsignedLength(s)]; Unsigned(digits, Magnitude(digits)) && IsDigit(digits[0])
  {
    var n := UnsignedLength(s);
    var whole := s[..DigitRun(s)];
    var rest := s[DigitRun(s)..];
    var digits := s[..n];
    var fraction := if FractionLength(rest) == 0 then "" else rest[1..][..DigitRun(rest[1..])];
    var tail := if fraction == "" then "" else "." + fraction;
    assert rest[..FractionLength(rest)] == tail;
    assert digits == whole + tail;
    PartsValue(whole, fraction);
    assert whole != "" && AllDigits(whole) && AllDigits(fraction);
  }

  lemma MatchedLiteral(s: string)
    requires MatchLength(s) > 0
    ensures var lit := s[..MatchLength(s)]; Denotes(lit, FloatOf(lit))
  {
    var sign := SignLength(s);
    var lit := s[..MatchLength(s)];
    MatchedUnsigned(s[sign..]);
    assert lit[sign..] == s[sign..][..UnsignedLength(s[sign..])];
    assert sign == 0 ==> lit[0..] == lit;
  }

  lemma {:induction false} NoMatches(s: string)
    requires FindAll(s) == []
    ensures BlankOut(s) == s
  {
    if s == "" {
    } else {
      NoMatches(s[1..]);
    }
  }

  lemma {:induction false} MatchesAreLiterals(s: string)
    ensures forall i :: 0 <= i < |FindAll(s)| ==> Denotes(FindAll(s)[i], FloatOf(FindAll(s)[i]))
  {
    if s == "" {
    } else {
      if MatchLength(s) > 0 {
        MatchedLiteral(s);
        MatchesAreLiterals(s[MatchLength(s)..]);
      } else {
        MatchesAreLiterals(s[1..]);
      }
    }
  }

  lemma {:induction false} MatchStep(s: string)
    requires s != ""
    ensures var n := MatchLength(s);
            if n > 0 then FindAll(s) == [s[..n]] + FindAll(s[n..]) && BlankOut(s) == " " + BlankOut(s[n..])
            else FindAll(s) == FindAll(s[1..]) && BlankOut(s) == [s[0]] + BlankOut(s[1..])
  {
  }

  /** The text around the single match, and what blanking it leaves. */
  ghost predicate SingleMatch(s: string, l: string, lit: string, r: string) {
    s == l + lit + r && FindAll(s) == [lit] && BlankOut(s) == l + " " + r
  }

  lemma {:induction false} SingleMatchHere(s: string)
    requires s != "" && MatchLength(s) > 0 && |FindAll(s)| == 1
    ensures SingleMatch(s, "", s[..MatchLength(s)], s[MatchLength(s)..])
  {
    var n := MatchLength(s);
    MatchStep(s);
    NoMatches(s[n..]);
    Halves(s, n);
    Empty(" ");
  }

  lemma SingleMatchLater(s: string, l: string, lit: string, r: string)
    requires s != "" && MatchLength(s) == 0 && SingleMatch(s[1..], l, lit, r)
    ensures SingleMatch(s, [s[0]] + l, lit, r)
  {
    MatchStep(s);
    PrependAround(s, l, lit, r);
  }

  lemma PrependAround(s: string, l: string, lit: string, r: string)
    requires s != "" && s[1..] == l + lit + r
    ensures s == [s[0]] + l + lit + r
    ensures [s[0]] + (l + " " + r) == [s[0]] + l + " " + r
  {
    assert s == [s[0]] + s[1..];
  }

  lemma {:induction false} OneMatch(s: string) returns (l: string, lit: string, r: string)
    requires |FindAll(s)| == 1
    ensures SingleMatch(s, l, lit, r)
  {
    if MatchLength(s) > 0 {
      l, lit, r := "", s[..MatchLength(s)], s[MatchLength(s)..];
      SingleMatchHere(s);
    } else {
      MatchStep(s);
      var l';
      l', lit, r := OneMatch(s[1..]);
      l := [s[0]] + l';
      SingleMatchLater(s, l', lit, r);
    }
  }

  lemma {:induction false} SkipSpace(c: char, s: string)
    requires IsSpace(c)
    ensures FindAll([c] + s) == FindAll(s) && BlankOut([c] + s) == [c] + BlankOut(s)
  {
    var whole := [c] + s;
    assert whole[0] == c && whole[1..] == s && MatchLength(whole) == 0;
  }

  lemma ConsAppend(c: char, l: string, s: string, blanked: string)
    requires l != "" && l[0] == c
    ensures l + s == [c] + (l[1..] + s) && l + blanked == [c] + (l[1..] + blanked)
  {
  }

  lemma {:induction false} SkipSpaces(l: string, s: string)
    requires AllSpace(l)
    ensures FindAll(l + s) == FindAll(s)
    ensures BlankOut(l + s) == l + BlankOut(s)
  {
    var found, blanked := FindAll(s), BlankOut(s);
    if l == "" {
      assert l + s == s && l + blanked == blanked;
    } else {
      var t := l[1..] + s;
      assert FindAll(t) == found && BlankOut(t) == l[1..] + blanked by { SkipSpaces(l[1..], s); }
      SkipSpace(l[0], t);
      ConsAppend(l[0], l, s, blanked);
    }
  }

  lemma AcceptedIsLiteral(residual: string)
    requires NumberIn(residual).Number?
    ensures BlankLiteralBlank(residual, NumberIn(residual).value)
  {
    var l, lit, r := OneMatch(residual);
    var blanked := l + " " + r;
    MatchesAreLiterals(residual);
    BlankIsAllSpace(blanked);
    assert forall i :: 0 <= i < |l| ==> l[i] == blanked[i];
    assert forall i :: 0 <= i < |r| ==> r[i] == blanked[|l| + 1 + i];
  }

  lemma {:induction false} LiteralScanned(lit: string, r: string, v: real)
    requires AllSpace(r) && Denotes(lit, v)
    ensures FindAll(lit + r) == [lit] && BlankOut(lit + r) == " " + r && FloatOf(lit) == v
  {
    LiteralMatched(lit, v, r);
    MatchStep(lit + r);
    Drop(lit, r);
    SkipSpaces(r, "");
    Empty(r);
  }

  lemma {:induction false} OnlyLiteral(residual: string, lit: string, blanked: string)
    requires FindAll(residual) == [lit] && BlankOut(residual) == blanked && AllSpace(blanked)
    ensures NumberIn(residual) == Number(FloatOf(lit))
  {
    BlankIsAllSpace(blanked);
  }

  lemma LiteralIsAccepted(l: string, lit: string, r: string, v: real)
    requires AllSpace(l) && AllSpace(r) && Denotes(lit, v)
    ensures NumberIn(l + lit + r) == Number(v)
  {
    Assoc(l, lit, r);
    LiteralScanned(lit, r, v);
    ScannedAccepted(l, lit + r, lit, r);
  }

  lemma {:induction false} ScannedAccepted(l: string, s: string, lit: string, r: string)
    requires AllSpace(l) && AllSpace(r) && FindAll(s) == [lit] && BlankOut(s) == " " + r
    ensures NumberIn(l + s) == Number(FloatOf(lit))
  {
    SkipSpaces(l, s);
    OnlyLiteral(l + s, lit, l + (" " + r));
  }

  /** The recogniser accepts exactly white space, one literal, white space, and returns its value. */
  lemma NumberGrammar(residual: string, v: real)
    ensures NumberIn(residual) == Number(v) <==> BlankLiteralBlank(residual, v)
  {
    if NumberIn(residual) == Number(v) {
      AcceptedIsLiteral(residual);
    }
    if BlankLiteralBlank(residual, v) {
      var l, lit, r :| residual == l + lit + r && AllSpace(l) && AllSpace(r) && Denotes(lit, v);
      LiteralIsAccepted(l, lit, r, v);
    }
  }

  lemma NumberGrammarOf(residual: string)
    ensures forall v :: NumberIn(residual) == Number(v) <==> BlankLiteralBlank(residual, v)
  {
    forall v ensures NumberIn(residual) == Number(v) <==> BlankLiteralBlank(residual, v) {
      NumberGrammar(residual, v);
    }
  }

  // ---- The converters ----

  function ToWhole(r: NumberResult): NumberResult {
    if r.Number? && r.value.Floor as real != r.value then NotWhole else r
  }

  function ToCny(r: NumberResult): NumberResult {
    if r.Number? then Number(r.value * CNY_PER_WAN) else r
  }

  method ParseNumber(text: string, units: seq<string>) returns (result: NumberResult)
    requires "" !in units
    ensures result == NumberIn(Residual(text, units))
    ensures forall v :: result == Number(v) <==> BlankLiteralBlank(Residual(text, units), v)
  {
    var residual := text;
    for i := 0 to |units|
      invariant Residual(text, units) == Residual(residual, units[i..])
    {
      residual := Replace(residual, units[i]);
    }
    NumberGrammarOf(residual);
    var matches := FindAll(residual);
    if |matches| != 1 {
      return WrongCount(|matches|);
    }
    var leftover := Strip(BlankOut(residual));
    if leftover != "" {
      return UnexpectedText;
    }
    return Number(FloatOf(matches[0]));
  }

  method ParseInt(text: string, units: seq<string>) returns (result: NumberResult)
    requires "" !in units
    ensures forall v :: result == Number(v) <==> BlankLiteralBlank(Residual(text, units), v) && v.Floor as real == v
    ensures result == NotWhole <==> exists v :: BlankLiteralBlank(Residual(text, units), v) && v.Floor as real != v
    ensures result == ToWhole(NumberIn(Residual(text, units)))
  {
    var value := ParseNumber(text, units);
    if value.Number? && value.value.Floor as real != value.value {
      return NotWhole;
    }
    return value;
  }

  method ParseWanToCny(text: string) returns (result: NumberResult)
    ensures forall v :: result == Number(v) <==> WanText(text, v)
  {
    var value := ParseNumber(text, WAN_UNITS);
    result := ToCny(value);
    forall v ensures result == Number(v) <==> WanText(text, v) {
      WanGrammar(text, v);
    }
  }

  // ---- Unit tokens ----

  predicate NumericChar(c: char) { IsDigit(c) || c == '+' || c == '-' || c == '.' }

  lemma LiteralChars(lit: string, v: real)
    requires Denotes(lit, v)
    ensures lit != "" && forall i :: 0 <= i < |lit| ==> NumericChar(lit[i])
  {
    if lit != "" && (lit[0] == '-' || lit[0] == '+') {
      assert forall i :: 1 <= i < |lit| ==> lit[i] == lit[1..][i - 1];
    }
  }

  lemma {:induction false} ReplaceKeeps(text: string, unit: string, c: char)
    requires unit != "" && c in text && c !in unit
    ensures c in Replace(text, unit)
  {
    if unit <= text {
      assert text == unit + text[|unit|..];
      ReplaceKeeps(text[|unit|..], unit, c);
    } else if text[0] != c {
      assert text == [text[0]] + text[1..];
      ReplaceKeeps(text[1..], unit, c);
    }
  }

  lemma {:induction false} ResidualKeeps(text: string, units: seq<string>, c: char)
    requires "" !in units && c in text && forall u :: u in units ==> c !in u
    ensures c in Residual(text, units)
    decreases |units|
  {
    if units == [] {
    } else {
      ReplaceKeeps(text, units[0], c);
      ResidualKeeps(Replace(text, units[0]), units[1..], c);
    }
  }

  /** A character no unit token accounts for is never read over. */
  lemma {:induction false} ForeignCharacterRejected(text: string, units: seq<string>, c: char)
    requires "" !in units && c in text && forall u :: u in units ==> c !in u
    requires !IsSpace(c) && !NumericChar(c)
    ensures !NumberIn(Residual(text, units)).Number?
  {
    var residual := Residual(text, units);
    ResidualKeeps(text, units, c);
    if NumberIn(residual).Number? {
      AcceptedIsLiteral(residual);
      var l, lit, r :|
        residual == l + lit + r && AllSpace(l) && AllSpace(r) && Denotes(lit, NumberIn(residual).value);
      LiteralChars(lit, NumberIn(residual).value);
      assert false;
    }
  }

  /** A unit price quoted in 万 is refused, not read as plain yuan. */
  lemma {:induction false} UnitPriceRefusesWan(text: string)
    requires '万' in text
    ensures !NumberIn(Residual(text, UNIT_PRICE_UNITS)).Number?
  {
    ForeignCharacterRejected(text, UNIT_PRICE_UNITS, '万');
  }

  /** Both replacements of a total price at once: 万元, or else 万, reads as one blank. */
  function WithoutWan(text: string): string {
    if text == "" then ""
    else if "万元" <= text then " " + WithoutWan(text[2..])
    else if text[0] == '万' then " " + WithoutWan(text[1..])
    else [text[0]] + WithoutWan(text[1..])
  }

  lemma {:induction false} ReplaceTwice(text: string)
    ensures Replace(Replace(text, "万元"), "万") == WithoutWan(text)
  {
    if text == "" {
    } else {
      if "万元" <= text {
        ReplaceTwice(text[2..]);
        assert (" " + Replace(text[2..], "万元"))[1..] == Replace(text[2..], "万元");
      } else {
        ReplaceTwice(text[1..]);
        var first := [text[0]] + Replace(text[1..], "万元");
        assert first[1..] == Replace(text[1..], "万元");
        assert first[..1] == [text[0]];
        assert text[0] == '万' ==> "万" <= first;
        assert "万" <= first ==> first[0] == '万';
      }
    }
  }

  lemma {:induction false} WanResidual(text: string)
    ensures Residual(text, WAN_UNITS) == WithoutWan(text)
  {
    assert WAN_UNITS[1..] == ["万"] && ["万"][1..] == [];
    ReplaceTwice(text);
  }

  /** White space and the tokens 万 and 万元, in any order. */
  predicate WanFiller(s: string) {
    s == "" || (IsSpace(s[0]) && WanFiller(s[1..])) || ("万元" <= s && WanFiller(s[2..]))
    || (s[0] == '万' && WanFiller(s[1..]))
  }

  /** A total price: one literal among fillers, worth ten thousand times the literal. */
  ghost predicate WanText(text: string, v: real) {
    exists l: string, lit: string, r: string, x: real ::
      && text == l + lit + r && WanFiller(l) && WanFiller(r)
      && Denotes(lit, x) && v == x * 10000.0
  }

  lemma {:induction false} FillerBlanks(s: string)
    ensures WanFiller(s) <==> AllSpace(WithoutWan(s))
  {
    if s == "" {
    } else {
      var w := WithoutWan(s);
      if "万元" <= s {
        FillerBlanks(s[2..]);
        assert w[1..] == WithoutWan(s[2..]);
        assert WanFiller(s) ==> AllSpace(w) by {
          if WanFiller(s[1..]) {
            assert s[1..][0] == '元';
          }
        }
      } else {
        FillerBlanks(s[1..]);
        assert w[1..] == WithoutWan(s[1..]);
      }
      assert AllSpace(w) <==> IsSpace(w[0]) && AllSpace(w[1..]);
    }
  }

  lemma {:induction false} WanStep(text: string, k: nat)
    requires text != "" && k == (if "万元" <= text then 2 else 1)
    ensures WithoutWan(text) == [if text[0] == '万' then ' ' else text[0]] + WithoutWan(text[k..])
  {
  }

  lemma SplitToken(l: string, s: string)
    requires l != "" && (s == "" || s[0] != '元')
    ensures "万元" <= l + s <==> "万元" <= l
  {
    if "万元" <= l + s {
      assert (l + s)[1] == '元';
      assert |l| >= 2 && l[..2] == (l + s)[..2];
    }
    if "万元" <= l {
      assert l[..2] == (l + s)[..2];
    }
  }

  lemma {:induction false} WithoutWanAppend(l: string, s: string)
    requires s == "" || s[0] != '元'
    ensures WithoutWan(l + s) == WithoutWan(l) + WithoutWan(s)
  {
    if l == "" {
      Empty(s);
      Empty(WithoutWan(s));
    } else {
      var k := if "万元" <= l then 2 else 1;
      var c := if l[0] == '万' then ' ' else l[0];
      WithoutWanAppend(l[k..], s);
      WanStep(l, k);
      SplitToken(l, s);
      DropInto(l, s, k);
      WanStep(l + s, k);
      Assoc([c], WithoutWan(l[k..]), WithoutWan(s));
    }
  }

  lemma ConsBack(lit: string, rest: string)
    requires lit != ""
    ensures [lit[0]] + (lit[1..] + rest) == lit + rest
  {
  }

  lemma {:induction false} WithoutWanLiteral(lit: string, r: string)
    requires forall i :: 0 <= i < |lit| ==> NumericChar(lit[i])
    ensures WithoutWan(lit + r) == lit + WithoutWan(r)
  {
    if lit == "" {
      Empty(r);
      Empty(WithoutWan(r));
    } else {
      WithoutWanLiteral(lit[1..], r);
      DropInto(lit, r, 1);
      assert (lit + r)[0] == lit[0];
      WanStep(lit + r, 1);
      ConsBack(lit, WithoutWan(r));
    }
  }

  /** Leading blanks of the residual come from leading fillers of the text. */
  lemma {:induction false} PullBackBlanks(text: string, blanks: string, rest: string) returns (l: string, s: string)
    requires WithoutWan(text) == blanks + rest && AllSpace(blanks)
    ensures text == l + s && WanFiller(l) && WithoutWan(s) == rest
  {
    if blanks == "" {
      Empty(rest);
      Empty(text);
      l, s := "", text;
    } else {
      var k := if "万元" <= text then 2 else 1;
      WanStep(text, k);
      assert WithoutWan(text)[0] == blanks[0];
      DropInto(blanks, rest, 1);
      Drop(WithoutWan(text)[..1], WithoutWan(text[k..]));
      var l';
      l', s := PullBackBlanks(text[k..], blanks[1..], rest);
      l := text[..k] + l';
      Halves(text, k);
      Assoc(text[..k], l', s);
      Drop(text[..k], l');
      assert l[0] == text[0] && (k == 2 ==> "万元" <= l);
    }
  }

  lemma {:induction false} PullBackLiteral(text: string, lit: string, rest: string) returns (s: string)
    requires WithoutWan(text) == lit + rest
    requires forall i :: 0 <= i < |lit| ==> NumericChar(lit[i])
    ensures text == lit + s && WithoutWan(s) == rest
  {
    if lit == "" {
      Empty(rest);
      Empty(text);
      s := text;
    } else {
      var k := if "万元" <= text then 2 else 1;
      WanStep(text, k);
      assert WithoutWan(text)[0] == lit[0] == text[0];
      DropInto(lit, rest, 1);
      s := PullBackLiteral(text[1..], lit[1..], rest);
      Assoc([lit[0]], lit[1..], s);
      Halves(lit, 1);
      Halves(text, 1);
    }
  }

  lemma {:induction false} WithoutWanText(l: string, lit: string, r: string)
    requires lit != "" && forall i :: 0 <= i < |lit| ==> NumericChar(lit[i])
    ensures WithoutWan(l + lit + r) == WithoutWan(l) + lit + WithoutWan(r)
  {
    var s := lit + r;
    assert s[0] == lit[0];
    assert l + lit + r == l + s;
    WithoutWanAppend(l, s);
    WithoutWanLiteral(lit, r);
  }

  lemma {:induction false} WanTextAccepted(l: string, lit: string, r: string, x: real)
    requires WanFiller(l) && WanFiller(r) && Denotes(lit, x)
    ensures NumberIn(Residual(l + lit + r, WAN_UNITS)) == Number(x)
  {
    LiteralChars(lit, x);
    FillerBlanks(l);
    FillerBlanks(r);
    WanResidual(l + lit + r);
    WithoutWanText(l, lit, r);
    LiteralIsAccepted(WithoutWan(l), lit, WithoutWan(r), x);
  }

  lemma PullBack(text: string, before: string, lit: string, after: string) returns (l: string, r: string)
    requires WithoutWan(text) == before + lit + after && AllSpace(before) && AllSpace(after)
    requires forall i :: 0 <= i < |lit| ==> NumericChar(lit[i])
    ensures text == l + lit + r && WanFiller(l) && WanFiller(r)
  {
    assert before + lit + after == before + (lit + after);
    var s;
    l, s := PullBackBlanks(text, before, lit + after);
    r := PullBackLiteral(s, lit, after);
    assert l + (lit + r) == l + lit + r;
    FillerBlanks(r);
  }

  lemma {:induction false} WanAcceptedText(text: string, x: real)
    requires NumberIn(Residual(text, WAN_UNITS)) == Number(x)
    ensures WanText(text, x * CNY_PER_WAN)
  {
    WanResidual(text);
    NumberGrammar(WithoutWan(text), x);
    var before, lit, after :|
      WithoutWan(text) == before + lit + after && AllSpace(before) && AllSpace(after) && Denotes(lit, x);
    LiteralChars(lit, x);
    var l, r := PullBack(text, before, lit, after);
    assert text == l + lit + r;
  }

  /** `parse_wan_to_cny` accepts exactly one literal among 万, 万元 and white space. */
  lemma {:induction false} WanGrammar(text: string, v: real)
    ensures ToCny(NumberIn(Residual(text, WAN_UNITS))) == Number(v) <==> WanText(text, v)
  {
    var residual := Residual(text, WAN_UNITS);
    if ToCny(NumberIn(residual)) == Number(v) {
      WanAcceptedText(text, NumberIn(residual).value);
    }
    if WanText(text, v) {
      WanTextRead(text, v);
    }
  }

  lemma {:induction false} WanTextRead(text: string, v: real)
    requires WanText(text, v)
    ensures NumberIn(Residual(text, WAN_UNITS)) == Number(v / CNY_PER_WAN)
  {
    var l, lit, r, x :| text == l + lit + r && WanFiller(l) && WanFiller(r)
                        && Denotes(lit, x) && v == x * 10000.0;
    WanTextAccepted(l, lit, r, x);
  }

  lemma {:induction false} FillerYuan(s: string, i: nat)
    requires WanFiller(s) && i < |s| && s[i] == '元'
    ensures i > 0 && s[i - 1] == '万'
  {
    if "万元" <= s && WanFiller(s[2..]) {
      if i > 1 {
        FillerYuan(s[2..], i - 2);
      }
    } else if i > 0 {
      FillerYuan(s[1..], i - 1);
    }
  }

  lemma PlainYuanOutside(text: string, i: nat, v: real)
    requires i < |text| && text[i] == '元' && (i == 0 || text[i - 1] != '万')
    ensures !WanText(text, v)
  {
    if WanText(text, v) {
      var l, lit, r, x :| text == l + lit + r && WanFiller(l) && WanFiller(r)
                          && Denotes(lit, x) && v == x * 10000.0;
      LiteralChars(lit, x);
      if i < |l| {
        FillerYuan(l, i);
      } else if i >= |l| + |lit| {
        FillerYuan(r, i - |l| - |lit|);
      }
      assert false;
    }
  }

  /** Unit safety: a 元 that is not part of 万元 is never scaled by ten thousand, but refused. */
  lemma {:induction false} PlainYuanRefused(text: string, i: nat)
    requires i < |text| && text[i] == '元' && (i == 0 || text[i - 1] != '万')
    ensures !ToCny(NumberIn(Residual(text, WAN_UNITS))).Number?
  {
    var r := ToCny(NumberIn(Residual(text, WAN_UNITS)));
    if r.Number? {
      WanGrammar(text, r.value);
      PlainYuanOutside(text, i, r.value);
    }
  }

  // ---- What digits are worth ----

  function Pow10(n: nat): int {
    if n == 0 then 1 else 10 * Pow10(n - 1)
  }

  lemma {:induction false} Pow10Plus(m: nat, n: nat)
    ensures Pow10(m + n) == Pow10(m) * Pow10(n)
  {
    if m == 0 {
    } else {
      Pow10Plus(m - 1, n);
    }
  }

  /** A digit is its place in 0123456789. */
  lemma DigitValues(d: nat)
    requires d < 10
    ensures WholeValue(["0123456789"[d]]) == d
  {
    var s := ["0123456789"[d]];
    assert s[..0] == "";
    assert WholeValue(s[..0]) == 0;
  }

  /** Place value: digits written in front count by the number of digits behind them. */
  lemma {:induction false} PlaceValue(a: string, b: string)
    ensures WholeValue(a + b) == WholeValue(a) * Pow10(|b|) + WholeValue(b)
  {
    if b == "" {
      assert a + b == a;
    } else {
      var front := b[..|b| - 1];
      PlaceValue(a, front);
      assert (a + b)[..|a + b| - 1] == a + front;
      ShiftOne(WholeValue(a), Pow10(|front|), WholeValue(front), Digit(b[|b| - 1]));
    }
  }

  lemma ShiftOne(a: int, p: int, b: int, d: int)
    ensures (a * p + b) * 10 + d == a * (10 * p) + (b * 10 + d)
  {
  }

  /** The decimal point moved `n` places to the left. */
  function Shifted(x: real, n: nat): real
    decreases n
  {
    if n == 0 then x else Shifted(x / 10.0, n - 1)
  }

  lemma {:induction false} ShiftedLinear(x: real, y: real, n: nat)
    ensures Shifted(x + y, n) == Shifted(x, n) + Shifted(y, n)
    ensures Shifted(x / 10.0, n) == Shifted(x, n) / 10.0
    decreases n
  {
    if n == 0 {
    } else {
      ShiftedLinear(x / 10.0, y / 10.0, n - 1);
      assert (x + y) / 10.0 == x / 10.0 + y / 10.0;
    }
  }

  lemma {:induction false} FractionAppend(s: string, c: char)
    ensures FractionValue(s + [c]) == FractionValue(s) + Shifted(Digit(c) as real, |s| + 1)
  {
    var d := Digit(c) as real;
    if s == "" {
      assert s + [c] == [c] && [c][1..] == "";
      assert Shifted(d, 1) == Shifted(d / 10.0, 0);
    } else {
      FractionAppend(s[1..], c);
      assert (s + [c])[1..] == s[1..] + [c];
      ShiftedLinear(d, 0.0, |s|);
    }
  }

  /** Decimals are tenths, hundredths and so on: the value of the digits with the point moved in front of them. */
  lemma {:induction false} DecimalPlaces(s: string)
    ensures FractionValue(s) == Shifted(WholeValue(s) as real, |s|)
  {
    if s == "" {
    } else {
      var front, c := s[..|s| - 1], s[|s| - 1];
      DecimalPlaces(front);
      FractionAppend(front, c);
      assert s == front + [c];
      var w, d := WholeValue(front) as real, Digit(c) as real;
      ShiftedLinear(w * 10.0, d, |s|);
      assert w * 10.0 / 10.0 == w;
    }
  }

  /** Decimal notation of a natural number. */
  function Decimal(n: nat): (s: string)
    ensures s != ""
  {
    if n < 10 then ["0123456789"[n]] else Decimal(n / 10) + ["0123456789"[n % 10]]
  }

  lemma {:induction false} DecimalDigits(n: nat)
    ensures AllDigits(Decimal(n)) && WholeValue(Decimal(n)) == n
  {
    DigitValues(n % 10);
    if n < 10 {
    } else {
      DecimalDigits(n / 10);
      PlaceValue(Decimal(n / 10), ["0123456789"[n % 10]]);
      assert Pow10(1) == 10 * Pow10(0);
    }
  }

  /** Every natural number is read back from its decimal notation. */
  lemma {:induction false} WrittenNumberRead(n: nat)
    ensures ToWhole(NumberIn(Decimal(n))) == Number(n as real)
  {
    DecimalDigits(n);
    WholeExactly(Decimal(n), "");
    assert Decimal(n) + "" == Decimal(n);
  }

  // ---- Replacing unit tokens ----

  ghost predicate Occurs(unit: string, text: string) {
    exists p: string, q: string :: text == p + unit + q
  }

  lemma OccursLater(unit: string, text: string)
    requires text != ""
    ensures Occurs(unit, text[1..]) ==> Occurs(unit, text)
    ensures unit <= text ==> Occurs(unit, text)
  {
    if Occurs(unit, text[1..]) {
      var p: string, q: string :| text[1..] == p + unit + q;
      assert text == [text[0]] + p + unit + q;
    }
    if unit <= text {
      assert text == "" + unit + text[|unit|..];
    }
  }

  lemma {:induction false} ReplaceAbsent(text: string, unit: string)
    requires unit != "" && !Occurs(unit, text)
    ensures Replace(text, unit) == text
  {
    if text == "" {
    } else {
      OccursLater(unit, text);
      ReplaceAbsent(text[1..], unit);
    }
  }

  lemma NotYet(before: string, unit: string, after: string)
    requires before != "" && unit != "" && !Occurs(unit, before + unit[..|unit| - 1])
    ensures !Occurs(unit, before[1..] + unit[..|unit| - 1])
    ensures !(unit <= before + unit + after)
  {
    var head, text := before + unit[..|unit| - 1], before + unit + after;
    OccursLater(unit, head);
    assert head[1..] == before[1..] + unit[..|unit| - 1];
    assert forall k :: 0 <= k < |head| ==> text[k] == head[k];
    assert |unit| <= |head|;
    assert text[..|unit|] == head[..|unit|];
  }

  /** The first occurrence of a token is read as one blank, and replacing goes on behind it. */
  lemma {:induction false} ReplaceFirst(before: string, unit: string, after: string)
    requires unit != "" && !Occurs(unit, before + unit[..|unit| - 1])
    ensures Replace(before + unit + after, unit) == before + " " + Replace(after, unit)
  {
    if before == "" {
      assert before + unit + after == unit + after && "" + " " + Replace(after, unit) == " " + Replace(after, unit);
      Drop(unit, after);
    } else {
      var text, rest := before + unit + after, Replace(after, unit);
      NotYet(before, unit, after);
      ReplaceFirst(before[1..], unit, after);
      assert text[1..] == before[1..] + unit + after && text[0] == before[0];
      assert [before[0]] + (before[1..] + " " + rest) == before + " " + rest;
    }
  }

  // ---- Whole numbers ----

  predicate AllZero(s: string) {
    forall i :: 0 <= i < |s| ==> s[i] == '0'
  }

  lemma {:induction false} FractionRange(s: string)
    requires AllDigits(s)
    ensures 0.0 <= FractionValue(s) < 1.0
    ensures FractionValue(s) == 0.0 <==> AllZero(s)
  {
    if s == "" {
    } else {
      FractionRange(s[1..]);
      assert AllZero(s) <==> s[0] == '0' && AllZero(s[1..]);
    }
  }

  lemma UnsignedAccepted(digits: string, v: real)
    requires Unsigned(digits, v) && digits != "" && IsDigit(digits[0])
    ensures NumberIn(digits) == Number(v)
  {
    assert Denotes(digits, v);
    assert "" + digits + "" == digits;
    LiteralIsAccepted("", digits, "", v);
  }

  lemma {:induction false} PartsDenote(whole: string, fraction: string, digits: string)
    requires whole != "" && AllDigits(whole) && AllDigits(fraction)
    requires digits == whole + (if fraction == "" then "" else "." + fraction)
    ensures Unsigned(digits, WholeValue(whole) as real + FractionValue(fraction))
    ensures digits != "" && IsDigit(digits[0])
  {
    assert digits[0] == whole[0];
  }

  lemma WholeOf(r: NumberResult, n: int, f: real)
    requires 0.0 <= f < 1.0 && r == Number(n as real + f)
    ensures ToWhole(r) == if f == 0.0 then Number(n as real) else NotWhole
  {
    assert (n as real + f).Floor == n;
  }

  /** `parse_int` takes a decimal point only before zeros. */
  lemma {:induction false} WholeExactly(whole: string, fraction: string)
    requires whole != "" && AllDigits(whole) && AllDigits(fraction)
    ensures var digits := whole + (if fraction == "" then "" else "." + fraction);
            ToWhole(NumberIn(digits)) == (if AllZero(fraction) then Number(WholeValue(whole) as real) else NotWhole)
  {
    var digits := whole + (if fraction == "" then "" else "." + fraction);
    var n, f := WholeValue(whole), FractionValue(fraction);
    PartsDenote(whole, fraction, digits);
    UnsignedAccepted(digits, n as real + f);
    FractionRange(fraction);
    WholeOf(NumberIn(digits), n, f);
  }
}
