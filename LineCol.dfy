/**
 * `parseLineCol`: reads a position written as "<line>:<column>".
 *
 * The two halves are read with LLVM's `StringRef::getAsInteger(10, unsigned&)`,
 * which is modelled here by its documented behaviour: the whole text must be
 * decimal digits, at least one, and the value must fit in the 64-bit
 * accumulator and then in a 32-bit `unsigned`.
 */
module LineCol {
  import opened Wrappers

  const UINT_MAX: nat := 0xFFFF_FFFF
  const ULLONG_MAX: nat := 0xFFFF_FFFF_FFFF_FFFF

  predicate IsDigit(c: char) {
    '0' <= c <= '9'
  }

  predicate IsDigits(s: string) {
    forall i :: 0 <= i < |s| ==> IsDigit(s[i])
  }

  function DigitValue(c: char): nat
    requires IsDigit(c)
  {
    c as int - '0' as int
  }

  /** The value of a string of decimal digits, read left to right (leading zeros allowed). */
  function DecimalValue(s: string): nat
    requires IsDigits(s)
  {
    if s == [] then 0 else DecimalValue(s[..|s| - 1]) * 10 + DigitValue(s[|s| - 1])
  }

  /** `t` is a decimal numeral whose value `v` fits in an `unsigned`. */
  predicate IsUnsignedNumeral(t: string, v: nat) {
    t != [] && IsDigits(t) && DecimalValue(t) == v && v <= UINT_MAX
  }

  /** StringRef::find: the index of the first `c` in `s`, or None for `npos`. */
  function Find(s: string, c: char): (r: Option<nat>)
    ensures r.None? <==> c !in s
    ensures r.Some? ==> r.value < |s| && s[r.value] == c && c !in s[..r.value]
  {
    if s == [] then None
    else if s[0] == c then Some(0)
    else
      match Find(s[1..], c)
      case None => None
      case Some(i) =>
        assert s[..i + 1] == [s[0]] + s[1..][..i];
        Some(i + 1)
  }

  /**
   * The digit loop of getAsUnsignedInteger over `s[i..]`, with `acc` the value
   * read so far: a character that is not a decimal digit fails, and so does an
   * accumulator that leaves 64 bits (LLVM's `Result/Radix < PrevResult` test
   * detects exactly that).
   */
  function ConsumeDigits(s: string, i: nat, acc: nat): Option<nat>
    requires i <= |s|
    decreases |s| - i
  {
    if i == |s| then Some(acc)
    else if !IsDigit(s[i]) then None
    else
      var next := acc * 10 + DigitValue(s[i]);
      if next > ULLONG_MAX then None else ConsumeDigits(s, i + 1, next)
  }

  /** StringRef::getAsInteger(10, unsigned&); None where the source returns `true` (failure). */
  function GetAsUnsigned(s: string): (r: Option<nat>)
    ensures s == [] ==> r.None?
    ensures r.Some? ==> r.value <= UINT_MAX
  {
    if s == [] then None
    else
      match ConsumeDigits(s, 0, 0)
      case None => None
      case Some(v) => if v > UINT_MAX then None else Some(v)
  }

  /**
   * parseLineCol: None when there is no ':', when the text before the first
   * ':' or the text after it is not an unsigned numeral, or when the line or
   * the column is 0.
   */
  function ParseLineCol(lineCol: string): (r: Option<(nat, nat)>)
    ensures ':' !in lineCol ==> r.None?
    ensures r.Some? ==> 1 <= r.value.0 <= UINT_MAX && 1 <= r.value.1 <= UINT_MAX
  {
    match Find(lineCol, ':')
    case None => None
    case Some(colonIdx) =>
      match GetAsUnsigned(lineCol[..colonIdx])
      case None => None
      case Some(line) =>
        match GetAsUnsigned(lineCol[colonIdx + 1..])
        case None => None
        case Some(col) =>
          if line == 0 || col == 0 then None else Some((line, col))
  }

  /** The canonical decimal numeral of `n` (no leading zeros). */
  function ToDecimal(n: nat): (s: string)
    ensures s != [] && IsDigits(s)
  {
    if n < 10 then ['0' + n as char]
    else ToDecimal(n / 10) + ['0' + (n % 10) as char]
  }

  // ---------------------------------------------------------------------------
  // Properties

  lemma {:induction false} DecimalValueOfPrefixIsSmaller(s: string, k: nat)
    requires IsDigits(s) && k <= |s|
    ensures DecimalValue(s[..k]) <= DecimalValue(s)
    decreases |s|
  {
    if k < |s| {
      assert s[..|s| - 1][..k] == s[..k];
      DecimalValueOfPrefixIsSmaller(s[..|s| - 1], k);
    } else {
      assert s[..k] == s;
    }
  }

  /** The digit loop, started on `s[i..]` with the value of `s[..i]`, yields the value of `s` unless it overflows. */
  lemma {:induction false} ConsumeDigitsValue(s: string, i: nat)
    requires i <= |s| && IsDigits(s[..i]) && DecimalValue(s[..i]) <= ULLONG_MAX
    ensures ConsumeDigits(s, i, DecimalValue(s[..i])) ==
            if IsDigits(s) && DecimalValue(s) <= ULLONG_MAX then Some(DecimalValue(s)) else None
    decreases |s| - i
  {
    if i == |s| {
      assert s[..i] == s;
    } else if !IsDigit(s[i]) {
      assert !IsDigits(s);
    } else {
      assert s[..i + 1][..i] == s[..i];
      assert IsDigits(s[..i + 1]);
      var next := DecimalValue(s[..i]) * 10 + DigitValue(s[i]);
      assert next == DecimalValue(s[..i + 1]);
      if next > ULLONG_MAX {
        if IsDigits(s) {
          DecimalValueOfPrefixIsSmaller(s, i + 1);
        }
      } else {
        ConsumeDigitsValue(s, i + 1);
      }
    }
  }

  /** getAsInteger accepts exactly the unsigned numerals, and returns their value. */
  lemma GetAsUnsignedCorrect(s: string)
    ensures GetAsUnsigned(s).Some? <==> s != [] && IsDigits(s) && DecimalValue(s) <= UINT_MAX
    ensures GetAsUnsigned(s).Some? ==> IsUnsignedNumeral(s, GetAsUnsigned(s).value)
  {
    if s != [] {
      assert s[..0] == [];
      ConsumeDigitsValue(s, 0);
    }
  }

  /**
   * parseLineCol succeeds with (line, col) exactly when the text splits at a
   * ':' into two unsigned numerals whose values are line and col, both at
   * least 1. Since a numeral holds no ':', the split is at the first ':', so
   * "5:", ":5" and "1:2:3" all fail.
   */
  lemma ParseLineColCharacterization(s: string, line: nat, col: nat)
    ensures ParseLineCol(s) == Some((line, col)) <==>
            line >= 1 && col >= 1 &&
            exists i :: 0 <= i < |s| && s[i] == ':' &&
                        IsUnsignedNumeral(s[..i], line) && IsUnsignedNumeral(s[i + 1..], col)
  {
    var f := Find(s, ':');
    if ParseLineCol(s) == Some((line, col)) {
      var i := f.value;
      GetAsUnsignedCorrect(s[..i]);
      GetAsUnsignedCorrect(s[i + 1..]);
    }
    if line >= 1 && col >= 1 &&
       exists i :: 0 <= i < |s| && s[i] == ':' &&
                   IsUnsignedNumeral(s[..i], line) && IsUnsignedNumeral(s[i + 1..], col)
    {
      var i :| 0 <= i < |s| && s[i] == ':' &&
               IsUnsignedNumeral(s[..i], line) && IsUnsignedNumeral(s[i + 1..], col);
      assert ':' !in s[..i] by {
        forall k | 0 <= k < i ensures s[..i][k] != ':' {
          assert IsDigit(s[..i][k]);
        }
      }
      assert f == Some(i);
      GetAsUnsignedCorrect(s[..i]);
      GetAsUnsignedCorrect(s[i + 1..]);
    }
  }

  lemma {:induction false} DecimalValueOfToDecimal(n: nat)
    ensures DecimalValue(ToDecimal(n)) == n
  {
    if n >= 10 {
      var s := ToDecimal(n);
      assert s[..|s| - 1] == ToDecimal(n / 10);
      DecimalValueOfToDecimal(n / 10);
    }
  }

  /** Every position with line and column in 1 .. UINT_MAX survives printing as "L:C" and parsing back. */
  lemma ParseLineColRoundTrip(line: nat, col: nat)
    requires 1 <= line <= UINT_MAX && 1 <= col <= UINT_MAX
    ensures ParseLineCol(ToDecimal(line) + ":" + ToDecimal(col)) == Some((line, col))
  {
    var a, b := ToDecimal(line), ToDecimal(col);
    var s := a + ":" + b;
    DecimalValueOfToDecimal(line);
    DecimalValueOfToDecimal(col);
    assert s[..|a|] == a && s[|a| + 1..] == b && s[|a|] == ':';
    ParseLineColCharacterization(s, line, col);
  }

  /** The malformed positions named by the format: a missing ':', a missing or non-numeric half, a zero. */
  lemma MalformedPositionsRejected()
    ensures ParseLineCol("5") == None
    ensures ParseLineCol("abc") == None
    ensures ParseLineCol("5:") == None
    ensures ParseLineCol(":5") == None
    ensures ParseLineCol("1:2:3") == None
    ensures ParseLineCol("0:5") == None
    ensures ParseLineCol("5:0") == None
  {
    assert "1:2:3"[2..] == "2:3";
    assert ConsumeDigits("2:3", 1, 2) == None;
    assert "0:5"[..1] == "0" && "0:5"[2..] == "5";
    assert "5:0"[..1] == "5" && "5:0"[2..] == "0";
  }
}
