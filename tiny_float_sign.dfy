/** `parse_sign_of_tiny_float`: recovering, from the text alone, the sign of a decimal literal
    whose value the primitive parser has rounded to zero. */
module TextSign {
  import opened Core

  predicate IsNonzeroDigit(c: char) { '1' <= c <= '9' }

  predicate IsDigit(c: char) { '0' <= c <= '9' }

  /** The characters the scan steps over: `-` (which makes the running sign negative), and
      `+`, `0`, `.` (which leave it alone). */
  predicate IsScanned(c: char) { c == '-' || c == '+' || c == '0' || c == '.' }

  /** What the scan returns on the rest `s` of the text when its running sign is `sign`. */
  function ScanSign(s: string, sign: Ordering): (r: Ordering)
    ensures r == Equal || r == Less || r == sign
  {
    if s == [] then Equal
    else if s[0] == '-' then ScanSign(s[1..], Less)
    else if s[0] == '+' || s[0] == '0' || s[0] == '.' then ScanSign(s[1..], sign)
    else if IsNonzeroDigit(s[0]) then sign
    else Equal
  }

  /** The sign `parse_sign_of_tiny_float` reports for the text `s`: the scan starts positive. */
  function TinyFloatSign(s: string): Ordering
  {
    ScanSign(s, Greater)
  }

  /** The byte loop itself: a running sign, an early return on the first nonzero digit, and a
      break on any character it does not step over. */
  method ParseSignOfTinyFloat(s: string) returns (r: Ordering)
    ensures r == TinyFloatSign(s)
  {
    var sign := Greater;
    for i := 0 to |s|
      invariant ScanSign(s[i..], sign) == TinyFloatSign(s)
    {
      var c := s[i];
      if c == '-' {
        sign := Less;
      } else if c == '+' || c == '0' || c == '.' {
      } else if IsNonzeroDigit(c) {
        return sign;
      } else {
        break;
      }
    }
    return Equal;
  }

  /** `k` is the position of the first nonzero digit, reached with only scanned characters
      before it. */
  ghost predicate FirstNonzeroDigitAt(s: string, k: int)
  {
    0 <= k < |s| && IsNonzeroDigit(s[k]) && forall i :: 0 <= i < k ==> IsScanned(s[i])
  }

  lemma {:induction false} ScanSignNonzero(s: string, sign: Ordering, k: int)
    requires FirstNonzeroDigitAt(s, k)
    ensures ScanSign(s, sign) == if '-' in s[..k] then Less else sign
    decreases k
  {
    if k > 0 {
      assert FirstNonzeroDigitAt(s[1..], k - 1);
      assert s[..k] == [s[0]] + s[1..][..k - 1];
      if s[0] == '-' {
        ScanSignNonzero(s[1..], Less, k - 1);
      } else {
        ScanSignNonzero(s[1..], sign, k - 1);
      }
    }
  }

  lemma {:induction false} ScanSignZero(s: string, sign: Ordering)
    requires sign != Equal
    ensures ScanSign(s, sign) == Equal <==> forall k :: !FirstNonzeroDigitAt(s, k)
    decreases |s|
  {
    if s != [] {
      if IsScanned(s[0]) {
        var sign' := if s[0] == '-' then Less else sign;
        ScanSignZero(s[1..], sign');
        forall k | FirstNonzeroDigitAt(s[1..], k) ensures FirstNonzeroDigitAt(s, k + 1) {}
        forall k | FirstNonzeroDigitAt(s, k) ensures FirstNonzeroDigitAt(s[1..], k - 1) {}
      } else if IsNonzeroDigit(s[0]) {
        assert FirstNonzeroDigitAt(s, 0);
      } else {
        forall k ensures !FirstNonzeroDigitAt(s, k) {
          if 0 < k { assert !IsScanned(s[0]); }
        }
      }
    }
  }

  /** When the scan reaches a nonzero digit, the result is Less exactly when a `-` came before
      it, wherever it came, and Greater otherwise. */
  lemma TinyFloatSignNonzero(s: string, k: int)
    requires FirstNonzeroDigitAt(s, k)
    ensures TinyFloatSign(s) == if '-' in s[..k] then Less else Greater
  {
    ScanSignNonzero(s, Greater, k);
  }

  /** The result is Equal exactly when the scan never reaches a nonzero digit. */
  lemma TinyFloatSignEqual(s: string)
    ensures TinyFloatSign(s) == Equal <==> forall k :: !FirstNonzeroDigitAt(s, k)
  {
    ScanSignZero(s, Greater);
  }

  /** Once the text holds a character the scan stops at, nothing after it matters: the exponent
      of a literal never affects the result. */
  lemma {:induction false} TinyFloatSignIgnoresSuffix(s: string, i: int, t: string)
    requires 0 <= i < |s| && !IsScanned(s[i])
    ensures TinyFloatSign(s + t) == TinyFloatSign(s)
  {
    ScanSignIgnoresSuffix(s, Greater, i, t);
  }

  lemma {:induction false} ScanSignIgnoresSuffix(s: string, sign: Ordering, i: int, t: string)
    requires 0 <= i < |s| && !IsScanned(s[i])
    ensures ScanSign(s + t, sign) == ScanSign(s, sign)
    decreases i
  {
    assert (s + t)[0] == s[0];
    if IsScanned(s[0]) {
      assert (s + t)[1..] == s[1..] + t;
      ScanSignIgnoresSuffix(s[1..], if s[0] == '-' then Less else sign, i - 1, t);
    }
  }

  /** No digit 1-9 occurs in `ds`. */
  predicate NoNonzeroDigit(ds: string)
  {
    forall c :: c in ds ==> !IsNonzeroDigit(c)
  }

  lemma {:induction false} ScanUnsignedSignificand(u: string, rest: string, sign: Ordering)
    requires forall c :: c in u ==> IsDigit(c) || c == '.'
    requires rest == [] || !(IsScanned(rest[0]) || IsDigit(rest[0]))
    ensures ScanSign(u + rest, sign) == if NoNonzeroDigit(u) then Equal else sign
    decreases |u|
  {
    if u == [] {
      assert u + rest == rest;
    } else {
      var v := u + rest;
      assert v[0] == u[0] && u[0] in u;
      if IsNonzeroDigit(u[0]) {
        assert ScanSign(v, sign) == sign;
      } else {
        assert u[0] == '0' || u[0] == '.';
        assert v[1..] == u[1..] + rest;
        assert ScanSign(v, sign) == ScanSign(u[1..] + rest, sign);
        ScanUnsignedSignificand(u[1..], rest, sign);
        assert u == [u[0]] + u[1..];
        assert NoNonzeroDigit(u) == NoNonzeroDigit(u[1..]);
      }
    }
  }

  /** On a literal of the shape the comment in `parse_sign_of_tiny_float` describes, `[+-]? Digit* ('.' Digit*)?`
      followed by an exponent or the end of the text, the result is Equal when every significand
      digit is 0, and otherwise the sign written in front. */
  lemma DecimalLiteralSign(sign: string, intDigits: string, point: bool, fracDigits: string, rest: string)
    requires sign == "" || sign == "+" || sign == "-"
    requires forall c :: c in intDigits ==> IsDigit(c)
    requires forall c :: c in fracDigits ==> IsDigit(c)
    requires rest == [] || !(IsScanned(rest[0]) || IsDigit(rest[0]))
    ensures TinyFloatSign(sign + intDigits + (if point then "." else "") + fracDigits + rest)
         == if NoNonzeroDigit(intDigits + fracDigits) then Equal
            else if sign == "-" then Less else Greater
  {
    var u := intDigits + (if point then "." else "") + fracDigits;
    var s := sign + intDigits + (if point then "." else "") + fracDigits + rest;
    assert s == sign + (u + rest);
    var sign' := if sign == "-" then Less else Greater;
    if sign == "" {
      assert s == u + rest;
    } else {
      assert s[0] == sign[0] && s[1..] == u + rest;
      assert ScanSign(s, Greater) == ScanSign(u + rest, sign');
    }
    ScanUnsignedSignificand(u, rest, sign');
    assert NoNonzeroDigit(u) == NoNonzeroDigit(intDigits + fracDigits);
  }

  /** A literal whose significand digits are all 0 is zero, whatever its sign and exponent. */
  lemma NegativeZeroLiteralExample()
    ensures TinyFloatSign("-0.0e-10000") == Equal
  {
    DecimalLiteralSign("-", "0", true, "0", "e-10000");
    assert "-" + "0" + "." + "0" + "e-10000" == "-0.0e-10000";
  }

  /** A negative literal with a nonzero digit is negative, however small its exponent. */
  lemma NegativeTinyLiteralExample()
    ensures TinyFloatSign("-0.0000090e-10000") == Less
  {
    TinyFloatSignNonzero("-0.0000090e-10000", 8);
  }

  /** An unsigned literal with a nonzero digit is positive. */
  lemma PositiveTinyLiteralExample()
    ensures TinyFloatSign("1.00e-10000") == Greater
  {
    TinyFloatSignNonzero("1.00e-10000", 0);
  }

  /** Two inputs the loop accepts beyond its comment's grammar: a `+` after a `-` does not make
      the sign positive again, and a `-` after a leading zero still counts. */
  lemma LooseSignExamples()
    ensures TinyFloatSign("-+1") == Less
    ensures TinyFloatSign("0-5") == Less
  {
    TinyFloatSignNonzero("-+1", 2);
    TinyFloatSignNonzero("0-5", 2);
  }
}
