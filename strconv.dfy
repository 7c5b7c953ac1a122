/** Go's strconv.Atoi on a 64-bit platform (the semantics of
    strconv.ParseInt(s, 10, 64)), and its inverse for canonical decimals. */
module Strconv {
  import opened Int64

  const MaxUint64: int := 0xFFFF_FFFF_FFFF_FFFF
  /** 2^63: the magnitude of the most negative int64. */
  const Cutoff: int := 0x8000_0000_0000_0000

  /** The error Atoi reports beside its value. */
  datatype NumError = NoError | ErrSyntax | ErrRange

  /** Atoi's two results: Go returns the value even when it reports an error. */
  datatype Parsed = Parsed(value: int64, err: NumError)

  predicate IsDigit(c: char) { '0' <= c <= '9' }

  predicate AllDigits(s: string) { forall i :: 0 <= i < |s| ==> IsDigit(s[i]) }

  function DigitValue(c: char): nat
    requires IsDigit(c)
  {
    c as int - '0' as int
  }

  function DigitChar(d: nat): (c: char)
    requires d < 10
    ensures IsDigit(c) && DigitValue(c) == d
  {
    ('0' as int + d) as char
  }

  /** The number a string of decimal digits denotes, most significant first. */
  function DigitsValue(s: string): nat
    requires AllDigits(s)
    decreases |s|
  {
    if s == [] then 0 else DigitsValue(s[..|s| - 1]) * 10 + DigitValue(s[|s| - 1])
  }

  /** Where ParseUint's base-10 loop stands after consuming a string: still
      accumulating, stopped at a non-digit, or stopped because the value
      exceeded 2^64 - 1 (which it reports before looking further). */
  datatype Scan = Accumulated(n: nat) | Syntax | Range

  /** The scan of s reaches position k with every digit before it read and
      no overflow yet, and finds a non-digit there: a syntax error. */
  predicate SyntaxAt(s: string, k: int) {
    0 <= k < |s| && !IsDigit(s[k]) && AllDigits(s[..k]) && DigitsValue(s[..k]) <= MaxUint64
  }

  /** Extending a string by one character: it stops with a syntax error
      either where its prefix does, or at the new character, when the prefix
      was read whole without overflow and the new character is no digit. */
  lemma SyntaxAtExtend(prefix: string, c: char)
    ensures AllDigits(prefix + [c]) ==> AllDigits(prefix)
    ensures (exists k :: SyntaxAt(prefix + [c], k)) <==>
              (exists k :: SyntaxAt(prefix, k)) ||
              (AllDigits(prefix) && DigitsValue(prefix) <= MaxUint64 && !IsDigit(c))
  {
    var s := prefix + [c];
    if AllDigits(s) {
      forall i | 0 <= i < |prefix|
        ensures IsDigit(prefix[i])
      {
        assert prefix[i] == s[i];
      }
    }
    if exists k :: SyntaxAt(s, k) {
      var k :| SyntaxAt(s, k);
      if k < |prefix| {
        assert prefix[..k] == s[..k];
        assert SyntaxAt(prefix, k);
      } else {
        assert s[..k] == prefix;
      }
    }
    if exists k :: SyntaxAt(prefix, k) {
      var k :| SyntaxAt(prefix, k);
      assert prefix[..k] == s[..k];
      assert SyntaxAt(s, k);
    }
    if AllDigits(prefix) && DigitsValue(prefix) <= MaxUint64 && !IsDigit(c) {
      assert s[..|prefix|] == prefix;
      assert SyntaxAt(s, |prefix|);
    }
  }

  /** The unsigned scan, one character at a time from the left: s is the part
      consumed so far, so the state after s is computed from the state after
      all but its last character. */
  function ScanDecimal(s: string): (r: Scan)
    ensures r.Accumulated? <==> AllDigits(s) && DigitsValue(s) <= MaxUint64
    ensures r.Accumulated? ==> r.n == DigitsValue(s)
    ensures r.Syntax? <==> exists k :: SyntaxAt(s, k)
    ensures r.Syntax? ==> !AllDigits(s)
    ensures s != [] && !IsDigit(s[0]) ==> r == Syntax
    decreases |s|
  {
    if s == [] then Accumulated(0)
    else
      var prefix := s[..|s| - 1];
      SyntaxAtExtend(prefix, s[|s| - 1]);
      assert s == prefix + [s[|s| - 1]];
      assert s != [] && !IsDigit(s[0]) ==> SyntaxAt(s, 0);
      match ScanDecimal(prefix)
      case Accumulated(n) =>
        var c := s[|s| - 1];
        if !IsDigit(c) then Syntax
        else if n * 10 + DigitValue(c) > MaxUint64 then Range
        else Accumulated(n * 10 + DigitValue(c))
      case stopped => stopped
  }

  /** The text after an optional leading '+' or '-'. */
  function Unsigned(s: string): (u: string)
    ensures |u| <= |s|
  {
    if s != [] && (s[0] == '+' || s[0] == '-') then s[1..] else s
  }

  /** The number an optionally signed string of digits denotes. */
  function SignedValue(s: string): int
    requires s != [] && AllDigits(Unsigned(s))
  {
    if s[0] == '-' then -(DigitsValue(Unsigned(s)) as int) else DigitsValue(Unsigned(s))
  }

  /** strconv.Atoi(s): an optional '+' or '-' and at least one decimal digit.
      A syntax error yields 0; a value outside int64 yields the bound on the
      side of its sign. */
  function Atoi(s: string): (r: Parsed)
    ensures r.err == ErrSyntax ==> r.value == 0
    ensures r.err == ErrRange ==> s != [] && (r.value as int == Min || r.value as int == Max)
    ensures r.err == ErrRange ==> (r.value as int == Min <==> s[0] == '-')
    ensures r.err == NoError ==> s != [] && Unsigned(s) != [] && AllDigits(Unsigned(s)) &&
                                 r.value as int == SignedValue(s)
    ensures s != [] && Unsigned(s) != [] && AllDigits(Unsigned(s)) ==>
              r == if Min <= SignedValue(s) <= Max then Parsed(SignedValue(s) as int64, NoError)
                   else if s[0] == '-' then Parsed(Min as int64, ErrRange)
                   else Parsed(Max as int64, ErrRange)
    ensures r.err == ErrSyntax <==> s == [] || Unsigned(s) == [] || exists k :: SyntaxAt(Unsigned(s), k)
    ensures s == [] || !(IsDigit(s[0]) || s[0] == '+' || s[0] == '-') ==> r == Parsed(0, ErrSyntax)
  {
    if s == [] then Parsed(0, ErrSyntax)
    else
      var neg := s[0] == '-';
      var unsigned := Unsigned(s);
      if unsigned == [] then Parsed(0, ErrSyntax)
      else
        match ScanDecimal(unsigned)
        case Syntax => Parsed(0, ErrSyntax)
        // ParseUint answers 2^64 - 1, which is beyond both bounds
        case Range => if neg then Parsed(Min as int64, ErrRange) else Parsed(Max as int64, ErrRange)
        case Accumulated(un) =>
          if !neg && un >= Cutoff then Parsed(Max as int64, ErrRange)
          else if neg && un > Cutoff then Parsed(Min as int64, ErrRange)
          else Parsed((if neg then -(un as int) else un) as int64, NoError)
  }

  /** A non-digit met before any overflow is a syntax error, read as 0; so is
      a sign with nothing after it. */
  lemma AtoiSyntaxExamples()
    ensures Atoi("1.5") == Parsed(0, ErrSyntax)
    ensures Atoi("+x") == Parsed(0, ErrSyntax)
    ensures Atoi("-") == Parsed(0, ErrSyntax)
  {
    assert SyntaxAt("1.5", 1) by {
      assert "1.5"[..1] == "1";
    }
    assert Unsigned("+x") == "x";
    assert SyntaxAt("x", 0);
  }

  /** The canonical decimal digits of a natural number. */
  function Decimal(n: nat): (s: string)
    decreases n
  {
    if n < 10 then [DigitChar(n)] else Decimal(n / 10) + [DigitChar(n % 10)]
  }

  /** strconv.Itoa, and what the browser writes into `?page=`: an optional
      '-' followed by the canonical digits. */
  function FormatInt(n: int64): (s: string) {
    if n < 0 then ['-'] + Decimal(-(n as int)) else Decimal(n as int)
  }

  /** The canonical digits of n are digits, and denote n. */
  lemma {:induction false} DecimalDenotes(n: nat)
    ensures Decimal(n) != [] && AllDigits(Decimal(n)) && DigitsValue(Decimal(n)) == n
    decreases n
  {
    var s := Decimal(n);
    if n >= 10 {
      DecimalDenotes(n / 10);
      assert s[..|s| - 1] == Decimal(n / 10);
    }
  }

  /** Atoi reads back every int64 that FormatInt writes, without error. */
  lemma AtoiInvertsFormatInt(n: int64)
    ensures Atoi(FormatInt(n)) == Parsed(n, NoError)
  {
    var s := FormatInt(n);
    if n < 0 {
      DecimalDenotes(-(n as int));
      assert Unsigned(s) == Decimal(-(n as int));
    } else {
      DecimalDenotes(n as int);
      assert Unsigned(s) == s;
    }
  }
}
