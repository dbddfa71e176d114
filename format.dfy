/** The text form of a signature: decimal numbers, the two-line `"r = <r>\r\n" + "s = <s>"`
    layout that signing produces, and the positional parse that verification applies to each
    line (skip four characters, read a decimal number).
 */
module SignatureFormat {
  import opened Wrappers

  /** A signature pair. Both numbers are non-negative: the signer computes them as remainders,
      and the parser reads only unsigned decimal digits. */
  datatype Signature = Signature(r: nat, s: nat)

  /** The exceptions that reading a signature can raise. */
  datatype KeyError =
    | IndexOutOfRange     // fewer than two lines were supplied
    | ArgumentOutOfRange  // a line is shorter than its four-character label
    | Format              // the text after the label is not a decimal number

  predicate IsDigit(c: char)
  {
    '0' <= c <= '9'
  }

  predicate AllDigits(s: string)
  {
    forall i :: 0 <= i < |s| ==> IsDigit(s[i])
  }

  function DigitChar(d: int): (c: char)
    requires 0 <= d < 10
    ensures IsDigit(c) && c as int - '0' as int == d
  {
    ('0' as int + d) as char
  }

  /** The decimal representation of `n`, as BigInteger.ToString prints it: at least one digit
      and no leading zero. */
  function Dec(n: nat): (s: string)
    ensures |s| >= 1 && AllDigits(s)
    ensures |s| > 1 ==> s[0] != '0'
    decreases n
  {
    if n < 10 then [DigitChar(n)] else Dec(n / 10) + [DigitChar(n % 10)]
  }

  /** The number that a string of decimal digits denotes, most significant digit first. */
  function DigitsValue(s: string): nat
    requires AllDigits(s)
  {
    if s == [] then 0 else 10 * DigitsValue(s[..|s| - 1]) + (s[|s| - 1] as int - '0' as int)
  }

  /** BigInteger.Parse restricted to unsigned decimal digits: a non-empty digit string gives its
      value, anything else is a format error. */
  function ParseNat(s: string): Option<nat>
  {
    if |s| > 0 && AllDigits(s) then Some(DigitsValue(s)) else None
  }

  /** Parsing the decimal representation of `n` gives back `n`. */
  lemma {:induction false} ParseDec(n: nat)
    ensures ParseNat(Dec(n)) == Some(n)
    decreases n
  {
    if n >= 10 {
      var s := Dec(n);
      assert s[..|s| - 1] == Dec(n / 10);
      ParseDec(n / 10);
      assert DigitsValue(s) == 10 * (n / 10) + n % 10;
    }
  }

  /** A digit string whose first digit is not zero denotes a positive number. */
  lemma {:induction false} LeadingDigitPositive(s: string)
    requires |s| > 0 && AllDigits(s) && s[0] != '0'
    ensures DigitsValue(s) >= 1
    decreases |s|
  {
    if |s| > 1 {
      LeadingDigitPositive(s[..|s| - 1]);
    }
  }

  /** Conversely, a digit string without leading zeros is the decimal representation of the
      number it denotes. */
  lemma {:induction false} DecOfDigits(s: string)
    requires |s| > 0 && AllDigits(s) && (|s| == 1 || s[0] != '0')
    ensures Dec(DigitsValue(s)) == s
    decreases |s|
  {
    if |s| > 1 {
      var front := s[..|s| - 1];
      LeadingDigitPositive(front);
      DecOfDigits(front);
      var n := DigitsValue(s);
      var d := s[|s| - 1] as int - '0' as int;
      assert n == 10 * DigitsValue(front) + d;
      assert n / 10 == DigitsValue(front) && n % 10 == d;
      assert [DigitChar(d)] == [s[|s| - 1]];
      assert s == front + [s[|s| - 1]];
    }
  }

  /** What verification reads from one signature line: `line.Substring(4)` fails on a line
      shorter than four characters, and BigInteger.Parse fails on a suffix that is not a
      number. */
  function ParseLine(line: string): (r: Result<nat, KeyError>)
    ensures r == Err(ArgumentOutOfRange) <==> |line| < 4
    ensures r.Ok? <==> |line| > 4 && AllDigits(line[4..])
  {
    if |line| < 4 then Err(ArgumentOutOfRange)
    else match ParseNat(line[4..])
      case None => Err(Format)
      case Some(n) => Ok(n)
  }

  /** Reading `key[0]` then `key[1]`, in that order, as C# evaluates them. */
  function ParseKey(key: seq<string>): (r: Result<Signature, KeyError>)
    ensures |key| == 0 ==> r == Err(IndexOutOfRange)
    ensures |key| >= 1 && ParseLine(key[0]).Err? ==> r == Err(ParseLine(key[0]).error)
    ensures r.Ok? <==> |key| >= 2 && ParseLine(key[0]).Ok? && ParseLine(key[1]).Ok?
    ensures r.Ok? ==> r.value == Signature(ParseLine(key[0]).value, ParseLine(key[1]).value)
  {
    if |key| < 1 then Err(IndexOutOfRange)
    else match ParseLine(key[0])
      case Err(e) => Err(e)
      case Ok(r) =>
        if |key| < 2 then Err(IndexOutOfRange)
        else match ParseLine(key[1])
          case Err(e) => Err(e)
          case Ok(s) => Ok(Signature(r, s))
  }

  /** The first line of a signature text. */
  function RLine(sig: Signature): (line: string)
    ensures |line| > 4 && line[4..] == Dec(sig.r) && NoCarriageReturn(line)
  {
    DigitsLineHasNoCarriageReturn("r = ", Dec(sig.r));
    "r = " + Dec(sig.r)
  }

  /** The second line of a signature text. */
  function SLine(sig: Signature): (line: string)
    ensures |line| > 4 && line[4..] == Dec(sig.s) && NoCarriageReturn(line)
  {
    DigitsLineHasNoCarriageReturn("s = ", Dec(sig.s));
    "s = " + Dec(sig.s)
  }

  predicate NoCarriageReturn(line: string)
  {
    forall i :: 0 <= i < |line| ==> line[i] != '\r'
  }

  /** A four-character label without a carriage return, followed by digits, has none. */
  lemma DigitsLineHasNoCarriageReturn(tag: string, digits: string)
    requires |tag| == 4 && NoCarriageReturn(tag) && AllDigits(digits)
    ensures (tag + digits)[4..] == digits && NoCarriageReturn(tag + digits)
  {
    forall i | 4 <= i < |tag + digits| ensures (tag + digits)[i] != '\r' {
      assert (tag + digits)[i] == digits[i - 4];
    }
  }

  /** What signing returns: `$"r = {r}\r\ns = {s}"`. */
  function SignatureText(sig: Signature): (text: string)
    ensures Lines(text) == [RLine(sig), SLine(sig)]
  {
    LinesOfLine(RLine(sig), SLine(sig));
    LinesOfLine(SLine(sig), "");
    RLine(sig) + "\r\n" + SLine(sig)
  }

  /** Splitting a text at every `"\r\n"`, as a caller does to hand the signature lines to
      verification. */
  function Lines(text: string): (ls: seq<string>)
    ensures |ls| >= 1
    decreases |text|
  {
    if |text| >= 2 && text[0] == '\r' && text[1] == '\n' then [""] + Lines(text[2..])
    else if text == [] then [""]
    else
      var rest := Lines(text[1..]);
      [[text[0]] + rest[0]] + rest[1..]
  }

  /** A line without a carriage return is one line, and is followed by what comes after the
      line break. */
  lemma {:induction false} LinesOfLine(line: string, tail: string)
    requires NoCarriageReturn(line)
    ensures Lines(line) == [line]
    ensures Lines(line + "\r\n" + tail) == [line] + Lines(tail)
    decreases |line|
  {
    if line != [] {
      LinesOfLine(line[1..], tail);
      assert (line + "\r\n" + tail)[1..] == line[1..] + "\r\n" + tail;
      assert [line[0]] + line[1..] == line;
    } else {
      assert line + "\r\n" + tail == "\r\n" + tail;
      assert ("\r\n" + tail)[2..] == tail;
    }
  }

  /** Format stability: the signature text splits into exactly its two lines, and
      each line parses back to its number. */
  lemma SignatureTextRoundTrip(sig: Signature)
    ensures Lines(SignatureText(sig)) == [RLine(sig), SLine(sig)]
    ensures ParseKey(Lines(SignatureText(sig))) == Ok(sig)
  {
    ParseDec(sig.r);
    ParseDec(sig.s);
  }

  /** The parse of a line is positional: the four characters before the number are never
      looked at, whatever the label says. */
  lemma ParseLineIgnoresLabel(prefix: string, other: string, rest: string)
    requires |prefix| == 4 && |other| == 4
    ensures ParseLine(prefix + rest) == ParseLine(other + rest)
  {
    assert (prefix + rest)[4..] == rest;
    assert (other + rest)[4..] == rest;
  }
}
