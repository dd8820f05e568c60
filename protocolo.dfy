/**
 * The text side of the protocol in main.cpp: the frame parser `parseLine`,
 * `manual_strlen`, and `itoa_custom`, which writes an integer in decimal.
 *
 * A C string is modelled by its characters before the terminating NUL; a
 * pointer at offset |s| reads that terminator (CharAt). A null `char*` is
 * None.
 */
module Protocolo {
  import opened Wrappers
  import opened Tramas

  /** The characters of a C string contain no NUL. */
  predicate IsCString(s: string)
  {
    forall i :: 0 <= i < |s| ==> s[i] != '\0'
  }

  /** What a pointer at offset k of the C string s reads; offset |s| is the terminator. */
  function CharAt(s: string, k: nat): char
    requires k <= |s|
  {
    if k < |s| then s[k] else '\0'
  }

  /** A digit read through a C-string pointer lies before the terminator. */
  lemma DigitIsInside(s: string, k: nat)
    requires k <= |s| && IsDigit(CharAt(s, k))
    ensures k < |s| && s[k] == CharAt(s, k)
  {
  }

  /** manual_strlen: the number of characters before the terminator, 0 for a null pointer. */
  method ManualStrlen(str: Option<string>) returns (len: nat)
    requires str.Some? ==> IsCString(str.value)
    ensures str.None? ==> len == 0
    ensures str.Some? ==> len == |str.value|
  {
    len := 0;
    while str.Some? && CharAt(str.value, len) != '\0'
      invariant str.Some? ==> len <= |str.value|
      invariant str.None? ==> len == 0
      decreases if str.Some? then |str.value| - len else 0
    {
      len := len + 1;
    }
  }

  // ---------------------------------------------------------------------
  // Decimal numbers

  predicate IsDigit(c: char) { '0' <= c <= '9' }

  predicate AllDigits(s: string)
  {
    forall i :: 0 <= i < |s| ==> IsDigit(s[i])
  }

  /** The length of the maximal run of decimal digits at the start of s. */
  function DigitRun(s: string): (n: nat)
    ensures n <= |s| && AllDigits(s[..n])
    ensures n < |s| ==> !IsDigit(s[n])
  {
    if s != [] && IsDigit(s[0]) then 1 + DigitRun(s[1..]) else 0
  }

  /** The value of a digit string read most significant digit first ("" reads as 0). */
  function DecimalValue(ds: string): nat
    requires AllDigits(ds)
  {
    if ds == [] then 0
    else DecimalValue(ds[..|ds| - 1]) * 10 + (ds[|ds| - 1] as int - '0' as int)
  }

  /** The value of the digit run at the start of p. */
  function Magnitude(p: string): nat
  {
    DecimalValue(p[..DigitRun(p)])
  }

  /**
   * The amount an M payload denotes: an optional '-' or '+', then the digit
   * run. Only a leading '-' makes it negative, and a payload that starts
   * with neither a sign nor a digit denotes 0.
   */
  function SignedValue(p: string): (r: int)
    ensures r < 0 ==> p != [] && p[0] == '-'
    ensures p != [] && p[0] == '-' ==> r <= 0
    ensures (p == [] || (p[0] != '-' && p[0] != '+' && !IsDigit(p[0]))) ==> r == 0
  {
    if p != [] && p[0] == '-' then -(Magnitude(p[1..]) as int)
    else if p != [] && p[0] == '+' then Magnitude(p[1..])
    else Magnitude(p)
  }

  // ---------------------------------------------------------------------
  // The frame grammar

  /**
   * What parseLine hands back: the frame (None for a null pointer), the
   * string left in the data buffer, and *rotationValue.
   */
  datatype Parsed = Parsed(trama: Option<Trama>, dataBuffer: string, rotationValue: int)

  /** A rejected line: no frame, an empty data buffer, rotation 0. */
  const Rejected := Parsed(None, "", 0)

  /**
   * The frame grammar: "L,c..." is Load(c) and "M,<sign><digits>..." is
   * Map of the signed digit run; a null line, one shorter than three
   * characters, one without ',' second, or any other tag is rejected.
   * It agrees with parseLine on C strings (no NUL inside); a string with
   * an embedded NUL stands for no line parseLine can receive.
   */
  function Parse(line: Option<string>): Parsed
  {
    if line.None? || |line.value| < 3 || line.value[1] != ',' then Rejected
    else if line.value[0] == 'L' then
      Parsed(Some(Load(line.value[2])), [line.value[2]], 0)
    else if line.value[0] == 'M' then
      Parsed(Some(Map(SignedValue(line.value[2..]))), "", SignedValue(line.value[2..]))
    else Rejected
  }

  /**
   * parseLine: reads the tag and separator, then either the load character
   * or the sign and digits of the rotation, writing the out-parameters as
   * it goes.
   */
  method ParseLine(line: Option<string>) returns (trama: Option<Trama>, originalDataBuffer: string, rotationValue: int)
    requires line.Some? ==> IsCString(line.value)
    ensures Parsed(trama, originalDataBuffer, rotationValue) == Parse(line)
  {
    if line.None? {
      return None, "", 0;
    }
    var len := ManualStrlen(line);
    if len < 3 {
      return None, "", 0;
    }
    var s := line.value;
    var tipo := s[0];
    if s[1] != ',' {
      return None, "", 0;
    }
    var token := 2;
    if tipo == 'L' {
      var dataChar := CharAt(s, token);
      if dataChar == '\0' || dataChar == ' ' {
        dataChar := ' ';
      }
      return Some(Load(dataChar)), [dataChar], 0;
    } else if tipo == 'M' {
      rotationValue := ReadRotation(s);
      return Some(Map(rotationValue)), "", rotationValue;
    }
    return None, "", 0;
  }

  /**
   * The "M" branch of parseLine after "M,": an optional '-' or '+', then
   * digits accumulated most significant first until the first non-digit.
   */
  method ReadRotation(s: string) returns (rotationValue: int)
    requires |s| >= 3 && IsCString(s)
    ensures rotationValue == SignedValue(s[2..])
  {
    var token := 2;
    var sign := 1;
    if CharAt(s, token) == '-' {
      sign := -1;
      token := token + 1;
    } else if CharAt(s, token) == '+' {
      token := token + 1;
    }
    ghost var digitsStart := token;
    var rot := 0;
    while IsDigit(CharAt(s, token))
      invariant digitsStart <= token <= |s|
      invariant AllDigits(s[digitsStart..token])
      invariant rot == DecimalValue(s[digitsStart..token])
      decreases |s| - token
    {
      DigitIsInside(s, token);
      DecimalValueStep(s, digitsStart, token);
      rot := rot * 10 + (s[token] as int - '0' as int);
      token := token + 1;
    }
    RotationOfRun(s, digitsStart, token);
    rotationValue := rot * sign;
  }

  /** One more digit extends a digit run and its value by one decimal place. */
  lemma DecimalValueStep(s: string, start: nat, end: nat)
    requires start <= end < |s| && AllDigits(s[start..end]) && IsDigit(s[end])
    ensures AllDigits(s[start..end + 1])
    ensures DecimalValue(s[start..end + 1]) == DecimalValue(s[start..end]) * 10 + (s[end] as int - '0' as int)
  {
    assert s[start..end + 1] == s[start..end] + [s[end]];
  }

  /**
   * The signed value of an M payload is its sign applied to its maximal
   * digit run, which starts after the sign character if there is one.
   */
  lemma RotationOfRun(s: string, start: nat, end: nat)
    requires |s| >= 3
    requires start == if s[2] == '-' || s[2] == '+' then 3 else 2
    requires start <= end <= |s| && AllDigits(s[start..end])
    requires end < |s| ==> !IsDigit(s[end])
    ensures SignedValue(s[2..]) == (if s[2] == '-' then -1 else 1) * DecimalValue(s[start..end])
  {
    MagnitudeOfRun(s, start, end);
    assert s[2..][1..] == s[3..];
  }

  /** A digit run of length k, followed by the end or a non-digit, is the maximal one. */
  lemma {:induction false} DigitRunExact(s: string, k: nat)
    requires k <= |s| && AllDigits(s[..k])
    requires k < |s| ==> !IsDigit(s[k])
    ensures DigitRun(s) == k
  {
    if k > 0 {
      assert IsDigit(s[..k][0]);
      assert s[1..][..k - 1] == s[..k][1..];
      DigitRunExact(s[1..], k - 1);
    }
  }

  /** A maximal digit run starting at `start` and ending at `end` gives the magnitude. */
  lemma MagnitudeOfRun(s: string, start: nat, end: nat)
    requires start <= end <= |s| && AllDigits(s[start..end])
    requires end < |s| ==> !IsDigit(s[end])
    ensures Magnitude(s[start..]) == DecimalValue(s[start..end])
  {
    assert s[start..][..end - start] == s[start..end];
    DigitRunExact(s[start..], end - start);
  }

  /** A string made only of digits is its own digit run. */
  lemma MagnitudeOfDigits(ds: string)
    requires AllDigits(ds)
    ensures Magnitude(ds) == DecimalValue(ds)
  {
    DigitRunExact(ds, |ds|);
    assert ds[..|ds|] == ds;
  }

  // ---------------------------------------------------------------------
  // Properties of the grammar

  /** A line yields no frame exactly when it is null, short, lacks the ',' or has another tag. */
  lemma ParseRejection(line: Option<string>)
    requires line.Some? ==> IsCString(line.value)
    ensures Parse(line).trama.None? <==>
      line.None? || |line.value| < 3 || line.value[1] != ',' ||
      (line.value[0] != 'L' && line.value[0] != 'M')
    ensures Parse(line).trama.None? ==> Parse(line) == Rejected
  {
  }

  /** "L,c" followed by anything, as a C string, is Load(c) with c in the data buffer. */
  lemma ParseLoad(c: char, rest: string)
    requires c != '\0' && IsCString(rest)
    ensures Parse(Some(['L', ',', c] + rest)) == Parsed(Some(Load(c)), [c], 0)
  {
  }

  /**
   * An M payload made of an optional sign, a run of digits and anything not
   * starting with a digit denotes the signed value of the run, 0 when the
   * run is empty.
   */
  lemma SignedValueOfRun(sign: string, ds: string, rest: string)
    requires IsCString(sign + ds + rest)
    requires sign == "" || sign == "-" || sign == "+"
    requires AllDigits(ds)
    requires rest != [] ==> !IsDigit(rest[0])
    requires sign == "" && ds == [] && rest != [] ==> rest[0] != '-' && rest[0] != '+'
    ensures SignedValue(sign + ds + rest) == if sign == "-" then -(DecimalValue(ds) as int) else DecimalValue(ds)
  {
    var p := sign + ds + rest;
    var k := |sign|;
    assert p[k..k + |ds|] == ds;
    assert k + |ds| < |p| ==> p[k + |ds|] == rest[0];
    MagnitudeOfRun(p, k, k + |ds|);
    if sign == "" {
      assert p[0..] == p;
      if ds != [] {
        assert p[0] == ds[0];
      }
    } else {
      assert p[0] == sign[0];
      assert p[1..] == p[k..];
    }
  }

  /** "M," and a nonempty payload without NUL is Map of the payload's signed value. */
  lemma ParseMapLine(p: string)
    requires |p| >= 1 && IsCString(p)
    ensures Parse(Some("M," + p)) == Parsed(Some(Map(SignedValue(p))), "", SignedValue(p))
  {
    assert ("M," + p)[2..] == p;
  }

  /**
   * "M," then an optional sign, a run of digits and anything not starting
   * with a digit is Map of the signed value of the run, 0 when it is empty.
   */
  lemma ParseMap(sign: string, ds: string, rest: string)
    requires IsCString(sign + ds + rest)
    requires sign == "" || sign == "-" || sign == "+"
    requires |sign + ds + rest| >= 1
    requires AllDigits(ds)
    requires rest != [] ==> !IsDigit(rest[0])
    requires sign == "" && ds == [] && rest != [] ==> rest[0] != '-' && rest[0] != '+'
    ensures var v := if sign == "-" then -(DecimalValue(ds) as int) else DecimalValue(ds);
      Parse(Some("M," + (sign + ds + rest))) == Parsed(Some(Map(v)), "", v)
  {
    ParseMapLine(sign + ds + rest);
    SignedValueOfRun(sign, ds, rest);
  }

  /** Load lines and rejected lines among sample inputs. */
  lemma ParseExamplesLoadAndReject()
    ensures Parse(Some("L,X")) == Parsed(Some(Load('X')), "X", 0)
    ensures Parse(Some("L, ")) == Parsed(Some(Load(' ')), " ", 0)
    ensures Parse(None) == Rejected && Parse(Some("")) == Rejected
    ensures Parse(Some("L")) == Rejected && Parse(Some("L,")) == Rejected
    ensures Parse(Some("M,")) == Rejected && Parse(Some("Z,9")) == Rejected
    ensures Parse(Some("L;A")) == Rejected
  {
  }

  /** Signed map lines among sample inputs, including a stray tail and a lone sign. */
  lemma ParseExamplesSignedMap()
    ensures Parse(Some("M,-5")) == Parsed(Some(Map(-5)), "", -5)
    ensures Parse(Some("M,+7x")).trama == Some(Map(7))
    ensures Parse(Some("M,-")).trama == Some(Map(0))
  {
    ParseMapLine("-5");
    assert "-5"[1..] == "5";
    MagnitudeOfDigits("5");
    ParseMapLine("+7x");
    assert "+7x"[1..] == "7x";
    MagnitudeOfRun("7x", 0, 1);
    assert "7x"[0..] == "7x" && "7x"[0..1] == "7";
    ParseMapLine("-");
    assert "-"[1..] == "";
  }

  /** An unsigned map line with several digits. */
  lemma ParseExampleUnsignedMap()
    ensures Parse(Some("M,12")) == Parsed(Some(Map(12)), "", 12)
  {
    ParseMapLine("12");
    MagnitudeOfDigits("12");
  }

  // ---------------------------------------------------------------------
  // itoa_custom

  function DigitChar(d: nat): (c: char)
    requires d < 10
    ensures IsDigit(c) && c as int - '0' as int == d
  {
    ('0' as int + d) as char
  }

  /**
   * The decimal digits of n, least significant first: none for 0 and at
   * least one otherwise (`DecimalDigits` states that they are digits
   * spelling n).
   */
  function ReversedDigits(n: nat): (r: string)
    ensures r == [] <==> n == 0
  {
    if n == 0 then [] else [DigitChar(n % 10)] + ReversedDigits(n / 10)
  }

  function Reverse(s: string): (r: string)
    ensures |r| == |s|
  {
    if s == [] then [] else Reverse(s[1..]) + [s[0]]
  }

  /** The text itoa_custom writes for v: "0", or the digits of |v| after a '-' when v < 0. */
  function Itoa(v: int): (r: string)
    ensures r != []
    ensures v < 0 ==> r[0] == '-' && |r| == 1 + |ReversedDigits(-v)|
    ensures v > 0 ==> |r| == |ReversedDigits(v)|
  {
    if v == 0 then "0"
    else if v < 0 then "-" + Reverse(ReversedDigits(-v))
    else Reverse(ReversedDigits(v))
  }

  lemma {:induction false} ReverseAt(s: string, k: nat)
    requires k < |s|
    ensures Reverse(s)[k] == s[|s| - 1 - k]
  {
    if k < |s| - 1 {
      ReverseAt(s[1..], k);
    }
  }

  lemma ReverseReverse(s: string)
    ensures Reverse(Reverse(s)) == s
  {
    forall k | 0 <= k < |s|
      ensures Reverse(Reverse(s))[k] == s[k]
    {
      ReverseAt(Reverse(s), k);
      ReverseAt(s, |s| - 1 - k);
    }
  }

  lemma ReverseAppend(a: string, b: string)
    ensures Reverse(a + b) == Reverse(b) + Reverse(a)
  {
    forall k | 0 <= k < |a| + |b|
      ensures Reverse(a + b)[k] == (Reverse(b) + Reverse(a))[k]
    {
      ReverseAt(a + b, k);
      if k < |b| {
        ReverseAt(b, k);
      } else {
        ReverseAt(a, k - |b|);
      }
    }
  }

  /**
   * The digits of n > 0, most significant first, are digits, do not start
   * with '0', and read back as n.
   */
  lemma {:induction false} DecimalDigits(n: nat)
    requires n > 0
    ensures var ds := Reverse(ReversedDigits(n));
      ds != [] && AllDigits(ds) && ds[0] != '0' && DecimalValue(ds) == n
  {
    var ds := Reverse(ReversedDigits(n));
    var d := DigitChar(n % 10);
    assert ([d] + ReversedDigits(n / 10))[1..] == ReversedDigits(n / 10);
    assert ds == Reverse(ReversedDigits(n / 10)) + [d];
    if n / 10 > 0 {
      DecimalDigits(n / 10);
    }
    assert ds[..|ds| - 1] == Reverse(ReversedDigits(n / 10));
  }

  /**
   * itoa_custom writes "0" for 0 and otherwise the decimal digits of |v|
   * with no leading zero, after a '-' exactly when v < 0.
   */
  lemma ItoaShape(v: int)
    ensures Itoa(v) != []
    ensures (Itoa(v)[0] == '-') <==> v < 0
    ensures var ds := if v < 0 then Itoa(v)[1..] else Itoa(v);
      ds != [] && AllDigits(ds) && (ds[0] == '0' <==> v == 0) &&
      DecimalValue(ds) == if v < 0 then -v else v
  {
    if v < 0 {
      DecimalDigits(-v);
      assert Itoa(v)[1..] == Reverse(ReversedDigits(-v));
    } else if v > 0 {
      DecimalDigits(v);
    } else {
      assert Itoa(v)[..0] == [];
    }
  }

  /** itoa_custom's text holds no NUL before its terminator. */
  lemma ItoaIsCString(v: int)
    ensures IsCString(Itoa(v))
  {
    ItoaShape(v);
    var t := Itoa(v);
    forall k | 0 <= k < |t|
      ensures t[k] != '\0'
    {
      if v < 0 && k >= 1 {
        assert t[k] == t[1..][k - 1];
      }
    }
  }

  /** Reading itoa_custom's text back as an M payload gives the value back. */
  lemma ParseItoa(v: int)
    ensures Parse(Some("M," + Itoa(v))) == Parsed(Some(Map(v)), "", v)
  {
    ItoaShape(v);
    ItoaIsCString(v);
    ParseMapLine(Itoa(v));
    if v < 0 {
      MagnitudeOfDigits(Itoa(v)[1..]);
    } else {
      MagnitudeOfDigits(Itoa(v));
    }
  }

  /** Before its final reversal, itoa_custom has written the digits of |v| backwards, then the sign. */
  lemma ItoaReversed(v: int)
    requires v != 0
    ensures Reverse(Itoa(v)) == ReversedDigits(if v < 0 then -v else v) + (if v < 0 then "-" else "")
  {
    var m := if v < 0 then -v else v;
    ReverseReverse(ReversedDigits(m));
    if v < 0 {
      ReverseAppend("-", Reverse(ReversedDigits(m)));
      assert Reverse("-") == "-";
    } else {
      assert ReversedDigits(m) + "" == ReversedDigits(m);
    }
  }

  /**
   * itoa_custom: writes the digits of |val| least significant first, then
   * '-' when val < 0, then the terminator, and reverses the text in place.
   * The buffer must have room for the text and its terminator.
   */
  method ItoaCustom(val: int, buf: array?<char>) returns (r: array?<char>)
    requires buf != null ==> buf.Length > |Itoa(val)|
    modifies buf
    ensures r == buf
    ensures buf != null ==> buf[..|Itoa(val)|] == Itoa(val) && buf[|Itoa(val)|] == '\0'
    ensures buf != null ==> buf[|Itoa(val)| + 1..] == old(buf[|Itoa(val)| + 1..])
  {
    if buf == null {
      return null;
    }
    var i := 0;
    if val == 0 {
      buf[i] := '0';
      i := i + 1;
      buf[i] := '\0';
      return buf;
    }
    var isNegative := false;
    var v := val;
    if v < 0 {
      isNegative := true;
      v := -v;
    }
    i := WriteDigitsBackwards(v, buf);
    if isNegative {
      buf[i] := '-';
      assert buf[..i + 1] == buf[..i] + ['-'];
      i := i + 1;
    }
    ghost var tail := buf[i + 1..];
    assert tail == old(buf[i + 1..]);
    ItoaReversed(val);
    ReverseReverse(Itoa(val));
    assert i == |Itoa(val)|;
    TerminateAndReverse(buf, i);
    assert buf[i + 1..] == tail;
    return buf;
  }

  /**
   * The tail of itoa_custom: the terminator goes after the i characters
   * written so far, then those characters are reversed in place.
   */
  method TerminateAndReverse(buf: array<char>, i: nat)
    requires i < buf.Length
    modifies buf
    ensures buf[..i] == Reverse(old(buf[..i]))
    ensures buf[i] == '\0'
    ensures buf[i + 1..] == old(buf[i + 1..])
  {
    ghost var written := buf[..i];
    buf[i] := '\0';
    assert buf[..i] == written;
    ReverseInPlace(buf, i);
    assert buf[i..][0] == '\0';
    assert buf[i + 1..] == buf[i..][1..];
  }

  /**
   * The digit loop of itoa_custom: writes the digits of v > 0 into buf,
   * least significant first, from position 0; the rest of buf is untouched.
   */
  method WriteDigitsBackwards(v: nat, buf: array<char>) returns (i: nat)
    requires |ReversedDigits(v)| <= buf.Length
    modifies buf
    ensures i == |ReversedDigits(v)|
    ensures buf[..i] == ReversedDigits(v)
    ensures buf[i..] == old(buf[i..])
  {
    i := 0;
    var rest := v;
    while rest != 0
      invariant i + |ReversedDigits(rest)| == |ReversedDigits(v)|
      invariant ReversedDigits(v) == buf[..i] + ReversedDigits(rest)
      invariant buf[i + |ReversedDigits(rest)|..] == old(buf[i + |ReversedDigits(rest)|..])
      decreases rest
    {
      buf[i] := DigitChar(rest % 10);
      i := i + 1;
      rest := rest / 10;
    }
  }

  /**
   * The reversal at the end of itoa_custom: swaps buf[start] and buf[end]
   * while start < end, reversing buf[..n] and leaving the rest alone.
   */
  method ReverseInPlace(buf: array<char>, n: nat)
    requires n <= buf.Length
    modifies buf
    ensures buf[..n] == Reverse(old(buf[..n]))
    ensures buf[n..] == old(buf[n..])
  {
    ghost var before := buf[..n];
    var start := 0;
    var end := n - 1;
    while start < end
      invariant 0 <= start <= n && end == n - 1 - start
      invariant forall k :: 0 <= k < start ==> buf[k] == before[n - 1 - k] && buf[n - 1 - k] == before[k]
      invariant forall k :: start <= k < n - start ==> buf[k] == before[k]
      invariant buf[n..] == old(buf[n..])
    {
      buf[start], buf[end] := buf[end], buf[start];
      start := start + 1;
      end := end - 1;
    }
    forall k | 0 <= k < n
      ensures buf[k] == Reverse(before)[k]
    {
      ReverseAt(before, k);
    }
  }

  // ---------------------------------------------------------------------
  // The buffer main passes to itoa_custom

  function Pow10(k: nat): (p: nat)
    ensures p >= 1
  {
    if k == 0 then 1 else 10 * Pow10(k - 1)
  }

  /** A number below 10^k has at most k digits. */
  lemma {:induction false} DigitCountAtMost(n: nat, k: nat)
    requires n < Pow10(k)
    ensures |ReversedDigits(n)| <= k
  {
    if n > 0 {
      assert k > 0;
      assert n / 10 < Pow10(k - 1);
      DigitCountAtMost(n / 10, k - 1);
    }
  }

  /** A number at least 10^k has more than k digits. */
  lemma {:induction false} DigitCountAbove(n: nat, k: nat)
    requires n >= Pow10(k)
    ensures |ReversedDigits(n)| > k
  {
    if k > 0 {
      assert n / 10 >= Pow10(k - 1);
      DigitCountAbove(n / 10, k - 1);
    }
  }

  /** Multiplying a positive value by ten appends a '0' to its text. */
  lemma ItoaTimesTen(m: nat)
    requires m > 0
    ensures Itoa(10 * m) == Itoa(m) + "0"
  {
    assert ReversedDigits(10 * m) == "0" + ReversedDigits(m);
    ReverseAppend("0", ReversedDigits(m));
  }

  /** k '0' characters. */
  function Zeros(k: nat): string
  {
    if k == 0 then "" else Zeros(k - 1) + "0"
  }

  /** The text of 10^k is a '1' followed by k zeros. */
  lemma {:induction false} ItoaPow10(k: nat)
    ensures Itoa(Pow10(k)) == "1" + Zeros(k)
  {
    if k > 0 {
      var m := Pow10(k - 1);
      ItoaPow10(k - 1);
      ItoaTimesTen(m);
      assert Pow10(k) == 10 * m;
      assert "1" + Zeros(k) == ("1" + Zeros(k - 1)) + "0";
    } else {
      assert ReversedDigits(1) == [DigitChar(1)];
      assert Reverse([DigitChar(1)]) == [DigitChar(1)];
    }
  }

  /** The rotation amount 10^9. */
  const Billion: nat := 1000000000

  /**
   * itoa_custom's text for 10^9. The three facts it combines are separate
   * lemmas so that each one's literal (the value 10^9, nine zeros) stays out
   * of the others' proofs; together in one context the solver unfolds `Itoa`
   * on the literal value and runs out of resource.
   */
  lemma ItoaOfBillion()
    ensures Itoa(Billion) == "1000000000"
  {
    BillionIsPow10();
    ZerosNine();
    ItoaPow10Text(9, Billion, "000000000");
  }

  /** 10^9 is the rotation amount. */
  lemma BillionIsPow10()
    ensures Pow10(9) == Billion
  { }

  /** Nine '0' characters. */
  lemma ZerosNine()
    ensures Zeros(9) == "000000000"
  { }

  /** ItoaPow10 restated for a value and a text given by name. */
  lemma ItoaPow10Text(k: nat, n: nat, z: string)
    requires Pow10(k) == n && Zeros(k) == z
    ensures Itoa(n) == "1" + z
  {
    ItoaPow10(k);
  }

  /**
   * main.cpp prints a rotation through `char buffer[10]`, which holds at
   * most nine characters and the terminator; the line "M,1000000000"
   * yields a rotation whose text needs ten.
   */
  lemma DisplayBufferOverflow()
    ensures Itoa(Billion) == "1000000000"
    ensures Parse(Some("M," + Itoa(Billion))).rotationValue == Billion
    ensures |Itoa(Billion)| + 1 > 10
  {
    ItoaOfBillion();
    ParseItoa(Billion);
  }

  /** Room for the text of any 32-bit int: a sign, ten digits and the terminator. */
  const RotationLabelSize: nat := 12

  /** The text of every 32-bit int, with its terminator, fits RotationLabelSize characters. */
  lemma ItoaFitsRotationLabel(v: int)
    requires -0x8000_0000 <= v < 0x8000_0000
    ensures |Itoa(v)| + 1 <= RotationLabelSize
  {
    assert Pow10(10) == 10000000000;
    if v != 0 {
      DigitCountAtMost(if v < 0 then -v else v, 10);
    }
  }

  /**
   * The rotation amount as main prints it after a Map frame, written by
   * itoa_custom into a buffer of RotationLabelSize characters.
   */
  method RotationLabel(rotationAmount: int) returns (text: string)
    requires -0x8000_0000 <= rotationAmount < 0x8000_0000
    ensures text == Itoa(rotationAmount)
    ensures Parse(Some("M," + text)).trama == Some(Map(rotationAmount))
  {
    var buffer := new char[RotationLabelSize];
    ItoaFitsRotationLabel(rotationAmount);
    var _ := ItoaCustom(rotationAmount, buffer);
    text := buffer[..|Itoa(rotationAmount)|];
    ParseItoa(rotationAmount);
  }
}
