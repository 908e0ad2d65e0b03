/** The kernel's text-to-integer conversions in base 16, as the sysfs accessors call them:
    kstrtoul for the attribute name and kstrtou32 for the stored value. An optional '+', then an
    optional "0x" or "0X", then at least one hex digit of either case, then at most one '\n'. */
module Kstrtox {

  import opened Types
  import opened Text

  /** One more than the largest unsigned long of a 64-bit kernel. */
  const ULONG_LIMIT := 0x1_0000_0000_0000_0000

  /** One more than the largest u32. */
  const U32_LIMIT := 0x1_0000_0000

  /** The number of hex digits at the front of s. */
  function HexRun(s: string): (n: nat)
    ensures n <= |s|
    ensures forall i | 0 <= i < n :: IsHexDigit(s[i])
    ensures n < |s| ==> !IsHexDigit(s[n])
  {
    if s == [] || !IsHexDigit(s[0]) then 0 else 1 + HexRun(s[1..])
  }

  function SkipPlus(s: string): (t: string) {
    if |s| >= 1 && s[0] == '+' then s[1..] else s
  }

  /** Base 16 skips a leading "0x" or "0X". */
  function SkipRadixPrefix(s: string): (t: string) {
    if |s| >= 2 && s[0] == '0' && (s[1] == 'x' || s[1] == 'X') then s[2..] else s
  }

  /** kstrtoull(s, 16, &res): -ERANGE when the digits overflow 64 bits (decided before anything
      after them is looked at), -EINVAL when there is no digit or something other than one
      newline follows them. */
  function Kstrtoull(s: string): (r: Result<nat>)
    ensures r.Ok? ==> r.value < ULONG_LIMIT
    ensures r.Err? ==> r.code == -EINVAL || r.code == -ERANGE
  {
    var t := SkipRadixPrefix(SkipPlus(s));
    var n := HexRun(t);
    var digits := t[..n];
    var rest := t[n..];
    if HexValue(digits) >= ULONG_LIMIT then Err(-ERANGE)
    else if n == 0 then Err(-EINVAL)
    else if rest != [] && rest != "\n" then Err(-EINVAL)
    else Ok(HexValue(digits))
  }

  /** kstrtoul(s, 16, &res); unsigned long is 64 bits wide, so it accepts and rejects exactly
      what kstrtoull does. */
  function Kstrtoul(s: string): (r: Result<nat>)
    ensures r.Ok? ==> r.value < ULONG_LIMIT
    ensures r.Err? ==> r.code == -EINVAL || r.code == -ERANGE
  {
    Kstrtoull(s)
  }

  /** kstrtou32(s, 16, &res): as kstrtoull, then -ERANGE for a value that does not fit. */
  function Kstrtou32(s: string): (r: Result<U32>)
    ensures r.Err? ==> r.code == -EINVAL || r.code == -ERANGE
    ensures r.Ok? <==> Kstrtoull(s).Ok? && Kstrtoull(s).value < U32_LIMIT
    ensures r.Ok? ==> r.value == Kstrtoull(s).value
  {
    match Kstrtoull(s)
    case Err(e) => Err(e)
    case Ok(v) => if v < U32_LIMIT then Ok(v) else Err(-ERANGE)
  }

  lemma {:induction false} HexRunOf(digits: string, tail: string)
    requires forall i | 0 <= i < |digits| :: IsHexDigit(digits[i])
    requires tail == [] || !IsHexDigit(tail[0])
    ensures HexRun(digits + tail) == |digits|
  {
    if digits != [] {
      assert (digits + tail)[1..] == digits[1..] + tail;
      HexRunOf(digits[1..], tail);
    }
  }

  lemma SkipPlusOf(sign: string, u: string)
    requires sign == "" || sign == "+"
    requires u != [] && u[0] != '+'
    ensures SkipPlus(sign + u) == u
  {
    if sign == "+" {
      assert (sign + u)[1..] == u;
    }
  }

  lemma SkipRadixPrefixOf(prefix: string, digits: string, tail: string)
    requires prefix == "" || prefix == "0x" || prefix == "0X"
    requires |digits| >= 1 && forall i | 0 <= i < |digits| :: IsHexDigit(digits[i])
    requires tail == "" || tail == "\n"
    ensures SkipRadixPrefix(prefix + (digits + tail)) == digits + tail
  {
    var body := digits + tail;
    if prefix == "" {
      assert prefix + body == body;
      if |body| >= 2 {
        if |digits| >= 2 {
          assert body[1] == digits[1];
        } else {
          assert body[1] == tail[0];
        }
      }
    } else {
      assert (prefix + body)[2..] == body;
    }
  }

  lemma DigitsThenTail(s: string, digits: string, tail: string)
    requires SkipRadixPrefix(SkipPlus(s)) == digits + tail
    requires |digits| >= 1 && forall i | 0 <= i < |digits| :: IsHexDigit(digits[i])
    requires tail == "" || tail == "\n"
    requires HexValue(digits) < ULONG_LIMIT
    ensures Kstrtoull(s) == Ok(HexValue(digits))
  {
    var body := digits + tail;
    HexRunOf(digits, tail);
    assert body[..|digits|] == digits;
    assert body[|digits|..] == tail;
  }

  /** Every well-formed text is accepted, with the value of its digits: an optional '+', an
      optional radix prefix, one or more hex digits whose value fits, an optional newline. */
  lemma ParseWellFormed(s: string, sign: string, prefix: string, digits: string, tail: string)
    requires sign == "" || sign == "+"
    requires prefix == "" || prefix == "0x" || prefix == "0X"
    requires |digits| >= 1 && forall i | 0 <= i < |digits| :: IsHexDigit(digits[i])
    requires tail == "" || tail == "\n"
    requires HexValue(digits) < ULONG_LIMIT
    requires s == sign + (prefix + (digits + tail))
    ensures Kstrtoull(s) == Ok(HexValue(digits))
  {
    var u := prefix + (digits + tail);
    assert u[0] == '0' || IsHexDigit(u[0]);
    SkipPlusOf(sign, u);
    SkipRadixPrefixOf(prefix, digits, tail);
    DigitsThenTail(s, digits, tail);
  }

  lemma SignSplit(s: string) returns (sign: string)
    ensures sign == "" || sign == "+"
    ensures s == sign + SkipPlus(s)
  {
    if |s| >= 1 && s[0] == '+' {
      sign := "+";
      assert s == sign + s[1..];
    } else {
      sign := "";
      assert s == sign + s;
    }
  }

  lemma PrefixSplit(u: string) returns (prefix: string)
    ensures prefix == "" || prefix == "0x" || prefix == "0X"
    ensures u == prefix + SkipRadixPrefix(u)
  {
    if |u| >= 2 && u[0] == '0' && (u[1] == 'x' || u[1] == 'X') {
      prefix := u[..2];
      assert u == prefix + u[2..];
    } else {
      prefix := "";
      assert u == prefix + u;
    }
  }

  /** s is an optional '+', an optional radix prefix, one or more hex digits and at most one
      newline, in that order. */
  predicate WellFormedSplit(s: string, sign: string, prefix: string, digits: string, tail: string) {
    (sign == "" || sign == "+") &&
    (prefix == "" || prefix == "0x" || prefix == "0X") &&
    |digits| >= 1 && (forall i | 0 <= i < |digits| :: IsHexDigit(digits[i])) &&
    (tail == "" || tail == "\n") &&
    s == sign + (prefix + (digits + tail))
  }

  /** Any text splits into the sign and radix prefix the parser strips, the leading hex-digit
      run after them, and whatever follows the run. */
  lemma Split(s: string) returns (sign: string, prefix: string, digits: string, tail: string)
    ensures sign == "" || sign == "+"
    ensures prefix == "" || prefix == "0x" || prefix == "0X"
    ensures var t := SkipRadixPrefix(SkipPlus(s));
      digits == t[..HexRun(t)] && tail == t[HexRun(t)..]
    ensures s == sign + (prefix + (digits + tail))
  {
    sign := SignSplit(s);
    prefix := PrefixSplit(SkipPlus(s));
    var t := SkipRadixPrefix(SkipPlus(s));
    digits, tail := t[..HexRun(t)], t[HexRun(t)..];
    assert t == digits + tail;
  }

  lemma AcceptedParts(s: string)
    requires Kstrtoull(s).Ok?
    ensures var t := SkipRadixPrefix(SkipPlus(s)); var n := HexRun(t);
      n >= 1 && (t[n..] == "" || t[n..] == "\n") && Kstrtoull(s).value == HexValue(t[..n])
  {
  }

  /** Every accepted text is well formed, and the result is the value of its digits. With
      ParseWellFormed this says Kstrtoull accepts exactly these texts. */
  lemma AcceptedIsWellFormed(s: string)
    requires Kstrtoull(s).Ok?
    ensures exists sign: string, prefix: string, digits: string, tail: string ::
      WellFormedSplit(s, sign, prefix, digits, tail) && Kstrtoull(s).value == HexValue(digits)
  {
    AcceptedParts(s);
    var sign, prefix, digits, tail := Split(s);
    assert WellFormedSplit(s, sign, prefix, digits, tail);
  }

  /** Digits whose value does not fit 64 bits give -ERANGE, whatever surrounds them. */
  lemma OverflowRejected(s: string)
    requires var t := SkipRadixPrefix(SkipPlus(s)); HexValue(t[..HexRun(t)]) >= ULONG_LIMIT
    ensures Kstrtoull(s) == Err(-ERANGE)
  {
  }

  /** Digits that fit, followed by anything other than nothing or a single newline, give
      -EINVAL: trailing junk such as "0x1z" or "1\n\n" is refused. */
  lemma TrailingJunkRejected(s: string)
    requires var t := SkipRadixPrefix(SkipPlus(s)); var n := HexRun(t);
      HexValue(t[..n]) < ULONG_LIMIT && t[n..] != "" && t[n..] != "\n"
    ensures Kstrtoull(s) == Err(-EINVAL)
  {
  }

  /** A text with no hex digit after its sign and radix prefix is rejected with -EINVAL. */
  lemma NoDigitsRejected(s: string)
    requires var t := SkipRadixPrefix(SkipPlus(s)); t == [] || !IsHexDigit(t[0])
    ensures Kstrtoull(s) == Err(-EINVAL)
  {
  }
}
