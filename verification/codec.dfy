/** The text encoding of control-command payloads: the consumer renders
    integers with `i32::to_string` (and a resolution as `"{w}@{h}"`), the
    capture worker splits on '@' and parses each piece with
    `str::parse::<i32>`, replacing anything unparsable by 0. */
module Codec {
  import opened Basics

  predicate IsDigit(c: char) {
    '0' <= c <= '9'
  }

  predicate AllDigits(s: string) {
    forall i :: 0 <= i < |s| ==> IsDigit(s[i])
  }

  function DigitChar(d: nat): (c: char)
    requires d < 10
    ensures IsDigit(c) && c as int - '0' as int == d
  {
    ('0' as int + d) as char
  }

  /** The number denoted by a string of decimal digits, most significant first. */
  function DigitsValue(s: string): nat
    requires AllDigits(s)
  {
    if s == [] then 0 else 10 * DigitsValue(s[..|s| - 1]) + (s[|s| - 1] as int - '0' as int)
  }

  /** Decimal digits of n, most significant first, without leading zeros. */
  function NatToString(n: nat): (s: string)
    ensures |s| >= 1 && AllDigits(s)
    ensures |s| > 1 ==> s[0] != '0'
    ensures s[0] == '0' <==> n == 0
    decreases n
  {
    if n < 10 then [DigitChar(n)] else NatToString(n / 10) + [DigitChar(n % 10)]
  }

  /** `i32::to_string`: a minus sign for negative values, then the digits of
      the magnitude. */
  function I32ToString(n: i32): (s: string)
    ensures Canonical(s)
    ensures s[0] == '-' <==> n < 0
  {
    if n < 0 then
      var digits := NatToString(-(n as int));
      assert ("-" + digits)[1..] == digits;
      "-" + digits
    else NatToString(n)
  }

  /** The strings `i32::to_string` produces: "0", or an optional '-' followed
      by digits that do not start with '0'. */
  predicate Canonical(s: string) {
    var digits := if |s| > 0 && s[0] == '-' then s[1..] else s;
    |digits| >= 1 && AllDigits(digits) && (|digits| > 1 || |s| > |digits| ==> digits[0] != '0')
  }

  /** `str::parse::<i32>`: an optional '+' or '-' followed by at least one
      decimal digit, whose value lies in the i32 range. */
  function ParseI32(s: string): Option<i32>
  {
    if s == [] then None
    else if (s[0] == '+' || s[0] == '-') && |s| == 1 then None
    else
      var digits := if s[0] == '+' || s[0] == '-' then s[1..] else s;
      if !AllDigits(digits) then None
      else
        var v: int := if s[0] == '-' then -(DigitsValue(digits) as int) else DigitsValue(digits);
        if I32_MIN <= v <= I32_MAX then Some(v) else None
  }

  /** `value.parse().unwrap_or(0)`: total, unparsable text becomes 0. */
  function ParseOrZero(s: string): (r: i32)
    ensures ParseI32(s) == Some(r) || (ParseI32(s) == None && r == 0)
  {
    ParseI32(s).GetOr(0)
  }

  /** `str::split(sep)`, collected: the maximal sep-free pieces between
      separators, an empty piece where two separators meet or at either end. */
  function Split(s: string, sep: char): (parts: seq<string>)
    ensures |parts| >= 1
    ensures forall i :: 0 <= i < |parts| ==> sep !in parts[i]
  {
    if s == [] then [""]
    else
      var rest := Split(s[1..], sep);
      if s[0] == sep then [""] + rest else [[s[0]] + rest[0]] + rest[1..]
  }

  /** The pieces put back together with sep between neighbours. */
  function Join(parts: seq<string>, sep: char): string
    requires |parts| >= 1
  {
    if |parts| == 1 then parts[0] else parts[0] + [sep] + Join(parts[1..], sep)
  }

  /** The payload of a "setResolution" command. */
  function EncodeResolution(width: i32, height: i32): (r: string)
    ensures Split(r, '@') == [I32ToString(width), I32ToString(height)]
  {
    var parts := [I32ToString(width), I32ToString(height)];
    I32ToStringHasNoAt(width);
    I32ToStringHasNoAt(height);
    SplitJoin(parts, '@');
    assert Join(parts, '@') == I32ToString(width) + "@" + I32ToString(height);
    I32ToString(width) + "@" + I32ToString(height)
  }

  /** The worker's reading of a "setResolution" payload: the first two
      '@'-separated pieces, each parsed with the unwrap_or(0) rule. The
      source indexes the second piece unconditionally, so it demands one. */
  function DecodeResolution(value: string): (i32, i32)
    requires |Split(value, '@')| >= 2
  {
    var args := Split(value, '@');
    (ParseOrZero(args[0]), ParseOrZero(args[1]))
  }

  // ---------------------------------------------------------------------
  // Decimal numbers

  lemma {:induction false} DigitsValueAppend(s: string, c: char)
    requires AllDigits(s) && IsDigit(c)
    ensures AllDigits(s + [c])
    ensures DigitsValue(s + [c]) == 10 * DigitsValue(s) + (c as int - '0' as int)
  {
    assert (s + [c])[..|s + [c]| - 1] == s;
  }

  /** Reading back the digits of n gives n. */
  lemma {:induction false} NatToStringValue(n: nat)
    ensures DigitsValue(NatToString(n)) == n
    decreases n
  {
    if n >= 10 {
      NatToStringValue(n / 10);
      DigitsValueAppend(NatToString(n / 10), DigitChar(n % 10));
    }
  }

  /** A digit string that does not start with '0' denotes a positive number. */
  lemma {:induction false} LeadingDigitPositive(s: string)
    requires |s| >= 1 && AllDigits(s) && s[0] != '0'
    ensures DigitsValue(s) >= 1
  {
    if |s| > 1 {
      var init := s[..|s| - 1];
      assert init[0] == s[0];
      LeadingDigitPositive(init);
    }
  }

  /** Rendering the value of a digit string without leading zeros gives the
      string back. */
  lemma {:induction false} ValueNatToString(s: string)
    requires |s| >= 1 && AllDigits(s) && (|s| > 1 ==> s[0] != '0')
    ensures NatToString(DigitsValue(s)) == s
  {
    if |s| > 1 {
      var init := s[..|s| - 1];
      var last := s[|s| - 1];
      assert init[0] == s[0];
      LeadingDigitPositive(init);
      ValueNatToString(init);
      var n := DigitsValue(s);
      assert n == 10 * DigitsValue(init) + (last as int - '0' as int);
      assert n / 10 == DigitsValue(init) && n % 10 == last as int - '0' as int;
      assert DigitChar(n % 10) == last;
      assert s == init + [last];
    }
  }

  /** A minus sign followed by digits parses to the negated value when that
      fits in an i32. */
  lemma ParseNegated(digits: string)
    requires |digits| >= 1 && AllDigits(digits) && DigitsValue(digits) <= -I32_MIN
    ensures ParseI32("-" + digits) == Some(-(DigitsValue(digits) as int))
  {
    assert ("-" + digits)[1..] == digits;
  }

  /** Every i32 survives `to_string` followed by `parse`. */
  lemma {:induction false} ParseToStringRoundTrip(n: i32)
    ensures ParseI32(I32ToString(n)) == Some(n)
    ensures ParseOrZero(I32ToString(n)) == n
    ensures Canonical(I32ToString(n))
  {
    if n < 0 {
      NatToStringValue(-(n as int));
      ParseNegated(NatToString(-(n as int)));
    } else {
      NatToStringValue(n);
      ParseI32Accepts(NatToString(n));
    }
  }

  /** Conversely, a canonical numeral that parses is exactly the rendering of
      its value: `to_string` after `parse` is the identity on canonical text. */
  lemma {:induction false} ToStringParseRoundTrip(s: string)
    requires Canonical(s) && ParseI32(s).Some?
    ensures I32ToString(ParseI32(s).value) == s
  {
    if s[0] == '-' {
      var digits := s[1..];
      assert |digits| >= 1 && AllDigits(digits) && digits[0] != '0';
      var m := DigitsValue(digits);
      assert ParseI32(s) == Some(-(m as int));
      LeadingDigitPositive(digits);
      ValueNatToString(digits);
      assert I32ToString(-(m as int)) == "-" + NatToString(m);
      assert s == "-" + digits;
    } else {
      assert s[0] != '+';
      assert ParseI32(s) == Some(DigitsValue(s));
      ValueNatToString(s);
    }
  }

  /** What `parse` accepts: text that parses is an optional sign followed
      by digits only; the sign decides the sign of the value; an unsigned
      digit string parses exactly when its value fits, and to that value. */
  lemma ParseI32Accepts(s: string)
    ensures ParseI32(s).Some? ==> s != [] && (IsDigit(s[0]) || s[0] == '+' || s[0] == '-')
    ensures ParseI32(s).Some? ==> forall i :: 0 < i < |s| ==> IsDigit(s[i])
    ensures ParseI32(s).Some? && s[0] == '-' ==> ParseI32(s).value <= 0
    ensures ParseI32(s).Some? && s[0] != '-' ==> ParseI32(s).value >= 0
    ensures s != [] && AllDigits(s) ==> (ParseI32(s).Some? <==> DigitsValue(s) <= I32_MAX)
    ensures s != [] && AllDigits(s) && ParseI32(s).Some? ==> ParseI32(s).value == DigitsValue(s)
  {
    if ParseI32(s).Some? && (s[0] == '+' || s[0] == '-') {
      forall i | 0 < i < |s| ensures IsDigit(s[i]) { assert s[i] == s[1..][i - 1]; }
    }
  }

  /** Text that is not an optional sign followed by digits never parses, and
      the worker reads it as 0. */
  lemma NonNumeralReadsAsZero(s: string)
    requires s == []
          || (|s| == 1 && (s[0] == '+' || s[0] == '-'))
          || (exists i :: 1 <= i < |s| && !IsDigit(s[i]))
          || (!IsDigit(s[0]) && s[0] != '+' && s[0] != '-')
    ensures ParseI32(s) == None && ParseOrZero(s) == 0
  {
    if |s| > 1 && (s[0] == '+' || s[0] == '-') && exists i :: 1 <= i < |s| && !IsDigit(s[i]) {
      var i :| 1 <= i < |s| && !IsDigit(s[i]);
      assert !IsDigit(s[1..][i - 1]);
    }
  }

  /** A numeral whose value leaves the i32 range is read as 0 as well. */
  lemma OverflowReadsAsZero(s: string)
    requires |s| >= 1 && AllDigits(s) && DigitsValue(s) > I32_MAX
    ensures ParseOrZero(s) == 0
  {
  }

  // ---------------------------------------------------------------------
  // Splitting and joining

  /** Splitting text that starts with a sep-free prefix a glues a onto the
      first piece of the rest. */
  lemma {:induction false} SplitPrefix(a: string, t: string, sep: char)
    requires sep !in a
    ensures Split(a + t, sep) == [a + Split(t, sep)[0]] + Split(t, sep)[1..]
  {
    if a != [] {
      var st := Split(t, sep);
      SplitPrefix(a[1..], t, sep);
      assert (a + t)[0] == a[0] != sep;
      assert (a + t)[1..] == a[1..] + t;
      var rest := Split(a[1..] + t, sep);
      assert rest == [a[1..] + st[0]] + st[1..];
      assert Split(a + t, sep) == [[a[0]] + rest[0]] + rest[1..];
      assert rest[0] == a[1..] + st[0] && rest[1..] == st[1..];
      assert [a[0]] + (a[1..] + st[0]) == a + st[0];
    } else {
      var st := Split(t, sep);
      assert a + t == t && a + st[0] == st[0];
      assert st == [st[0]] + st[1..];
    }
  }

  /** Splitting undoes joining, provided no piece contains the separator. */
  lemma {:induction false} SplitJoin(parts: seq<string>, sep: char)
    requires |parts| >= 1
    requires forall i :: 0 <= i < |parts| ==> sep !in parts[i]
    ensures Split(Join(parts, sep), sep) == parts
  {
    if |parts| == 1 {
      SplitPrefix(parts[0], "", sep);
      assert parts[0] + "" == parts[0];
    } else {
      var rest := Join(parts[1..], sep);
      SplitJoin(parts[1..], sep);
      SplitPrefix(parts[0], [sep] + rest, sep);
      assert Join(parts, sep) == parts[0] + ([sep] + rest);
      assert ([sep] + rest)[1..] == rest;
      assert parts[0] + "" == parts[0];
      assert parts == [parts[0]] + parts[1..];
    }
  }

  /** Joining undoes splitting: the pieces and separators cover the text. */
  lemma {:induction false} JoinSplit(s: string, sep: char)
    ensures Join(Split(s, sep), sep) == s
  {
    if s != [] {
      var rest := Split(s[1..], sep);
      JoinSplit(s[1..], sep);
      if s[0] == sep {
        assert Split(s, sep)[1..] == rest;
        assert s == [sep] + s[1..];
      } else if |rest| == 1 {
        assert s == [s[0]] + s[1..];
      } else {
        var parts := Split(s, sep);
        assert parts[1..] == rest[1..];
        assert Join(rest, sep) == rest[0] + [sep] + Join(rest[1..], sep);
        assert s == [s[0]] + s[1..];
      }
    }
  }

  /** A decimal rendering never contains the resolution separator. */
  lemma I32ToStringHasNoAt(n: i32)
    ensures '@' !in I32ToString(n)
  {
    var s := I32ToString(n);
    if n < 0 {
      var d := NatToString(-(n as int));
      assert s == "-" + d;
      forall i | 0 <= i < |s| ensures s[i] != '@' {
        if i > 0 { assert s[i] == d[i - 1]; }
      }
    }
  }

  /** Every resolution pair survives `format!("{}@{}")` followed by the
      worker's split-and-parse, and the payload has exactly two pieces. */
  lemma ResolutionRoundTrip(width: i32, height: i32)
    ensures |Split(EncodeResolution(width, height), '@')| == 2
    ensures DecodeResolution(EncodeResolution(width, height)) == (width, height)
  {
    ParseToStringRoundTrip(width);
    ParseToStringRoundTrip(height);
  }

  /** The worker reads only the first two pieces of a "setResolution"
      payload, each with the unwrap_or(0) rule; any further pieces are
      ignored. */
  lemma DecodeReadsFirstTwoPieces(first: string, second: string, more: seq<string>)
    requires '@' !in first && '@' !in second
    requires forall i :: 0 <= i < |more| ==> '@' !in more[i]
    ensures |Split(Join([first, second] + more, '@'), '@')| >= 2
    ensures DecodeResolution(Join([first, second] + more, '@')) == (ParseOrZero(first), ParseOrZero(second))
  {
    var parts := [first, second] + more;
    forall i | 0 <= i < |parts| ensures '@' !in parts[i] {
      if i >= 2 { assert parts[i] == more[i - 2]; }
    }
    SplitJoin(parts, '@');
  }
}
