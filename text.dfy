/** The few string operations the header parser and the diagnostics rely on:
    `String.trim`, ASCII lower-casing, the search for a separator character
    and the decimal rendering of `%d` with ASCII digits.  The functions are plain definitions;
    what they guarantee is stated by the lemmas beside them. */
module Text {
  import opened Wrappers

  /** A character that `String.trim` strips: every code point up to U+0020. */
  predicate IsTrimmable(c: char) {
    c <= ' '
  }

  /** `s` with its leading trimmable characters removed. */
  function TrimStart(s: string): (r: string) {
    if |s| > 0 && IsTrimmable(s[0]) then TrimStart(s[1..]) else s
  }

  /** `s` with its trailing trimmable characters removed. */
  function TrimEnd(s: string): (r: string) {
    if |s| > 0 && IsTrimmable(s[|s| - 1]) then TrimEnd(s[..|s| - 1]) else s
  }

  /** `String.trim`: both ends stripped of characters at or below the space. */
  function Trim(s: string): (r: string) {
    TrimEnd(TrimStart(s))
  }

  /** `TrimStart` drops a prefix of trimmable characters, and no more. */
  lemma {:induction false} TrimStartSpec(s: string)
    ensures |TrimStart(s)| <= |s| && TrimStart(s) == s[|s| - |TrimStart(s)|..]
    ensures forall i :: 0 <= i < |s| - |TrimStart(s)| ==> IsTrimmable(s[i])
    ensures TrimStart(s) == [] || !IsTrimmable(TrimStart(s)[0])
    decreases |s|
  {
    if |s| > 0 && IsTrimmable(s[0]) {
      TrimStartSpec(s[1..]);
    }
  }

  /** `TrimEnd` drops a suffix of trimmable characters, and no more. */
  lemma {:induction false} TrimEndSpec(s: string)
    ensures |TrimEnd(s)| <= |s| && TrimEnd(s) == s[..|TrimEnd(s)|]
    ensures forall i :: |TrimEnd(s)| <= i < |s| ==> IsTrimmable(s[i])
    ensures TrimEnd(s) == [] || !IsTrimmable(TrimEnd(s)[|TrimEnd(s)| - 1])
    decreases |s|
  {
    if |s| > 0 && IsTrimmable(s[|s| - 1]) {
      var shorter := s[..|s| - 1];
      TrimEndSpec(shorter);
      assert TrimEnd(s) == TrimEnd(shorter);
      assert shorter[..|TrimEnd(s)|] == s[..|TrimEnd(s)|];
      forall i | |TrimEnd(s)| <= i < |s| ensures IsTrimmable(s[i]) {
        if i < |s| - 1 { assert s[i] == shorter[i]; }
      }
    }
  }

  /** What `Trim` leaves: nothing when `s` is all trimmable, otherwise a
      string no longer than `s` that starts and ends significantly. */
  lemma TrimSpec(s: string)
    ensures |Trim(s)| <= |s|
    ensures Trim(s) == [] <==> forall i :: 0 <= i < |s| ==> IsTrimmable(s[i])
    ensures Trim(s) != [] ==> !IsTrimmable(Trim(s)[0]) && !IsTrimmable(Trim(s)[|Trim(s)| - 1])
  {
    var t := TrimStart(s);
    TrimStartSpec(s);
    TrimEndSpec(t);
    assert (forall i :: 0 <= i < |s| ==> IsTrimmable(s[i])) ==> t == [] by {
      if t != [] {
        assert t[0] == s[|s| - |t|];
      }
    }
  }

  /** Trimming twice is trimming once. */
  lemma TrimIdempotent(s: string)
    ensures Trim(Trim(s)) == Trim(s)
  {
    TrimSpec(s);
    var r := Trim(s);
    assert TrimStart(r) == r;
    assert TrimEnd(r) == r;
  }

  /** Stripping a trimmable prefix in front of a significant start. */
  lemma {:induction false} TrimStartOver(prefix: string, rest: string)
    requires forall i :: 0 <= i < |prefix| ==> IsTrimmable(prefix[i])
    requires rest == [] || !IsTrimmable(rest[0])
    ensures TrimStart(prefix + rest) == rest
    decreases |prefix|
  {
    if prefix != [] {
      assert (prefix + rest)[1..] == prefix[1..] + rest;
      TrimStartOver(prefix[1..], rest);
    }
  }

  /** Stripping a trimmable suffix behind a significant end. */
  lemma {:induction false} TrimEndOver(rest: string, suffix: string)
    requires forall i :: 0 <= i < |suffix| ==> IsTrimmable(suffix[i])
    requires rest == [] || !IsTrimmable(rest[|rest| - 1])
    ensures TrimEnd(rest + suffix) == rest
    decreases |suffix|
  {
    if suffix != [] {
      var shorter := suffix[..|suffix| - 1];
      assert (rest + suffix)[..|rest + suffix| - 1] == rest + shorter;
      TrimEndOver(rest, shorter);
    }
  }

  /** `Trim` removes exactly the runs of trimmable characters around a core
      whose first and last characters are significant. */
  lemma TrimAround(prefix: string, core: string, suffix: string)
    requires forall i :: 0 <= i < |prefix| ==> IsTrimmable(prefix[i])
    requires forall i :: 0 <= i < |suffix| ==> IsTrimmable(suffix[i])
    requires core == [] || (!IsTrimmable(core[0]) && !IsTrimmable(core[|core| - 1]))
    ensures Trim(prefix + core + suffix) == core
  {
    if core == [] {
      assert prefix + core + suffix == prefix + suffix;
      var whole := prefix + suffix;
      assert forall i :: 0 <= i < |whole| ==> IsTrimmable(whole[i]) by {
        forall i | 0 <= i < |whole| ensures IsTrimmable(whole[i]) {
          if i >= |prefix| { assert whole[i] == suffix[i - |prefix|]; }
        }
      }
      TrimSpec(whole);
    } else {
      assert prefix + core + suffix == prefix + (core + suffix);
      TrimStartOver(prefix, core + suffix);
      TrimEndOver(core, suffix);
    }
  }

  /** ASCII lower-casing of one character; other characters are unchanged. */
  function LowerChar(c: char): (r: char) {
    if 'A' <= c <= 'Z' then (c as int + 32) as char else c
  }

  /** ASCII lower-casing of a string, character by character. */
  function Lower(s: string): (r: string) {
    if s == [] then [] else [LowerChar(s[0])] + Lower(s[1..])
  }

  /** `Lower` keeps the length and lower-cases every character in place. */
  lemma {:induction false} LowerSpec(s: string)
    ensures |Lower(s)| == |s|
    ensures forall i :: 0 <= i < |s| ==> Lower(s)[i] == LowerChar(s[i])
  {
    if s != [] {
      LowerSpec(s[1..]);
    }
  }

  /** A lower-cased string contains no ASCII capital. */
  lemma LowerHasNoCapital(s: string)
    ensures forall i :: 0 <= i < |Lower(s)| ==> !('A' <= Lower(s)[i] <= 'Z')
  {
    LowerSpec(s);
  }

  /** Lower-casing a lower-cased string changes nothing. */
  lemma LowerIdempotent(s: string)
    ensures Lower(Lower(s)) == Lower(s)
  {
    LowerSpec(s);
    LowerSpec(Lower(s));
  }

  /** The position of the first occurrence of `c` in `s`, if any. */
  function IndexOf(s: string, c: char): (r: Option<nat>) {
    if s == [] then None
    else if s[0] == c then Some(0)
    else
      match IndexOf(s[1..], c)
      case None => None
      case Some(i) => Some(i + 1)
  }

  /** `IndexOf` finds `c` exactly when it occurs, and then its first
      occurrence. */
  lemma {:induction false} IndexOfSpec(s: string, c: char)
    ensures IndexOf(s, c).None? <==> c !in s
    ensures IndexOf(s, c).Some? ==>
      var i := IndexOf(s, c).value;
      i < |s| && s[i] == c && c !in s[..i]
    decreases |s|
  {
    if s != [] && s[0] != c {
      IndexOfSpec(s[1..], c);
      assert c in s <==> c in s[1..] by {
        assert s == [s[0]] + s[1..];
      }
      if IndexOf(s[1..], c).Some? {
        var i := IndexOf(s[1..], c).value;
        assert s[..i + 1] == [s[0]] + s[1..][..i];
      }
    }
  }

  /** The character of one decimal digit. */
  function DigitChar(d: nat): (c: char)
    requires d < 10
    ensures '0' <= c <= '9'
  {
    ('0' as int + d) as char
  }

  predicate IsDigits(s: string) {
    forall i :: 0 <= i < |s| ==> '0' <= s[i] <= '9'
  }

  /** The number a string of decimal digits denotes, most significant first;
      the reference reading against which the rendering below is checked. */
  function DecimalValue(s: string): (v: nat)
    requires IsDigits(s)
    decreases |s|
  {
    if s == [] then 0
    else DecimalValue(s[..|s| - 1]) * 10 + (s[|s| - 1] as int - '0' as int)
  }

  /** The decimal digits of `n`, most significant first, without leading zeros. */
  function NatToString(n: nat): (r: string)
    ensures |r| > 0 && IsDigits(r)
    ensures |r| > 1 ==> r[0] != '0'
  {
    if n < 10 then [DigitChar(n)] else NatToString(n / 10) + [DigitChar(n % 10)]
  }

  /** The digits `NatToString` writes denote `n`. */
  lemma {:induction false} NatToStringValue(n: nat)
    ensures DecimalValue(NatToString(n)) == n
  {
    if n >= 10 {
      var r := NatToString(n / 10);
      NatToStringValue(n / 10);
      assert (r + [DigitChar(n % 10)])[..|r|] == r;
    }
  }

  /** Java's `%d` rendering of an integer in a locale whose zero digit is
      '0': a minus sign for negatives, then ASCII decimal digits. */
  function IntToString(i: int): (r: string)
    ensures |r| > 0
    ensures r[0] == '-' <==> i < 0
  {
    if i < 0 then "-" + NatToString(-i) else NatToString(i)
  }

  /** `%d` writes the decimal digits of the magnitude, behind a minus sign
      exactly when the integer is negative, and those digits denote it. */
  lemma IntToStringValue(i: int)
    ensures IntToString(i) == (if i < 0 then "-" + NatToString(-i) else NatToString(i))
    ensures i >= 0 ==> IsDigits(IntToString(i)) && DecimalValue(IntToString(i)) == i
    ensures i < 0 ==> IsDigits(IntToString(i)[1..]) && DecimalValue(IntToString(i)[1..]) == -i
  {
    if i < 0 {
      assert IntToString(i)[1..] == NatToString(-i);
      NatToStringValue(-i);
    } else {
      NatToStringValue(i);
    }
  }
}
