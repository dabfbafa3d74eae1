/**
 * The few `java.lang.String`, `java.io.File` and `java.lang.Integer`
 * operations the core relies on, stated over `string`.
 */
module Text {
  import opened Wrappers
  import Search

  /** `s.startsWith(p)`: `s` is `p` followed by the rest of `s`. */
  predicate StartsWith(s: string, p: string): (r: bool)
    ensures r <==> |p| <= |s| && s == p + s[|p|..]
  {
    assert |p| <= |s| ==> s == s[..|p|] + s[|p|..];
    |p| <= |s| && s[..|p|] == p
  }

  /** Characters `String.trim()` removes: every code point up to U+0020. */
  predicate IsTrimmed(c: char) {
    c <= ' '
  }

  /** `s` with its leading trimmable characters removed. */
  function TrimStart(s: string): (r: string)
    ensures |r| <= |s| && r == s[|s| - |r|..]
    ensures forall i :: 0 <= i < |s| - |r| ==> IsTrimmed(s[i])
    ensures r == [] || !IsTrimmed(r[0])
  {
    if |s| > 0 && IsTrimmed(s[0]) then TrimStart(s[1..]) else s
  }

  /** `s` with its trailing trimmable characters removed. */
  function TrimEnd(s: string): (r: string)
    ensures |r| <= |s| && r == s[..|r|]
    ensures forall i :: |r| <= i < |s| ==> IsTrimmed(s[i])
    ensures r == [] || !IsTrimmed(r[|r| - 1])
  {
    if |s| > 0 && IsTrimmed(s[|s| - 1]) then TrimEnd(s[..|s| - 1]) else s
  }

  /** `s.trim()`: what is left neither starts nor ends with a trimmable character. */
  function Trim(s: string): (r: string)
    ensures |r| <= |s|
    ensures r == [] || (!IsTrimmed(r[0]) && !IsTrimmed(r[|r| - 1]))
  {
    var t := TrimStart(s);
    var r := TrimEnd(t);
    assert r != [] ==> r[0] == t[0];
    r
  }

  /**
   * `r` is the stretch of `s` that starts at `k`, with only trimmable
   * characters before it and after it.
   */
  ghost predicate TrimmedStretch(s: string, k: int, r: string) {
    0 <= k && k + |r| <= |s| && r == s[k..k + |r|] &&
    (forall i :: 0 <= i < k ==> IsTrimmed(s[i])) &&
    (forall i :: k + |r| <= i < |s| ==> IsTrimmed(s[i]))
  }

  /** The trimmed string is the stretch of `s` between its leading and its trailing trimmable characters. */
  lemma TrimSlice(s: string)
    ensures TrimmedStretch(s, |s| - |TrimStart(s)|, Trim(s))
  {
    var t := TrimStart(s);
    var r := TrimEnd(t);
    TrimStretch(s, t, r);
    assert Trim(s) == r;
  }

  /** Dropping the leading stretch `s - t` and then the trailing stretch `t - r` leaves a slice of `s`. */
  lemma TrimStretch(s: string, t: string, r: string)
    requires |t| <= |s| && t == s[|s| - |t|..] && forall i :: 0 <= i < |s| - |t| ==> IsTrimmed(s[i])
    requires |r| <= |t| && r == t[..|r|] && forall i :: |r| <= i < |t| ==> IsTrimmed(t[i])
    ensures TrimmedStretch(s, |s| - |t|, r)
  {
    var k := |s| - |t|;
    assert r == s[k..k + |r|];
    forall i | k + |r| <= i < |s|
      ensures IsTrimmed(s[i])
    {
      assert s[i] == t[i - k];
    }
  }

  /** `s.trim().isEmpty()` holds exactly for strings of trimmable characters only. */
  lemma TrimEmpty(s: string)
    ensures Trim(s) == [] <==> forall i :: 0 <= i < |s| ==> IsTrimmed(s[i])
  {
    var t := TrimStart(s);
    if Trim(s) == [] {
      assert TrimEnd(t) == [];
      assert t == [];
    }
  }

  /** A string that starts and ends with a non-trimmable character is its own trim. */
  lemma TrimUnchanged(s: string)
    requires |s| > 0 && !IsTrimmed(s[0]) && !IsTrimmed(s[|s| - 1])
    ensures Trim(s) == s
  {
  }

  /**
   * `a.equalsIgnoreCase(b)`, with case folded for ASCII letters only: the
   * lengths agree, and at every position the characters are equal or are the
   * two cases of one letter.
   */
  predicate EqualsIgnoreCase(a: string, b: string): (r: bool)
    ensures a == b ==> r
    ensures r <==> |a| == |b| && forall i :: 0 <= i < |a| ==> a[i] == b[i] || CaseMates(a[i], b[i])
  {
    if |a| == |b| then
      FoldAll(a, b);
      forall i :: 0 <= i < |a| ==> ToUpper(a[i]) == ToUpper(b[i])
    else false
  }

  predicate IsAsciiLetter(c: char) {
    'A' <= c <= 'Z' || 'a' <= c <= 'z'
  }

  /** `c` and `d` are the upper and the lower case of one ASCII letter, in either order. */
  predicate CaseMates(c: char, d: char) {
    IsAsciiLetter(c) && IsAsciiLetter(d) && (c as int - d as int == 32 || d as int - c as int == 32)
  }

  /** Two characters fold to the same one exactly when they are equal or case mates. */
  lemma FoldSame(c: char, d: char)
    ensures ToUpper(c) == ToUpper(d) <==> c == d || CaseMates(c, d)
  {
  }

  lemma FoldAll(a: string, b: string)
    requires |a| == |b|
    ensures (forall i :: 0 <= i < |a| ==> ToUpper(a[i]) == ToUpper(b[i])) <==>
            (forall i :: 0 <= i < |a| ==> a[i] == b[i] || CaseMates(a[i], b[i]))
  {
    forall i | 0 <= i < |a| {
      FoldSame(a[i], b[i]);
    }
  }

  /** The request methods the handlers check match in any letter case, and only themselves. */
  lemma MethodNamesIgnoreCase()
    ensures EqualsIgnoreCase("post", "POST") && EqualsIgnoreCase("Get", "GET")
    ensures !EqualsIgnoreCase("GET", "POST") && !EqualsIgnoreCase("PUT", "POST")
  {
    assert ToUpper('G') != ToUpper('P');
    assert ToUpper('U') != ToUpper('O');
  }

  function ToUpper(c: char): char {
    if 'a' <= c <= 'z' then (c as int - 32) as char else c
  }

  // ---- java.io.File.getName on a Unix file system ----

  /** The path with its trailing separators dropped, as `File`'s normalisation does. */
  function StripTrailingSlashes(p: string): (r: string)
    ensures |r| <= |p| && r == p[..|r|]
    ensures forall i :: |r| <= i < |p| ==> p[i] == '/'
    ensures r == [] || r[|r| - 1] != '/'
  {
    if |p| > 0 && p[|p| - 1] == '/' then StripTrailingSlashes(p[..|p| - 1]) else p
  }

  /**
   * `new File(p).getName()`: the last name in the path, that is the text after
   * the last separator once trailing separators are dropped.
   */
  function GetName(p: string): (r: string)
    ensures '/' !in r
    ensures '/' !in p ==> r == p
  {
    var q := StripTrailingSlashes(p);
    var k := Search.LastIndexOf(q, '/');
    q[k + 1..]
  }

  /** Trailing separators do not change a path's name. */
  lemma GetNameTrailing(p: string)
    ensures GetName(p) == GetName(StripTrailingSlashes(p))
  {
    var q := StripTrailingSlashes(p);
    assert StripTrailingSlashes(q) == q;
  }

  /** The name of a file inside a directory is the name it was given. */
  lemma GetNameJoin(dir: string, name: string)
    requires name != [] && '/' !in name
    ensures GetName(dir + "/" + name) == name
  {
    var p := dir + "/" + name;
    assert p[|p| - 1] == name[|name| - 1];
    assert StripTrailingSlashes(p) == p;
    assert p[|dir|] == '/';
    var k := Search.LastIndexOf(p, '/');
    assert k == |dir|;
    assert p[k + 1..] == name;
  }

  // ---- java.lang.Integer ----

  const IntMin: int := -0x8000_0000
  const IntMax: int := 0x7FFF_FFFF

  predicate IsDigit(c: char) {
    '0' <= c <= '9'
  }

  predicate AllDigits(s: string) {
    forall i :: 0 <= i < |s| ==> IsDigit(s[i])
  }

  /** The value of a string of decimal digits. */
  function DigitsValue(s: string): nat
    requires AllDigits(s)
  {
    if s == [] then 0 else DigitsValue(s[..|s| - 1]) * 10 + (s[|s| - 1] as int - '0' as int)
  }

  /**
   * `Integer.parseInt(s)`: an optional sign followed by at least one decimal
   * digit, whose value fits in 32 bits; `None` where Java throws
   * `NumberFormatException`. Only ASCII digits are accepted.
   */
  function ParseInt(s: string): (r: Option<int>)
    ensures r.Some? ==> IntMin <= r.value <= IntMax
    ensures |s| == 0 || !(IsDigit(s[0]) || s[0] == '-' || s[0] == '+') ==> r == None
    ensures |s| > 0 && AllDigits(s) ==>
              r == if DigitsValue(s) <= IntMax then Some(DigitsValue(s)) else None
    ensures |s| > 0 && s[0] == '+' ==>
              r == if |s| > 1 && AllDigits(s[1..]) && DigitsValue(s[1..]) <= IntMax
                   then Some(DigitsValue(s[1..])) else None
    ensures |s| > 0 && s[0] == '-' ==>
              r == if |s| > 1 && AllDigits(s[1..]) && DigitsValue(s[1..]) <= 0 - IntMin
                   then Some(0 - DigitsValue(s[1..])) else None
  {
    if |s| == 0 then None
    else
      var digits := if s[0] == '-' || s[0] == '+' then s[1..] else s;
      if |digits| == 0 || !AllDigits(digits) then None
      else
        var v: int := if s[0] == '-' then 0 - DigitsValue(digits) as int else DigitsValue(digits);
        if IntMin <= v <= IntMax then Some(v) else None
  }

  /** An unsigned run of digits whose value fits in an `int` parses to that value. */
  lemma ParseDigitsRun(s: string)
    requires |s| > 0 && AllDigits(s) && DigitsValue(s) <= IntMax
    ensures ParseInt(s) == Some(DigitsValue(s))
  {
  }

  /** A character that is neither a digit nor a leading sign makes the whole string fail. */
  lemma ParseIntNeedsDigits(s: string, i: nat)
    requires i < |s| && !IsDigit(s[i]) && !(i == 0 && (s[0] == '-' || s[0] == '+'))
    ensures ParseInt(s) == None
  {
    if i > 0 && (s[0] == '-' || s[0] == '+') {
      assert !IsDigit(s[1..][i - 1]);
    }
  }

  function DigitChar(d: nat): (c: char)
    requires d < 10
    ensures IsDigit(c) && c as int - '0' as int == d
  {
    ('0' as int + d) as char
  }

  /** `Integer.toString(n)` for a non-negative `n`. */
  function DecimalString(n: nat): (s: string)
    ensures |s| > 0 && AllDigits(s)
  {
    if n < 10 then [DigitChar(n)] else DecimalString(n / 10) + [DigitChar(n % 10)]
  }

  lemma {:induction false} DigitsValueDecimal(n: nat)
    ensures DigitsValue(DecimalString(n)) == n
  {
    var s := DecimalString(n);
    if n >= 10 {
      DigitsValueDecimal(n / 10);
      assert s[..|s| - 1] == DecimalString(n / 10);
    } else {
      assert s[..0] == [];
    }
  }

  /** `Integer.parseInt` reads back what `Integer.toString` writes. */
  lemma ParseDecimal(n: nat)
    requires n <= IntMax
    ensures ParseInt(DecimalString(n)) == Some(n)
  {
    DigitsValueDecimal(n);
  }
}
