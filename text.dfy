/**
 * The pieces of Go's `strings`, `bytes`, `fmt` and `unicode` packages that the
 * protocol code relies on, written over `string` (a sequence of Unicode
 * scalar values).
 */
module Text {
  import opened Wrappers

  // ---------------------------------------------------------------------------
  // Prefixes, suffixes and substrings

  /** strings.HasPrefix */
  predicate HasPrefix(s: string, p: string) {
    |p| <= |s| && s[..|p|] == p
  }

  /** strings.HasSuffix */
  predicate HasSuffix(s: string, p: string) {
    |p| <= |s| && s[|s| - |p|..] == p
  }

  /** strings.Contains / bytes.Contains: `sub` starts at some offset of `s`. */
  predicate Contains(s: string, sub: string) {
    exists i :: 0 <= i <= |s| && HasPrefix(s[i..], sub)
  }

  /** Whatever is placed between two strings is contained in the result. */
  lemma ContainsMiddle(a: string, b: string, c: string)
    ensures Contains(a + b + c, b)
  {
    var s := a + b + c;
    assert s[|a|..][..|b|] == b;
    assert HasPrefix(s[|a|..], b);
  }

  /** A string containing `b` still contains it once text is added around it. */
  lemma ContainsWidened(a: string, s: string, c: string, b: string)
    requires Contains(s, b)
    ensures Contains(a + s + c, b)
  {
    var i :| 0 <= i <= |s| && HasPrefix(s[i..], b);
    var t := a + s + c;
    assert t[|a| + i..][..|b|] == s[i..][..|b|];
    assert HasPrefix(t[|a| + i..], b);
  }

  /** A suffix is in particular a substring. */
  lemma SuffixContained(s: string, p: string)
    requires HasSuffix(s, p)
    ensures Contains(s, p)
  {
    assert HasPrefix(s[|s| - |p|..], p);
  }

  /** strings.TrimSuffix: removes one occurrence of `suffix` at the end, if present. */
  function TrimSuffix(s: string, suffix: string): string {
    if HasSuffix(s, suffix) then s[..|s| - |suffix|] else s
  }

  /** strings.IndexByte: the position of the first `c` in `s`. */
  function IndexOf(s: string, c: char): (r: Option<nat>)
    ensures r.None? <==> c !in s
    ensures r.Some? ==> r.value < |s| && s[r.value] == c && c !in s[..r.value]
  {
    if s == [] then None
    else if s[0] == c then Some(0)
    else match IndexOf(s[1..], c)
      case None => None
      case Some(i) =>
        assert s[..i + 1] == [s[0]] + s[1..][..i];
        Some(i + 1)
  }

  lemma IndexOfAt(s: string, c: char, i: int)
    requires 0 <= i < |s| && s[i] == c && c !in s[..i]
    ensures IndexOf(s, c) == Some(i)
  {
  }

  /** Splitting at the first `c` of `a + [c] + b` when `a` holds none gives back `a` and `b`. */
  lemma IndexOfSplit(a: string, c: char, b: string)
    requires c !in a
    ensures var s := a + [c] + b;
            IndexOf(s, c) == Some(|a|) && s[..|a|] == a && s[|a| + 1..] == b
  {
    var s := a + [c] + b;
    assert s[..|a|] == a;
    IndexOfAt(s, c, |a|);
    assert s[|a| + 1..] == b;
  }

  /**
   * strings.ReplaceAll(s, old, new) for a one-character `old`: every
   * occurrence of `c` is replaced by `by`, scanning left to right.
   */
  function ReplaceAll(s: string, c: char, repl: string): string {
    if s == [] then []
    else (if s[0] == c then repl else [s[0]]) + ReplaceAll(s[1..], c, repl)
  }

  lemma {:induction false} ReplaceAllConcat(a: string, b: string, c: char, repl: string)
    ensures ReplaceAll(a + b, c, repl) == ReplaceAll(a, c, repl) + ReplaceAll(b, c, repl)
  {
    if a == [] {
      assert a + b == b;
    } else {
      assert (a + b)[0] == a[0] && (a + b)[1..] == a[1..] + b;
      ReplaceAllConcat(a[1..], b, c, repl);
      var head := if a[0] == c then repl else [a[0]];
      assert ReplaceAll(a + b, c, repl) == head + (ReplaceAll(a[1..], c, repl) + ReplaceAll(b, c, repl));
    }
  }

  lemma ReplaceAllSingle(x: char, c: char, repl: string)
    ensures ReplaceAll([x], c, repl) == if x == c then repl else [x]
  {
    assert [x][1..] == [];
  }

  lemma {:induction false} ReplaceAllAbsent(s: string, c: char, repl: string)
    requires c !in s
    ensures ReplaceAll(s, c, repl) == s
  {
    if s != [] {
      assert c !in s[1..];
      ReplaceAllAbsent(s[1..], c, repl);
    }
  }

  // ---------------------------------------------------------------------------
  // Decimal text (fmt's %d and Sscanf's %d)

  predicate IsDigit(c: char) {
    '0' <= c <= '9'
  }

  predicate IsDigits(s: string) {
    forall i :: 0 <= i < |s| ==> IsDigit(s[i])
  }

  function DigitChar(d: nat): (c: char)
    requires d < 10
    ensures IsDigit(c)
  {
    (d + '0' as int) as char
  }

  function DigitValue(c: char): nat
    requires IsDigit(c)
  {
    c as int - '0' as int
  }

  /** fmt.Sprintf("%d", n) for n >= 0: the shortest decimal spelling. */
  function Decimal(n: nat): (r: string)
    ensures |r| > 0 && IsDigits(r)
  {
    if n < 10 then [DigitChar(n)] else Decimal(n / 10) + [DigitChar(n % 10)]
  }

  /** fmt.Sprintf("%d", n) for any integer. */
  function IntToDecimal(n: int): string {
    if n < 0 then "-" + Decimal(-n) else Decimal(n)
  }

  /** The value a string of decimal digits denotes (leading zeros allowed). */
  function DecimalValue(s: string): nat
    requires IsDigits(s)
  {
    if s == [] then 0 else 10 * DecimalValue(s[..|s| - 1]) + DigitValue(s[|s| - 1])
  }

  /** Sscanf-style reading of an unsigned decimal: digits only, at least one. */
  function ParseDecimal(s: string): (r: Option<nat>)
    ensures r.Some? <==> s != "" && IsDigits(s)
  {
    if s != "" && IsDigits(s) then Some(DecimalValue(s)) else None
  }

  /** Reading a signed decimal: an optional '-' and digits. */
  function ParseInt(s: string): Option<int> {
    if HasPrefix(s, "-") then
      match ParseDecimal(s[1..])
      case None => None
      case Some(n) => Some(-(n as int))
    else
      match ParseDecimal(s)
      case None => None
      case Some(n) => Some(n)
  }

  /** Reading back what %d wrote gives the original number. */
  lemma {:induction false} DecimalRoundTrip(n: nat)
    ensures DecimalValue(Decimal(n)) == n
  {
    if n >= 10 {
      DecimalRoundTrip(n / 10);
      var s := Decimal(n);
      assert s[..|s| - 1] == Decimal(n / 10);
    }
  }

  /** Distinct numbers are spelled differently. */
  lemma DecimalInjective(a: nat, b: nat)
    requires Decimal(a) == Decimal(b)
    ensures a == b
  {
    DecimalRoundTrip(a);
    DecimalRoundTrip(b);
  }

  lemma ParseDecimalRoundTrip(n: nat)
    ensures ParseDecimal(Decimal(n)) == Some(n)
  {
    DecimalRoundTrip(n);
  }

  /** Reading back what %d wrote for any integer gives the original. */
  lemma ParseIntRoundTrip(n: int)
    ensures ParseInt(IntToDecimal(n)) == Some(n)
  {
    if n < 0 {
      var s := "-" + Decimal(-n);
      assert s[1..] == Decimal(-n);
      ParseDecimalRoundTrip(-n);
    } else {
      var s := Decimal(n);
      assert s[0] != '-' by { assert IsDigit(s[0]); }
      ParseDecimalRoundTrip(n);
    }
  }

  // ---------------------------------------------------------------------------
  // White space (strings.TrimSpace)

  /** unicode.IsSpace, the predicate strings.TrimSpace trims by. */
  predicate IsSpace(c: char) {
    || c == '\t' || c == '\n' || c == '\U{0B}' || c == '\U{0C}' || c == '\r' || c == ' '
    || c == '\U{85}' || c == '\U{A0}' || c == '\U{1680}'
    || ('\U{2000}' <= c <= '\U{200A}')
    || c == '\U{2028}' || c == '\U{2029}' || c == '\U{202F}' || c == '\U{205F}' || c == '\U{3000}'
  }

  predicate AllSpace(s: string) {
    forall i :: 0 <= i < |s| ==> IsSpace(s[i])
  }

  /** strings.TrimLeftFunc(s, unicode.IsSpace) */
  function TrimLeft(s: string): (r: string)
    ensures |r| <= |s| && r == s[|s| - |r|..]
    ensures r == [] || !IsSpace(r[0])
    ensures r == [] <==> AllSpace(s)
  {
    if s == [] || !IsSpace(s[0]) then s else TrimLeft(s[1..])
  }

  /** strings.TrimRightFunc(s, unicode.IsSpace) */
  function TrimRight(s: string): (r: string)
    ensures |r| <= |s| && r == s[..|r|]
    ensures r == [] <==> AllSpace(s)
    ensures r == [] || !IsSpace(r[|r| - 1])
  {
    if AllSpace(s) then [] else [s[0]] + TrimRight(s[1..])
  }

  /** strings.TrimSpace */
  function TrimSpace(s: string): string {
    TrimRight(TrimLeft(s))
  }

  /** Trimming on the left stops at the first non-space character. */
  lemma {:induction false} TrimLeftStopsAt(a: string, c: char, b: string)
    requires !IsSpace(c)
    ensures TrimLeft(a + [c] + b) == TrimLeft(a) + [c] + b
  {
    if a != [] {
      assert (a + [c] + b)[1..] == a[1..] + [c] + b;
      TrimLeftStopsAt(a[1..], c, b);
    }
  }

  /** Trimming on the right stops at the last non-space character. */
  lemma {:induction false} TrimRightStopsAt(a: string, c: char, b: string)
    requires !IsSpace(c)
    ensures TrimRight(a + [c] + b) == a + [c] + TrimRight(b)
  {
    var s := a + [c] + b;
    assert s[|a|] == c;
    if a == [] {
      assert s[1..] == b;
    } else {
      assert s[1..] == a[1..] + [c] + b;
      TrimRightStopsAt(a[1..], c, b);
    }
  }

  /** Trimming introduces no character. */
  lemma TrimLeftKeepsOut(s: string, c: char)
    requires c !in s
    ensures c !in TrimLeft(s)
  {
    var l := TrimLeft(s);
    forall j | 0 <= j < |l| ensures l[j] != c {
      assert l[j] == s[|s| - |l| + j];
    }
  }

  /** TrimSpace around a non-space character trims only the outer ends. */
  lemma TrimSpaceAround(a: string, c: char, b: string)
    requires !IsSpace(c)
    ensures TrimSpace(a + [c] + b) == TrimLeft(a) + [c] + TrimRight(b)
  {
    TrimLeftStopsAt(a, c, b);
    TrimRightStopsAt(TrimLeft(a), c, b);
  }

  lemma {:induction false} TrimRightIdempotent(s: string)
    ensures TrimRight(TrimRight(s)) == TrimRight(s)
  {
    if !AllSpace(s) {
      TrimRightIdempotent(s[1..]);
    }
  }

  lemma {:induction false} TrimLeftRightCommute(s: string)
    ensures TrimLeft(TrimRight(s)) == TrimRight(TrimLeft(s))
  {
    if s != [] && !AllSpace(s) {
      TrimLeftRightCommute(s[1..]);
    }
  }

  /** Trimming again changes nothing more: trimming the left part first is the same as trimming it once. */
  lemma TrimSpaceAfterTrimLeft(s: string)
    ensures TrimSpace(TrimLeft(s)) == TrimSpace(s)
  {
  }

  lemma TrimSpaceAfterTrimRight(s: string)
    ensures TrimSpace(TrimRight(s)) == TrimSpace(s)
  {
    TrimLeftRightCommute(s);
    TrimRightIdempotent(TrimLeft(s));
  }

  /** Text after a non-blank start is kept whole by left trimming. */
  lemma {:induction false} TrimLeftAppend(v: string, w: string)
    requires !AllSpace(v)
    ensures TrimLeft(v + w) == TrimLeft(v) + w
  {
    if IsSpace(v[0]) {
      assert (v + w)[1..] == v[1..] + w;
      TrimLeftAppend(v[1..], w);
    }
  }

  /** Trailing white space is what right trimming removes. */
  lemma {:induction false} TrimRightSpaces(v: string, w: string)
    requires AllSpace(w)
    ensures TrimRight(v + w) == TrimRight(v)
  {
    if v == [] {
      assert v + w == w;
    } else if !AllSpace(v) {
      assert (v + w)[1..] == v[1..] + w;
      TrimRightSpaces(v[1..], w);
    } else {
      assert AllSpace(v + w);
    }
  }

  /** TrimSpace ignores trailing white space such as a line's "\r\n". */
  lemma TrimSpaceTrailing(v: string, w: string)
    requires AllSpace(w)
    ensures TrimSpace(v + w) == TrimSpace(v)
  {
    if AllSpace(v) {
      assert AllSpace(v + w);
    } else {
      TrimLeftAppend(v, w);
      TrimRightSpaces(TrimLeft(v), w);
    }
  }

  /** A line's "\r\n" terminator does not reach TrimSpace's result. */
  lemma TrimSpaceDropsCrLf(v: string)
    ensures TrimSpace(v + "\r\n") == TrimSpace(v)
  {
    var crlf := "\r\n";
    assert forall i :: 0 <= i < |crlf| ==> IsSpace(crlf[i]);
    TrimSpaceTrailing(v, crlf);
  }

  // ---------------------------------------------------------------------------
  // Letter case (strings.ToLower, as far as comparisons with ASCII words see it)

  /**
   * The lower-case form of `c` whenever that form is an ASCII character:
   * A-Z, U+0130 (simple lower case 'i') and U+212A KELVIN SIGN ('k'). Every
   * other character is left as it is; Go would map some of them to other
   * non-ASCII characters, which no ASCII word can equal either way.
   */
  function FoldChar(c: char): char {
    if 'A' <= c <= 'Z' then (c as int - 'A' as int + 'a' as int) as char
    else if c == '\U{130}' then 'i'
    else if c == '\U{212A}' then 'k'
    else c
  }

  /** strings.ToLower, see FoldChar. */
  function ToLower(s: string): string {
    if s == [] then [] else [FoldChar(s[0])] + ToLower(s[1..])
  }
}
