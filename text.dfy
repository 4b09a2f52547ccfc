/**
 * The string primitives the report logic relies on: Python's `str.strip()`,
 * `str.split(sep)`, the `in` substring test, `str.ljust(width)`, `str(int)`
 * and `int(str)`, each written out over `seq<char>`.
 */
module Text {
  import opened Wrappers

  /**
   * The characters Python 3's `str.strip()` removes, those for which
   * `str.isspace()` holds: `\t`, `\n`, `\v`, `\f`, `\r`, the separators
   * U+001C..U+001F, the space, U+0085, U+00A0, U+1680, U+2000..U+200A,
   * U+2028, U+2029, U+202F, U+205F and U+3000.
   */
  predicate IsSpace(c: char) {
    || '\t' <= c <= '\r'
    || '\U{001C}' <= c <= ' '
    || c == '\U{0085}' || c == '\U{00A0}' || c == '\U{1680}'
    || '\U{2000}' <= c <= '\U{200A}'
    || c == '\U{2028}' || c == '\U{2029}' || c == '\U{202F}' || c == '\U{205F}' || c == '\U{3000}'
  }

  /** `s.lstrip()`. */
  function TrimLeft(s: string): string {
    if s != [] && IsSpace(s[0]) then TrimLeft(s[1..]) else s
  }

  /** `s.rstrip()`. */
  function TrimRight(s: string): string {
    if s != [] && IsSpace(s[|s| - 1]) then TrimRight(s[..|s| - 1]) else s
  }

  /** `s.strip()`: `s` without its leading and trailing whitespace. */
  function Strip(s: string): string {
    TrimRight(TrimLeft(s))
  }

  /** Left trimming drops a prefix of whitespace and stops at the first other character. */
  lemma {:induction false} TrimLeftSpec(s: string)
    ensures var r := TrimLeft(s);
      && |r| <= |s| && r == s[|s| - |r|..]
      && (r == [] || !IsSpace(r[0]))
      && forall i :: 0 <= i < |s| - |r| ==> IsSpace(s[i])
  {
    if s != [] && IsSpace(s[0]) {
      TrimLeftSpec(s[1..]);
      var r := TrimLeft(s[1..]);
      assert forall i :: 1 <= i < |s| - |r| ==> s[1..][i - 1] == s[i];
    }
  }

  /** Right trimming drops a suffix of whitespace and stops at the last other character. */
  lemma {:induction false} TrimRightSpec(s: string)
    ensures var r := TrimRight(s);
      && |r| <= |s| && r == s[..|r|]
      && (r == [] || !IsSpace(r[|r| - 1]))
      && forall i :: |r| <= i < |s| ==> IsSpace(s[i])
  {
    if s != [] && IsSpace(s[|s| - 1]) {
      var init := s[..|s| - 1];
      TrimRightSpec(init);
      var r := TrimRight(init);
      assert forall i :: |r| <= i < |init| ==> init[i] == s[i];
      assert init[..|r|] == s[..|r|];
    }
  }

  /**
   * The stripped string has no whitespace at either end, and it occurs in
   * the original with only whitespace before and after it.
   */
  lemma StripSpec(s: string)
    ensures var r := Strip(s);
      && (r == [] || (!IsSpace(r[0]) && !IsSpace(r[|r| - 1])))
      && exists i :: OccursAt(s, r, i)
           && (forall j :: 0 <= j < i ==> IsSpace(s[j]))
           && (forall j :: i + |r| <= j < |s| ==> IsSpace(s[j]))
  {
    var l := TrimLeft(s);
    var r := TrimRight(l);
    TrimLeftSpec(s);
    TrimRightSpec(l);
    assert r != [] ==> r[0] == l[0];
    assert s[|s| - |l|..][..|r|] == s[|s| - |l|..|s| - |l| + |r|];
    var i := |s| - |l|;
    assert OccursAt(s, r, i);
    assert forall j :: i + |r| <= j < |s| ==> s[j] == l[j - i];
  }

  /** `s.split(sep)`: the pieces between occurrences of `sep`; never empty. */
  function Split(s: string, sep: char): (r: seq<string>)
    ensures |r| >= 1
    ensures forall i, j :: 0 <= i < |r| && 0 <= j < |r[i]| ==> r[i][j] != sep
  {
    if s == [] then [[]]
    else
      var rest := Split(s[1..], sep);
      if s[0] == sep then [[]] + rest
      else [[s[0]] + rest[0]] + rest[1..]
  }

  /** `sep.join(parts)`. */
  function Join(parts: seq<string>, sep: char): string
    requires |parts| >= 1
  {
    if |parts| == 1 then parts[0] else parts[0] + [sep] + Join(parts[1..], sep)
  }

  /** Splitting and joining back with the same separator gives the string back. */
  lemma {:induction false} JoinSplit(s: string, sep: char)
    ensures Join(Split(s, sep), sep) == s
  {
    if s != [] {
      var rest := Split(s[1..], sep);
      JoinSplit(s[1..], sep);
      if s[0] == sep {
        assert Split(s, sep) == [[]] + rest;
        assert Split(s, sep)[1..] == rest;
      } else {
        var r := Split(s, sep);
        assert r == [[s[0]] + rest[0]] + rest[1..];
        if |rest| == 1 {
          assert Join(r, sep) == [s[0]] + rest[0];
        } else {
          assert r[1..] == rest[1..];
          assert Join(rest, sep) == rest[0] + [sep] + Join(rest[1..], sep);
        }
      }
    }
  }

  /** Joining pieces that do not contain `sep` and splitting again gives the pieces back. */
  lemma {:induction false} SplitJoin(parts: seq<string>, sep: char)
    requires |parts| >= 1
    requires forall i, j :: 0 <= i < |parts| && 0 <= j < |parts[i]| ==> parts[i][j] != sep
    ensures Split(Join(parts, sep), sep) == parts
  {
    if |parts| == 1 {
      SplitNoSep(parts[0], sep);
    } else {
      var tail := Join(parts[1..], sep);
      SplitJoin(parts[1..], sep);
      assert ([sep] + tail)[1..] == tail;
      assert Split([sep] + tail, sep) == [[]] + parts[1..];
      SplitPrefix(parts[0], [sep] + tail, sep);
      assert parts[0] + [sep] + tail == parts[0] + ([sep] + tail);
      assert parts[0] + [] == parts[0];
      assert [parts[0]] + parts[1..] == parts;
    }
  }

  lemma {:induction false} SplitNoSep(s: string, sep: char)
    requires forall j :: 0 <= j < |s| ==> s[j] != sep
    ensures Split(s, sep) == [s]
  {
    if s != [] {
      SplitNoSep(s[1..], sep);
      assert [s[0]] + s[1..] == s;
    }
  }

  /** A separator-free prefix glues onto the first piece of what follows it. */
  lemma {:induction false} SplitPrefix(p: string, t: string, sep: char)
    requires forall j :: 0 <= j < |p| ==> p[j] != sep
    ensures Split(p + t, sep) == [p + Split(t, sep)[0]] + Split(t, sep)[1..]
  {
    var st := Split(t, sep);
    if p == [] {
      assert p + t == t && p + st[0] == st[0];
      assert [st[0]] + st[1..] == st;
    } else {
      assert (p + t)[0] == p[0] && (p + t)[1..] == p[1..] + t;
      SplitPrefix(p[1..], t, sep);
      var rest := Split(p[1..] + t, sep);
      assert rest == [p[1..] + st[0]] + st[1..];
      assert rest[0] == p[1..] + st[0] && rest[1..] == st[1..];
      assert [p[0]] + (p[1..] + st[0]) == p + st[0];
    }
  }

  /** `pat` occurs in `line` at offset `i`. */
  predicate OccursAt(line: string, pat: string, i: int) {
    0 <= i && i + |pat| <= |line| && line[i..i + |pat|] == pat
  }

  /** Python's `pat in line`. */
  function Contains(line: string, pat: string): (b: bool)
    ensures b <==> exists i :: OccursAt(line, pat, i)
  {
    if |line| < |pat| then false
    else if line[..|pat|] == pat then assert OccursAt(line, pat, 0); true
    else
      var b := Contains(line[1..], pat);
      if b then
        var i :| OccursAt(line[1..], pat, i);
        assert line[1..][i..i + |pat|] == line[i + 1..i + 1 + |pat|];
        assert OccursAt(line, pat, i + 1);
        b
      else
        assert forall i :: OccursAt(line, pat, i) && i > 0 ==> OccursAt(line[1..], pat, i - 1) by {
          forall i | OccursAt(line, pat, i) && i > 0 ensures OccursAt(line[1..], pat, i - 1) {
            assert line[1..][i - 1..i - 1 + |pat|] == line[i..i + |pat|];
          }
        }
        b
  }

  function Spaces(n: nat): (r: string)
    ensures |r| == n && forall i :: 0 <= i < n ==> r[i] == ' '
  {
    if n == 0 then [] else Spaces(n - 1) + [' ']
  }

  /** `s.ljust(width)`: `s` padded with spaces on the right up to `width`. */
  function LJust(s: string, width: int): (r: string)
    ensures |r| == if |s| < width then width else |s|
    ensures r[..|s|] == s
    ensures forall i :: |s| <= i < |r| ==> r[i] == ' '
  {
    if |s| < width then s + Spaces(width - |s|) else s
  }

  function DigitChar(d: nat): (c: char)
    requires d < 10
  {
    "0123456789"[d]
  }

  predicate IsDigit(c: char) {
    '0' <= c <= '9'
  }

  function DigitValue(c: char): (d: nat)
    requires IsDigit(c)
    ensures d < 10
  {
    (c as int - '0' as int) as nat
  }

  /** Decimal digits of `n`, most significant first, without leading zeros. */
  function NatToString(n: nat): string {
    if n < 10 then [DigitChar(n)] else NatToString(n / 10) + [DigitChar(n % 10)]
  }

  /** `str(n)` for an integer `n`. */
  function IntToString(n: int): string {
    if n < 0 then "-" + NatToString(-n) else NatToString(n)
  }

  predicate AllDigits(s: string) {
    forall i :: 0 <= i < |s| ==> IsDigit(s[i])
  }

  /** The value of a string of decimal digits. */
  function DigitsValue(s: string): nat
    requires AllDigits(s)
  {
    if s == [] then 0 else DigitsValue(s[..|s| - 1]) * 10 + DigitValue(s[|s| - 1])
  }

  /** `int(s)` on a token: an optional sign followed by at least one ASCII digit. */
  function ParseInt(s: string): (r: Option<int>)
    ensures r.Some? ==> |s| >= 1
  {
    if s == [] then None
    else if s[0] == '-' || s[0] == '+' then
      var body := s[1..];
      if body != [] && AllDigits(body) then
        var v: int := if s[0] == '-' then 0 - DigitsValue(body) as int else DigitsValue(body);
        Some(v)
      else None
    else if AllDigits(s) then Some(DigitsValue(s))
    else None
  }

  /** The decimal form of a natural number is a non-empty string of digits, read back as that number. */
  lemma {:induction false} NatToStringValue(n: nat)
    ensures var s := NatToString(n);
      |s| >= 1 && AllDigits(s) && DigitsValue(s) == n
  {
    var s := NatToString(n);
    if n >= 10 {
      var init := NatToString(n / 10);
      NatToStringValue(n / 10);
      var d := DigitChar(n % 10);
      assert s == init + [d];
      assert s[..|s| - 1] == init;
      assert forall i :: 0 <= i < |init| ==> s[i] == init[i];
      assert DigitValue(d) == n % 10;
      assert DigitsValue(s) == DigitsValue(init) * 10 + n % 10;
    } else {
      assert DigitValue(DigitChar(n)) == n;
      assert s[..0] == [];
    }
  }
}
