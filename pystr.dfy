/**
 * The parts of Python's `str` that the monitor relies on: `strip()`, the
 * substring test `p in s`, `s.split(sep)`, `int(s)` and `str(n)`.
 */
module PyStr {
  import opened Options

  // ---------------------------------------------------------------------
  // strip()

  /** Python's `str.isspace()` on one character: the characters `strip()` removes. */
  predicate IsSpace(c: char) {
    || c == ' '
    || ('\t' <= c <= '\r')
    || ('\U{1C}' <= c <= '\U{1F}')
    || c == '\U{85}' || c == '\U{A0}' || c == '\U{1680}'
    || ('\U{2000}' <= c <= '\U{200A}')
    || c == '\U{2028}' || c == '\U{2029}' || c == '\U{202F}' || c == '\U{205F}' || c == '\U{3000}'
  }

  predicate AllSpace(s: string) {
    forall k :: 0 <= k < |s| ==> IsSpace(s[k])
  }

  /** `s.lstrip()`: the suffix of `s` left once its leading whitespace is gone. */
  function StripStart(s: string): (r: string)
    ensures |r| <= |s| && r == s[|s| - |r|..]
    ensures AllSpace(s[..|s| - |r|])
    ensures r == [] || !IsSpace(r[0])
  {
    if |s| > 0 && IsSpace(s[0]) then
      var r := StripStart(s[1..]);
      StripStartStep(s, r);
      r
    else s
  }

  /** Leading whitespace before a cut of the rest is leading whitespace before the same cut of `s`. */
  lemma StripStartStep(s: string, r: string)
    requires |s| > 0 && IsSpace(s[0])
    requires |r| <= |s| - 1 && r == s[1..][|s| - 1 - |r|..] && AllSpace(s[1..][..|s| - 1 - |r|])
    ensures r == s[|s| - |r|..] && AllSpace(s[..|s| - |r|])
  {
    var n := |s| - |r|;
    forall k | 0 < k < n ensures IsSpace(s[k]) {
      assert s[k] == s[1..][..n - 1][k - 1];
    }
  }

  /** `s.rstrip()`: the prefix of `s` left once its trailing whitespace is gone. */
  function StripEnd(s: string): (r: string)
    ensures |r| <= |s| && r == s[..|r|]
    ensures AllSpace(s[|r|..])
    ensures r == [] || !IsSpace(r[|r| - 1])
  {
    if |s| > 0 && IsSpace(s[|s| - 1]) then
      var t := s[..|s| - 1];
      var r := StripEnd(t);
      assert s[|r|..] == t[|r|..] + [s[|s| - 1]];
      r
    else s
  }

  /** `s.strip()`: an infix of `s` that neither starts nor ends with whitespace. */
  function Strip(s: string): (r: string)
    ensures |r| <= |s|
    ensures r == [] || (!IsSpace(r[0]) && !IsSpace(r[|r| - 1]))
  {
    StripEnd(StripStart(s))
  }

  /** `lstrip()` is determined by the end of the leading whitespace run. */
  lemma {:induction false} StripStartIsCut(s: string, i: nat)
    requires i <= |s| && AllSpace(s[..i])
    requires i == |s| || !IsSpace(s[i])
    ensures StripStart(s) == s[i..]
  {
    if i > 0 {
      assert IsSpace(s[..i][0]);
      assert s[1..][..i - 1] == s[1..i];
      StripStartIsCut(s[1..], i - 1);
      assert s[1..][i - 1..] == s[i..];
    }
  }

  /** `rstrip()` is determined by the start of the trailing whitespace run. */
  lemma {:induction false} StripEndIsCut(s: string, j: nat)
    requires j <= |s| && AllSpace(s[j..])
    requires j == 0 || !IsSpace(s[j - 1])
    ensures StripEnd(s) == s[..j]
  {
    if j < |s| {
      assert IsSpace(s[j..][|s| - 1 - j]);
      var t := s[..|s| - 1];
      assert t[j..] == s[j..|s| - 1];
      StripEndIsCut(t, j);
      assert t[..j] == s[..j];
    }
  }

  /**
   * `strip()` is determined by the cut: whenever `s[..i]` and `s[j..]` are
   * whitespace and `s[i..j]` is empty or has non-space ends, `s.strip()` is `s[i..j]`.
   */
  lemma StripIsCut(s: string, i: nat, j: nat)
    requires i <= j <= |s|
    requires AllSpace(s[..i]) && AllSpace(s[j..])
    requires i == j || (!IsSpace(s[i]) && !IsSpace(s[j - 1]))
    ensures Strip(s) == s[i..j]
  {
    if i < j {
      StripInnerCut(s, i, j);
    } else {
      assert AllSpace(s) by {
        forall k | 0 <= k < |s| ensures IsSpace(s[k]) {
          if k < i { assert s[k] == s[..i][k]; } else { assert s[k] == s[j..][k - j]; }
        }
      }
      StripAllSpace(s);
    }
  }

  lemma StripInnerCut(s: string, i: nat, j: nat)
    requires i < j <= |s|
    requires AllSpace(s[..i]) && AllSpace(s[j..])
    requires !IsSpace(s[i]) && !IsSpace(s[j - 1])
    ensures Strip(s) == s[i..j]
  {
    StripStartIsCut(s, i);
    SuffixStripEndIsCut(s, i, j);
  }

  lemma SuffixStripEndIsCut(s: string, i: nat, j: nat)
    requires i < j <= |s|
    requires AllSpace(s[j..]) && !IsSpace(s[j - 1])
    ensures StripEnd(s[i..]) == s[i..j]
  {
    var a := s[i..];
    assert a[j - i..] == s[j..];
    assert a[j - i - 1] == s[j - 1];
    StripEndIsCut(a, j - i);
    assert a[..j - i] == s[i..j];
  }

  lemma StripAllSpace(s: string)
    requires AllSpace(s)
    ensures Strip(s) == []
  {
    assert s[..|s|] == s;
    StripStartIsCut(s, |s|);
  }

  /** Stripping twice is stripping once. */
  lemma StripIdempotent(s: string)
    ensures Strip(Strip(s)) == Strip(s)
  {
    var r := Strip(s);
    assert r[..0] == [] && r[|r|..] == [];
    StripIsCut(r, 0, |r|);
  }

  // ---------------------------------------------------------------------
  // substring search: `p in s`, `s.find(p)`

  /** `p` occurs in `s` starting at index `k`. */
  predicate OccursAt(s: string, p: string, k: int) {
    0 <= k && k + |p| <= |s| && s[k..k + |p|] == p
  }

  lemma OccursAtShift(s: string, p: string)
    requires |s| > 0
    ensures forall k :: 1 <= k ==> (OccursAt(s, p, k) <==> OccursAt(s[1..], p, k - 1))
  {
    forall k | 1 <= k
      ensures OccursAt(s, p, k) <==> OccursAt(s[1..], p, k - 1)
    {
      if k + |p| <= |s| {
        assert s[1..][k - 1..k - 1 + |p|] == s[k..k + |p|];
      }
    }
  }

  /** `s.find(p)`: the least index at which `p` occurs in `s`, None where Python gives -1. */
  function IndexOf(s: string, p: string): (r: Option<nat>)
    ensures r.Some? ==> OccursAt(s, p, r.value)
    ensures r.Some? ==> forall k :: 0 <= k < r.value ==> !OccursAt(s, p, k)
    ensures r.None? ==> forall k :: !OccursAt(s, p, k)
    decreases |s|
  {
    if |s| < |p| then None
    else if s[..|p|] == p then Some(0)
    else
      assert s[0..|p|] == s[..|p|];
      OccursAtShift(s, p);
      match IndexOf(s[1..], p)
      case None => None
      case Some(i) => Some(i + 1)
  }

  /** Python's `p in s`. */
  predicate Contains(s: string, p: string) {
    IndexOf(s, p).Some?
  }

  /** A match that ends within the first `n` characters is a match in that prefix. */
  lemma OccursInPrefix(s: string, n: nat, p: string, k: nat)
    requires k + |p| <= n <= |s|
    ensures OccursAt(s[..n], p, k) == OccursAt(s, p, k)
  {
    assert s[..n][k..k + |p|] == s[k..k + |p|];
  }

  /** The first occurrence is pinned down by any occurrence with none before it. */
  lemma IndexOfIs(s: string, p: string, m: nat)
    requires OccursAt(s, p, m)
    requires forall k :: 0 <= k < m ==> !OccursAt(s, p, k)
    ensures IndexOf(s, p) == Some(m)
  {
  }

  /** An occurrence of `q` inside an occurrence of `p` is an occurrence of `q` in `s`. */
  lemma ContainsTransitive(s: string, p: string, q: string)
    requires Contains(s, p) && Contains(p, q)
    ensures Contains(s, q)
  {
    OccursWithin(s, p, q, IndexOf(s, p).value, IndexOf(p, q).value);
  }

  /** An occurrence of `q` inside an occurrence of `p` is an occurrence of `q`. */
  lemma OccursWithin(s: string, p: string, q: string, i: nat, j: nat)
    requires OccursAt(s, p, i) && OccursAt(p, q, j)
    ensures OccursAt(s, q, i + j)
  {
    forall t | 0 <= t < |q| ensures s[i + j + t] == q[t] {
      assert q[t] == p[j..j + |q|][t] == p[j + t];
      assert p[j + t] == s[i..i + |p|][j + t];
    }
    assert s[i + j..i + j + |q|] == q;
  }

  /** An occurrence of `p` at `m` with no earlier position carrying `p[0]` is the first one. */
  lemma IndexOfByFirstChar(s: string, p: string, m: nat)
    requires |p| > 0
    requires OccursAt(s, p, m)
    requires forall k :: 0 <= k < m ==> s[k] != p[0]
    ensures IndexOf(s, p) == Some(m)
  {
    forall k | 0 <= k < m ensures !OccursAt(s, p, k) {
      if OccursAt(s, p, k) {
        OccursAtFirstChar(s, p, k);
      }
    }
    IndexOfIs(s, p, m);
  }

  lemma OccursAtFirstChar(s: string, p: string, k: nat)
    requires |p| > 0 && OccursAt(s, p, k)
    ensures s[k] == p[0]
  {
    assert s[k..k + |p|][0] == s[k];
  }

  /** A pattern longer than the text cannot occur in it. */
  lemma NotContainsLonger(s: string, p: string)
    requires |s| < |p|
    ensures !Contains(s, p)
  {
  }

  /** A character of `p` that `s` lacks keeps `p` out of `s`. */
  lemma NotContainsByMissingChar(s: string, p: string, j: nat)
    requires j < |p| && p[j] !in s
    ensures !Contains(s, p)
  {
  }

  /** A mismatch at offset `j` rules out an occurrence at `k`. */
  lemma NotOccursAtByMismatch(s: string, p: string, k: nat, j: nat)
    requires j < |p| && k + j < |s| && s[k + j] != p[j]
    ensures !OccursAt(s, p, k)
  {
  }

  /** An occurrence at `m` is the first when `p[0]` is absent from `s[..m]`. */
  lemma IndexOfByAbsentFirstChar(s: string, p: string, m: nat)
    requires |p| > 0 && OccursAt(s, p, m) && p[0] !in s[..m]
    ensures IndexOf(s, p) == Some(m)
  {
    forall k | 0 <= k < m ensures s[k] != p[0] {
      assert s[k] == s[..m][k];
    }
    IndexOfByFirstChar(s, p, m);
  }

  /** The first occurrence inside a prefix stays the first once more text follows. */
  lemma IndexOfInPrefix(a: string, b: string, p: string)
    requires Contains(a, p)
    ensures IndexOf(a + b, p) == IndexOf(a, p)
  {
    var i := IndexOf(a, p).value;
    var s := a + b;
    assert s[i..i + |p|] == a[i..i + |p|];
    forall k | 0 <= k < i ensures OccursAt(s, p, k) == OccursAt(a, p, k) {
      assert s[k..k + |p|] == a[k..k + |p|];
    }
    IndexOfIs(s, p, i);
  }

  // ---------------------------------------------------------------------
  // split(sep) and its inverse sep.join(pieces)

  /** Python's `sep.join(pieces)`. */
  function Join(pieces: seq<string>, sep: string): string
  {
    if |pieces| == 0 then ""
    else if |pieces| == 1 then pieces[0]
    else pieces[0] + sep + Join(pieces[1..], sep)
  }

  /** `piece` followed by `sep` has its first `sep` exactly at the join. */
  predicate CutAtFirst(piece: string, sep: string) {
    IndexOf(piece + sep, sep) == Some(|piece|)
  }

  lemma FirstPieceCut(s: string, sep: string, i: nat)
    requires IndexOf(s, sep) == Some(i)
    ensures CutAtFirst(s[..i], sep)
  {
    var n := i + |sep|;
    var t := s[..i] + sep;
    assert t == s[..n];
    forall k | 0 <= k <= i ensures OccursAt(s[..n], sep, k) == OccursAt(s, sep, k) {
      OccursInPrefix(s, n, sep, k);
    }
    IndexOfIs(t, sep, i);
  }

  /**
   * Python's `s.split(sep)` for a non-empty separator: the pieces join back
   * to `s`, every piece but the last ends where the first `sep` after it
   * begins, and the last piece contains no `sep`.
   */
  function Split(s: string, sep: string): (r: seq<string>)
    requires |sep| > 0
    ensures |r| >= 1
    ensures Join(r, sep) == s
    ensures forall k :: 0 <= k < |r| - 1 ==> CutAtFirst(r[k], sep)
    ensures !Contains(r[|r| - 1], sep)
    ensures |r| == 1 <==> !Contains(s, sep)
    decreases |s|
  {
    match IndexOf(s, sep)
    case None => [s]
    case Some(i) =>
      var rest := Split(s[i + |sep|..], sep);
      SplitCons(s, sep, i, rest);
      [s[..i]] + rest
  }

  /** The pieces of the text after the first `sep`, preceded by the text before it, are the pieces of `s`. */
  lemma SplitCons(s: string, sep: string, i: nat, rest: seq<string>)
    requires |sep| > 0 && IndexOf(s, sep) == Some(i)
    requires |rest| >= 1 && Join(rest, sep) == s[i + |sep|..]
    requires forall k :: 0 <= k < |rest| - 1 ==> CutAtFirst(rest[k], sep)
    requires !Contains(rest[|rest| - 1], sep)
    ensures var r := [s[..i]] + rest;
      && |r| >= 2
      && Join(r, sep) == s
      && (forall k :: 0 <= k < |r| - 1 ==> CutAtFirst(r[k], sep))
      && !Contains(r[|r| - 1], sep)
  {
    JoinStep(s, sep, i, rest);
    FirstPieceCut(s, sep, i);
    SplitStep(s[..i], sep, rest);
  }

  lemma JoinStep(s: string, sep: string, i: nat, rest: seq<string>)
    requires i + |sep| <= |s| && s[i..i + |sep|] == sep
    requires |rest| >= 1 && Join(rest, sep) == s[i + |sep|..]
    ensures Join([s[..i]] + rest, sep) == s
  {
    JoinCons(s[..i], sep, rest);
    CutAround(s, sep, i);
  }

  lemma JoinCons(a: string, sep: string, rest: seq<string>)
    requires |rest| >= 1
    ensures Join([a] + rest, sep) == a + sep + Join(rest, sep)
  {
    var r := [a] + rest;
    assert r[0] == a && r[1..] == rest;
  }

  lemma CutAround(s: string, sep: string, i: nat)
    requires i + |sep| <= |s| && s[i..i + |sep|] == sep
    ensures s == s[..i] + sep + s[i + |sep|..]
  {
    assert s == s[..i] + s[i..i + |sep|] + s[i + |sep|..];
  }

  lemma SplitStep(first: string, sep: string, rest: seq<string>)
    requires CutAtFirst(first, sep)
    requires |rest| >= 1
    requires forall k :: 0 <= k < |rest| - 1 ==> CutAtFirst(rest[k], sep)
    requires !Contains(rest[|rest| - 1], sep)
    ensures var r := [first] + rest;
      && (forall k :: 0 <= k < |r| - 1 ==> CutAtFirst(r[k], sep))
      && !Contains(r[|r| - 1], sep)
  {
    var r := [first] + rest;
    CutsShift(first, rest, sep);
    assert r[|r| - 1] == rest[|rest| - 1];
  }


  /** Putting a piece cut at its first `sep` in front keeps every piece but the last cut there. */
  lemma CutsShift(first: string, rest: seq<string>, sep: string)
    requires CutAtFirst(first, sep)
    requires forall k :: 0 <= k < |rest| - 1 ==> CutAtFirst(rest[k], sep)
    ensures forall k :: 0 <= k < |rest| ==> CutAtFirst(([first] + rest)[k], sep)
  {
    forall k | 0 <= k < |rest| ensures CutAtFirst(([first] + rest)[k], sep) {
      if k > 0 {
        assert ([first] + rest)[k] == rest[k - 1];
      }
    }
  }

  /** Text before the first `sep`, or all of `s`. */
  function UpTo(s: string, sep: string): (r: string)
    ensures |r| <= |s| && r == s[..|r|]
  {
    match IndexOf(s, sep) case None => s case Some(i) => s[..i]
  }

  /** The first piece of `s.split(sep)` is what precedes the first `sep`, or all of `s`. */
  lemma SplitHead(s: string, sep: string)
    requires |sep| > 0
    ensures Split(s, sep)[0] == UpTo(s, sep)
  {
  }

  /**
   * `s.split(sep)[1]` exists exactly when `sep` occurs in `s`, and it is the
   * text after the first `sep` up to the next one (or to the end).
   */
  lemma SplitSecond(s: string, sep: string)
    requires |sep| > 0
    ensures Element(Split(s, sep), 1).Some? <==> Contains(s, sep)
    ensures Contains(s, sep) ==>
      Element(Split(s, sep), 1) == Some(UpTo(s[IndexOf(s, sep).value + |sep|..], sep))
  {
    if Contains(s, sep) {
      var after := s[IndexOf(s, sep).value + |sep|..];
      SplitHead(after, sep);
    }
  }

  /**
   * `s.split(a)[1].split(b)[0]`, the idiom for "the text after the first `a`,
   * up to the next `a` and then up to the first `b`", exists whenever `a` is in `s`.
   */
  lemma SplitThenSplit(s: string, a: string, b: string)
    requires |a| > 0 && |b| > 0 && Contains(s, a)
    ensures Element(Split(s, a), 1).Some?
    ensures Split(Element(Split(s, a), 1).value, b)[0] ==
      UpTo(UpTo(s[IndexOf(s, a).value + |a|..], a), b)
  {
    SplitSecond(s, a);
    var second := Element(Split(s, a), 1).value;
    SplitHead(second, b);
  }

  // ---------------------------------------------------------------------
  // int(s) and str(n)

  predicate IsDigit(c: char) {
    '0' <= c <= '9'
  }

  predicate AllDigits(s: string) {
    forall k :: 0 <= k < |s| ==> IsDigit(s[k])
  }

  predicate IsSign(c: char) {
    c == '+' || c == '-'
  }

  /** The decimal literals accepted here: an optional sign, then one or more ASCII digits. */
  predicate IsIntLiteral(s: string) {
    && (exists k :: 0 <= k < |s| && IsDigit(s[k]))
    && forall k :: 0 <= k < |s| ==> IsDigit(s[k]) || (k == 0 && IsSign(s[k]))
  }

  /** The value of a run of decimal digits, most significant first. */
  function DigitsValue(s: string): nat
    requires AllDigits(s)
  {
    if |s| == 0 then 0 else 10 * DigitsValue(s[..|s| - 1]) + (s[|s| - 1] as int - '0' as int)
  }

  /**
   * CPython's default bound on the number of decimal digits that `int()`
   * reads and `str()` writes (`sys.get_int_max_str_digits()`); longer
   * texts raise ValueError.
   */
  const IntMaxStrDigits := 4300

  /** At most `IntMaxStrDigits` characters after an optional sign. */
  predicate WithinDigitLimit(s: string) {
    |s| <= IntMaxStrDigits + (if |s| > 0 && IsSign(s[0]) then 1 else 0)
  }

  /**
   * Python's `int(s)` on an already stripped string; None stands for the
   * ValueError, raised for a text that is not a literal and for one with
   * more digits than the limit.
   */
  function ParseInt(s: string): (r: Option<int>)
    ensures r.Some? <==> IsIntLiteral(s) && WithinDigitLimit(s)
  {
    if |s| > 0 && IsSign(s[0]) then
      var body := s[1..];
      assert forall k :: 1 <= k < |s| ==> s[k] == body[k - 1];
      if |body| > 0 && AllDigits(body) && |body| <= IntMaxStrDigits then
        var v: int := DigitsValue(body);
        Some(if s[0] == '-' then -v else v)
      else None
    else if |s| > 0 && AllDigits(s) && |s| <= IntMaxStrDigits then Some(DigitsValue(s))
    else None
  }

  /** A run of more digits than the limit is refused, whatever its value. */
  lemma ParseIntTooManyDigits(s: string)
    requires AllDigits(s) && |s| > IntMaxStrDigits
    ensures ParseInt(s) == None
  {
    assert !IsSign(s[0]);
  }

  function DigitChar(d: nat): (c: char)
    requires d < 10
    ensures IsDigit(c) && c as int - '0' as int == d
  {
    ('0' as int + d) as char
  }

  /** Python's `str(n)` for a natural number. */
  function NatToString(n: nat): (r: string)
    ensures |r| >= 1 && AllDigits(r)
  {
    if n < 10 then [DigitChar(n)] else NatToString(n / 10) + [DigitChar(n % 10)]
  }

  /** Python's `str(n)`. */
  function IntToString(n: int): string
  {
    if n < 0 then "-" + NatToString(-n) else NatToString(n)
  }

  lemma {:induction false} NatToStringValue(n: nat)
    ensures DigitsValue(NatToString(n)) == n
  {
    var r := NatToString(n);
    if n >= 10 {
      NatToStringValue(n / 10);
      assert r[..|r| - 1] == NatToString(n / 10);
    }
  }

  /** `int(str(n)) == n`: printing a number within the digit limit and reading it back gives the number. */
  lemma ParseIntToString(n: int)
    requires WithinDigitLimit(IntToString(n))
    ensures ParseInt(IntToString(n)) == Some(n)
  {
    var m := if n < 0 then -n else n;
    NatToStringValue(m);
    var d := NatToString(m);
    assert IsDigit(d[0]);
    if n < 0 {
      var s := "-" + d;
      assert s[1..] == d;
      assert IsDigit(s[1]);
    }
  }

  function Pow10(k: nat): nat {
    if k == 0 then 1 else 10 * Pow10(k - 1)
  }

  /** `k` digits have a value below `10^k`. */
  lemma {:induction false} DigitsValueBound(s: string)
    requires AllDigits(s)
    ensures DigitsValue(s) < Pow10(|s|)
    decreases |s|
  {
    if |s| > 0 {
      DigitsValueBound(s[..|s| - 1]);
    }
  }

  /** A number below `10^k` prints in at most `k` digits. */
  lemma {:induction false} NatToStringLength(n: nat, k: nat)
    requires k >= 1 && n < Pow10(k)
    ensures |NatToString(n)| <= k
    decreases n
  {
    if n >= 10 {
      NatToStringLength(n / 10, k - 1);
    }
  }

  /**
   * Every value `int()` returns prints back within the digit limit, so
   * `str()` never refuses it.
   */
  lemma ParsedWithinLimit(s: string)
    ensures ParseInt(s).Some? ==> WithinDigitLimit(IntToString(ParseInt(s).value))
  {
    if ParseInt(s).Some? {
      var body := if IsSign(s[0]) then s[1..] else s;
      assert AllDigits(body) && 1 <= |body| <= IntMaxStrDigits;
      var v: int := DigitsValue(body);
      assert ParseInt(s).value == v || ParseInt(s).value == -v;
      DigitsValueBound(body);
      NatToStringLength(v, |body|);
      assert IsDigit(NatToString(v)[0]);
    }
  }

  /** One character that is neither a digit nor a leading sign makes `int()` fail. */
  lemma ParseIntRejectsChar(s: string, k: nat)
    requires k < |s| && !IsDigit(s[k]) && (k > 0 || !IsSign(s[k]))
    ensures ParseInt(s) == None
  {
  }

  /** `str(n)` holds only digits and an optional leading minus. */
  lemma IntToStringChars(n: int)
    ensures |IntToString(n)| >= 1
    ensures forall k :: 0 <= k < |IntToString(n)| ==>
      IsDigit(IntToString(n)[k]) || (k == 0 && IntToString(n)[k] == '-')
  {
  }
}
