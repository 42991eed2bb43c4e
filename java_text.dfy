/**
 * The parts of java.lang that the versioning code relies on, written out:
 * 32-bit `int` arithmetic, `Character.isWhitespace`, `String.isBlank`,
 * `String.split("/")`, `Integer.parseInt`, `Integer.toString`,
 * `String.replace` and a literal `String.replaceFirst`.
 */
module JavaText {
  import opened Wrappers

  const IntMin: int := -0x8000_0000
  const IntMax: int := 0x7FFF_FFFF

  predicate IsInt32(x: int) { IntMin <= x <= IntMax }

  /** Java `int` arithmetic: the exact value wrapped into two's complement 32 bits. */
  function WrapInt32(x: int): (r: int)
    ensures IsInt32(r)
    ensures IsInt32(x) ==> r == x
    ensures (x - r) % 0x1_0000_0000 == 0
  {
    (x - IntMin) % 0x1_0000_0000 + IntMin
  }

  // ---------------------------------------------------------------- characters

  predicate IsAsciiDigit(c: char) { '0' <= c <= '9' }

  predicate AllAsciiDigits(s: string) { forall i :: 0 <= i < |s| ==> IsAsciiDigit(s[i]) }

  /** `Character.isWhitespace`: space, line and paragraph separators other than the
      non-breaking ones, plus the ASCII controls HT, LF, VT, FF, CR and FS..US. */
  predicate IsWhitespace(c: char) {
    || c == ' '
    || ('\t' <= c <= '\r')
    || ('\U{1C}' <= c <= '\U{1F}')
    || c == '\U{1680}'
    || ('\U{2000}' <= c <= '\U{2006}')
    || ('\U{2008}' <= c <= '\U{200A}')
    || c == '\U{2028}' || c == '\U{2029}'
    || c == '\U{205F}' || c == '\U{3000}'
  }

  /** `String.isBlank`: empty, or white space only. */
  predicate IsBlank(s: string) { forall i :: 0 <= i < |s| ==> IsWhitespace(s[i]) }

  /** The empty string is blank, and Java's white space leaves out the non-breaking
      spaces and the next-line control. */
  lemma WhitespaceExamples()
    ensures IsBlank("") && IsBlank(" \t\n") && !IsBlank(" a ")
    ensures !IsWhitespace('\U{A0}') && !IsWhitespace('\U{2007}') && !IsWhitespace('\U{202F}')
    ensures !IsWhitespace('\U{85}')
  {
    assert " a "[1] == 'a';
  }

  // ---------------------------------------------------------------- splitting

  /** The pieces of `s` between occurrences of `sep`, empty pieces included. */
  function SplitOn(s: string, sep: char): (r: seq<string>)
    ensures |r| >= 1
    ensures forall i :: 0 <= i < |r| ==> sep !in r[i]
  {
    if |s| == 0 then [""]
    else
      var rest := SplitOn(s[1..], sep);
      if s[0] == sep then [""] + rest else [[s[0]] + rest[0]] + rest[1..]
  }

  /** The inverse of `SplitOn`: the pieces glued back with `sep`. */
  function Join(pieces: seq<string>, sep: char): string
    requires |pieces| >= 1
  {
    if |pieces| == 1 then pieces[0] else pieces[0] + [sep] + Join(pieces[1..], sep)
  }

  lemma {:induction false} JoinSplitOn(s: string, sep: char)
    ensures Join(SplitOn(s, sep), sep) == s
  {
    if |s| > 0 {
      var rest := SplitOn(s[1..], sep);
      JoinSplitOn(s[1..], sep);
      if s[0] == sep {
        assert SplitOn(s, sep)[1..] == rest;
      } else {
        var r := SplitOn(s, sep);
        assert r[1..] == rest[1..];
        if |rest| == 1 {
          assert Join(r, sep) == [s[0]] + rest[0];
        } else {
          assert Join(rest, sep) == rest[0] + [sep] + Join(rest[1..], sep);
          assert Join(r, sep) == [s[0]] + rest[0] + [sep] + Join(rest[1..], sep);
        }
        assert s == [s[0]] + s[1..];
      }
    }
  }

  /** Splitting at the first separator. */
  lemma {:induction false} SplitOnFirst(p: string, sep: char, q: string)
    requires sep !in p
    ensures SplitOn(p + [sep] + q, sep) == [p] + SplitOn(q, sep)
  {
    if |p| == 0 {
      assert p + [sep] + q == [sep] + q;
      assert ([sep] + q)[1..] == q;
    } else {
      assert (p + [sep] + q)[1..] == p[1..] + [sep] + q;
      SplitOnFirst(p[1..], sep, q);
      assert [p[0]] + p[1..] == p;
    }
  }

  /** The non-blank pieces, in order. */
  function NonBlank(pieces: seq<string>): (r: seq<string>)
    ensures forall i :: 0 <= i < |r| ==> !IsBlank(r[i]) && r[i] in pieces
  {
    if |pieces| == 0 then []
    else if IsBlank(pieces[0]) then NonBlank(pieces[1..])
    else [pieces[0]] + NonBlank(pieces[1..])
  }

  /** `Arrays.stream(s.split("/")).filter(it -> !it.isBlank())`. Java's `split`
      drops trailing empty strings, which the filter drops anyway. */
  function Segments(s: string): (r: seq<string>)
    ensures forall i :: 0 <= i < |r| ==> |r[i]| >= 1 && '/' !in r[i] && !IsBlank(r[i])
  {
    NonBlank(SplitOn(s, '/'))
  }

  /** The filter keeps every non-blank piece and nothing else. */
  lemma {:induction false} NonBlankMembers(pieces: seq<string>)
    ensures forall p :: p in NonBlank(pieces) <==> p in pieces && !IsBlank(p)
  {
    if |pieces| > 0 {
      NonBlankMembers(pieces[1..]);
      assert pieces == [pieces[0]] + pieces[1..];
    }
  }

  /** The segments are exactly the non-blank pieces between slashes. */
  lemma SegmentsMembers(s: string)
    ensures forall p :: p in Segments(s) <==> p in SplitOn(s, '/') && !IsBlank(p)
  {
    NonBlankMembers(SplitOn(s, '/'));
  }

  /** Filtering distributes over concatenation, so it keeps the order of the pieces. */
  lemma {:induction false} NonBlankAppend(a: seq<string>, b: seq<string>)
    ensures NonBlank(a + b) == NonBlank(a) + NonBlank(b)
  {
    if |a| == 0 {
      assert a + b == b;
    } else {
      assert (a + b)[0] == a[0] && (a + b)[1..] == a[1..] + b;
      NonBlankAppend(a[1..], b);
    }
  }

  /** One piece is kept exactly when it is not blank. This unfolds `NonBlank` once and
      serves only as a step in the proofs below. */
  lemma NonBlankCons(p: string, rest: seq<string>)
    ensures NonBlank([p] + rest) == if IsBlank(p) then NonBlank(rest) else [p] + NonBlank(rest)
  {
    assert ([p] + rest)[1..] == rest;
  }

  lemma SplitOnPrefixed(a: string, b: string, rest: string)
    requires '/' !in a && '/' !in b
    ensures SplitOn("/" + a + "/" + b + "/" + rest, '/') == [""] + ([a] + ([b] + SplitOn(rest, '/')))
  {
    var t2 := b + ['/'] + rest;
    var t1 := a + ['/'] + t2;
    assert [] + ['/'] + t1 == "/" + a + "/" + b + "/" + rest;
    SplitOnFirst(b, '/', rest);
    SplitOnFirst(a, '/', t2);
    SplitOnFirst([], '/', t1);
  }

  /** The segments of a path written as `/a/b/rest` with `a`, `b` non-blank segments. */
  lemma SegmentsOfPrefixed(a: string, b: string, rest: string)
    requires '/' !in a && '/' !in b && !IsBlank(a) && !IsBlank(b)
    ensures Segments("/" + a + "/" + b + "/" + rest) == [a, b] + Segments(rest)
  {
    var q := SplitOn(rest, '/');
    SplitOnPrefixed(a, b, rest);
    assert IsBlank("");
    NonBlankCons("", [a] + ([b] + q));
    NonBlankCons(a, [b] + q);
    NonBlankCons(b, q);
  }

  // ---------------------------------------------------------------- integers

  function DigitValue(c: char): (d: nat)
    requires IsAsciiDigit(c)
    ensures d < 10
  {
    (c as int - '0' as int) as nat
  }

  function DigitChar(d: nat): (c: char)
    requires d < 10
    ensures IsAsciiDigit(c) && DigitValue(c) == d
  {
    ('0' as int + d) as char
  }

  /** The decimal value of a string of ASCII digits, read left to right. */
  function DigitsValue(s: string): nat
    requires AllAsciiDigits(s)
  {
    if |s| == 0 then 0 else DigitsValue(s[..|s| - 1]) * 10 + DigitValue(s[|s| - 1])
  }

  /** `Integer.parseInt(s)` (radix 10): an optional sign, at least one digit, and
      a value that fits in an `int`; anything else throws NumberFormatException. */
  function ParseInt(s: string): (r: Option<int>)
    ensures r.Some? ==> IsInt32(r.value)
    ensures r.Some? <==>
      || (0 < |s| && AllAsciiDigits(s) && DigitsValue(s) <= IntMax)
      || (1 < |s| && s[0] == '+' && AllAsciiDigits(s[1..]) && DigitsValue(s[1..]) <= IntMax)
      || (1 < |s| && s[0] == '-' && AllAsciiDigits(s[1..]) && DigitsValue(s[1..]) <= -IntMin)
    ensures r.Some? && AllAsciiDigits(s) ==> r.value == DigitsValue(s)
    ensures r.Some? && s[0] == '+' ==> r.value == DigitsValue(s[1..])
    ensures r.Some? && s[0] == '-' ==> r.value == -(DigitsValue(s[1..]) as int)
  {
    if |s| == 0 then None
    else
      var digits := if s[0] == '-' || s[0] == '+' then s[1..] else s;
      if |digits| == 0 || !AllAsciiDigits(digits) then None
      else
        var v: int := if s[0] == '-' then -(DigitsValue(digits) as int) else DigitsValue(digits);
        if IsInt32(v) then Some(v) else None
  }

  function NatToString(n: nat): (r: string)
    ensures |r| >= 1 && AllAsciiDigits(r)
  {
    if n < 10 then [DigitChar(n)] else NatToString(n / 10) + [DigitChar(n % 10)]
  }

  /** `Integer.toString(x)`: shortest decimal, with a leading '-' when negative. */
  function IntToString(x: int): (r: string)
    ensures |r| >= 1
  {
    if x < 0 then "-" + NatToString(-x) else NatToString(x)
  }

  lemma {:induction false} DigitsValueOfNatToString(n: nat)
    ensures DigitsValue(NatToString(n)) == n
  {
    if n >= 10 {
      var s := NatToString(n);
      assert s[..|s| - 1] == NatToString(n / 10);
      DigitsValueOfNatToString(n / 10);
    }
  }

  /** Parsing what `Integer.toString` printed gives the number back. */
  lemma ParseIntToString(x: int)
    requires IsInt32(x)
    ensures ParseInt(IntToString(x)) == Some(x)
  {
    if x < 0 {
      var d := NatToString(-x);
      DigitsValueOfNatToString(-x);
      var s := "-" + d;
      assert s[0] == '-' && s[1..] == d;
      assert IsAsciiDigit(d[0]);
    } else {
      var d := NatToString(x);
      DigitsValueOfNatToString(x);
      assert IsAsciiDigit(d[0]);
    }
  }

  /** `Integer.toString` never writes a leading zero, so "01" is never printed. */
  lemma {:induction false} NatToStringCanonical(n: nat)
    ensures NatToString(n)[0] == '0' ==> n == 0
  {
    if n >= 10 {
      NatToStringCanonical(n / 10);
      assert NatToString(n)[0] == NatToString(n / 10)[0];
    }
  }

  // ---------------------------------------------------------------- replacing

  predicate OccursAt(s: string, t: string, i: nat) {
    i + |t| <= |s| && s[i..i + |t|] == t
  }

  /** `s.indexOf(t)`: the leftmost occurrence of `t` in `s`, if any. */
  function IndexOf(s: string, t: string, from: nat := 0): (r: Option<nat>)
    requires from <= |s|
    ensures r.Some? ==> from <= r.value && OccursAt(s, t, r.value)
    ensures r.Some? ==> forall j :: from <= j < r.value ==> !OccursAt(s, t, j)
    ensures r.None? ==> forall j :: from <= j <= |s| ==> !OccursAt(s, t, j)
    decreases |s| - from
  {
    if OccursAt(s, t, from) then Some(from)
    else if from == |s| then None
    else IndexOf(s, t, from + 1)
  }

  /** `s.replaceFirst(t, repl)` where neither `t` nor `repl` holds a regular-expression
      or replacement metacharacter, so both are taken literally. */
  function ReplaceFirst(s: string, t: string, repl: string): string {
    match IndexOf(s, t)
    case None => s
    case Some(i) => s[..i] + repl + s[i + |t|..]
  }

  /** `s.replace(t, repl)` for a non-empty `t`: every occurrence, scanning left to
      right without overlaps. */
  function ReplaceAll(s: string, t: string, repl: string): string
    requires |t| > 0
    decreases |s|
  {
    if |s| < |t| then s
    else if s[..|t|] == t then repl + ReplaceAll(s[|t|..], t, repl)
    else [s[0]] + ReplaceAll(s[1..], t, repl)
  }

  /** Without an occurrence of `t`, `replace` returns its input. */
  lemma {:induction false} ReplaceAllAbsent(s: string, t: string, repl: string)
    requires |t| > 0
    requires forall j :: 0 <= j <= |s| ==> !OccursAt(s, t, j)
    ensures ReplaceAll(s, t, repl) == s
  {
    if |s| >= |t| {
      assert !OccursAt(s, t, 0);
      forall j | 0 <= j <= |s| - 1 ensures !OccursAt(s[1..], t, j) {
        assert !OccursAt(s, t, j + 1);
        assert j + |t| <= |s| - 1 ==> s[j + 1..j + 1 + |t|] == s[1..][j..j + |t|];
      }
      ReplaceAllAbsent(s[1..], t, repl);
      assert s == [s[0]] + s[1..];
    }
  }

  /** `replaceFirst` replaces the leftmost occurrence... */
  lemma ReplaceFirstLeftmost(s: string, t: string, repl: string, i: nat)
    requires OccursAt(s, t, i) && forall j :: 0 <= j < i ==> !OccursAt(s, t, j)
    ensures ReplaceFirst(s, t, repl) == s[..i] + repl + s[i + |t|..]
  {
  }

  /** ... and returns its input when there is none. */
  lemma ReplaceFirstAbsent(s: string, t: string, repl: string)
    requires forall j :: 0 <= j <= |s| ==> !OccursAt(s, t, j)
    ensures ReplaceFirst(s, t, repl) == s
  {
  }

  /** A character where no occurrence starts is copied. This unfolds `ReplaceAll` once and
      serves only as a step in the proofs below. */
  lemma ReplaceAllSkip(c: char, s: string, t: string, repl: string)
    requires |t| > 0 && !OccursAt([c] + s, t, 0)
    ensures ReplaceAll([c] + s, t, repl) == [c] + ReplaceAll(s, t, repl)
  {
    assert ([c] + s)[1..] == s;
  }

  /** A prefix where no occurrence starts is copied. */
  lemma {:induction false} ReplaceAllSkipPrefix(p: string, s: string, t: string, repl: string)
    requires |t| > 0 && forall j :: 0 <= j < |p| ==> !OccursAt(p + s, t, j)
    ensures ReplaceAll(p + s, t, repl) == p + ReplaceAll(s, t, repl)
    decreases |p|
  {
    if |p| > 0 {
      var tail := p[1..] + s;
      assert p + s == [p[0]] + tail;
      forall j | 0 <= j < |p| - 1 ensures !OccursAt(p[1..] + s, t, j) {
        assert !OccursAt(p + s, t, j + 1);
        if j + |t| <= |tail| {
          assert (p + s)[j + 1..j + 1 + |t|] == tail[j..j + |t|];
        }
      }
      assert !OccursAt([p[0]] + tail, t, 0);
      calc {
        ReplaceAll(p + s, t, repl);
        ReplaceAll([p[0]] + tail, t, repl);
        { ReplaceAllSkip(p[0], tail, t, repl); }
        [p[0]] + ReplaceAll(tail, t, repl);
        { ReplaceAllSkipPrefix(p[1..], s, t, repl); }
        [p[0]] + (p[1..] + ReplaceAll(s, t, repl));
        { assert p == [p[0]] + p[1..]; }
        p + ReplaceAll(s, t, repl);
      }
    } else {
      assert p + s == s && p + ReplaceAll(s, t, repl) == ReplaceAll(s, t, repl);
    }
  }

  /** An occurrence at the front is replaced, and the scan goes on after it. This unfolds
      `ReplaceAll` once and serves only as a step in the proofs below. */
  lemma ReplaceAllHit(s: string, t: string, repl: string)
    requires |t| > 0
    ensures ReplaceAll(t + s, t, repl) == repl + ReplaceAll(s, t, repl)
  {
    assert (t + s)[..|t|] == t && (t + s)[|t|..] == s;
  }

  /** `s.replace(t, repl)` as Java runs it: `indexOf` from where the last occurrence ended,
      copy the text before the next one, append the replacement, and resume after it. */
  method Replace(s: string, t: string, repl: string) returns (r: string)
    requires |t| > 0
    ensures r == ReplaceAll(s, t, repl)
  {
    var found := IndexOf(s, t, 0);
    if found.None? {
      LoopNoneStep(s, t, repl, 0);
      assert s[0..] == s;
      return s;
    }
    var sb := "";
    var i := 0;
    assert s[0..] == s;
    while found.Some?
      invariant i <= |s| && found == IndexOf(s, t, i)
      invariant Replaced(s, t, repl, sb, i)
      decreases |s| - i
    {
      var j := found.value;
      ghost var sb0, i0 := sb, i;
      sb := sb + s[i..j] + repl;
      i := j + |t|;
      ReplacedStep(s, t, repl, sb0, i0, j, sb, i);
      found := IndexOf(s, t, i);
    }
    ReplacedLast(s, t, repl, sb, i);
    r := sb + s[i..];
  }

  /** The loop's invariant: what is built so far, followed by the replacement of the rest,
      is the replacement of the whole. */
  ghost predicate Replaced(s: string, t: string, repl: string, sb: string, i: nat)
    requires |t| > 0 && i <= |s|
  {
    sb + ReplaceAll(s[i..], t, repl) == ReplaceAll(s, t, repl)
  }

  lemma ReplacedStep(s: string, t: string, repl: string, sb: string, i: nat, j: nat, sb': string, i': nat)
    requires |t| > 0 && i <= j && OccursAt(s, t, j) && forall k :: i <= k < j ==> !OccursAt(s, t, k)
    requires Replaced(s, t, repl, sb, i) && sb' == sb + s[i..j] + repl && i' == j + |t|
    ensures Replaced(s, t, repl, sb', i')
  {
    LoopHitStep(s, t, repl, i, j);
    AppendStep(sb, sb', ReplaceAll(s[i..], t, repl), ReplaceAll(s[i'..], t, repl), ReplaceAll(s, t, repl), s[i..j], repl);
  }

  lemma ReplacedLast(s: string, t: string, repl: string, sb: string, i: nat)
    requires |t| > 0 && i <= |s| && IndexOf(s, t, i).None? && Replaced(s, t, repl, sb, i)
    ensures sb + s[i..] == ReplaceAll(s, t, repl)
  {
    LoopNoneStep(s, t, repl, i);
  }

  lemma AppendStep(sb: string, sb': string, x: string, y: string, whole: string, a: string, repl: string)
    requires sb + x == whole && x == a + repl + y && sb' == sb + a + repl
    ensures sb' + y == whole
  {
  }

  /** No occurrence at or after `from`: the rest is copied. */
  lemma LoopNoneStep(s: string, t: string, repl: string, from: nat)
    requires |t| > 0 && from <= |s| && forall j :: from <= j <= |s| ==> !OccursAt(s, t, j)
    ensures ReplaceAll(s[from..], t, repl) == s[from..]
  {
    var tail := s[from..];
    forall j | 0 <= j <= |tail| ensures !OccursAt(tail, t, j) {
      assert !OccursAt(s, t, from + j);
      if j + |t| <= |tail| {
        assert tail[j..j + |t|] == s[from + j..from + j + |t|];
      }
    }
    ReplaceAllAbsent(tail, t, repl);
  }

  /** The next occurrence at or after `from` is at `j`: the text before it, the replacement,
      and the rest after it. */
  lemma LoopHitStep(s: string, t: string, repl: string, from: nat, j: nat)
    requires |t| > 0 && from <= j && OccursAt(s, t, j)
    requires forall k :: from <= k < j ==> !OccursAt(s, t, k)
    ensures ReplaceAll(s[from..], t, repl) == s[from..j] + repl + ReplaceAll(s[j + |t|..], t, repl)
  {
    var p, after := s[from..j], s[j + |t|..];
    assert s[from..] == p + (t + after) by {
      assert s[from..] == s[from..j] + s[j..j + |t|] + s[j + |t|..];
    }
    forall k | 0 <= k < |p| ensures !OccursAt(p + (t + after), t, k) {
      assert !OccursAt(s, t, from + k);
      if k + |t| <= |s| - from {
        assert s[from..][k..k + |t|] == s[from + k..from + k + |t|];
      }
    }
    HitCompose(p, after, t, repl);
  }

  lemma HitCompose(p: string, after: string, t: string, repl: string)
    requires |t| > 0 && forall k :: 0 <= k < |p| ==> !OccursAt(p + (t + after), t, k)
    ensures ReplaceAll(p + (t + after), t, repl) == p + repl + ReplaceAll(after, t, repl)
  {
    ReplaceAllSkipPrefix(p, t + after, t, repl);
    ReplaceAllHit(after, t, repl);
  }
}
