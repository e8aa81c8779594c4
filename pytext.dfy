/**
  The parts of Python's `str` semantics that the application relies on: `isspace`/`strip`,
  substring search (`in`, `startswith`, `find`), `replace`, `split`/`join`, and the decimal
  conversions `int(s)` and `str(n)`. Strings are sequences of code points.
 */
module PyText {
  import opened Wrappers

  // ---------------------------------------------------------------- whitespace

  /** The six ASCII characters for which both `str.isspace()` and CPython's `Py_ISSPACE`
      hold: tab, line feed, vertical tab, form feed, carriage return and space. */
  predicate IsAsciiSpace(c: char)
  {
    '\t' <= c <= '\r' || c == ' '
  }

  /** The non-ASCII characters for which `str.isspace()` holds. */
  predicate IsWideSpace(c: char)
  {
    || c == '\U{85}' || c == '\U{A0}' || c == '\U{1680}'
    || ('\U{2000}' <= c <= '\U{200A}')
    || c == '\U{2028}' || c == '\U{2029}' || c == '\U{202F}' || c == '\U{205F}' || c == '\U{3000}'
  }

  /** Python's `c.isspace()`: the characters `str.strip()` (no argument) removes. Besides the
      ASCII spaces and the wide spaces it takes the separators U+001C..U+001F. */
  predicate IsPyWhitespace(c: char)
  {
    IsAsciiSpace(c) || ('\U{1C}' <= c <= '\U{1F}') || IsWideSpace(c)
  }

  /** The characters `int()` skips around a number: CPython turns every non-ASCII space into
      ' ' and then skips only the ASCII spaces, so U+001C..U+001F are not skipped. */
  predicate IsIntWhitespace(c: char)
  {
    IsAsciiSpace(c) || IsWideSpace(c)
  }

  /** The first index at or after `i` that does not hold a `ws` character (`|s|` if none). */
  function SkipForward(s: string, ws: char -> bool, i: nat): (n: nat)
    requires i <= |s|
    ensures i <= n <= |s|
    ensures forall j :: i <= j < n ==> ws(s[j])
    ensures n == |s| || !ws(s[n])
    decreases |s| - i
  {
    if i < |s| && ws(s[i]) then SkipForward(s, ws, i + 1) else i
  }

  /** The index just after the last character before `j` and not before `lo` that does not
      hold a `ws` character (`lo` if none). */
  function SkipBackward(s: string, ws: char -> bool, lo: nat, j: nat): (n: nat)
    requires lo <= j <= |s|
    ensures lo <= n <= j
    ensures forall k :: n <= k < j ==> ws(s[k])
    ensures n == lo || !ws(s[n - 1])
    decreases j
  {
    if lo < j && ws(s[j - 1]) then SkipBackward(s, ws, lo, j - 1) else j
  }

  /** Where the text left by stripping `ws` characters from both ends starts. */
  function StripStart(s: string, ws: char -> bool): (a: nat)
    ensures a <= |s|
  {
    SkipForward(s, ws, 0)
  }

  /** Where the text left by stripping `ws` characters from both ends stops. */
  function StripStop(s: string, ws: char -> bool): (b: nat)
    ensures StripStart(s, ws) <= b <= |s|
  {
    SkipBackward(s, ws, StripStart(s, ws), |s|)
  }

  /** Removes `ws` characters from both ends: what is left is the slice of `s` between the
      two runs of `ws` characters, and it neither starts nor ends with one. */
  function StripSet(s: string, ws: char -> bool): (r: string)
    ensures r == s[StripStart(s, ws)..StripStop(s, ws)]
    ensures forall i :: 0 <= i < StripStart(s, ws) ==> ws(s[i])
    ensures forall i :: StripStop(s, ws) <= i < |s| ==> ws(s[i])
    ensures r != [] ==> !ws(r[0]) && !ws(r[|r| - 1])
    ensures r == [] <==> forall i :: 0 <= i < |s| ==> ws(s[i])
  {
    var a, b := StripStart(s, ws), StripStop(s, ws);
    assert a < b ==> !ws(s[a]) && !ws(s[b - 1]);
    s[a..b]
  }

  /** Python's `s.strip()`. */
  function Strip(s: string): (r: string)
    ensures |r| <= |s|
    ensures r == [] || (!IsPyWhitespace(r[0]) && !IsPyWhitespace(r[|r| - 1]))
    ensures (forall i :: 0 <= i < |s| ==> IsPyWhitespace(s[i])) <==> r == []
  {
    StripSet(s, IsPyWhitespace)
  }

  /** A string with no `ws` character at either end is its own strip. */
  lemma StripSetUnchanged(s: string, ws: char -> bool)
    requires s != [] && !ws(s[0]) && !ws(s[|s| - 1])
    ensures StripSet(s, ws) == s
  {
    assert StripStart(s, ws) == 0;
    assert StripStop(s, ws) == |s|;
  }

  /** Stripping twice is stripping once. */
  lemma StripIdempotent(s: string)
    ensures Strip(Strip(s)) == Strip(s)
  {
    var r := Strip(s);
    if r != [] {
      StripSetUnchanged(r, IsPyWhitespace);
    }
  }

  /** A string whose first character is not whitespace keeps that character under strip. */
  lemma StripKeepsFirst(s: string)
    requires s != [] && !IsPyWhitespace(s[0])
    ensures Strip(s) != [] && Strip(s)[0] == s[0]
  {
    assert StripStart(s, IsPyWhitespace) == 0;
  }

  // ---------------------------------------------------------------- search

  /** `t` occurs in `s` at index `i`. */
  predicate OccursAt(s: string, t: string, i: nat)
  {
    i + |t| <= |s| && s[i..i + |t|] == t
  }

  /** A one-character text occurs exactly where that character stands. */
  lemma OccursChar(s: string, c: char, i: nat)
    ensures OccursAt(s, [c], i) <==> i < |s| && s[i] == c
  {
    if i < |s| {
      assert s[i..i + 1] == [s[i]];
    }
  }

  /** An occurrence one place further in `s` is an occurrence in `s[1..]`. */
  lemma OccursShift(s: string, t: string)
    requires |s| > 0
    ensures forall j: nat :: OccursAt(s, t, j + 1) <==> OccursAt(s[1..], t, j)
  {
    forall j: nat ensures OccursAt(s, t, j + 1) <==> OccursAt(s[1..], t, j) {
      if j + 1 + |t| <= |s| {
        var x, y := s[j + 1..j + 1 + |t|], s[1..][j..j + |t|];
        forall k | 0 <= k < |t| ensures x[k] == y[k] {
          assert y[k] == s[1..][j + k];
        }
        assert x == y;
      }
    }
  }

  /** Python's `s.find(t)`, as an option: the lowest index at which `t` occurs. */
  function FindFirst(s: string, t: string): (r: Option<nat>)
    ensures r.Some? ==> OccursAt(s, t, r.value)
    ensures r.Some? ==> forall j: nat :: j < r.value ==> !OccursAt(s, t, j)
    ensures r.None? ==> forall j: nat :: !OccursAt(s, t, j)
    decreases |s|
  {
    if |s| < |t| then None
    else if s[..|t|] == t then Some(0)
    else
      var rest := FindFirst(s[1..], t);
      OccursShift(s, t);
      assert !OccursAt(s, t, 0);
      match rest
      case None =>
        assert forall j: nat :: !OccursAt(s, t, j) by {
          forall j: nat ensures !OccursAt(s, t, j) {
            if j > 0 { assert !OccursAt(s[1..], t, j - 1); }
          }
        }
        None
      case Some(i) =>
        assert forall j: nat :: j < i + 1 ==> !OccursAt(s, t, j) by {
          forall j: nat | j < i + 1 ensures !OccursAt(s, t, j) {
            if j > 0 { assert !OccursAt(s[1..], t, j - 1); }
          }
        }
        Some(i + 1)
  }

  /** Python's `t in s`. */
  predicate Contains(s: string, t: string)
  {
    FindFirst(s, t).Some?
  }

  /** Python's `s.startswith(p)`. */
  predicate StartsWith(s: string, p: string)
  {
    |p| <= |s| && s[..|p|] == p
  }

  /** `t in s` holds exactly when `t` occurs at some index. */
  lemma ContainsAt(s: string, t: string, i: nat)
    requires OccursAt(s, t, i)
    ensures Contains(s, t)
  {
  }

  /** An occurrence in `a` is one in `a + b`. */
  lemma OccursInLeft(a: string, b: string, t: string, i: nat)
    requires OccursAt(a, t, i)
    ensures OccursAt(a + b, t, i)
  {
    var x := (a + b)[i..i + |t|];
    forall k | 0 <= k < |t| ensures x[k] == t[k] {
      assert x[k] == a[i + k];
    }
    assert x == t;
  }

  /** An occurrence in `b` is one in `a + b`, shifted by `|a|`. */
  lemma OccursInRight(a: string, b: string, t: string, i: nat)
    requires OccursAt(b, t, i)
    ensures OccursAt(a + b, t, |a| + i)
  {
    var x := (a + b)[|a| + i..|a| + i + |t|];
    forall k | 0 <= k < |t| ensures x[k] == t[k] {
      assert x[k] == b[i + k];
    }
    assert x == t;
  }

  /** An occurrence in a prefix of `s` is one in `s`. */
  lemma OccursInPrefix(s: string, t: string, n: nat, j: nat)
    requires n <= |s| && OccursAt(s[..n], t, j)
    ensures OccursAt(s, t, j)
  {
    OccursInLeft(s[..n], s[n..], t, j);
    assert s[..n] + s[n..] == s;
  }

  /** What occurs in a prefix or a suffix occurs in the whole. */
  lemma ContainsConcat(a: string, b: string, t: string)
    ensures Contains(a, t) ==> Contains(a + b, t)
    ensures Contains(b, t) ==> Contains(a + b, t)
  {
    if Contains(a, t) {
      OccursInLeft(a, b, t, FindFirst(a, t).value);
      ContainsAt(a + b, t, FindFirst(a, t).value);
    }
    if Contains(b, t) {
      OccursInRight(a, b, t, FindFirst(b, t).value);
      ContainsAt(a + b, t, |a| + FindFirst(b, t).value);
    }
  }

  /** Python's `s.replace(pat, rep, 1)`. */
  function ReplaceFirst(s: string, pat: string, rep: string): (r: string)
  {
    match FindFirst(s, pat)
    case None => s
    case Some(i) => s[..i] + rep + s[i + |pat|..]
  }

  /** When `s` starts with `pat`, replacing its first occurrence rewrites exactly the prefix. */
  lemma ReplaceFirstOfPrefix(s: string, pat: string, rep: string)
    requires StartsWith(s, pat)
    ensures ReplaceFirst(s, pat, rep) == rep + s[|pat|..]
  {
    assert OccursAt(s, pat, 0);
  }

  /** Python's `s.replace(c, rep)` for a one-character `c`. */
  function ReplaceChar(s: string, c: char, rep: string): (r: string)
    ensures c !in rep ==> c !in r
    ensures c !in s ==> r == s
  {
    if s == [] then []
    else (if s[0] == c then rep else [s[0]]) + ReplaceChar(s[1..], c, rep)
  }

  /** Replacing distributes over concatenation. */
  lemma {:induction false} ReplaceCharConcat(a: string, b: string, c: char, rep: string)
    ensures ReplaceChar(a + b, c, rep) == ReplaceChar(a, c, rep) + ReplaceChar(b, c, rep)
  {
    if a == [] {
      assert a + b == b;
    } else {
      var x, y := a[1..], (a + b)[1..];
      assert y == x + b;
      ReplaceCharConcat(x, b, c, rep);
      ReplaceCharStep(a + b, x + b, c, rep);
      ReplaceCharStep(a, x, c, rep);
      ConcatAssoc(if a[0] == c then rep else [a[0]], ReplaceChar(x, c, rep), ReplaceChar(b, c, rep));
    }
  }

  /** One step of replacing: the first character's image, then the rest replaced. */
  lemma ReplaceCharStep(s: string, rest: string, c: char, rep: string)
    requires s != [] && rest == s[1..]
    ensures ReplaceChar(s, c, rep) == (if s[0] == c then rep else [s[0]]) + ReplaceChar(rest, c, rep)
  {
  }

  /** Concatenation is associative. */
  lemma ConcatAssoc(h: string, x: string, y: string)
    ensures h + (x + y) == (h + x) + y
  {
  }

  /** Every occurrence of `c` becomes `rep`: the text up to the first one is kept, that one is
      replaced, and replacing goes on after it. */
  lemma ReplaceCharAt(a: string, b: string, c: char, rep: string)
    requires c !in a
    ensures ReplaceChar(a + [c] + b, c, rep) == a + rep + ReplaceChar(b, c, rep)
  {
    ReplaceCharConcat(a, [c] + b, c, rep);
    assert ([c] + b)[1..] == b;
    assert a + [c] + b == a + ([c] + b);
  }

  // ---------------------------------------------------------------- split and join

  /** Python's `sep.join(parts)`. */
  function Join(parts: seq<string>, sep: string): (r: string)
  {
    if |parts| == 0 then ""
    else if |parts| == 1 then parts[0]
    else parts[0] + sep + Join(parts[1..], sep)
  }

  /** Python's `s.split(sep)` for a non-empty separator: cut at every occurrence, scanning
      from the left. Joining the pieces gives `s` back, and no piece contains `sep`. */
  function Split(s: string, sep: string): (parts: seq<string>)
    requires |sep| > 0
    ensures |parts| >= 1
    ensures Join(parts, sep) == s
    ensures forall k :: 0 <= k < |parts| ==> !Contains(parts[k], sep)
    ensures FindFirst(s, sep).None? ==> parts == [s]
    ensures FindFirst(s, sep).Some? ==> |parts| >= 2 && parts[0] == s[..FindFirst(s, sep).value]
    ensures forall k :: 0 <= k < |parts| - 1 ==> !Contains(parts[k] + sep[..|sep| - 1], sep)
    decreases |s|
  {
    match FindFirst(s, sep)
    case None => [s]
    case Some(i) =>
      var tail := Split(s[i + |sep|..], sep);
      SplitCons(s, sep, i, tail);
      [s[..i]] + tail
  }

  /** One step of `Split`: the text before the first `sep`, then the pieces of what follows it. */
  lemma SplitCons(s: string, sep: string, i: nat, tail: seq<string>)
    requires |sep| > 0 && FindFirst(s, sep) == Some(i)
    requires |tail| >= 1 && Join(tail, sep) == s[i + |sep|..]
    requires forall k :: 0 <= k < |tail| ==> !Contains(tail[k], sep)
    requires forall k :: 0 <= k < |tail| - 1 ==> !Contains(tail[k] + sep[..|sep| - 1], sep)
    ensures Join([s[..i]] + tail, sep) == s
    ensures forall k :: 0 <= k < |tail| + 1 ==> !Contains(([s[..i]] + tail)[k], sep)
    ensures forall k :: 0 <= k < |tail| ==> !Contains(([s[..i]] + tail)[k] + sep[..|sep| - 1], sep)
  {
    JoinCons(s[..i], tail, sep);
    CutAround(s, sep, i);
    HeadHasNoSep(s, sep, i);
    CutIsLeftmost(s, sep, i);
    ConsPieces(s[..i], tail, sep);
  }

  /** Text with `sep` at `i` is the part before, `sep`, and the part after. */
  lemma CutAround(s: string, sep: string, i: nat)
    requires OccursAt(s, sep, i)
    ensures s == s[..i] + sep + s[i + |sep|..]
  {
    assert s[..i] + s[i..i + |sep|] + s[i + |sep|..] == s;
  }

  /** A property of every piece or of every piece but the last carries over to `[head] + tail`
      when `head` has it. */
  lemma ConsPieces(head: string, tail: seq<string>, sep: string)
    requires |sep| > 0 && !Contains(head, sep) && !Contains(head + sep[..|sep| - 1], sep)
    requires forall k :: 0 <= k < |tail| ==> !Contains(tail[k], sep)
    requires forall k :: 0 <= k < |tail| - 1 ==> !Contains(tail[k] + sep[..|sep| - 1], sep)
    ensures forall k :: 0 <= k < |tail| + 1 ==> !Contains(([head] + tail)[k], sep)
    ensures forall k :: 0 <= k < |tail| ==> !Contains(([head] + tail)[k] + sep[..|sep| - 1], sep)
  {
    var parts := [head] + tail;
    forall k | 0 <= k < |tail| + 1 ensures !Contains(parts[k], sep) {
      if k > 0 { assert parts[k] == tail[k - 1]; }
    }
    forall k | 0 <= k < |tail| ensures !Contains(parts[k] + sep[..|sep| - 1], sep) {
      if k > 0 { assert parts[k] == tail[k - 1]; }
    }
  }

  /** Joining a piece in front of at least one more inserts one separator. */
  lemma JoinCons(head: string, tail: seq<string>, sep: string)
    requires |tail| >= 1
    ensures Join([head] + tail, sep) == head + sep + Join(tail, sep)
  {
    assert ([head] + tail)[1..] == tail;
  }

  /** The text before the first `sep` holds no `sep`. */
  lemma HeadHasNoSep(s: string, sep: string, i: nat)
    requires |sep| > 0 && FindFirst(s, sep) == Some(i)
    ensures !Contains(s[..i], sep)
  {
    if Contains(s[..i], sep) {
      OccursInPrefix(s, sep, i, FindFirst(s[..i], sep).value);
      assert false;
    }
  }

  /** When `sep` first occurs at `i`, the text before it followed by all but the last character
      of `sep` holds no occurrence: the cut at `i` is the leftmost one. */
  lemma CutIsLeftmost(s: string, sep: string, i: nat)
    requires |sep| > 0 && FindFirst(s, sep) == Some(i)
    ensures !Contains(s[..i] + sep[..|sep| - 1], sep)
  {
    var u := s[..i] + sep[..|sep| - 1];
    assert u == s[..i + |sep| - 1];
    if Contains(u, sep) {
      var j := FindFirst(u, sep).value;
      OccursInPrefix(s, sep, i + |sep| - 1, j);
      assert false;
    }
  }

  /** A run of five line feeds cut at blank lines leaves one line feed at the front of the last
      piece, as `"p\n\n\n\n\nq".split("\n\n")` does. */
  lemma SplitLineFeedRun()
    ensures Split("p\n\n\n\n\nq", "\n\n") == ["p", "", "\nq"]
  {
    var s := "p\n\n\n\n\nq";
    assert s[0] == 'p';
    assert !OccursAt(s, "\n\n", 0);
    assert OccursAt(s, "\n\n", 1);
    assert FindFirst(s, "\n\n") == Some(1);
    assert s[3..] == "\n\n\nq" && s[..1] == "p";
    SplitLineFeedTail();
  }

  /** The two pieces after the first cut of that run. */
  lemma SplitLineFeedTail()
    ensures Split("\n\n\nq", "\n\n") == ["", "\nq"]
  {
    var t := "\n\n\nq";
    assert OccursAt(t, "\n\n", 0);
    assert t[2..] == "\nq" && t[..0] == "";
    SplitLineFeedLast();
  }

  /** A line feed followed by a letter holds no blank line. */
  lemma SplitLineFeedLast()
    ensures Split("\nq", "\n\n") == ["\nq"]
  {
    var u := "\nq";
    assert u[1] == 'q';
    assert forall j: nat :: !OccursAt(u, "\n\n", j);
  }

  /** Splitting a one-character-separated join gives the parts back when no part contains the
      separator. */
  lemma {:induction false} SplitJoinChar(parts: seq<string>, c: char)
    requires |parts| >= 1
    requires forall k :: 0 <= k < |parts| ==> c !in parts[k]
    ensures Split(Join(parts, [c]), [c]) == parts
  {
    var p0 := parts[0];
    if |parts| == 1 {
      forall j: nat ensures !OccursAt(p0, [c], j) {
        if j < |p0| { assert p0[j] != c; }
      }
    } else {
      var s := Join(parts, [c]);
      assert s == p0 + [c] + Join(parts[1..], [c]);
      assert OccursAt(s, [c], |p0|);
      forall j: nat | j < |p0| ensures !OccursAt(s, [c], j) {
        assert s[j] == p0[j];
      }
      assert FindFirst(s, [c]) == Some(|p0|);
      assert s[|p0| + 1..] == Join(parts[1..], [c]);
      SplitJoinChar(parts[1..], c);
      assert s[..|p0|] == p0;
    }
  }

  // ---------------------------------------------------------------- decimal numbers

  predicate IsDigit(c: char)
  {
    '0' <= c <= '9'
  }

  function DigitValue(c: char): (d: nat)
    requires IsDigit(c)
    ensures d < 10
  {
    (c as int) - ('0' as int)
  }

  function DigitChar(d: nat): (c: char)
    requires d < 10
    ensures IsDigit(c) && DigitValue(c) == d
  {
    (('0' as int) + d) as char
  }

  predicate AllDigits(s: string)
  {
    forall i :: 0 <= i < |s| ==> IsDigit(s[i])
  }

  /** The value of a string of decimal digits, most significant first. */
  function DigitsValue(s: string): nat
    requires AllDigits(s)
  {
    if s == [] then 0 else DigitsValue(s[..|s| - 1]) * 10 + DigitValue(s[|s| - 1])
  }

  /** Python's `str(n)` for a natural number: decimal digits without leading zeros. */
  function NatToString(n: nat): (r: string)
    ensures |r| >= 1 && AllDigits(r)
    ensures DigitsValue(r) == n
    ensures r[0] == '0' ==> n == 0
  {
    if n < 10 then [DigitChar(n)]
    else
      var r := NatToString(n / 10) + [DigitChar(n % 10)];
      assert r[..|r| - 1] == NatToString(n / 10);
      r
  }

  /** Python's `str(n)` for an integer. */
  function IntToString(n: int): (r: string)
  {
    if n < 0 then "-" + NatToString(-n) else NatToString(n)
  }

  /** A run of digits in which single underscores may separate two digits, the body that
      `int()` accepts in base 10. */
  predicate IsDigitGroup(s: string)
  {
    && |s| > 0
    && IsDigit(s[0]) && IsDigit(s[|s| - 1])
    && (forall i :: 0 <= i < |s| ==> IsDigit(s[i]) || s[i] == '_')
    && (forall i :: 0 <= i < |s| - 1 ==> s[i] == '_' ==> s[i + 1] != '_')
  }

  function WithoutUnderscores(s: string): (r: string)
    requires forall i :: 0 <= i < |s| ==> IsDigit(s[i]) || s[i] == '_'
    ensures AllDigits(r)
    ensures AllDigits(s) ==> r == s
  {
    if s == [] then []
    else (if s[0] == '_' then [] else [s[0]]) + WithoutUnderscores(s[1..])
  }

  /** Dropping underscores distributes over concatenation. */
  lemma {:induction false} WithoutUnderscoresConcat(a: string, b: string)
    requires forall i :: 0 <= i < |a| ==> IsDigit(a[i]) || a[i] == '_'
    requires forall i :: 0 <= i < |b| ==> IsDigit(b[i]) || b[i] == '_'
    ensures WithoutUnderscores(a + b) == WithoutUnderscores(a) + WithoutUnderscores(b)
  {
    if a != [] {
      assert (a + b)[1..] == a[1..] + b;
      WithoutUnderscoresConcat(a[1..], b);
    } else {
      assert a + b == b;
    }
  }

  /** Only the underscores go: a run of digits before one is kept as it is. */
  lemma WithoutUnderscoresGroup(a: string, b: string)
    requires AllDigits(a)
    requires forall i :: 0 <= i < |b| ==> IsDigit(b[i]) || b[i] == '_'
    ensures WithoutUnderscores(a + "_" + b) == a + WithoutUnderscores(b)
  {
    var u := ['_'] + b;
    assert u[1..] == b;
    assert WithoutUnderscores(u) == WithoutUnderscores(b);
    WithoutUnderscoresConcat(a, u);
    assert a + "_" + b == a + u;
  }

  /** The unsigned part of `int()`: a digit group and its value. */
  function ParseDigitGroup(t: string): (r: Option<nat>)
  {
    if IsDigitGroup(t) then Some(DigitsValue(WithoutUnderscores(t))) else None
  }

  /** `int()` once the surrounding whitespace is gone: an optional sign, then a digit group. */
  function ParseSigned(t: string): (r: Option<int>)
  {
    if |t| > 0 && (t[0] == '+' || t[0] == '-') then
      match ParseDigitGroup(t[1..])
      case None => None
      case Some(n) => Some(if t[0] == '-' then -(n as int) else n as int)
    else
      match ParseDigitGroup(t)
      case None => None
      case Some(n) => Some(n)
  }

  /** Python's `int(s)` on a string: `None` stands for the `ValueError` it raises. Whitespace
      around the number is skipped, an optional sign comes right before the digits, and digits
      may be grouped with single underscores. */
  function ParseInt(s: string): (r: Option<int>)
  {
    ParseSigned(StripSet(s, IsIntWhitespace))
  }

  /** A signed parse needs a digit in the first two characters. */
  lemma ParseSignedNeedsDigit(t: string)
    requires |t| > 0 ==> !IsDigit(t[0])
    requires |t| > 1 ==> !IsDigit(t[1])
    ensures ParseSigned(t) == None
  {
  }

  /** `int()` succeeds only on text that holds at least one decimal digit. */
  lemma ParseIntNeedsDigit(s: string)
    requires forall i :: 0 <= i < |s| ==> !IsDigit(s[i])
    ensures ParseInt(s) == None
  {
    var t := StripSet(s, IsIntWhitespace);
    var a := StripStart(s, IsIntWhitespace);
    if |t| > 1 {
      assert t[0] == s[a] && t[1] == s[a + 1];
    } else if |t| == 1 {
      assert t[0] == s[a];
    }
    ParseSignedNeedsDigit(t);
  }

  /** A run of plain digits is a digit group and reads as its value. */
  lemma DigitGroupValue(d: string)
    requires |d| > 0 && AllDigits(d)
    ensures ParseDigitGroup(d) == Some(DigitsValue(d))
  {
    assert IsDigitGroup(d);
  }

  /** `int()` reads back a run of plain digits. */
  lemma ParseDigits(d: string)
    requires |d| > 0 && AllDigits(d)
    ensures ParseInt(d) == Some(DigitsValue(d))
  {
    assert !IsIntWhitespace(d[0]) && !IsIntWhitespace(d[|d| - 1]);
    StripSetUnchanged(d, IsIntWhitespace);
    ParseSignedDigits(d);
  }

  lemma ParseSignedDigits(d: string)
    requires |d| > 0 && AllDigits(d)
    ensures ParseSigned(d) == Some(DigitsValue(d))
  {
    assert d[0] != '+' && d[0] != '-';
    DigitGroupValue(d);
  }

  /** `int()` reads back a run of plain digits after a minus sign. */
  lemma ParseNegativeDigits(d: string)
    requires |d| > 0 && AllDigits(d)
    ensures ParseInt("-" + d) == Some(-(DigitsValue(d) as int))
  {
    var r := "-" + d;
    assert r[|r| - 1] == d[|d| - 1];
    assert !IsIntWhitespace(r[0]) && !IsIntWhitespace(r[|r| - 1]);
    StripSetUnchanged(r, IsIntWhitespace);
    ParseSignedNegative(d);
  }

  lemma ParseSignedNegative(d: string)
    requires |d| > 0 && AllDigits(d)
    ensures ParseSigned("-" + d) == Some(-(DigitsValue(d) as int))
  {
    var r := "-" + d;
    assert r[1..] == d;
    DigitGroupValue(d);
    ParseMinus(r, d, DigitsValue(d));
  }

  /** A minus sign before a digit group negates its value. */
  lemma ParseMinus(t: string, g: string, n: nat)
    requires t == "-" + g && ParseDigitGroup(g) == Some(n)
    ensures ParseSigned(t) == Some(-(n as int))
  {
    assert t[0] == '-' && t[1..] == g;
  }

  /** `int(str(n)) == n`. */
  lemma ParseIntToString(n: int)
    ensures ParseInt(IntToString(n)) == Some(n)
  {
    if n < 0 {
      ParseNegativeDigits(NatToString(-n));
    } else {
      ParseDigits(NatToString(n));
    }
  }
}
