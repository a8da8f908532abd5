/**
 * The Python string builtins the backup tool relies on: `str.isspace`,
 * `str.strip`, `str.startswith`, `str.split` on one character, `str.join`
 * and the decimal rendering of an `int` inside an f-string.
 */
module Text {

  /** Python's `str.isspace()` for one character (Unicode White_Space plus the
      separators U+001C..U+001F that Python also counts). */
  predicate IsSpace(c: char)
  {
    || c == ' '
    || ('\t' <= c <= '\r')
    || ('\U{1C}' <= c <= '\U{1F}')
    || c == '\U{85}' || c == '\U{A0}' || c == '\U{1680}'
    || ('\U{2000}' <= c <= '\U{200A}')
    || c == '\U{2028}' || c == '\U{2029}' || c == '\U{202F}' || c == '\U{205F}' || c == '\U{3000}'
  }

  /** Drops leading whitespace (`str.lstrip()`). */
  function TrimLeft(s: string): (r: string)
    ensures |r| <= |s| && r == s[|s| - |r|..]
    ensures forall i :: 0 <= i < |s| - |r| ==> IsSpace(s[i])
    ensures r == [] || !IsSpace(r[0])
    decreases |s|
  {
    if |s| > 0 && IsSpace(s[0]) then TrimLeft(s[1..]) else s
  }

  /** Drops trailing whitespace (`str.rstrip()`). */
  function TrimRight(s: string): (r: string)
    ensures |r| <= |s| && r == s[..|r|]
    ensures forall i :: |r| <= i < |s| ==> IsSpace(s[i])
    ensures r == [] || !IsSpace(r[|r| - 1])
    decreases |s|
  {
    if |s| > 0 && IsSpace(s[|s| - 1]) then TrimRight(s[..|s| - 1]) else s
  }

  /** Python's `str.strip()`. */
  function Strip(s: string): string
  {
    TrimRight(TrimLeft(s))
  }

  /** A string without leading or trailing whitespace. */
  predicate Clean(s: string)
  {
    s == [] || (!IsSpace(s[0]) && !IsSpace(s[|s| - 1]))
  }

  /** A string whose last character (if any) is not whitespace. */
  predicate NoTrailingSpace(s: string)
  {
    s == [] || !IsSpace(s[|s| - 1])
  }

  /** What `str.strip()` returns: a clean slice of the input, and the input
      itself exactly when the input is already clean. */
  lemma StripIsClean(s: string)
    ensures Clean(Strip(s))
    ensures Strip(s) == s <==> Clean(s)
  {
    var l := TrimLeft(s);
    var r := TrimRight(l);
    if r != [] {
      assert r[0] == l[0];
    }
    if Clean(s) && s != [] {
      assert TrimLeft(s) == s;
      assert TrimRight(s) == s;
    }
  }

  /** Trailing whitespace makes no difference to `str.strip()`. */
  lemma StripIgnoresTrailingSpace(x: string, c: char)
    requires IsSpace(c)
    ensures Strip(x + [c]) == Strip(x)
  {
    if exists i :: 0 <= i < |x| && !IsSpace(x[i]) {
      TrimLeftAppend(x, c);
      TrimRightDropsSpace(TrimLeft(x), c);
    } else {
      AllSpaceTrimsAway(x);
      AllSpaceTrimsAway(x + [c]);
    }
  }

  lemma TrimRightDropsSpace(l: string, c: char)
    requires IsSpace(c)
    ensures TrimRight(l + [c]) == TrimRight(l)
  {
    assert (l + [c])[..|l|] == l;
  }

  lemma AllSpaceTrimsAway(x: string)
    requires forall i :: 0 <= i < |x| ==> IsSpace(x[i])
    ensures TrimLeft(x) == []
  {
  }

  /** Leading whitespace is trimmed the same way when something non-blank
      comes before the appended character. */
  lemma {:induction false} TrimLeftAppend(x: string, c: char)
    requires exists i :: 0 <= i < |x| && !IsSpace(x[i])
    ensures TrimLeft(x + [c]) == TrimLeft(x) + [c]
    decreases |x|
  {
    var y := x + [c];
    if IsSpace(x[0]) {
      assert y[1..] == x[1..] + [c];
      var i :| 0 <= i < |x| && !IsSpace(x[i]);
      assert x[1..][i - 1] == x[i];
      TrimLeftAppend(x[1..], c);
    }
  }

  /** `not s.strip()`: the string is empty or all whitespace. */
  predicate IsBlank(s: string)
    decreases |s|
  {
    |s| == 0 || (IsSpace(s[0]) && IsBlank(s[1..]))
  }

  /** A string is blank exactly when `strip()` leaves nothing of it. */
  lemma {:induction false} IsBlankMeans(s: string)
    ensures IsBlank(s) <==> Strip(s) == []
    ensures IsBlank(s) <==> forall i :: 0 <= i < |s| ==> IsSpace(s[i])
    decreases |s|
  {
    var t := TrimLeft(s);
    assert t != [] ==> TrimRight(t) != [];
    if |s| > 0 {
      IsBlankMeans(s[1..]);
      if IsSpace(s[0]) {
        assert forall i :: 1 <= i < |s| ==> s[1..][i - 1] == s[i];
      }
    }
  }

  /** A leading space disappears under `strip()` when the rest is clean. */
  lemma StripAfterSpace(x: string)
    requires Clean(x)
    ensures Strip(" " + x) == x
  {
    assert (" " + x)[1..] == x;
    assert TrimLeft(" " + x) == TrimLeft(x);
    StripIsClean(x);
  }

  /** `prefix + s` stays clean when the prefix starts and ends with
      non-whitespace and `s` does not end in whitespace. */
  lemma CleanAfterPrefix(prefix: string, s: string)
    requires |prefix| > 0 && !IsSpace(prefix[0]) && !IsSpace(prefix[|prefix| - 1])
    requires NoTrailingSpace(s)
    ensures Clean(prefix + s)
  {
    var t := prefix + s;
    assert t[0] == prefix[0];
    if s == [] {
      assert t == prefix;
    } else {
      assert t[|t| - 1] == s[|s| - 1];
    }
  }

  /** Python's `s.startswith(prefix)`. */
  predicate HasPrefix(prefix: string, s: string)
  {
    |prefix| <= |s| && s[..|prefix|] == prefix
  }

  /** Python's `sep.join(xs)`. */
  function Join(xs: seq<string>, sep: string): string
  {
    if |xs| == 0 then ""
    else if |xs| == 1 then xs[0]
    else xs[0] + sep + Join(xs[1..], sep)
  }

  /** Python's `s.split(sep)` for a one-character separator: never empty, no
      piece holds the separator, and joining the pieces back gives `s`. */
  function Split(s: string, sep: char): (r: seq<string>)
    ensures |r| >= 1
    ensures forall i :: 0 <= i < |r| ==> sep !in r[i]
    ensures Join(r, [sep]) == s
    decreases |s|
  {
    if |s| == 0 then [""]
    else
      var rest := Split(s[1..], sep);
      if s[0] == sep then
        assert Join([""] + rest, [sep]) == [sep] + Join(rest, [sep]);
        [""] + rest
      else
        JoinGrowsHead(s[0], rest, [sep]);
        [[s[0]] + rest[0]] + rest[1..]
  }

  lemma JoinGrowsHead(c: char, xs: seq<string>, sep: string)
    requires |xs| >= 1
    ensures Join([[c] + xs[0]] + xs[1..], sep) == [c] + Join(xs, sep)
  {
    var ys := [[c] + xs[0]] + xs[1..];
    assert ys[1..] == xs[1..];
  }

  /** A string without the separator splits into itself. */
  lemma {:induction false} SplitWithoutSeparator(a: string, sep: char)
    requires sep !in a
    ensures Split(a, sep) == [a]
    decreases |a|
  {
    if |a| > 0 {
      SplitWithoutSeparator(a[1..], sep);
      assert [a[0]] + a[1..] == a;
    }
  }

  /** Splitting at the first separator. */
  lemma {:induction false} SplitAtFirstSeparator(a: string, sep: char, b: string)
    requires sep !in a
    ensures Split(a + [sep] + b, sep) == [a] + Split(b, sep)
    decreases |a|
  {
    var s := a + [sep] + b;
    if |a| == 0 {
      assert s[0] == sep && s[1..] == b;
    } else {
      assert s[0] == a[0] && s[1..] == a[1..] + [sep] + b;
      SplitAtFirstSeparator(a[1..], sep, b);
      assert [a[0]] + a[1..] == a;
    }
  }

  /** `split` undoes `join` when no piece holds the separator. */
  lemma {:induction false} SplitJoin(xs: seq<string>, sep: char)
    requires |xs| >= 1
    requires forall i :: 0 <= i < |xs| ==> sep !in xs[i]
    ensures Split(Join(xs, [sep]), sep) == xs
    decreases |xs|
  {
    if |xs| == 1 {
      SplitWithoutSeparator(xs[0], sep);
    } else {
      SplitJoin(xs[1..], sep);
      SplitAtFirstSeparator(xs[0], sep, Join(xs[1..], [sep]));
      assert [xs[0]] + xs[1..] == xs;
    }
  }

  /** The decimal digit for `d`. */
  function Digit(d: nat): char
    requires d < 10
  {
    "0123456789"[d]
  }

  /** Python's `str(n)` (and `f"{n}"`) for a natural number. */
  function NatToString(n: nat): (r: string)
    ensures |r| >= 1
    ensures n < 10 <==> |r| == 1
    decreases n
  {
    if n < 10 then [Digit(n)] else NatToString(n / 10) + [Digit(n % 10)]
  }

  /** Distinct numbers render differently. */
  lemma {:induction false} NatToStringInjective(a: nat, b: nat)
    requires NatToString(a) == NatToString(b)
    ensures a == b
    decreases a
  {
    if a >= 10 && b >= 10 {
      var sa, sb := NatToString(a), NatToString(b);
      assert sa[|sa| - 1] == sb[|sb| - 1];
      assert NatToString(a / 10) == sa[..|sa| - 1] == sb[..|sb| - 1] == NatToString(b / 10);
      NatToStringInjective(a / 10, b / 10);
    }
  }
}
