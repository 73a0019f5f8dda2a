/** The pieces of Python's `str` behaviour that the CVRPLIB converter and the
    parameter tester depend on: `strip()`, `split()`, `split(sep)`, `join`,
    `startswith`/`endswith`, lower-casing, and `int()`/`str()` on decimal
    integers.  Each comes with the fact that pins it down: the padding it
    removes, the join it inverts, the literal it reads back. */
module Text {
  import opened SeqUtil

  /** Python's `str.isspace` for a single character. */
  predicate IsSpace(c: char) {
    c == ' ' || ('\t' <= c <= '\r') || ('\U{1c}' <= c <= '\U{1f}') || c == '\U{85}' || c == '\U{a0}'
    || c == '\U{1680}' || ('\U{2000}' <= c <= '\U{200a}') || c == '\U{2028}' || c == '\U{2029}'
    || c == '\U{202f}' || c == '\U{205f}' || c == '\U{3000}'
  }

  predicate AllSpace(s: string) {
    forall i :: 0 <= i < |s| ==> IsSpace(s[i])
  }

  predicate NoSpace(s: string) {
    forall i :: 0 <= i < |s| ==> !IsSpace(s[i])
  }

  /** Neither end of `s` is whitespace, so stripping leaves it alone. */
  predicate Trimmed(s: string) {
    s == [] || (!IsSpace(s[0]) && !IsSpace(s[|s| - 1]))
  }

  // ----- strip -----

  /** The first index at or after `k` that does not hold whitespace. */
  function SkipSpaces(s: string, k: nat): (j: nat)
    requires k <= |s|
    ensures k <= j <= |s| && (j == |s| || !IsSpace(s[j]))
    ensures forall i :: k <= i < j ==> IsSpace(s[i])
    decreases |s| - k
  {
    if k < |s| && IsSpace(s[k]) then SkipSpaces(s, k + 1) else k
  }

  /** The end of `s[lo..hi]` once its trailing whitespace is dropped. */
  function DropSpaces(s: string, lo: nat, hi: nat): (j: nat)
    requires lo <= hi <= |s|
    ensures lo <= j <= hi && (j == lo || !IsSpace(s[j - 1]))
    ensures forall i :: j <= i < hi ==> IsSpace(s[i])
    decreases hi
  {
    if lo < hi && IsSpace(s[hi - 1]) then DropSpaces(s, lo, hi - 1) else hi
  }

  /** `s.strip()`: the text between the leading and trailing whitespace. */
  function Strip(s: string): (r: string)
    ensures Trimmed(r) && |r| <= |s|
  {
    var lo := SkipSpaces(s, 0);
    s[lo..DropSpaces(s, lo, |s|)]
  }

  /** `s` is `r` with `k` characters of whitespace in front and whitespace
      behind. */
  ghost predicate PaddedAt(s: string, k: nat, r: string) {
    k + |r| <= |s| && s[k..k + |r|] == r
    && (forall i :: 0 <= i < k ==> IsSpace(s[i]))
    && (forall i :: k + |r| <= i < |s| ==> IsSpace(s[i]))
  }

  /** What `strip()` removes is whitespace and only whitespace. */
  lemma StripPadding(s: string)
    ensures PaddedAt(s, SkipSpaces(s, 0), Strip(s))
  {
  }

  lemma SkipSpacesExact(s: string, k: nat, m: nat)
    requires k <= m <= |s| && (m == |s| || !IsSpace(s[m]))
    requires forall i :: k <= i < m ==> IsSpace(s[i])
    ensures SkipSpaces(s, k) == m
    decreases m - k
  {
    if k < m {
      SkipSpacesExact(s, k + 1, m);
    }
  }

  lemma DropSpacesExact(s: string, lo: nat, hi: nat, m: nat)
    requires lo <= m <= hi <= |s| && (m == lo || !IsSpace(s[m - 1]))
    requires forall i :: m <= i < hi ==> IsSpace(s[i])
    ensures DropSpaces(s, lo, hi) == m
    decreases hi
  {
    if m < hi {
      DropSpacesExact(s, lo, hi - 1, m);
    }
  }

  /** Stripping removes exactly the padding: whatever whitespace surrounds a
      trimmed text, `strip()` gives that text back. */
  lemma StripPadded(a: string, r: string, b: string)
    requires AllSpace(a) && AllSpace(b) && Trimmed(r)
    ensures Strip(a + r + b) == r
  {
    var s := a + r + b;
    if r == [] {
      SkipSpacesExact(s, 0, |s|);
      assert s[|s|..|s|] == r;
    } else {
      SkipSpacesExact(s, 0, |a|);
      DropSpacesExact(s, |a|, |s|, |a| + |r|);
      assert s[|a|..|a| + |r|] == r;
    }
  }

  /** A trimmed text is its own strip. */
  lemma StripTrimmed(r: string)
    requires Trimmed(r)
    ensures Strip(r) == r
  {
    StripPadded([], r, []);
    assert [] + r + [] == r;
  }

  // ----- join and split(sep) -----

  /** `sep.join(parts)`. */
  function Join(parts: seq<string>, sep: string): string
  {
    if |parts| == 0 then []
    else if |parts| == 1 then parts[0]
    else parts[0] + sep + Join(parts[1..], sep)
  }

  /** `s.split(sep)` for a one-character separator: the pieces between
      consecutive separators, always at least one (`"".split(",") == [""]`),
      and joining them with the separator gives `s` back. */
  function SplitOn(s: string, sep: char): (parts: seq<string>)
    ensures |parts| >= 1
    ensures forall i :: 0 <= i < |parts| ==> sep !in parts[i]
    decreases |s|
  {
    if s == [] then [[]]
    else
      var rest := SplitOn(s[1..], sep);
      if s[0] == sep then [[]] + rest
      else [[s[0]] + rest[0]] + rest[1..]
  }

  /** Joining the pieces with the separator gives the text back. */
  lemma {:induction false} JoinSplit(s: string, sep: char)
    ensures Join(SplitOn(s, sep), [sep]) == s
    decreases |s|
  {
    if s != [] {
      var parts, rest := SplitOn(s, sep), SplitOn(s[1..], sep);
      JoinSplit(s[1..], sep);
      if s[0] == sep {
        assert parts[1..] == rest;
        assert Join(parts, [sep]) == [s[0]] + Join(rest, [sep]);
      } else if |rest| == 1 {
        assert parts == [[s[0]] + rest[0]];
        assert Join(parts, [sep]) == [s[0]] + Join(rest, [sep]);
      } else {
        var more := Join(rest[1..], [sep]);
        assert parts[1..] == rest[1..];
        assert Join(parts, [sep]) == ([s[0]] + rest[0]) + [sep] + more;
        assert Join(rest, [sep]) == rest[0] + [sep] + more;
        assert Join(parts, [sep]) == [s[0]] + Join(rest, [sep]);
      }
      assert s == [s[0]] + s[1..];
    }
  }

  lemma SplitWhole(w: string, sep: char)
    requires sep !in w
    ensures SplitOn(w, sep) == [w]
    decreases |w|
  {
    if w != [] {
      SplitWhole(w[1..], sep);
      assert [w[0]] + w[1..] == w;
    }
  }

  lemma SplitCons(c: char, s: string, sep: char)
    requires c != sep
    ensures SplitOn([c] + s, sep) == [[c] + SplitOn(s, sep)[0]] + SplitOn(s, sep)[1..]
  {
    assert ([c] + s)[1..] == s;
  }

  lemma SplitFirst(w: string, sep: char, t: string)
    requires sep !in w
    ensures SplitOn(w + [sep] + t, sep) == [w] + SplitOn(t, sep)
    decreases |w|
  {
    if w == [] {
      assert w + [sep] + t == [sep] + t;
      assert ([sep] + t)[1..] == t;
    } else {
      var tail := w[1..] + [sep] + t;
      SplitFirst(w[1..], sep, t);
      SplitCons(w[0], tail, sep);
      assert w + [sep] + t == [w[0]] + tail;
      assert [w[0]] + w[1..] == w;
    }
  }

  /** `split` inverts `join`: pieces free of the separator come back
      unchanged. */
  lemma {:induction false} SplitJoin(parts: seq<string>, sep: char)
    requires |parts| >= 1
    requires forall i :: 0 <= i < |parts| ==> sep !in parts[i]
    ensures SplitOn(Join(parts, [sep]), sep) == parts
    decreases |parts|
  {
    if |parts| == 1 {
      SplitWhole(parts[0], sep);
    } else {
      SplitJoin(parts[1..], sep);
      SplitFirst(parts[0], sep, Join(parts[1..], [sep]));
      assert [parts[0]] + parts[1..] == parts;
    }
  }

  // ----- split() on whitespace -----

  /** `s.split()`: the maximal runs of non-whitespace characters, in order. */
  function Words(s: string): (ws: seq<string>)
    ensures forall i :: 0 <= i < |ws| ==> ws[i] != [] && NoSpace(ws[i])
    ensures s != [] && !IsSpace(s[0]) ==> ws != [] && ws[0][0] == s[0]
    decreases |s|
  {
    if s == [] then []
    else
      var rest := Words(s[1..]);
      if IsSpace(s[0]) then rest
      else if |s| == 1 || IsSpace(s[1]) then [[s[0]]] + rest
      else
        var first := [s[0]] + rest[0];
        assert NoSpace(first) by {
          forall i | 0 <= i < |first| ensures !IsSpace(first[i]) {
            if i > 0 { assert first[i] == rest[0][i - 1]; }
          }
        }
        [first] + rest[1..]
  }

  lemma WordsFirst(w: string, t: string)
    requires w != [] && NoSpace(w) && (t == [] || IsSpace(t[0]))
    ensures Words(w + t) == [w] + Words(t)
    decreases |w|
  {
    assert (w + t)[1..] == w[1..] + t;
    if |w| > 1 {
      WordsFirst(w[1..], t);
      assert [w[0]] + w[1..] == w;
    } else {
      assert w == [w[0]];
      assert w[1..] + t == t;
    }
  }

  /** `split()` inverts joining with single spaces. */
  lemma WordsSpace(t: string)
    ensures Words(" " + t) == Words(t)
  {
    assert (" " + t)[1..] == t;
  }

  lemma {:induction false} WordsJoin(ws: seq<string>)
    requires forall i :: 0 <= i < |ws| ==> ws[i] != [] && NoSpace(ws[i])
    ensures Words(Join(ws, " ")) == ws
    decreases |ws|
  {
    if |ws| == 1 {
      WordsFirst(ws[0], []);
      assert ws[0] + [] == ws[0];
    } else if |ws| > 1 {
      var t := Join(ws[1..], " ");
      assert Join(ws, " ") == ws[0] + (" " + t);
      WordsJoin(ws[1..]);
      WordsSpace(t);
      WordsFirst(ws[0], " " + t);
      assert [ws[0]] + ws[1..] == ws;
    }
  }

  /** A non-empty run of non-whitespace characters, as `split()` yields. */
  predicate Token(w: string) {
    w != [] && NoSpace(w)
  }

  /** Tokens joined by single spaces form a trimmed line that starts with
      the first token's first character. */
  lemma {:induction false} JoinTokensTrimmed(ws: seq<string>)
    requires |ws| >= 1 && forall i :: 0 <= i < |ws| ==> Token(ws[i])
    ensures Trimmed(Join(ws, " ")) && Join(ws, " ") != [] && Join(ws, " ")[0] == ws[0][0]
    decreases |ws|
  {
    if |ws| > 1 {
      var t := Join(ws[1..], " ");
      JoinTokensTrimmed(ws[1..]);
      var line := ws[0] + " " + t;
      assert line[|line| - 1] == t[|t| - 1];
    }
  }

  /** A line of tokens survives `strip()` and `split()` unchanged. */
  lemma TokenLine(ws: seq<string>)
    requires |ws| >= 1 && forall i :: 0 <= i < |ws| ==> Token(ws[i])
    ensures Strip(Join(ws, " ")) == Join(ws, " ")
    ensures Words(Strip(Join(ws, " "))) == ws
  {
    JoinTokensTrimmed(ws);
    StripTrimmed(Join(ws, " "));
    WordsJoin(ws);
  }

  // ----- prefixes and case -----

  predicate StartsWith(s: string, prefix: string) {
    |prefix| <= |s| && s[..|prefix|] == prefix
  }

  predicate EndsWith(s: string, suffix: string) {
    |suffix| <= |s| && s[|s| - |suffix|..] == suffix
  }

  /** Lower-casing of one character, for the ASCII letters. */
  function LowerChar(c: char): char {
    if 'A' <= c <= 'Z' then (c as int + 32) as char else c
  }

  /** `s.lower()` restricted to ASCII letters: the same length, each letter
      mapped on its own. */
  function Lower(s: string): (r: string)
    ensures |r| == |s| && forall i :: 0 <= i < |s| ==> r[i] == LowerChar(s[i])
  {
    seq(|s|, i requires 0 <= i < |s| => LowerChar(s[i]))
  }

  // ----- int() and str() on integers -----

  predicate IsDigit(c: char) {
    '0' <= c <= '9'
  }

  function DigitValue(c: char): nat
    requires IsDigit(c)
  {
    c as int - '0' as int
  }

  function DigitChar(d: nat): (c: char)
    requires d < 10
    ensures IsDigit(c) && DigitValue(c) == d
  {
    ('0' as int + d) as char
  }

  /** The body of a Python decimal literal: digits, with single underscores
      allowed between two digits (`int("1_000") == 1000`). */
  predicate Grouped(s: string) {
    && |s| > 0 && IsDigit(s[0]) && IsDigit(s[|s| - 1])
    && (forall i :: 0 <= i < |s| ==> IsDigit(s[i]) || s[i] == '_')
    && (forall i :: 0 <= i < |s| - 1 ==> !(s[i] == '_' && s[i + 1] == '_'))
  }

  /** The number a run of digits and underscores denotes. */
  function GroupedValue(s: string): nat
    requires forall i :: 0 <= i < |s| ==> IsDigit(s[i]) || s[i] == '_'
  {
    if s == [] then 0
    else if s[|s| - 1] == '_' then GroupedValue(s[..|s| - 1])
    else 10 * GroupedValue(s[..|s| - 1]) + DigitValue(s[|s| - 1])
  }

  /** `int()` on text without surrounding whitespace: an optional sign,
      then a grouped literal; anything else raises, which is `None` here. */
  function ParseToken(t: string): Option<int>
  {
    if |t| > 0 && (t[0] == '+' || t[0] == '-') then
      if Grouped(t[1..]) then
        var v: int := GroupedValue(t[1..]);
        Some(if t[0] == '-' then -v else v)
      else None
    else if Grouped(t) then Some(GroupedValue(t))
    else None
  }

  /** `int(s)` for base 10, which first strips surrounding whitespace. */
  function ParseInt(s: string): Option<int>
  {
    ParseToken(Strip(s))
  }

  /** `str(n)` for a natural number: its decimal digits, no leading zero. */
  function ShowNat(n: nat): (s: string)
    ensures |s| >= 1 && forall i :: 0 <= i < |s| ==> IsDigit(s[i])
    ensures |s| > 1 ==> s[0] != '0'
  {
    if n < 10 then [DigitChar(n)] else ShowNat(n / 10) + [DigitChar(n % 10)]
  }

  /** `str(n)`: a minus sign for negative numbers, then the digits. */
  function ShowInt(n: int): (s: string)
    ensures s != [] && NoSpace(s) && (IsDigit(s[0]) || s[0] == '-')
  {
    if n < 0 then "-" + ShowNat(-n) else ShowNat(n)
  }

  lemma {:induction false} ShowNatValue(n: nat)
    ensures Grouped(ShowNat(n)) && GroupedValue(ShowNat(n)) == n
  {
    var s := ShowNat(n);
    if n >= 10 {
      ShowNatValue(n / 10);
      assert s[..|s| - 1] == ShowNat(n / 10);
    } else {
      assert s[..0] == [];
    }
  }

  lemma ParseShowNat(n: nat)
    ensures ParseInt(ShowNat(n)) == Some(n)
  {
    var s := ShowNat(n);
    assert Trimmed(s);
    StripTrimmed(s);
    ShowNatValue(n);
  }

  lemma ParseShowNegative(n: int)
    requires n < 0
    ensures ParseInt("-" + ShowNat(-n)) == Some(n)
  {
    var digits := ShowNat(-n);
    var s := "-" + digits;
    ShowNatValue(-n);
    assert Trimmed(s);
    StripTrimmed(s);
    assert s[0] == '-' && s[1..] == digits;
    assert Grouped(s[1..]) && GroupedValue(s[1..]) == -n;
  }

  /** `int()` ignores the whitespace around its argument. */
  lemma ParseIntPadded(a: string, t: string, b: string)
    requires AllSpace(a) && AllSpace(b) && Trimmed(t)
    ensures ParseInt(a + t + b) == ParseInt(t)
  {
    StripPadded(a, t, b);
    StripTrimmed(t);
  }

  /** `int(str(n)) == n`. */
  lemma ParseShowInt(n: int)
    ensures ParseInt(ShowInt(n)) == Some(n)
  {
    if n < 0 {
      ParseShowNegative(n);
    } else {
      ParseShowNat(n);
    }
  }
}
