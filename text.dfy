/**
 The Python 2 string operations the FASTQ scripts rely on, on `string = seq<char>`:
 `strip()`, `split(c)` with a one-character separator, `split()[0]`, iteration over
 the lines of a file, `startswith`/`endswith` and `%d` rendering of a count.
 */
module Text {
  import opened Wrappers

  /** Whitespace as Python 2 `str.strip()` and `str.split()` see it. */
  predicate IsSpace(c: char) {
    c == ' ' || c == '\t' || c == '\n' || c == '\r' || c == '\U{B}' || c == '\U{C}'
  }

  predicate NoSpace(s: string) {
    forall i :: 0 <= i < |s| ==> !IsSpace(s[i])
  }

  predicate AllSpace(s: string) {
    forall i :: 0 <= i < |s| ==> IsSpace(s[i])
  }

  /** A token is what `split()` can return: non-empty and free of whitespace. */
  predicate IsToken(t: string) {
    |t| > 0 && NoSpace(t)
  }

  /** `s.strip()`: whitespace peeled off the front, then off the back, one character at a time. */
  function Strip(s: string): string
    decreases |s|
  {
    if |s| > 0 && IsSpace(s[0]) then Strip(s[1..])
    else if |s| > 0 && IsSpace(s[|s| - 1]) then Strip(s[..|s| - 1])
    else s
  }

  /** What is left after stripping is the slice `s[i..j]` between a whitespace-only prefix and a whitespace-only suffix. */
  lemma {:induction false} StripShape(s: string) returns (i: nat, j: nat)
    ensures i <= j <= |s| && Strip(s) == s[i..j]
    ensures AllSpace(s[..i]) && AllSpace(s[j..])
    decreases |s|
  {
    if |s| > 0 && IsSpace(s[0]) {
      var t := s[1..];
      var i', j' := StripShape(t);
      i, j := i' + 1, j' + 1;
      assert t[i'..j'] == s[i..j];
      assert s[..i] == [s[0]] + t[..i'];
      assert s[j..] == t[j'..];
    } else if |s| > 0 && IsSpace(s[|s| - 1]) {
      var t := s[..|s| - 1];
      i, j := StripShape(t);
      assert t[i..j] == s[i..j];
      assert s[..i] == t[..i];
      assert s[j..] == t[j..] + [s[|s| - 1]];
    } else {
      i, j := 0, |s|;
      assert s[i..j] == s;
    }
  }

  /** A stripped string neither starts nor ends with whitespace. */
  lemma {:induction false} StripEnds(s: string)
    ensures Strip(s) == [] || (!IsSpace(Strip(s)[0]) && !IsSpace(Strip(s)[|Strip(s)| - 1]))
    decreases |s|
  {
    if |s| > 0 && IsSpace(s[0]) {
      StripEnds(s[1..]);
    } else if |s| > 0 && IsSpace(s[|s| - 1]) {
      StripEnds(s[..|s| - 1]);
    }
  }

  /** A string with no whitespace at either end is its own strip. */
  lemma StripTrimmed(s: string)
    requires s == [] || (!IsSpace(s[0]) && !IsSpace(s[|s| - 1]))
    ensures Strip(s) == s
  {
  }

  /** Stripping is idempotent. */
  lemma StripIdempotent(s: string)
    ensures Strip(Strip(s)) == Strip(s)
  {
    StripEnds(s);
    StripTrimmed(Strip(s));
  }

  /** Stripping ignores a trailing line terminator: what `for line in f` hands over still ends in '\n'. */
  lemma {:induction false} StripNewline(s: string)
    ensures Strip(s + "\n") == Strip(s)
    decreases |s|
  {
    var t := s + "\n";
    if |s| == 0 {
      assert t[1..] == s;
    } else if IsSpace(s[0]) {
      assert t[1..] == s[1..] + "\n";
      StripNewline(s[1..]);
    } else {
      assert t[0] == s[0] && t[..|t| - 1] == s;
    }
  }

  /** Python's `s.split(c)` for a single-character separator: the pieces between separators, at least one. */
  function SplitOn(s: string, c: char): (r: seq<string>)
    ensures |r| >= 1
    decreases |s|
  {
    if |s| == 0 then [""]
    else
      var rest := SplitOn(s[1..], c);
      if s[0] == c then [""] + rest
      else [[s[0]] + rest[0]] + rest[1..]
  }

  /** The pieces hold no separator, and joining them with it gives the text back. */
  lemma {:induction false} SplitOnPieces(s: string, c: char)
    ensures forall i :: 0 <= i < |SplitOn(s, c)| ==> c !in SplitOn(s, c)[i]
    ensures JoinWith(SplitOn(s, c), c) == s
    decreases |s|
  {
    if |s| > 0 {
      var rest := SplitOn(s[1..], c);
      SplitOnPieces(s[1..], c);
      assert [s[0]] + s[1..] == s;
      if s[0] == c {
        assert JoinWith([""] + rest, c) == [c] + JoinWith(rest, c);
      } else {
        var r := [[s[0]] + rest[0]] + rest[1..];
        assert r[1..] == rest[1..];
        assert JoinWith(r, c) == [s[0]] + JoinWith(rest, c);
      }
    }
  }

  /** `c.join(parts)`. */
  function JoinWith(parts: seq<string>, c: char): string
  {
    if |parts| == 0 then ""
    else if |parts| == 1 then parts[0]
    else parts[0] + [c] + JoinWith(parts[1..], c)
  }

  /** A separator splits the text on either side of it independently. */
  lemma {:induction false} SplitOnConcat(a: string, b: string, c: char)
    ensures SplitOn(a + [c] + b, c) == SplitOn(a, c) + SplitOn(b, c)
    decreases |a|
  {
    if |a| == 0 {
      assert a + [c] + b == [c] + b;
      assert ([c] + b)[1..] == b;
    } else {
      assert (a + [c] + b)[1..] == a[1..] + [c] + b;
      SplitOnConcat(a[1..], b, c);
    }
  }

  /** Splitting undoes joining, whenever no piece holds the separator. */
  lemma {:induction false} SplitJoin(parts: seq<string>, c: char)
    requires |parts| >= 1
    requires forall i :: 0 <= i < |parts| ==> c !in parts[i]
    ensures SplitOn(JoinWith(parts, c), c) == parts
    decreases |parts|
  {
    SplitNoSeparator(parts[0], c);
    if |parts| > 1 {
      SplitJoin(parts[1..], c);
      SplitOnConcat(parts[0], JoinWith(parts[1..], c), c);
      assert parts == [parts[0]] + parts[1..];
    }
  }

  /** A text without the separator is a single piece. */
  lemma {:induction false} SplitNoSeparator(s: string, c: char)
    requires c !in s
    ensures SplitOn(s, c) == [s]
    decreases |s|
  {
    if |s| > 0 {
      assert c !in s[1..] by {
        forall i | 0 <= i < |s[1..]| ensures s[1..][i] != c { assert s[1..][i] == s[i + 1]; }
      }
      SplitNoSeparator(s[1..], c);
      assert [s[0]] + s[1..] == s;
    }
  }

  /** `e.split(' ')[0]`: the part of a header field before its first space. */
  function FieldKey(e: string): string
  {
    SplitOn(e, ' ')[0]
  }

  /** The key is the prefix of the field up to, and not including, its first space. */
  lemma FieldKeyShape(e: string)
    ensures var r := FieldKey(e);
            && |r| <= |e| && r == e[..|r|] && ' ' !in r
            && (|r| == |e| || e[|r|] == ' ')
  {
    var parts := SplitOn(e, ' ');
    SplitOnPieces(e, ' ');
    assert |parts| > 1 ==> e == parts[0] + [' '] + JoinWith(parts[1..], ' ');
  }

  /** The longest prefix of `s` without whitespace. */
  function Word(s: string): string
  {
    if |s| == 0 || IsSpace(s[0]) then "" else [s[0]] + Word(s[1..])
  }

  /** The word is a prefix of `s`, holds no whitespace, and ends where `s` does or at a whitespace character. */
  lemma {:induction false} WordShape(s: string)
    ensures var w := Word(s);
            && |w| <= |s| && w == s[..|w|] && NoSpace(w)
            && (|w| == |s| || IsSpace(s[|w|]))
  {
    if |s| > 0 && !IsSpace(s[0]) {
      WordShape(s[1..]);
      var w := Word(s[1..]);
      assert Word(s)[1..] == w;
      assert [s[0]] + s[1..][..|w|] == s[..1 + |w|];
    }
  }

  /**
   `s.split()[0]`: leading whitespace skipped, then the word that follows; `None` where Python
   raises IndexError because `s` is empty or all whitespace.
   */
  function FirstToken(s: string): Option<string>
  {
    if |s| == 0 then None
    else if IsSpace(s[0]) then FirstToken(s[1..])
    else Some(Word(s))
  }

  /**
   There is no token exactly when `s` is all whitespace; otherwise the token is non-empty, free
   of whitespace, and is the maximal run of non-whitespace characters right after the leading
   whitespace `s[..i]`.
   */
  lemma {:induction false} FirstTokenShape(s: string) returns (i: nat)
    ensures FirstToken(s).None? <==> AllSpace(s)
    ensures FirstToken(s).Some? ==>
              var t := FirstToken(s).value;
              && IsToken(t) && i + |t| <= |s| && AllSpace(s[..i]) && s[i..i + |t|] == t
              && (i + |t| == |s| || IsSpace(s[i + |t|]))
    decreases |s|
  {
    if |s| == 0 {
      i := 0;
    } else if IsSpace(s[0]) {
      var i' := FirstTokenShape(s[1..]);
      i := i' + 1;
      assert forall j :: 1 <= j < |s| ==> s[1..][j - 1] == s[j];
      if FirstToken(s).Some? {
        var t := FirstToken(s).value;
        assert s[..i] == [s[0]] + s[1..][..i'];
        assert s[1..][i'..i' + |t|] == s[i..i + |t|];
      }
    } else {
      i := 0;
      WordShape(s);
      assert !AllSpace(s) by { assert !IsSpace(s[0]); }
      assert Word(s) == [s[0]] + Word(s[1..]);
      assert s[..0] == [];
    }
  }

  /** What `split()[0]` returns is a token. */
  lemma TokenHasNoSpace(s: string)
    requires FirstToken(s).Some?
    ensures IsToken(FirstToken(s).value)
  {
    var _ := FirstTokenShape(s);
  }

  /** Re-tokenising a token changes nothing. */
  lemma TokenIsOwnToken(t: string)
    requires IsToken(t)
    ensures FirstToken(t) == Some(t)
  {
    assert !IsSpace(t[0]);
    WordOfNoSpace(t);
  }

  lemma {:induction false} WordOfNoSpace(t: string)
    requires NoSpace(t)
    ensures Word(t) == t
    decreases |t|
  {
    if |t| > 0 {
      WordOfNoSpace(t[1..]);
      assert [t[0]] + t[1..] == t;
    }
  }

  /** The first token of a token is that token: taking `split()[0]` twice is taking it once. */
  lemma FirstTokenIdempotent(s: string)
    requires FirstToken(s).Some?
    ensures FirstToken(FirstToken(s).value) == FirstToken(s)
  {
    TokenHasNoSpace(s);
    TokenIsOwnToken(FirstToken(s).value);
  }

  /** An identifier followed by whitespace and any description still yields the identifier alone. */
  lemma {:induction false} FirstTokenIgnoresDescription(t: string, sp: char, rest: string)
    requires IsToken(t) && IsSpace(sp)
    ensures FirstToken(t + [sp] + rest) == Some(t)
    decreases |t|
  {
    var s := t + [sp] + rest;
    assert s[0] == t[0] && !IsSpace(t[0]);
    WordStopsAtSpace(t, sp, rest);
  }

  lemma {:induction false} WordStopsAtSpace(t: string, sp: char, rest: string)
    requires NoSpace(t) && IsSpace(sp)
    ensures Word(t + [sp] + rest) == t
    decreases |t|
  {
    var s := t + [sp] + rest;
    if |t| > 0 {
      assert s[1..] == t[1..] + [sp] + rest;
      WordStopsAtSpace(t[1..], sp, rest);
      assert [t[0]] + t[1..] == t;
    }
  }

  /** A token has no whitespace to strip: the trailing `.strip()` after `split()[0]` is a no-op. */
  lemma StripToken(t: string)
    requires IsToken(t)
    ensures Strip(t) == t
  {
    StripTrimmed(t);
  }

  /** `s.startswith(p)`. */
  predicate StartsWith(s: string, p: string) {
    |p| <= |s| && s[..|p|] == p
  }

  /** `s.endswith(p)`. */
  predicate EndsWith(s: string, p: string) {
    |p| <= |s| && s[|s| - |p|..] == p
  }

  /** Python's `s[:n]`, which never fails: a count beyond the end takes the whole string. */
  function Take(s: string, n: nat): (r: string)
    ensures |r| == if n <= |s| then n else |s|
    ensures r == s[..|r|]
  {
    if n <= |s| then s[..n] else s
  }

  /** Length of the first line of `t` as `for line in f` delivers it: up to and including the first '\n'. */
  function LineLength(t: string): (n: nat)
    ensures n <= |t| && (|t| > 0 ==> 0 < n)
    ensures '\n' !in t[..n] || t[n - 1] == '\n'
    decreases |t|
  {
    if |t| == 0 then 0
    else if t[0] == '\n' then 1
    else
      var m := LineLength(t[1..]);
      assert t[..1 + m] == [t[0]] + t[1..][..m];
      1 + m
  }

  /** The lines of a text as file iteration yields them: each keeps its '\n', and a last line may lack one. */
  function Lines(t: string): (r: seq<string>)
    decreases |t|
  {
    if |t| == 0 then [] else
      var n := LineLength(t);
      [t[..n]] + Lines(t[n..])
  }

  /** A line without '\n' followed by '\n' is read back as one line. */
  lemma LinesCons(x: string, rest: string)
    requires '\n' !in x
    ensures Lines(x + "\n" + rest) == [x + "\n"] + Lines(rest)
  {
    var t := x + "\n" + rest;
    LineLengthOf(x, rest);
    assert t[..|x| + 1] == x + "\n";
    assert t[|x| + 1..] == rest;
  }

  lemma {:induction false} LineLengthOf(x: string, rest: string)
    requires '\n' !in x
    ensures LineLength(x + "\n" + rest) == |x| + 1
    decreases |x|
  {
    if |x| > 0 {
      assert (x + "\n" + rest)[1..] == x[1..] + "\n" + rest;
      assert '\n' !in x[1..] by {
        forall i | 0 <= i < |x[1..]| ensures x[1..][i] != '\n' { assert x[1..][i] == x[i + 1]; }
      }
      LineLengthOf(x[1..], rest);
    }
  }

  predicate IsDigit(c: char) {
    '0' <= c <= '9'
  }

  /** `'%d' % n` for a count. */
  function Decimal(n: nat): (r: string)
    ensures |r| > 0
    ensures forall i :: 0 <= i < |r| ==> IsDigit(r[i])
  {
    if n < 10 then [Digit(n)] else Decimal(n / 10) + [Digit(n % 10)]
  }

  function Digit(d: nat): (c: char)
    requires d < 10
    ensures IsDigit(c) && c as int - '0' as int == d
  {
    ('0' as int + d) as char
  }

  /** The value of a string of decimal digits, as `int()` reads it. */
  function DecimalValue(s: string): int
    requires forall i :: 0 <= i < |s| ==> IsDigit(s[i])
  {
    if |s| == 0 then 0 else 10 * DecimalValue(s[..|s| - 1]) + (s[|s| - 1] as int - '0' as int)
  }

  /** Rendering a count in decimal loses nothing: reading it back gives the count. */
  lemma {:induction false} DecimalRoundTrip(n: nat)
    ensures DecimalValue(Decimal(n)) == n
  {
    if n >= 10 {
      DecimalRoundTrip(n / 10);
      var s := Decimal(n);
      assert s[..|s| - 1] == Decimal(n / 10);
    }
  }
}
