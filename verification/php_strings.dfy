/**
 * The few PHP string built-ins the shortcode engine relies on: boolean reading
 * of a string, `explode` on a one-character separator, `trim` with its default
 * character list, and `str_replace` of one character by the empty string.
 */
module PhpStrings {

  /** PHP's boolean reading of a string: only "" and "0" are false. */
  predicate Truthy(s: string) {
    s != "" && s != "0"
  }

  /** Number of occurrences of `c` in `s`. */
  function Count(c: char, s: string): (n: nat)
    ensures n > 0 <==> c in s
    ensures n <= |s|
  {
    if s == [] then 0 else (if s[0] == c then 1 else 0) + Count(c, s[1..])
  }

  /** `implode` with a one-character glue: the inverse of Explode. */
  function Implode(sep: char, pieces: seq<string>): string
    requires |pieces| >= 1
  {
    if |pieces| == 1 then pieces[0] else pieces[0] + [sep] + Implode(sep, pieces[1..])
  }

  /**
   * `explode(sep, s)`: the maximal pieces of `s` between occurrences of `sep`.
   * An empty string yields one empty piece, and two adjacent separators an
   * empty piece between them.
   */
  function Explode(sep: char, s: string): (pieces: seq<string>)
    ensures |pieces| == Count(sep, s) + 1
    ensures forall i :: 0 <= i < |pieces| ==> sep !in pieces[i]
    ensures Implode(sep, pieces) == s
  {
    if s == [] then [""]
    else
      var rest := Explode(sep, s[1..]);
      if s[0] == sep then
        [""] + rest
      else
        ImplodeExtendFirst(sep, s[0], rest);
        [[s[0]] + rest[0]] + rest[1..]
  }

  /** Prepending a character to the first piece prepends it to the whole. */
  lemma ImplodeExtendFirst(sep: char, c: char, pieces: seq<string>)
    requires |pieces| >= 1
    ensures Implode(sep, [[c] + pieces[0]] + pieces[1..]) == [c] + Implode(sep, pieces)
  {
    var extended := [[c] + pieces[0]] + pieces[1..];
    assert extended[1..] == pieces[1..];
  }

  /** A string without the separator explodes to itself alone. */
  lemma ExplodeWithoutSeparator(sep: char, s: string)
    requires sep !in s
    ensures Explode(sep, s) == [s]
  {
  }

  /** Exploding `p + sep + r` splits off `p` as the first piece. */
  lemma {:induction false} ExplodeSplitsFirst(sep: char, p: string, r: string)
    requires sep !in p
    ensures Explode(sep, p + [sep] + r) == [p] + Explode(sep, r)
    decreases |p|
  {
    var s := p + [sep] + r;
    if p == [] {
      assert s[1..] == r;
    } else {
      assert s[0] == p[0] != sep;
      assert s[1..] == p[1..] + [sep] + r;
      ExplodeSplitsFirst(sep, p[1..], r);
      var rest := Explode(sep, s[1..]);
      assert rest == [p[1..]] + Explode(sep, r);
      assert Explode(sep, s) == [[s[0]] + rest[0]] + rest[1..];
      assert [p[0]] + p[1..] == p;
    }
  }

  /** Round trip: exploding the implosion of separator-free pieces gives them back. */
  lemma {:induction false} ExplodeImplode(sep: char, pieces: seq<string>)
    requires |pieces| >= 1
    requires forall i :: 0 <= i < |pieces| ==> sep !in pieces[i]
    ensures Explode(sep, Implode(sep, pieces)) == pieces
    decreases |pieces|
  {
    if |pieces| == 1 {
      ExplodeWithoutSeparator(sep, pieces[0]);
    } else {
      ExplodeImplode(sep, pieces[1..]);
      ExplodeSplitsFirst(sep, pieces[0], Implode(sep, pieces[1..]));
      assert [pieces[0]] + pieces[1..] == pieces;
    }
  }

  /** The characters PHP's `trim` removes by default: " \t\n\r\0\x0B". */
  predicate IsTrimChar(c: char) {
    c == ' ' || c == '\t' || c == '\n' || c == '\r' || c == '\0' || c == '\U{0B}'
  }

  /** `s` consists of trim characters only. */
  predicate Padding(s: string) {
    forall k :: 0 <= k < |s| ==> IsTrimChar(s[k])
  }

  /** `s` neither starts nor ends with a trim character. */
  predicate IsTrimmed(s: string) {
    s == [] || (!IsTrimChar(s[0]) && !IsTrimChar(s[|s| - 1]))
  }

  /** `s` is the core `m` surrounded by padding `a` and `b`. */
  predicate PaddedBy(s: string, a: string, m: string, b: string) {
    Padding(a) && Padding(b) && s == a + m + b
  }

  /** Number of trim characters at the start of `s`. */
  function LeadingPadding(s: string): (n: nat)
    ensures n <= |s|
    ensures Padding(s[..n])
    ensures n == |s| || !IsTrimChar(s[n])
  {
    if s != [] && IsTrimChar(s[0]) then
      var n := 1 + LeadingPadding(s[1..]);
      assert s[..n] == [s[0]] + s[1..][..n - 1];
      n
    else 0
  }

  /** Number of trim characters at the end of `s`. */
  function TrailingPadding(s: string): (n: nat)
    ensures n <= |s|
    ensures Padding(s[|s| - n..])
    ensures n == |s| || !IsTrimChar(s[|s| - n - 1])
  {
    if s != [] && IsTrimChar(s[|s| - 1]) then
      var init := s[..|s| - 1];
      var n := 1 + TrailingPadding(init);
      assert s[|s| - n..] == init[|init| - (n - 1)..] + [s[|s| - 1]];
      n
    else 0
  }

  /** Where the trimmed core of `s` ends: before the trailing padding, or at the start of an all-padding string. */
  function CoreEnd(s: string): (j: nat)
    ensures LeadingPadding(s) <= j <= |s|
    ensures Padding(s[j..])
    ensures IsTrimmed(s[LeadingPadding(s)..j])
  {
    var i := LeadingPadding(s);
    if i == |s| then i
    else
      var t := TrailingPadding(s);
      |s| - t
  }

  /** PHP's `trim(s)` with the default character list: `s` without its leading and trailing padding. */
  function Trim(s: string): (r: string)
    ensures IsTrimmed(r)
    ensures |r| <= |s|
  {
    s[LeadingPadding(s)..CoreEnd(s)]
  }

  /** `trim(s)` is `s` with its padding removed on both sides. */
  lemma TrimSplitsPadding(s: string)
    ensures LeadingPadding(s) + |Trim(s)| <= |s|
    ensures PaddedBy(s, s[..LeadingPadding(s)], Trim(s), s[LeadingPadding(s) + |Trim(s)|..])
  {
    var i := LeadingPadding(s);
    var j := CoreEnd(s);
    assert s == s[..i] + s[i..j] + s[j..];
  }

  /** Leading padding is counted in full, and nothing past it. */
  lemma {:induction false} LeadingPaddingOf(a: string, t: string)
    requires Padding(a)
    requires t == [] || !IsTrimChar(t[0])
    ensures LeadingPadding(a + t) == |a|
    decreases |a|
  {
    if a == [] {
      assert a + t == t;
    } else {
      assert (a + t)[1..] == a[1..] + t;
      LeadingPaddingOf(a[1..], t);
    }
  }

  /** Trailing padding is counted in full, and nothing before it. */
  lemma {:induction false} TrailingPaddingOf(t: string, b: string)
    requires Padding(b)
    requires t == [] || !IsTrimChar(t[|t| - 1])
    ensures TrailingPadding(t + b) == |b|
    decreases |b|
  {
    if b == [] {
      assert t + b == t;
    } else {
      var s := t + b;
      assert s[..|s| - 1] == t + b[..|b| - 1];
      TrailingPaddingOf(t, b[..|b| - 1]);
    }
  }

  /**
   * `trim` is determined by its result: a trimmed core surrounded by padding
   * on both sides trims to exactly that core.
   */
  lemma TrimUnique(a: string, m: string, b: string)
    requires Padding(a) && Padding(b) && IsTrimmed(m)
    ensures Trim(a + m + b) == m
  {
    var s := a + m + b;
    if m == [] {
      assert s == (a + b) + [];
      LeadingPaddingOf(a + b, []);
    } else {
      assert s == a + (m + b);
      LeadingPaddingOf(a, m + b);
      assert s == (a + m) + b;
      TrailingPaddingOf(a + m, b);
      assert s[|a|..|s| - |b|] == m;
    }
  }

  /** A string without leading or trailing padding is its own trim. */
  lemma TrimOfTrimmed(m: string)
    requires IsTrimmed(m)
    ensures Trim(m) == m
  {
    assert [] + m + [] == m;
    TrimUnique([], m, []);
  }

  /** Trimming twice is trimming once. */
  lemma TrimIdempotent(s: string)
    ensures Trim(Trim(s)) == Trim(s)
  {
    TrimOfTrimmed(Trim(s));
  }

  /** `str_replace(c, '', s)` for a single character `c`: every `c` removed. */
  function StripChar(c: char, s: string): (r: string)
    ensures c !in r
    ensures |r| == |s| - Count(c, s)
    ensures c !in s ==> r == s
  {
    if s == [] then []
    else if s[0] == c then StripChar(c, s[1..])
    else [s[0]] + StripChar(c, s[1..])
  }

  /** Removing a character distributes over concatenation. */
  lemma {:induction false} StripCharConcat(c: char, x: string, y: string)
    ensures StripChar(c, x + y) == StripChar(c, x) + StripChar(c, y)
    decreases |x|
  {
    if x == [] {
      assert x + y == y;
    } else {
      assert (x + y)[0] == x[0];
      assert (x + y)[1..] == x[1..] + y;
      StripCharConcat(c, x[1..], y);
    }
  }

  /** Trimming never introduces a comma. */
  function TrimNoComma(piece: string): (r: string)
    requires ',' !in piece
    ensures r == Trim(piece) && ',' !in r
  {
    TrimSplitsPadding(piece);
    Trim(piece)
  }

  /** Where the first two pieces of an explode sit inside the exploded string. */
  lemma ExplodeFirstTwo(sep: char, s: string)
    requires |Explode(sep, s)| >= 2
    ensures var p := Explode(sep, s);
      && |p[0]| < |s| && s[..|p[0]|] == p[0] && s[|p[0]|] == sep
      && var rest := s[|p[0]| + 1..];
         |p[1]| <= |rest| && rest[..|p[1]|] == p[1]
         && (|p[1]| == |rest| || rest[|p[1]|] == sep)
  {
    var p := Explode(sep, s);
    var tail := Implode(sep, p[1..]);
    assert s == p[0] + [sep] + tail;
    assert s[|p[0]| + 1..] == tail;
    if |p| > 2 {
      assert tail == p[1] + [sep] + Implode(sep, p[2..]);
    }
  }
}
