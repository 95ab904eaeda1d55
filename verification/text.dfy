/**
 * String and map helpers standing for the Rust standard-library calls the
 * server relies on: `str::find`, `split`, `split_once`,
 * `split_whitespace`, decimal formatting with `{}`, `str::len` (a UTF-8 byte
 * count) and collecting key/value pairs into a `HashMap`.
 */
module Text {
  import opened Wrappers

  /** `pat` occurs in `s` starting at index `i`. */
  predicate OccursAt(s: string, pat: string, i: nat)
  {
    i + |pat| <= |s| && s[i..i + |pat|] == pat
  }

  lemma OccursShift(s: string, pat: string)
    requires s != []
    ensures forall i: nat :: OccursAt(s[1..], pat, i) ==> OccursAt(s, pat, i + 1)
    ensures forall j: nat :: 1 <= j && OccursAt(s, pat, j) ==> OccursAt(s[1..], pat, j - 1)
  {
    forall i: nat ensures OccursAt(s[1..], pat, i) <==> OccursAt(s, pat, i + 1) {
      if i + 1 + |pat| <= |s| {
        assert s[1..][i..i + |pat|] == s[i + 1..i + 1 + |pat|];
      }
    }
  }

  /** `str::find`: the index of the leftmost occurrence of `pat` in `s`. */
  function Find(s: string, pat: string): (r: Option<nat>)
    requires pat != []
    ensures r.Some? ==> OccursAt(s, pat, r.value)
    ensures r.Some? ==> forall j: nat :: j < r.value ==> !OccursAt(s, pat, j)
    ensures r.None? ==> forall j: nat :: !OccursAt(s, pat, j)
    decreases |s|
  {
    if |s| < |pat| then None
    else if s[..|pat|] == pat then Some(0)
    else
      OccursShift(s, pat);
      assert !OccursAt(s, pat, 0);
      match Find(s[1..], pat)
      case None => None
      case Some(i) => Some(i + 1)
  }

  /** A string `s` is built from `p`, the pattern and then `rest`, and `p` holds no
      character that starts the pattern: the leftmost occurrence is right after `p`. */
  lemma FindAfter(p: string, pat: string, rest: string)
    requires pat != [] && pat[0] !in p
    ensures Find(p + pat + rest, pat) == Some(|p|)
  {
    var s := p + pat + rest;
    assert s[|p|..|p| + |pat|] == pat;
    assert OccursAt(s, pat, |p|);
    forall j: nat | j < |p| ensures !OccursAt(s, pat, j) {
      assert s[j] == p[j];
      if j + |pat| <= |s| {
        assert s[j..j + |pat|][0] == s[j];
      }
    }
  }

  /** A string without the pattern's first character holds no occurrence of it. */
  lemma FindAbsent(s: string, pat: string)
    requires pat != [] && pat[0] !in s
    ensures Find(s, pat) == None
  {
    forall j: nat | j + |pat| <= |s| ensures !OccursAt(s, pat, j) {
      assert s[j..j + |pat|][0] == s[j];
    }
  }

  /** For a one-character pattern, `Find` fails exactly when the character is absent. */
  lemma FindCharAbsent(s: string, c: char)
    ensures Find(s, [c]).None? <==> c !in s
  {
    if c in s {
      var k :| 0 <= k < |s| && s[k] == c;
      assert s[k..k + 1] == [c];
      assert OccursAt(s, [c], k);
    } else {
      FindAbsent(s, [c]);
    }
  }

  /** An occurrence of a one-character pattern is that character. */
  lemma CharOccurrence(s: string, c: char, i: nat)
    requires OccursAt(s, [c], i)
    ensures i < |s| && s[i] == c
  {
    assert s[i..i + 1][0] == s[i];
  }

  /** No occurrence of a one-character pattern before `i`: the character is absent there. */
  lemma CharAbsentBefore(s: string, c: char, i: nat)
    requires i <= |s|
    requires forall j: nat :: j < i ==> !OccursAt(s, [c], j)
    ensures c !in s[..i]
  {
    forall j | 0 <= j < i ensures s[..i][j] != c {
      assert !OccursAt(s, [c], j);
      assert s[j..j + 1] == [s[j]];
    }
  }

  /** For a one-character pattern, `Find` gives the first index holding that character. */
  lemma FindCharFirst(s: string, c: char)
    ensures Find(s, [c]).Some? ==> var i := Find(s, [c]).value; i < |s| && s[i] == c && c !in s[..i]
  {
    var r := Find(s, [c]);
    if r.Some? {
      CharOccurrence(s, c, r.value);
      CharAbsentBefore(s, c, r.value);
    }
  }

  /** Both facts about a one-character pattern. */
  lemma FindChar(s: string, c: char)
    ensures Find(s, [c]).None? <==> c !in s
    ensures Find(s, [c]).Some? ==> var i := Find(s, [c]).value; i < |s| && s[i] == c && c !in s[..i]
  {
    FindCharAbsent(s, c);
    FindCharFirst(s, c);
  }

  /** Joins `parts` with `sep` between consecutive parts (`[..].join(sep)`). */
  function JoinWith(parts: seq<string>, sep: string): string
  {
    if parts == [] then ""
    else if |parts| == 1 then parts[0]
    else parts[0] + sep + JoinWith(parts[1..], sep)
  }

  /** `str::split(pat)`: the pieces between non-overlapping leftmost occurrences of
      `pat`. There is always at least one piece. */
  function SplitOn(s: string, pat: string): (r: seq<string>)
    requires pat != []
    ensures |r| >= 1
    decreases |s|
  {
    match Find(s, pat)
    case None => [s]
    case Some(i) => [s[..i]] + SplitOn(s[i + |pat|..], pat)
  }

  /** Joining the pieces back with the pattern gives the string again. */
  lemma {:induction false} JoinSplitOn(s: string, pat: string)
    requires pat != []
    ensures JoinWith(SplitOn(s, pat), pat) == s
    decreases |s|
  {
    match Find(s, pat)
    case None =>
      assert SplitOn(s, pat) == [s];
    case Some(i) =>
      var head := s[..i];
      var rest := s[i + |pat|..];
      var pieces := SplitOn(rest, pat);
      assert SplitOn(s, pat) == [head] + pieces;
      JoinSplitOn(rest, pat);
      JoinWithCons(head, pieces, pat);
      assert s[i..i + |pat|] == pat by {
        assert OccursAt(s, pat, i);
      }
      SplitAround(s, i, i + |pat|);
  }

  /** A string is its prefix, a middle slice and its suffix. */
  lemma SplitAround(s: string, i: nat, j: nat)
    requires i <= j <= |s|
    ensures s == s[..i] + s[i..j] + s[j..]
  {
  }

  lemma AppendAssoc(a: string, b: string, c: string)
    ensures (a + b) + c == a + (b + c)
  {
  }

  lemma AppendParts(a: string, b: string)
    ensures a <= a + b
    ensures (a + b)[|a|..] == b
  {
  }

  lemma JoinWithCons(p: string, parts: seq<string>, sep: string)
    requires |parts| >= 1
    ensures JoinWith([p] + parts, sep) == p + sep + JoinWith(parts, sep)
  {
    assert ([p] + parts)[1..] == parts;
  }

  /** A piece free of the pattern's first character, then the pattern: the piece is
      the first part of the split. */
  lemma SplitOnFirst(p: string, pat: string, rest: string)
    requires pat != [] && pat[0] !in p
    ensures SplitOn(p + pat + rest, pat) == [p] + SplitOn(rest, pat)
  {
    FindAfter(p, pat, rest);
    var s := p + pat + rest;
    assert s[..|p|] == p;
    assert s[|p| + |pat|..] == rest;
  }

  /** A string free of the pattern's first character is not split at all. */
  lemma SplitOnWhole(s: string, pat: string)
    requires pat != [] && pat[0] !in s
    ensures SplitOn(s, pat) == [s]
  {
    FindAbsent(s, pat);
  }

  /** Splitting on one character: a second piece exists exactly when the character
      occurs, and the first piece is the text before its first occurrence. */
  lemma SplitOnCharHead(s: string, c: char)
    ensures var parts := SplitOn(s, [c]);
      && (|parts| >= 2 <==> c in s)
      && c !in parts[0]
      && (c in s ==> parts[0] + [c] <= s)
  {
    FindChar(s, c);
    match Find(s, [c])
    case None =>
      assert SplitOn(s, [c]) == [s];
    case Some(i) =>
      var parts := SplitOn(s, [c]);
      assert parts == [s[..i]] + SplitOn(s[i + 1..], [c]);
      assert parts[0] == s[..i];
      assert s[..i] + [c] == s[..i + 1];
  }

  /** Splitting undoes joining, as long as no part holds the separator's first character. */
  lemma {:induction false} SplitOnJoin(parts: seq<string>, pat: string)
    requires pat != [] && |parts| >= 1
    requires forall k :: 0 <= k < |parts| ==> pat[0] !in parts[k]
    ensures SplitOn(JoinWith(parts, pat), pat) == parts
  {
    if |parts| == 1 {
      SplitOnWhole(parts[0], pat);
    } else {
      SplitOnFirst(parts[0], pat, JoinWith(parts[1..], pat));
      SplitOnJoin(parts[1..], pat);
      assert parts == [parts[0]] + parts[1..];
    }
  }

  /** `s.split_once(pat)`: the text before and after the leftmost occurrence. */
  function SplitOnce(s: string, pat: string): (r: Option<(string, string)>)
    requires pat != []
    ensures r.None? <==> Find(s, pat).None?
    ensures r.Some? ==> s == r.value.0 + pat + r.value.1 && |r.value.0| == Find(s, pat).value
  {
    match Find(s, pat)
    case None => None
    case Some(i) =>
      assert s == s[..i] + pat + s[i + |pat|..];
      Some((s[..i], s[i + |pat|..]))
  }

  /** Rust's `char::is_whitespace`: the Unicode White_Space property. */
  predicate IsWhitespace(c: char)
  {
    ('\t' <= c <= '\r') || c == ' ' || c == '\U{85}' || c == '\U{A0}' || c == '\U{1680}'
    || ('\U{2000}' <= c <= '\U{200A}') || c == '\U{2028}' || c == '\U{2029}'
    || c == '\U{202F}' || c == '\U{205F}' || c == '\U{3000}'
  }

  predicate NoWhitespace(s: string)
  {
    forall i :: 0 <= i < |s| ==> !IsWhitespace(s[i])
  }

  lemma CharNotInAppend(c: char, a: string, b: string)
    requires c !in a && c !in b
    ensures c !in a + b
  {
    assert forall i :: 0 <= i < |a + b| ==> (a + b)[i] == if i < |a| then a[i] else b[i - |a|];
  }

  lemma NoWhitespaceAppend(a: string, b: string)
    requires NoWhitespace(a) && NoWhitespace(b)
    ensures NoWhitespace(a + b)
  {
    assert forall i :: 0 <= i < |a + b| ==> (a + b)[i] == if i < |a| then a[i] else b[i - |a|];
  }

  /** Length of the run of non-whitespace characters that starts `s`. */
  function TokenLength(s: string): (n: nat)
    ensures n <= |s|
    ensures NoWhitespace(s[..n])
    ensures n < |s| ==> IsWhitespace(s[n])
  {
    if s == [] || IsWhitespace(s[0]) then 0
    else
      var n := 1 + TokenLength(s[1..]);
      assert s[..n] == [s[0]] + s[1..][..n - 1];
      n
  }

  /** `str::split_whitespace`: the maximal non-empty runs of non-whitespace characters. */
  function SplitWhitespace(s: string): (r: seq<string>)
    ensures forall k :: 0 <= k < |r| ==> r[k] != [] && NoWhitespace(r[k])
    decreases |s|
  {
    if s == [] then []
    else if IsWhitespace(s[0]) then SplitWhitespace(s[1..])
    else
      var n := TokenLength(s);
      [s[..n]] + SplitWhitespace(s[n..])
  }

  /** Splitting on whitespace undoes joining non-empty, whitespace-free tokens with a space. */
  lemma {:induction false} SplitWhitespaceJoin(tokens: seq<string>)
    requires forall k :: 0 <= k < |tokens| ==> tokens[k] != [] && NoWhitespace(tokens[k])
    ensures SplitWhitespace(JoinWith(tokens, " ")) == tokens
  {
    if tokens == [] {
    } else {
      var t := tokens[0];
      var s := JoinWith(tokens, " ");
      TokenRun(t, if |tokens| == 1 then [] else " " + JoinWith(tokens[1..], " "));
      if |tokens| == 1 {
        assert s == t + [];
        assert s[|t|..] == [];
      } else {
        var rest := JoinWith(tokens[1..], " ");
        assert s == t + (" " + rest);
        assert s[|t|..] == " " + rest;
        assert (" " + rest)[1..] == rest;
        SplitWhitespaceJoin(tokens[1..]);
        assert tokens == [t] + tokens[1..];
      }
      assert s[..|t|] == t;
    }
  }

  lemma TokenRun(t: string, rest: string)
    requires t != [] && NoWhitespace(t)
    requires rest == [] || IsWhitespace(rest[0])
    ensures TokenLength(t + rest) == |t|
  {
    forall i | 0 <= i < |t| ensures !IsWhitespace((t + rest)[i]) {
      assert (t + rest)[i] == t[i];
    }
    TokenLengthIs(t + rest, |t|);
  }

  /** `TokenLength` is the unique length with no whitespace before it and
      whitespace (or the end) at it. */
  lemma {:induction false} TokenLengthIs(s: string, n: nat)
    requires n <= |s|
    requires forall i :: 0 <= i < n ==> !IsWhitespace(s[i])
    requires n < |s| ==> IsWhitespace(s[n])
    ensures TokenLength(s) == n
  {
    if n > 0 {
      TokenLengthIs(s[1..], n - 1);
    }
  }

  predicate IsDigit(c: char)
  {
    '0' <= c <= '9'
  }

  function DigitChar(d: nat): (c: char)
    requires d < 10
    ensures IsDigit(c)
  {
    (48 + d) as char
  }

  function DigitValue(c: char): nat
    requires IsDigit(c)
  {
    c as int - 48
  }

  /** The decimal text Rust's `{}` formats an unsigned integer as: no sign, no
      leading zero. */
  function Decimal(n: nat): (s: string)
    ensures s != []
    ensures forall i :: 0 <= i < |s| ==> IsDigit(s[i])
    ensures s[0] == '0' <==> n == 0
    ensures |s| == 1 <==> n < 10
  {
    if n < 10 then [DigitChar(n)]
    else Decimal(n / 10) + [DigitChar(n % 10)]
  }

  /** The number a string of decimal digits denotes. */
  function DecimalValue(s: string): nat
    requires forall i :: 0 <= i < |s| ==> IsDigit(s[i])
  {
    if s == [] then 0
    else DecimalValue(s[..|s| - 1]) * 10 + DigitValue(s[|s| - 1])
  }

  /** Reading the decimal text back gives the number that was formatted. */
  lemma {:induction false} DecimalRoundTrip(n: nat)
    ensures DecimalValue(Decimal(n)) == n
  {
    var s := Decimal(n);
    if n >= 10 {
      DecimalRoundTrip(n / 10);
      assert s[..|s| - 1] == Decimal(n / 10);
    }
  }

  /** Length of the run of decimal digits that starts `s`. */
  function DigitRun(s: string): (n: nat)
    ensures n <= |s|
    ensures forall i :: 0 <= i < n ==> IsDigit(s[i])
    ensures n < |s| ==> !IsDigit(s[n])
  {
    if s == [] || !IsDigit(s[0]) then 0 else 1 + DigitRun(s[1..])
  }

  lemma {:induction false} DigitRunIs(s: string, n: nat)
    requires n <= |s|
    requires forall i :: 0 <= i < n ==> IsDigit(s[i])
    requires n < |s| ==> !IsDigit(s[n])
    ensures DigitRun(s) == n
  {
    if n > 0 {
      DigitRunIs(s[1..], n - 1);
    }
  }

  /**
   * A reader that skips `before` and takes the digits of a formatted number
   * followed by a non-digit gets back exactly that number, and what follows.
   */
  lemma ReadDecimal(before: string, n: nat, rest: string)
    requires rest != [] && !IsDigit(rest[0])
    ensures var text := before + (Decimal(n) + rest);
      var k := DigitRun(text[|before|..]);
      && text[..|before|] == before
      && DecimalValue(text[|before|..][..k]) == n
      && text[|before| + k..] == rest
  {
    var d := Decimal(n);
    var text := before + (d + rest);
    assert text[|before|..] == d + rest;
    DigitRunIs(d + rest, |d|);
    assert (d + rest)[..|d|] == d;
    assert text[|before| + |d|..] == rest;
    DecimalRoundTrip(n);
  }

  /** Bytes in the UTF-8 encoding of one character. */
  function Utf8Width(c: char): (w: nat)
    ensures 1 <= w <= 4
  {
    if c as int < 0x80 then 1
    else if c as int < 0x800 then 2
    else if c as int < 0x1_0000 then 3
    else 4
  }

  /** `String::len`: the number of bytes of the UTF-8 encoding. */
  function Utf8Length(s: string): (n: nat)
    ensures |s| <= n <= 4 * |s|
  {
    if s == [] then 0
    else Utf8Length(s[..|s| - 1]) + Utf8Width(s[|s| - 1])
  }

  predicate IsAscii(s: string)
  {
    forall i :: 0 <= i < |s| ==> s[i] as int < 0x80
  }

  /** For ASCII text the byte length is the character count. */
  lemma {:induction false} AsciiUtf8Length(s: string)
    requires IsAscii(s)
    ensures Utf8Length(s) == |s|
  {
    if s != [] {
      AsciiUtf8Length(s[..|s| - 1]);
    }
  }

  /** `f` produces a pair with key `k` from `x`. */
  predicate Yields<T>(f: T -> Option<(string, string)>, x: T, k: string)
  {
    f(x).Some? && f(x).value.0 == k
  }

  /** One more element: its pair, if any, is inserted over what came before. */
  lemma CollectStep<T>(xs: seq<T>, f: T -> Option<(string, string)>, i: nat)
    requires i < |xs|
    ensures Collect(xs[..i + 1], f) == match f(xs[i])
      case None => Collect(xs[..i], f)
      case Some(kv) => Collect(xs[..i], f)[kv.0 := kv.1]
  {
    assert xs[..i + 1][..i] == xs[..i];
  }

  /** Inserts, in order, every pair `f` produces from the elements of `xs` into an
      empty map: `xs.iter().filter_map(f).collect::<HashMap<_, _>>()`, or the
      equivalent loop of `insert` calls. */
  function Collect<T>(xs: seq<T>, f: T -> Option<(string, string)>): map<string, string>
  {
    if xs == [] then map[]
    else
      var m := Collect(xs[..|xs| - 1], f);
      match f(xs[|xs| - 1])
      case None => m
      case Some(kv) => m[kv.0 := kv.1]
  }

  /** A key is present exactly when some element produces it. */
  lemma {:induction false} CollectKeys<T>(xs: seq<T>, f: T -> Option<(string, string)>, k: string)
    ensures k in Collect(xs, f) <==> exists i :: 0 <= i < |xs| && Yields(f, xs[i], k)
  {
    if xs != [] {
      var init := xs[..|xs| - 1];
      CollectKeys(init, f, k);
      if exists i :: 0 <= i < |init| && Yields(f, init[i], k) {
        var i :| 0 <= i < |init| && Yields(f, init[i], k);
        assert xs[i] == init[i];
      }
      if exists i :: 0 <= i < |xs| && Yields(f, xs[i], k) {
        var i :| 0 <= i < |xs| && Yields(f, xs[i], k);
        if i < |init| {
          assert init[i] == xs[i];
        }
      }
    }
  }

  /** The value kept for a key is the one from the last element that produces it. */
  lemma {:induction false} CollectLastWins<T>(xs: seq<T>, f: T -> Option<(string, string)>, j: nat)
    requires j < |xs| && f(xs[j]).Some?
    requires forall i :: j < i < |xs| ==> !Yields(f, xs[i], f(xs[j]).value.0)
    ensures f(xs[j]).value.0 in Collect(xs, f)
    ensures Collect(xs, f)[f(xs[j]).value.0] == f(xs[j]).value.1
  {
    var init := xs[..|xs| - 1];
    if j < |xs| - 1 {
      assert init[j] == xs[j];
      forall i | j < i < |init| ensures !Yields(f, init[i], f(init[j]).value.0) {
        assert init[i] == xs[i];
      }
      CollectLastWins(init, f, j);
    }
  }
}
