/** Character and string primitives with the meaning Python's `str` gives them:
    `str.isspace()` / the regular-expression class `\s`, `strip`, `lower` (ASCII),
    `in`, `count`, `split('\n')`, `'\n'.join`, `replace`, `str(int)` and `int(str)`. */
module Text {
  import opened Wrappers

  /** Python's `str.isspace()`; the regular-expression class `\s` on `str` patterns is the same set. */
  predicate IsSpace(c: char) {
    var n := c as int;
    (9 <= n <= 13) || (28 <= n <= 32) || n == 0x85 || n == 0xA0 || n == 0x1680
    || (0x2000 <= n <= 0x200A) || n == 0x2028 || n == 0x2029 || n == 0x202F
    || n == 0x205F || n == 0x3000
  }

  predicate AllSpace(s: string) {
    forall k | 0 <= k < |s| :: IsSpace(s[k])
  }

  /** The first index at or after `i` that does not hold whitespace (a greedy `\s*`). */
  function SkipSpace(s: string, i: nat): (r: nat)
    requires i <= |s|
    ensures i <= r <= |s|
    ensures forall j :: i <= j < r ==> IsSpace(s[j])
    ensures r == |s| || !IsSpace(s[r])
    decreases |s| - i
  {
    if i < |s| && IsSpace(s[i]) then SkipSpace(s, i + 1) else i
  }

  /** The end of `s[..j]` once its trailing whitespace is dropped. */
  function TrimEnd(s: string, j: nat): (r: nat)
    requires j <= |s|
    ensures r <= j
    ensures forall k :: r <= k < j ==> IsSpace(s[k])
    ensures r == 0 || !IsSpace(s[r - 1])
  {
    if j > 0 && IsSpace(s[j - 1]) then TrimEnd(s, j - 1) else j
  }

  /** `s.lstrip()` */
  function LStrip(s: string): string {
    s[SkipSpace(s, 0)..]
  }

  /** `s.rstrip()` */
  function RStrip(s: string): (r: string)
    ensures |r| <= |s| && r == s[..|r|]
    ensures r == [] || !IsSpace(r[|r| - 1])
    ensures AllSpace(s[|r|..])
  {
    s[..TrimEnd(s, |s|)]
  }

  /** `s.strip()`: what is left once leading and trailing whitespace is removed. */
  function Strip(s: string): (r: string)
    ensures |r| <= |s|
    ensures r == [] || (!IsSpace(r[0]) && !IsSpace(r[|r| - 1]))
    ensures r == [] <==> AllSpace(s)
  {
    var t := LStrip(s);
    assert AllSpace(s) ==> t == [];
    assert t != [] ==> !IsSpace(t[0]);
    RStrip(t)
  }

  /** `strip()` only removes characters. */
  lemma StripChars(s: string)
    ensures forall c <- Strip(s) :: c in s
  {
    var t := LStrip(s);
    var r := Strip(s);
    assert r == t[..|r|];
    forall c <- r ensures c in s {
      var k :| 0 <= k < |r| && r[k] == c;
      assert t[k] == c;
      assert s[SkipSpace(s, 0) + k] == c;
    }
  }

  /** A string that `strip()` leaves unchanged. */
  predicate Trimmed(s: string) {
    s == [] || (!IsSpace(s[0]) && !IsSpace(s[|s| - 1]))
  }

  lemma StripTrimmed(s: string)
    requires Trimmed(s)
    ensures Strip(s) == s
  {
    assert SkipSpace(s, 0) == 0;
    assert TrimEnd(s, |s|) == |s|;
  }

  lemma StripIdempotent(s: string)
    ensures Strip(Strip(s)) == Strip(s)
  {
    StripTrimmed(Strip(s));
  }

  /** Stripping a trimmed text followed by whitespace gives the text back. */
  lemma StripTrailingSpace(body: string, tail: string)
    requires body != [] && Trimmed(body) && AllSpace(tail)
    ensures Strip(body + tail) == body
  {
    var s := body + tail;
    assert SkipSpace(s, 0) == 0;
    assert LStrip(s) == s;
    var e := TrimEnd(s, |s|);
    assert !IsSpace(s[|body| - 1]);
    assert forall k :: |body| <= k < |s| ==> IsSpace(s[k]) by {
      forall k | |body| <= k < |s| ensures IsSpace(s[k]) {
        assert s[k] == tail[k - |body|];
      }
    }
    assert e == |body|;
    assert s[..|body|] == body;
  }

  lemma RStripIdempotent(s: string)
    ensures RStrip(RStrip(s)) == RStrip(s)
  {
    var r := RStrip(s);
    assert TrimEnd(r, |r|) == |r|;
  }

  /** ASCII lower-casing, the part of `str.lower()` the cleaners' literals depend on. */
  function Lower(c: char): char {
    if 'A' <= c <= 'Z' then (c as int + 32) as char else c
  }

  /** A character whose lower-case form is printable ASCII is not whitespace. */
  lemma LowerPrintable(c: char)
    requires 33 <= Lower(c) as int <= 126
    ensures !IsSpace(c)
  {
  }

  /** `s[i:].startswith(lit)` */
  predicate MatchesAt(s: string, i: nat, lit: string) {
    i + |lit| <= |s| && s[i..i + |lit|] == lit
  }

  /** `s.lower()[i:].startswith(lit)` for a lower-case literal. */
  predicate MatchesCIAt(s: string, i: nat, lit: string) {
    i + |lit| <= |s| && forall k {:trigger LowerAt(s, i, k)} | 0 <= k < |lit| :: LowerAt(s, i, k) == lit[k]
  }

  function LowerAt(s: string, i: nat, k: nat): char
    requires i + k < |s|
  {
    Lower(s[i + k])
  }

  /** `s.lower().find(lit, i)` for a lower-case literal: the first match at or after `i`. */
  function FindCI(s: string, lit: string, i: nat): (r: Option<nat>)
    requires i <= |s|
    ensures r.Some? ==> i <= r.value <= |s| && MatchesCIAt(s, r.value, lit)
    ensures r.Some? ==> forall p :: i <= p < r.value ==> !MatchesCIAt(s, p, lit)
    ensures r.None? ==> forall p :: i <= p <= |s| ==> !MatchesCIAt(s, p, lit)
    decreases |s| - i
  {
    if MatchesCIAt(s, i, lit) then Some(i)
    else if i == |s| then None
    else FindCI(s, lit, i + 1)
  }

  /** `s.find(c, i)`: the first occurrence of a character at or after `i`. */
  function FindChar(s: string, c: char, i: nat): (r: Option<nat>)
    requires i <= |s|
    ensures r.Some? ==> i <= r.value < |s| && s[r.value] == c
    ensures r.Some? ==> forall p :: i <= p < r.value ==> s[p] != c
    ensures r.None? ==> forall p :: i <= p < |s| ==> s[p] != c
    decreases |s| - i
  {
    if i == |s| then None
    else if s[i] == c then Some(i)
    else FindChar(s, c, i + 1)
  }

  /** A non-empty sequence is its front followed by its last element. */
  lemma FrontLast<T>(s: seq<T>)
    requires s != []
    ensures s == s[..|s| - 1] + [s[|s| - 1]]
  {
  }

  /** A match carries over to another text holding the same characters. */
  lemma MatchesCITransfer(s: string, i: nat, t: string, j: nat, lit: string)
    requires i + |lit| <= |s| && j + |lit| <= |t| && s[i..i + |lit|] == t[j..j + |lit|]
    ensures MatchesCIAt(t, j, lit) ==> MatchesCIAt(s, i, lit)
  {
    if MatchesCIAt(t, j, lit) {
      forall k | 0 <= k < |lit| ensures LowerAt(s, i, k) == lit[k] {
        assert LowerAt(t, j, k) == lit[k];
        assert s[i + k] == s[i..i + |lit|][k];
        assert t[j + k] == t[j..j + |lit|][k];
      }
    }
  }

  /** An occurrence in either part is an occurrence in the whole. */
  lemma ContainsCIAppend(a: string, b: string, lit: string)
    ensures ContainsCI(a, lit) || ContainsCI(b, lit) ==> ContainsCI(a + b, lit)
  {
    var s := a + b;
    if ContainsCI(a, lit) {
      var i :| 0 <= i <= |a| && MatchesCIAt(a, i, lit);
      assert s[i..i + |lit|] == a[i..i + |lit|];
      MatchesCITransfer(s, i, a, i, lit);
    }
    if ContainsCI(b, lit) {
      var i :| 0 <= i <= |b| && MatchesCIAt(b, i, lit);
      assert s[|a| + i..|a| + i + |lit|] == b[i..i + |lit|];
      MatchesCITransfer(s, |a| + i, b, i, lit);
    }
  }

  /** A slice holds no match of a non-empty literal when no match starts inside it. */
  lemma NoMatchInSlice(s: string, a: nat, b: nat, lit: string)
    requires a <= b <= |s| && lit != []
    requires forall p :: a <= p < b ==> !MatchesCIAt(s, p, lit)
    ensures !ContainsCI(s[a..b], lit)
  {
    var t := s[a..b];
    forall k | 0 <= k <= |t| ensures !MatchesCIAt(t, k, lit) {
      if k + |lit| <= |t| {
        assert a + k + |lit| <= b;
        var u, v := t[k..k + |lit|], s[a + k..a + k + |lit|];
        forall q | 0 <= q < |lit| ensures u[q] == v[q] {
          assert u[q] == t[k + q] && v[q] == s[a + k + q];
        }
        assert u == v;
        assert !MatchesCIAt(s, a + k, lit);
        MatchesCITransfer(s, a + k, t, k, lit);
      }
    }
  }

  /** A character that lower-cases to itself and is not in the literal is not in a match of it. */
  lemma MatchesCIExcludes(s: string, i: nat, lit: string, ch: char)
    requires MatchesCIAt(s, i, lit) && ch !in lit && Lower(ch) == ch
    ensures ch !in s[i..i + |lit|]
  {
    var m := s[i..i + |lit|];
    forall k | 0 <= k < |m| ensures m[k] != ch {
      assert m[k] == s[i + k];
      assert LowerAt(s, i, k) == lit[k];
      assert lit[k] in lit;
    }
  }

  /** `lit in s.lower()` for a lower-case literal. */
  predicate ContainsCI(s: string, lit: string) {
    exists i | 0 <= i <= |s| :: MatchesCIAt(s, i, lit)
  }

  /** `lit in s` */
  predicate Contains(s: string, lit: string) {
    exists i | 0 <= i <= |s| :: MatchesAt(s, i, lit)
  }

  /** A case-insensitive match is a match of the lower-cased text. */
  lemma MatchesCIOfLower(s: string, i: nat, lit: string)
    requires MatchesAt(s, i, lit)
    requires forall k | 0 <= k < |lit| :: Lower(lit[k]) == lit[k]
    ensures MatchesCIAt(s, i, lit)
  {
    forall k | 0 <= k < |lit|
      ensures LowerAt(s, i, k) == lit[k]
    {
      assert s[i..i + |lit|][k] == s[i + k];
    }
  }

  /** `s.count(c)` for a single character. */
  function Count(s: string, c: char): (n: nat)
    ensures n <= |s|
  {
    if s == [] then 0 else (if s[0] == c then 1 else 0) + Count(s[1..], c)
  }

  /** `s.replace(a, b)` for single characters. */
  function Replace(s: string, a: char, b: char): (r: string)
    ensures |r| == |s|
    ensures forall k :: 0 <= k < |s| ==> r[k] == (if s[k] == a then b else s[k])
  {
    if s == [] then [] else [if s[0] == a then b else s[0]] + Replace(s[1..], a, b)
  }

  // ---------------------------------------------------------------------------
  // Lines: `s.split('\n')` and `'\n'.join(lines)`

  /** `s.split('\n')`: never empty; `"".split('\n') == [""]`. */
  function Split(s: string): (lines: seq<string>)
    ensures |lines| >= 1
    ensures forall l <- lines :: '\n' !in l
    ensures |lines| == Count(s, '\n') + 1
  {
    if s == [] then [""]
    else
      var rest := Split(s[1..]);
      if s[0] == '\n' then [""] + rest
      else [[s[0]] + rest[0]] + rest[1..]
  }

  /** `'\n'.join(lines)` */
  function Join(lines: seq<string>): string {
    if lines == [] then ""
    else if |lines| == 1 then lines[0]
    else lines[0] + "\n" + Join(lines[1..])
  }

  lemma {:induction false} SplitCons(c: char, t: string)
    requires c != '\n'
    ensures Split([c] + t) == [[c] + Split(t)[0]] + Split(t)[1..]
  {
    assert ([c] + t)[1..] == t;
  }

  lemma {:induction false} SplitNewlineCons(t: string)
    ensures Split(['\n'] + t) == [""] + Split(t)
  {
    assert (['\n'] + t)[1..] == t;
  }

  /** Splitting at one separator: `(x + '\n' + y).split('\n') == x.split('\n') + y.split('\n')`. */
  lemma {:induction false} SplitAppend(x: string, y: string)
    ensures Split(x + "\n" + y) == Split(x) + Split(y)
    decreases |x|
  {
    if x == [] {
      assert x + "\n" + y == ['\n'] + y;
      SplitNewlineCons(y);
    } else {
      var rest := x[1..] + "\n" + y;
      SplitAppend(x[1..], y);
      assert x + "\n" + y == [x[0]] + rest;
      assert x == [x[0]] + x[1..];
      if x[0] == '\n' {
        SplitAppendNewline(x[1..], rest, y);
      } else {
        SplitAppendChar(x[0], x[1..], rest, y);
      }
    }
  }

  lemma SplitAppendNewline(x: string, rest: string, y: string)
    requires Split(rest) == Split(x) + Split(y)
    ensures Split(['\n'] + rest) == Split(['\n'] + x) + Split(y)
  {
    SplitNewlineCons(rest);
    SplitNewlineCons(x);
    ConsAppend("", Split(x), Split(y));
  }

  lemma ConsAppend(h: string, a: seq<string>, b: seq<string>)
    ensures [h] + (a + b) == [h] + a + b
  {
  }

  lemma SplitAppendChar(c: char, x: string, rest: string, y: string)
    requires c != '\n' && Split(rest) == Split(x) + Split(y)
    ensures Split([c] + rest) == Split([c] + x) + Split(y)
  {
    var rx, ry := Split(x), Split(y);
    SplitCons(c, rest);
    SplitCons(c, x);
    ConsHeadAppend([c], rx, ry);
  }

  /** Extending the first of a non-empty list of lines commutes with appending more lines. */
  lemma ConsHeadAppend(h: string, a: seq<string>, b: seq<string>)
    requires a != []
    ensures [h + (a + b)[0]] + (a + b)[1..] == [h + a[0]] + a[1..] + b
  {
    assert (a + b)[0] == a[0];
    assert (a + b)[1..] == a[1..] + b;
  }

  /** Python's split and join are inverse: splitting a joined list of lines gives the lines back. */
  lemma {:induction false} SplitJoin(lines: seq<string>)
    requires |lines| >= 1
    requires forall l <- lines :: '\n' !in l
    ensures Split(Join(lines)) == lines
    decreases |lines|
  {
    if |lines| == 1 {
      SplitNoNewline(lines[0]);
    } else {
      SplitJoin(lines[1..]);
      SplitAppend(lines[0], Join(lines[1..]));
      SplitNoNewline(lines[0]);
      assert lines == [lines[0]] + lines[1..];
    }
  }

  lemma {:induction false} SplitNoNewline(l: string)
    requires '\n' !in l
    ensures Split(l) == [l]
    decreases |l|
  {
    if l != [] {
      assert l[0] in l;
      assert forall c | c in l[1..] :: c in l;
      SplitNoNewline(l[1..]);
      assert l == [l[0]] + l[1..];
    }
  }

  /** ... and joining the pieces of a split gives the text back. */
  lemma {:induction false} JoinSplit(s: string)
    ensures Join(Split(s)) == s
    decreases |s|
  {
    if s != [] {
      var rest := Split(s[1..]);
      JoinSplit(s[1..]);
      assert s == [s[0]] + s[1..];
      if s[0] == '\n' {
        SplitNewlineCons(s[1..]);
        JoinCons("", rest);
      } else {
        SplitCons(s[0], s[1..]);
        JoinHeadExtend(s[0], rest);
      }
    }
  }

  lemma JoinCons(h: string, rest: seq<string>)
    requires rest != []
    ensures Join([h] + rest) == h + "\n" + Join(rest)
  {
    assert ([h] + rest)[1..] == rest;
  }

  /** Putting a character in front of the first line puts it in front of the joined text. */
  lemma JoinHeadExtend(c: char, lines: seq<string>)
    requires lines != []
    ensures Join([[c] + lines[0]] + lines[1..]) == [c] + Join(lines)
  {
    var ext := [[c] + lines[0]] + lines[1..];
    if |lines| > 1 {
      assert ext[1..] == lines[1..];
    }
  }

  lemma {:induction false} JoinAppend(a: seq<string>, b: seq<string>)
    requires a != [] && b != []
    ensures Join(a + b) == Join(a) + "\n" + Join(b)
    decreases |a|
  {
    if |a| == 1 {
      assert (a + b)[1..] == b;
    } else {
      JoinAppend(a[1..], b);
      assert (a + b)[1..] == a[1..] + b;
    }
  }

  // ---------------------------------------------------------------------------
  // Decimal numerals: `str(n)`, `f"{n:02d}"` and `int(token)`

  predicate IsDigit(c: char) { '0' <= c <= '9' }

  function DigitChar(d: nat): (c: char)
    requires d < 10
    ensures IsDigit(c)
  {
    ('0' as int + d) as char
  }

  function DigitValue(c: char): (d: nat)
    requires IsDigit(c)
    ensures d < 10
  {
    c as int - '0' as int
  }

  /** `str(n)` for a non-negative integer. */
  function Decimal(n: nat): (r: string)
    ensures r != [] && forall c <- r :: IsDigit(c)
  {
    if n < 10 then [DigitChar(n)] else Decimal(n / 10) + [DigitChar(n % 10)]
  }

  /** The value of a non-empty run of ASCII digits. */
  function DigitsValue(s: string): nat
    requires forall c <- s :: IsDigit(c)
  {
    if s == [] then 0
    else
      assert s[|s| - 1] in s;
      DigitsValue(s[..|s| - 1]) * 10 + DigitValue(s[|s| - 1])
  }

  /** Reading back what `str(n)` wrote gives `n`. */
  lemma {:induction false} DecimalRoundTrip(n: nat)
    ensures DigitsValue(Decimal(n)) == n
  {
    if n >= 10 {
      var s := Decimal(n / 10) + [DigitChar(n % 10)];
      assert s[..|s| - 1] == Decimal(n / 10);
      DecimalRoundTrip(n / 10);
    }
  }

  lemma DecimalWidth(n: nat)
    ensures n < 10 ==> |Decimal(n)| == 1
    ensures 10 <= n < 100 ==> |Decimal(n)| == 2
  {
  }

  /** `str(n)` for any integer. */
  function IntToString(n: int): (r: string)
    ensures r != []
  {
    if n >= 0 then Decimal(n) else "-" + Decimal(-n)
  }

  /** `f"{n:02d}"`: at least two characters, zero-padded, the sign counting toward the width. */
  function Format2d(n: int): (r: string)
    ensures 0 <= n < 100 ==> |r| == 2 && forall c <- r :: IsDigit(c)
    ensures 0 <= n ==> (forall c <- r :: IsDigit(c)) && DigitsValue(r) == n
  {
    DecimalWidth(if n >= 0 then n else 0);
    if 0 <= n then
      var d := Decimal(n);
      DecimalRoundTrip(n);
      if n < 10 then
        var r := "0" + d;
        assert r[..|r| - 1] == "0";
        assert r[..1][..0] == [];
        r
      else d
    else "-" + Decimal(-n)
  }

  /** One run of digits, with single underscores allowed between digits, as `int()` accepts. */
  predicate DigitGroups(s: string) {
    s != [] && IsDigit(s[0]) && IsDigit(s[|s| - 1])
    && (forall c <- s :: IsDigit(c) || c == '_')
    && (forall k | 0 <= k < |s| - 1 :: !(s[k] == '_' && s[k + 1] == '_'))
  }

  function DropUnderscores(s: string): (r: string)
    ensures (forall c <- s :: IsDigit(c) || c == '_') ==> forall c <- r :: IsDigit(c)
  {
    if s == [] then [] else (if s[0] == '_' then [] else [s[0]]) + DropUnderscores(s[1..])
  }

  /** `int(token)` for a token without whitespace: an optional sign, then ASCII digits. */
  function ParseInt(token: string): (r: Option<int>)
  {
    if token != [] && (token[0] == '+' || token[0] == '-') then
      var body := token[1..];
      if DigitGroups(body) then
        var v: int := DigitsValue(DropUnderscores(body));
        Some(if token[0] == '-' then -v else v)
      else None
    else if DigitGroups(token) then Some(DigitsValue(DropUnderscores(token)))
    else None
  }

  lemma DropUnderscoresDigits(s: string)
    requires forall c <- s :: IsDigit(c)
    ensures DropUnderscores(s) == s
  {
    if s != [] {
      assert s[0] in s;
      assert forall c <- s[1..] :: c in s;
      DropUnderscoresDigits(s[1..]);
      assert s == [s[0]] + s[1..];
    }
  }

  /** `int(str(n)) == n` */
  lemma ParseIntRoundTrip(n: nat)
    ensures ParseInt(Decimal(n)) == Some(n)
  {
    var d := Decimal(n);
    DigitsAreGroups(d);
    DropUnderscoresDigits(d);
    DecimalRoundTrip(n);
    assert ParseInt(d) == Some(DigitsValue(DropUnderscores(d)));
  }

  lemma DigitsAreGroups(s: string)
    requires s != [] && forall c <- s :: IsDigit(c)
    ensures DigitGroups(s) && s[0] != '+' && s[0] != '-'
  {
    assert s[0] in s && s[|s| - 1] in s;
    forall k | 0 <= k < |s| - 1 ensures s[k] != '_' {
      assert s[k] in s;
    }
  }

  /** The first whitespace-separated token: `s.split()[0]`, absent when `s` is blank. */
  function FirstToken(s: string): (r: Option<string>)
    ensures r.Some? ==> r.value != [] && forall c <- r.value :: !IsSpace(c)
    ensures r.None? <==> AllSpace(s)
  {
    var a := SkipSpace(s, 0);
    if a == |s| then None else Some(s[a..TokenEnd(s, a)])
  }

  function TokenEnd(s: string, i: nat): (r: nat)
    requires i <= |s|
    ensures i <= r <= |s|
    ensures forall k :: i <= k < r ==> !IsSpace(s[k])
    ensures r == |s| || IsSpace(s[r])
    decreases |s| - i
  {
    if i < |s| && !IsSpace(s[i]) then TokenEnd(s, i + 1) else i
  }

}
