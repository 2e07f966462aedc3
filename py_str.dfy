/**
 * The Python string primitives the tools rely on: str.isspace, str.strip,
 * str.split() without a separator, str.join, str.lower, str.startswith,
 * negative slicing s[-n:], str(int), and the concatenation done by
 * repeated `+=`.  Strings are sequences of Unicode scalar values.
 */
module PyStr {
  import opened Wrappers

  /** Python's str.isspace() on one character (bidi class WS, B or S, or category Zs). */
  predicate IsSpace(c: char) {
    var n := c as int;
    (9 <= n <= 13) || (28 <= n <= 32) || n == 0x85 || n == 0xA0 || n == 0x1680
    || (0x2000 <= n <= 0x200A) || n == 0x2028 || n == 0x2029 || n == 0x202F
    || n == 0x205F || n == 0x3000
  }

  predicate NoSpace(s: string) {
    forall i :: 0 <= i < |s| ==> !IsSpace(s[i])
  }

  predicate AllSpace(s: string) {
    forall i :: 0 <= i < |s| ==> IsSpace(s[i])
  }

  /** Neither the first nor the last character is whitespace. */
  predicate NoEdgeSpace(s: string) {
    |s| == 0 || (!IsSpace(s[0]) && !IsSpace(s[|s| - 1]))
  }

  /** Number of whitespace characters at the start of s. */
  function LeadingSpaces(s: string): (n: nat)
    ensures n <= |s| && AllSpace(s[..n])
    ensures n < |s| ==> !IsSpace(s[n])
    decreases |s|
  {
    if |s| == 0 || !IsSpace(s[0]) then 0
    else
      var m := LeadingSpaces(s[1..]);
      assert s[..1 + m] == [s[0]] + s[1..][..m];
      1 + m
  }

  /** Number of whitespace characters at the end of s. */
  function TrailingSpaces(s: string): (n: nat)
    ensures n <= |s| && AllSpace(s[|s| - n..])
    ensures n < |s| ==> !IsSpace(s[|s| - n - 1])
    decreases |s|
  {
    if |s| == 0 || !IsSpace(s[|s| - 1]) then 0
    else
      var t := s[..|s| - 1];
      var m := TrailingSpaces(t);
      assert s[|s| - (1 + m)..] == t[|t| - m..] + [s[|s| - 1]];
      1 + m
  }

  /** The leading whitespace count is the one position where the whitespace prefix ends. */
  lemma {:induction false} LeadingSpacesIs(s: string, k: nat)
    requires k <= |s| && AllSpace(s[..k]) && (k < |s| ==> !IsSpace(s[k]))
    ensures LeadingSpaces(s) == k
    decreases k
  {
    if k > 0 {
      assert s[..k][0] == s[0];
      assert s[1..][..k - 1] == s[..k][1..];
      LeadingSpacesIs(s[1..], k - 1);
    }
  }

  /** The trailing whitespace count is the one position where the whitespace suffix begins. */
  lemma {:induction false} TrailingSpacesIs(s: string, k: nat)
    requires k <= |s| && AllSpace(s[|s| - k..]) && (k < |s| ==> !IsSpace(s[|s| - k - 1]))
    ensures TrailingSpaces(s) == k
    decreases k
  {
    if k > 0 {
      var t := s[..|s| - 1];
      assert s[|s| - k..][k - 1] == s[|s| - 1];
      assert t[|t| - (k - 1)..] == s[|s| - k..][..k - 1];
      assert k - 1 < |t| ==> t[|t| - (k - 1) - 1] == s[|s| - k - 1];
      TrailingSpacesIs(t, k - 1);
    }
  }

  lemma SpaceSuffix(s: string, k: nat)
    requires k <= |s| && AllSpace(s[|s| - k..])
    ensures forall j :: |s| - k <= j < |s| ==> IsSpace(s[j])
  {
    forall j | |s| - k <= j < |s| ensures IsSpace(s[j]) {
      assert s[|s| - k..][j - (|s| - k)] == s[j];
    }
  }

  /**
   * Python's str.strip() with no argument: s without its leading and
   * trailing whitespace.  The result sits inside s between two runs of
   * whitespace and neither begins nor ends with whitespace.
   */
  function Strip(s: string): (r: string)
    ensures NoEdgeSpace(r)
    ensures exists i :: 0 <= i <= |s| - |r| && r == s[i..i + |r|]
                        && AllSpace(s[..i]) && AllSpace(s[i + |r|..])
  {
    var a := LeadingSpaces(s);
    if a == |s| then
      assert AllSpace(s[..0]) && s[..|s|] == s;
      ""
    else
      var b := TrailingSpaces(s);
      SpaceSuffix(s, b);
      var r := s[a..|s| - b];
      assert r[0] == s[a] && r[|r| - 1] == s[|s| - b - 1];
      assert s[a + |r|..] == s[|s| - b..];
      r
  }

  /** Strip is determined by the decomposition whitespace + core + whitespace. */
  lemma StripUnique(lead: string, mid: string, trail: string)
    requires AllSpace(lead) && AllSpace(trail) && NoEdgeSpace(mid)
    ensures Strip(lead + mid + trail) == mid
  {
    var s := lead + mid + trail;
    if |mid| == 0 {
      assert s == lead + trail;
      LeadingSpacesIs(s, |s|);
    } else {
      assert s[..|lead|] == lead;
      assert s[|lead|] == mid[0];
      LeadingSpacesIs(s, |lead|);
      assert s[|s| - |trail|..] == trail;
      assert s[|s| - |trail| - 1] == mid[|mid| - 1];
      TrailingSpacesIs(s, |trail|);
      assert s[|lead|..|s| - |trail|] == mid;
    }
  }

  /** Length of the run of non-whitespace characters at the start of s. */
  function WordLength(s: string): (n: nat)
    ensures n <= |s| && NoSpace(s[..n])
    ensures n < |s| ==> IsSpace(s[n])
    decreases |s|
  {
    if |s| == 0 || IsSpace(s[0]) then 0
    else
      var m := WordLength(s[1..]);
      assert s[..1 + m] == [s[0]] + s[1..][..m];
      1 + m
  }

  /** Python's str.split() with no separator: the maximal runs of non-whitespace characters, in order. */
  function Split(s: string): (words: seq<string>)
    ensures forall k :: 0 <= k < |words| ==> words[k] != "" && NoSpace(words[k])
    decreases |s|
  {
    var a := LeadingSpaces(s);
    if a == |s| then []
    else
      var rest := s[a..];
      var n := WordLength(rest);
      [rest[..n]] + Split(rest[n..])
  }

  lemma {:induction false} WordLengthOfWord(s: string)
    requires NoSpace(s)
    ensures WordLength(s) == |s|
    decreases |s|
  {
    if |s| > 0 {
      assert forall i :: 0 <= i < |s[1..]| ==> s[1..][i] == s[i + 1];
      WordLengthOfWord(s[1..]);
    }
  }

  /** A non-empty string without whitespace splits into itself. */
  lemma SplitSingleWord(s: string)
    requires s != "" && NoSpace(s)
    ensures Split(s) == [s]
  {
    LeadingSpacesIs(s, 0);
    var rest := s[0..];
    assert rest == s;
    WordLengthOfWord(rest);
    assert rest[..|s|] == s;
    assert rest[|s|..] == [];
    assert LeadingSpaces([]) == 0;
    assert Split([]) == [];
  }

  /**
   * The whitespace runs around the words of Split(s): one before the first
   * word, one between each two words and one after the last.
   */
  ghost function Gaps(s: string): (gaps: seq<string>)
    ensures |gaps| == |Split(s)| + 1
    ensures gaps[0] == s[..LeadingSpaces(s)]
    ensures forall k :: 0 <= k < |gaps| ==> AllSpace(gaps[k])
    decreases |s|
  {
    var a := LeadingSpaces(s);
    if a == |s| then
      assert s[..a] == s;
      [s]
    else
      var rest := s[a..];
      var n := WordLength(rest);
      [s[..a]] + Gaps(rest[n..])
  }

  /** gaps[0] + words[0] + gaps[1] + ... + words[n-1] + gaps[n] */
  function Interleave(gaps: seq<string>, words: seq<string>): string
    requires |gaps| == |words| + 1
    decreases |words|
  {
    if |words| == 0 then gaps[0]
    else gaps[0] + words[0] + Interleave(gaps[1..], words[1..])
  }

  /** What follows the first word of s: nothing, or a whitespace character. */
  function AfterFirstWord(s: string): string
    requires Split(s) != []
  {
    var rest := s[LeadingSpaces(s)..];
    rest[WordLength(rest)..]
  }

  lemma SplitStep(s: string)
    requires Split(s) != []
    ensures var t := AfterFirstWord(s);
      && Split(s)[1..] == Split(t)
      && Gaps(s)[1..] == Gaps(t)
      && (t != [] ==> IsSpace(t[0]))
  {
    var a := LeadingSpaces(s);
    var rest := s[a..];
    var n := WordLength(rest);
    assert n < |rest| ==> rest[n..][0] == rest[n];
  }

  lemma FirstGapNonEmpty(t: string)
    requires Split(t) != [] && IsSpace(t[0])
    ensures Gaps(t)[0] != ""
  {
    assert LeadingSpaces(t) > 0;
  }

  /** Between two words of Split(s) there is always at least one whitespace character. */
  lemma {:induction false} GapsBetweenWordsNonEmpty(s: string, k: nat)
    requires 0 < k < |Split(s)|
    ensures Gaps(s)[k] != ""
    decreases |s|
  {
    var t := AfterFirstWord(s);
    SplitStep(s);
    assert Gaps(s)[k] == Gaps(t)[k - 1];
    assert |Split(t)| == |Split(s)| - 1;
    if k == 1 {
      assert t != [] by {
        assert Split([]) == [];
      }
      FirstGapNonEmpty(t);
    } else {
      GapsBetweenWordsNonEmpty(t, k - 1);
    }
  }

  /** One step of split: the leading gap, the first word, and what follows it. */
  lemma SplitUnfold(s: string)
    requires LeadingSpaces(s) < |s|
    ensures var rest := s[LeadingSpaces(s)..];
            var t := rest[WordLength(rest)..];
            && Split(s) == [rest[..WordLength(rest)]] + Split(t)
            && Gaps(s) == [s[..LeadingSpaces(s)]] + Gaps(t)
  {
  }

  lemma Regroup(s: string, a: nat, n: nat)
    requires a <= |s| && n <= |s| - a
    ensures s == s[..a] + s[a..][..n] + s[a..][n..]
  {
    assert s == s[..a] + s[a..];
    assert s[a..] == s[a..][..n] + s[a..][n..];
  }

  lemma InterleaveCons(gap: string, word: string, gaps: seq<string>, words: seq<string>)
    requires |gaps| == |words| + 1
    ensures Interleave([gap] + gaps, [word] + words) == gap + word + Interleave(gaps, words)
  {
    assert ([gap] + gaps)[1..] == gaps && ([word] + words)[1..] == words;
  }

  /** Splitting loses only whitespace: the words put back between the gaps give s again. */
  lemma {:induction false} SplitReconstructs(s: string)
    ensures Interleave(Gaps(s), Split(s)) == s
    decreases |s|
  {
    var a := LeadingSpaces(s);
    if a == |s| {
      assert Split(s) == [] && Gaps(s) == [s];
    } else {
      var rest := s[a..];
      var n := WordLength(rest);
      var t := rest[n..];
      SplitUnfold(s);
      SplitReconstructs(t);
      InterleaveCons(s[..a], rest[..n], Gaps(t), Split(t));
      Regroup(s, a, n);
    }
  }

  /** The three parts of a + m + b can be cut out again by position. */
  lemma CutThree(a: string, m: string, b: string)
    ensures var s := a + m + b;
      && |s| == |a| + |m| + |b|
      && s[..|a|] == a
      && s[|s| - |b|..] == b
      && s[|a|..|s| - |b|] == m
  {
  }

  /** Python's sep.join(words). */
  function Join(words: seq<string>, sep: string): string
    decreases |words|
  {
    if |words| == 0 then ""
    else if |words| == 1 then words[0]
    else words[0] + sep + Join(words[1..], sep)
  }

  /** Joining whitespace-free words with a whitespace-free separator gives a whitespace-free string. */
  lemma {:induction false} JoinNoSpace(words: seq<string>, sep: string)
    requires NoSpace(sep)
    requires forall k :: 0 <= k < |words| ==> NoSpace(words[k])
    ensures NoSpace(Join(words, sep))
    decreases |words|
  {
    if |words| > 1 {
      JoinNoSpace(words[1..], sep);
      var j := Join(words[1..], sep);
      assert Join(words, sep) == words[0] + sep + j;
      forall i | 0 <= i < |words[0] + sep + j|
        ensures !IsSpace((words[0] + sep + j)[i])
      {
        if i < |words[0]| {
          assert (words[0] + sep + j)[i] == words[0][i];
        } else if i < |words[0]| + |sep| {
          assert (words[0] + sep + j)[i] == sep[i - |words[0]|];
        } else {
          assert (words[0] + sep + j)[i] == j[i - |words[0]| - |sep|];
        }
      }
    }
  }

  /** A join of non-empty words starts with the first word's first character and ends with the last word's last. */
  lemma {:induction false} JoinEdges(words: seq<string>, sep: string)
    requires |words| > 0
    requires forall k :: 0 <= k < |words| ==> words[k] != ""
    ensures var j := Join(words, sep);
            && j != ""
            && j[0] == words[0][0]
            && j[|j| - 1] == words[|words| - 1][|words[|words| - 1]| - 1]
    decreases |words|
  {
    if |words| > 1 {
      JoinEdges(words[1..], sep);
      var j := Join(words[1..], sep);
      assert Join(words, sep) == words[0] + sep + j;
    }
  }

  /** Python's str.lower() on one character, for the ASCII letters. */
  function LowerChar(c: char): char {
    if 'A' <= c <= 'Z' then (c as int + 32) as char else c
  }

  /**
   * Python's str.lower(), restricted to the ASCII case mapping: each ASCII
   * capital becomes its small letter, and every other character,
   * whitespace included, is kept.
   */
  function Lower(s: string): (r: string)
    ensures |r| == |s|
    ensures forall i :: 0 <= i < |r| ==> !('A' <= r[i] <= 'Z')
    ensures forall i :: 0 <= i < |r| && !('A' <= s[i] <= 'Z') ==> r[i] == s[i]
    ensures forall i :: 0 <= i < |r| && 'A' <= s[i] <= 'Z' ==> 'a' <= r[i] <= 'z' && r[i] as int == s[i] as int + 32
    ensures forall i :: 0 <= i < |r| ==> (IsSpace(r[i]) <==> IsSpace(s[i]))
  {
    seq(|s|, i requires 0 <= i < |s| => LowerChar(s[i]))
  }

  /** Python's s.startswith(prefix). */
  predicate StartsWith(s: string, prefix: string) {
    |prefix| <= |s| && s[..|prefix|] == prefix
  }

  /**
   * Python's s[-n:]: the last n characters, or all of s when it is
   * shorter (and, since -0 is 0, all of s when n is 0).
   */
  function Tail(s: string, n: nat): (r: string)
    ensures |r| == if n == 0 || n >= |s| then |s| else n
    ensures r == s[|s| - |r|..]
  {
    if n == 0 || n >= |s| then s else s[|s| - n..]
  }

  /** Python's s.rfind(c), with None for -1: the position of the last occurrence of c. */
  function LastIndexOf(s: string, c: char): (r: Option<nat>)
    ensures r.None? <==> c !in s
    ensures r.Some? ==> r.value < |s| && s[r.value] == c
                        && forall j :: r.value < j < |s| ==> s[j] != c
    decreases |s|
  {
    if |s| == 0 then None
    else if s[|s| - 1] == c then Some(|s| - 1)
    else
      var r := LastIndexOf(s[..|s| - 1], c);
      assert c in s[..|s| - 1] ==> c in s;
      assert c in s ==> c in s[..|s| - 1] by {
        if c in s {
          var i :| 0 <= i < |s| && s[i] == c;
          assert s[..|s| - 1][i] == c;
        }
      }
      r
  }

  /** The last occurrence is the one with no occurrence after it. */
  lemma LastIndexOfIs(s: string, c: char, k: nat)
    requires k < |s| && s[k] == c
    requires forall j :: k < j < |s| ==> s[j] != c
    ensures LastIndexOf(s, c) == Some(k)
  {
    assert c in s;
  }

  /** The concatenation of pieces in order, as built by repeated `acc += piece`. */
  function Concat(pieces: seq<string>): string
    decreases |pieces|
  {
    if |pieces| == 0 then "" else Concat(pieces[..|pieces| - 1]) + pieces[|pieces| - 1]
  }

  lemma {:induction false} ConcatAppend(a: seq<string>, b: seq<string>)
    ensures Concat(a + b) == Concat(a) + Concat(b)
    decreases |b|
  {
    if |b| == 0 {
      assert a + b == a;
    } else {
      var b' := b[..|b| - 1];
      assert (a + b)[..|a + b| - 1] == a + b';
      assert Concat(a + b) == Concat(a + b') + b[|b| - 1];
      ConcatAppend(a, b');
      assert Concat(b) == Concat(b') + b[|b| - 1];
    }
  }

  predicate IsDigit(c: char) {
    '0' <= c <= '9'
  }

  predicate AllDigits(s: string) {
    forall i :: 0 <= i < |s| ==> IsDigit(s[i])
  }

  function DigitChar(d: nat): (c: char)
    requires d < 10
  {
    "0123456789"[d]
  }

  function DigitValue(c: char): nat
    requires IsDigit(c)
  {
    c as int - '0' as int
  }

  /** Python's str(n) for a non-negative int: decimal digits with no leading zero. */
  function NatToStr(n: nat): (r: string)
    ensures |r| >= 1 && AllDigits(r)
    ensures r[0] == '0' ==> n == 0
    decreases n
  {
    if n < 10 then [DigitChar(n)] else NatToStr(n / 10) + [DigitChar(n % 10)]
  }

  /** Python's str(i): a minus sign before the digits of a negative number. */
  function IntToStr(i: int): string {
    if i < 0 then "-" + NatToStr(-i) else NatToStr(i)
  }

  /** The value of a string of decimal digits. */
  function DigitsValue(s: string): nat
    requires AllDigits(s)
    decreases |s|
  {
    if |s| == 0 then 0 else DigitsValue(s[..|s| - 1]) * 10 + DigitValue(s[|s| - 1])
  }

  /** Python's int(s) for an optionally negative decimal literal; None where int() would raise. */
  function ParseInt(s: string): Option<int> {
    if 1 < |s| && s[0] == '-' && AllDigits(s[1..]) then Some(0 - DigitsValue(s[1..]))
    else if 0 < |s| && AllDigits(s) then Some(DigitsValue(s))
    else None
  }

  lemma {:induction false} NatToStrRoundTrip(n: nat)
    ensures DigitsValue(NatToStr(n)) == n
    decreases n
  {
    var r := NatToStr(n);
    if n >= 10 {
      NatToStrRoundTrip(n / 10);
      assert r[..|r| - 1] == NatToStr(n / 10);
    }
  }

  /** int() of a plain digit string is its value. */
  lemma ParseDigits(d: string)
    requires |d| >= 1 && AllDigits(d)
    ensures ParseInt(d) == Some(DigitsValue(d))
  {
    assert IsDigit(d[0]);
  }

  /** int() of a minus sign and digits is the negated value. */
  lemma ParseNegative(d: string)
    requires |d| >= 1 && AllDigits(d)
    ensures ParseInt("-" + d) == Some(0 - DigitsValue(d))
  {
    var s := "-" + d;
    assert s[0] == '-' && s[1..] == d;
  }

  /** int(str(i)) == i. */
  lemma IntToStrRoundTrip(i: int)
    ensures ParseInt(IntToStr(i)) == Some(i)
  {
    if i < 0 {
      var n: nat := -i;
      var d := NatToStr(n);
      assert IntToStr(i) == "-" + d;
      NatToStrRoundTrip(n);
      ParseNegative(d);
    } else {
      var d := NatToStr(i);
      assert IntToStr(i) == d;
      NatToStrRoundTrip(i);
      ParseDigits(d);
    }
  }
}
