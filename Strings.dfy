/**
 * The string operations the output-path derivation is built from: Python's
 * `str.split` on a one-character separator, `str.join`, and `str` of a
 * non-negative integer.
 */
module Strings {

  /** `s.split(c)`: the pieces between the occurrences of `c`; always at least one. */
  function Split(s: string, c: char): (parts: seq<string>)
    ensures |parts| >= 1
    ensures forall k :: 0 <= k < |parts| ==> c !in parts[k]
  {
    if s == [] then [""]
    else
      var init := Split(s[..|s| - 1], c);
      var last := s[|s| - 1];
      if last == c then init + [""]
      else init[..|init| - 1] + [init[|init| - 1] + [last]]
  }

  /** `c.join(parts)` */
  function Join(parts: seq<string>, c: char): (r: string)
    ensures forall ch :: ch in r <==>
      (ch == c && |parts| > 1) || exists k :: 0 <= k < |parts| && ch in parts[k]
  {
    if |parts| == 0 then ""
    else if |parts| == 1 then parts[0]
    else Join(parts[..|parts| - 1], c) + [c] + parts[|parts| - 1]
  }

  /** `s` with every `a` turned into `b`. */
  function ReplaceChar(s: string, a: char, b: char): string
  {
    seq(|s|, i requires 0 <= i < |s| => if s[i] == a then b else s[i])
  }

  /**
   * `b.join(s.split(a))` replaces every `a` in `s` by `b` and changes nothing
   * else; in particular `c.join(s.split(c)) == s`.
   */
  lemma {:induction false} JoinSplitReplaces(s: string, a: char, b: char)
    ensures Join(Split(s, a), b) == ReplaceChar(s, a, b)
  {
    if s != [] {
      var t, x := s[..|s| - 1], s[|s| - 1];
      var init := Split(t, a);
      JoinSplitReplaces(t, a, b);
      assert ReplaceChar(s, a, b) == ReplaceChar(t, a, b) + [if x == a then b else x];
      if x == a {
        assert (init + [""])[..|init|] == init;
      } else if |init| > 1 {
        var parts := Split(s, a);
        assert parts[..|parts| - 1] == init[..|init| - 1];
      }
    }
  }

  lemma JoinSplitRoundTrip(s: string, c: char)
    ensures Join(Split(s, c), c) == s
  {
    JoinSplitReplaces(s, c, c);
  }

  /** `c.join(s.split(c)[0:-1])`: `s` without its last `c`-separated segment,
      which is exactly what precedes the last separator. */
  function DropLastSegment(s: string, c: char): (r: string)
    ensures r == BeforeLast(s, c)
  {
    JoinInitSplitIsBeforeLast(s, c);
    var parts := Split(s, c);
    Join(parts[..|parts| - 1], c)
  }

  /**
   * Everything before the last `c` of `s`, or nothing when `s` has no `c`:
   * a prefix of `s` followed by a `c` that is the last one.
   */
  function BeforeLast(s: string, c: char): (r: string)
    ensures |r| <= |s| && r == s[..|r|]
    ensures c in s ==> |r| < |s| && s[|r|] == c && c !in s[|r| + 1..]
    ensures c !in s ==> r == ""
  {
    if s == [] then ""
    else if s[|s| - 1] == c then s[..|s| - 1]
    else
      var t := s[..|s| - 1];
      var r := BeforeLast(t, c);
      assert c in s ==> c in t;
      assert s[..|r|] == t[..|r|];
      assert c in t ==> s[|r| + 1..] == t[|r| + 1..] + [s[|s| - 1]];
      r
  }

  /** Joining all pieces but the last keeps what precedes the last separator. */
  lemma {:induction false} JoinInitSplitIsBeforeLast(s: string, c: char)
    ensures var parts := Split(s, c); Join(parts[..|parts| - 1], c) == BeforeLast(s, c)
  {
    if s != [] {
      var t := s[..|s| - 1];
      var init := Split(t, c);
      if s[|s| - 1] == c {
        assert (init + [""])[..|init|] == init;
        JoinSplitRoundTrip(t, c);
      } else {
        var parts := Split(s, c);
        assert parts[..|parts| - 1] == init[..|init| - 1];
        JoinInitSplitIsBeforeLast(t, c);
      }
    }
  }

  function Digit(d: nat): char
    requires d < 10
  {
    ('0' as int + d) as char
  }

  function DigitValue(ch: char): int
  {
    ch as int - '0' as int
  }

  /** `str(n)` for a non-negative integer: its decimal digits, no sign, no
      leading zero. */
  function NatToString(n: nat): (s: string)
    ensures |s| >= 1
    ensures forall k :: 0 <= k < |s| ==> '0' <= s[k] <= '9'
    ensures n >= 10 ==> s[0] != '0'
  {
    if n < 10 then [Digit(n)] else NatToString(n / 10) + [Digit(n % 10)]
  }

  /** Reads decimal digits back into the number they denote. */
  function ParseDecimal(s: string): int
  {
    if s == [] then 0 else ParseDecimal(s[..|s| - 1]) * 10 + DigitValue(s[|s| - 1])
  }

  lemma {:induction false} ParseNatToString(n: nat)
    ensures ParseDecimal(NatToString(n)) == n
  {
    if n >= 10 {
      var s := NatToString(n);
      assert s[..|s| - 1] == NatToString(n / 10);
      ParseNatToString(n / 10);
    }
  }

  /** Distinct numbers print differently. */
  lemma NatToStringInjective(m: nat, n: nat)
    requires NatToString(m) == NatToString(n)
    ensures m == n
  {
    ParseNatToString(m);
    ParseNatToString(n);
  }
}
