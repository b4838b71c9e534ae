/**
 * The few `java.lang.String` and `java.lang.Integer` operations the monitor relies on:
 * ASCII digits, `Integer.parseInt` with `Integer.toString` as the reference it inverts,
 * ASCII `toLowerCase`, `startsWith`, `contains`, and `split(" +")`.
 */
module Strings {

  // ---------------------------------------------------------------------------
  // Digits and decimal numbers
  // ---------------------------------------------------------------------------

  /** The regular-expression class `\d` (without UNICODE_CHARACTER_CLASS): ASCII 0-9. */
  predicate IsDigit(c: char) {
    '0' <= c <= '9'
  }

  predicate AllDigits(s: string) {
    forall i :: 0 <= i < |s| ==> IsDigit(s[i])
  }

  function DigitValue(c: char): (d: nat)
    requires IsDigit(c)
    ensures d < 10
  {
    c as int - '0' as int
  }

  function DigitChar(d: nat): (c: char)
    requires d < 10
    ensures IsDigit(c) && DigitValue(c) == d
  {
    ('0' as int + d) as char
  }

  lemma DigitCharOfValue(c: char)
    requires IsDigit(c)
    ensures DigitChar(DigitValue(c)) == c
  {
  }

  /** `10` to the power `n`. */
  function Pow10(n: nat): (p: nat)
    ensures p >= 1
  {
    if n == 0 then 1 else 10 * Pow10(n - 1)
  }

  /** `Integer.parseInt` on a string of ASCII digits (most significant digit first). */
  function DecimalValue(s: string): (r: nat)
    requires AllDigits(s)
    ensures r < Pow10(|s|)
  {
    if |s| == 0 then 0 else DecimalValue(s[..|s| - 1]) * 10 + DigitValue(s[|s| - 1])
  }

  /** The value of a one- or two-digit string. */
  lemma DecimalValueShort(s: string)
    requires AllDigits(s)
    ensures |s| == 1 ==> DecimalValue(s) == DigitValue(s[0])
    ensures |s| == 2 ==> DecimalValue(s) == DigitValue(s[0]) * 10 + DigitValue(s[1])
  {
    if |s| == 1 {
      assert s[..0] == [];
    } else if |s| == 2 {
      assert s[..1] == [s[0]];
      assert s[..1][..0] == [];
    }
  }

  /** `Integer.toString` on a non-negative value: no sign, no leading zero. */
  function NatToString(n: nat): (s: string)
    ensures 1 <= |s| && AllDigits(s)
    ensures n < 10 <==> |s| == 1
    ensures 10 <= n < 100 <==> |s| == 2
    ensures |s| > 1 ==> s[0] != '0'
  {
    if n < 10 then [DigitChar(n)] else NatToString(n / 10) + [DigitChar(n % 10)]
  }

  /** `Integer.parseInt(Integer.toString(n)) == n`. */
  lemma {:induction false} DecimalValueOfNatToString(n: nat)
    ensures DecimalValue(NatToString(n)) == n
  {
    var s := NatToString(n);
    if n >= 10 {
      assert s[..|s| - 1] == NatToString(n / 10);
      DecimalValueOfNatToString(n / 10);
    }
  }

  // ---------------------------------------------------------------------------
  // Case, prefixes and substrings
  // ---------------------------------------------------------------------------

  function LowerChar(c: char): char {
    if 'A' <= c <= 'Z' then (c as int - 'A' as int + 'a' as int) as char else c
  }

  /** `String.toLowerCase`, restricted to the ASCII letters. */
  function ToLowerCase(s: string): (r: string)
    ensures |r| == |s|
    ensures forall i :: 0 <= i < |s| ==> r[i] == LowerChar(s[i])
    ensures forall i :: 0 <= i < |r| ==> !('A' <= r[i] <= 'Z')
    ensures forall i :: 0 <= i < |s| && !('A' <= s[i] <= 'Z') ==> r[i] == s[i]
  {
    seq(|s|, i requires 0 <= i < |s| => LowerChar(s[i]))
  }

  /** Lowercasing twice is lowercasing once. */
  lemma ToLowerCaseIdempotent(s: string)
    ensures ToLowerCase(ToLowerCase(s)) == ToLowerCase(s)
  {
  }

  /** `String.startsWith`. */
  predicate StartsWith(s: string, prefix: string)
    ensures StartsWith(s, prefix) <==> |prefix| <= |s| && forall i :: 0 <= i < |prefix| ==> s[i] == prefix[i]
  {
    |prefix| <= |s| && s[..|prefix|] == prefix
  }

  /** `String.contains`: some suffix of `s` starts with `sub` (the empty string is in every string). */
  predicate Contains(s: string, sub: string)
    ensures Contains(s, sub) ==> |sub| <= |s|
    decreases |s|
  {
    StartsWith(s, sub) || (|s| > 0 && Contains(s[1..], sub))
  }

  /** `sub` occurs in `s` at offset `k`. */
  predicate OccursAt(s: string, sub: string, k: int) {
    0 <= k <= |s| - |sub| && s[k..k + |sub|] == sub
  }

  /** `contains` is `indexOf(sub) >= 0`: `sub` occurs at some offset of `s`. */
  lemma {:induction false} ContainsIff(s: string, sub: string)
    ensures Contains(s, sub) <==> exists k :: OccursAt(s, sub, k)
  {
    if StartsWith(s, sub) {
      assert s[0..0 + |sub|] == sub;
      assert OccursAt(s, sub, 0);
    } else if |s| > 0 {
      ContainsIff(s[1..], sub);
      if Contains(s[1..], sub) {
        var k :| OccursAt(s[1..], sub, k);
        assert s[k + 1..k + 1 + |sub|] == s[1..][k..k + |sub|];
        assert OccursAt(s, sub, k + 1);
      }
      if exists k :: OccursAt(s, sub, k) {
        var k :| OccursAt(s, sub, k);
        if k > 0 {
          assert s[1..][k - 1..k - 1 + |sub|] == s[k..k + |sub|];
          assert OccursAt(s[1..], sub, k - 1);
        }
      }
    }
  }

  lemma {:induction false} ContainsItself(s: string)
    ensures Contains(s, s)
  {
    assert s[..|s|] == s;
  }

  // ---------------------------------------------------------------------------
  // String.split(" +")
  // ---------------------------------------------------------------------------

  function Spaces(n: nat): (s: string)
    ensures |s| == n && forall i :: 0 <= i < n ==> s[i] == ' '
  {
    if n == 0 then "" else " " + Spaces(n - 1)
  }

  predicate NoSpace(s: string) {
    forall i :: 0 <= i < |s| ==> s[i] != ' '
  }

  /** Index of the first space of `s`. */
  function IndexOfSpace(s: string): (i: nat)
    requires !NoSpace(s)
    ensures i < |s| && s[i] == ' ' && NoSpace(s[..i])
  {
    if s[0] == ' ' then 0 else 1 + IndexOfSpace(s[1..])
  }

  /** `s` without its leading run of spaces. */
  function DropSpaces(s: string): (r: string)
    ensures |r| <= |s| && (|s| > 0 && s[0] == ' ' ==> |r| < |s|)
    ensures r == "" || r[0] != ' '
  {
    if |s| > 0 && s[0] == ' ' then DropSpaces(s[1..]) else s
  }

  /**
   * The pieces between maximal runs of spaces, as the regex engine finds them:
   * a leading run gives an empty first piece, a trailing run an empty last piece.
   */
  function Pieces(s: string): (r: seq<string>)
    ensures 1 <= |r|
    ensures forall k :: 0 <= k < |r| ==> NoSpace(r[k])
    ensures forall k :: 0 < k < |r| - 1 ==> r[k] != ""
    decreases |s|
  {
    if NoSpace(s) then [s]
    else
      var i := IndexOfSpace(s);
      var rest := DropSpaces(s[i..]);
      [s[..i]] + Pieces(rest)
  }

  /** Removes every trailing empty string, as `split` does with a zero limit. */
  function StripTrailingEmpty(p: seq<string>): (r: seq<string>)
    ensures |r| <= |p| && r == p[..|r|]
    ensures r == [] || r[|r| - 1] != ""
    ensures forall k :: |r| <= k < |p| ==> p[k] == ""
  {
    if |p| > 0 && p[|p| - 1] == "" then StripTrailingEmpty(p[..|p| - 1]) else p
  }

  /**
   * `s.split(" +")`: when the pattern does not occur the result is `[s]` (so `""` gives `[""]`);
   * otherwise the pieces between runs of spaces without the trailing empty ones.
   */
  function Split(s: string): (r: seq<string>)
    ensures forall k :: 0 <= k < |r| ==> NoSpace(r[k])
    ensures forall k :: 0 < k < |r| ==> r[k] != ""
  {
    if NoSpace(s) then [s] else StripTrailingEmpty(Pieces(s))
  }

  /** Tokens as a column-aligned row holds them: non-empty and free of spaces. */
  predicate PlainTokens(toks: seq<string>) {
    forall k :: 0 <= k < |toks| ==> toks[k] != "" && NoSpace(toks[k])
  }

  /** The row `toks[0] + gap + toks[1] + gap + ...`, where gap `k` is `gaps[k]` spaces. */
  function Aligned(toks: seq<string>, gaps: seq<nat>): (s: string)
    requires |toks| >= 1 && |gaps| == |toks| - 1
  {
    if |toks| == 1 then toks[0] else toks[0] + Spaces(gaps[0]) + Aligned(toks[1..], gaps[1..])
  }

  lemma {:induction false} AlignedStartsWithToken(toks: seq<string>, gaps: seq<nat>)
    requires |toks| >= 1 && |gaps| == |toks| - 1 && PlainTokens(toks)
    ensures Aligned(toks, gaps) != "" && Aligned(toks, gaps)[0] == toks[0][0]
  {
  }

  /** The first space of `t + u` is the first character of `u` when `t` has none. */
  lemma {:induction false} IndexOfSpaceAfter(t: string, u: string)
    requires NoSpace(t) && u != "" && u[0] == ' '
    ensures !NoSpace(t + u) && IndexOfSpace(t + u) == |t|
  {
    assert (t + u)[|t|] == ' ';
    if t != "" {
      assert (t + u)[1..] == t[1..] + u;
      IndexOfSpaceAfter(t[1..], u);
    }
  }

  /** Dropping the leading run of `Spaces(g) + rest` leaves `rest` when `rest` does not start with a space. */
  lemma {:induction false} DropSpacesRun(g: nat, rest: string)
    requires rest == "" || rest[0] != ' '
    ensures DropSpaces(Spaces(g) + rest) == rest
  {
    if g > 0 {
      assert (Spaces(g) + rest)[1..] == Spaces(g - 1) + rest;
      DropSpacesRun(g - 1, rest);
    } else {
      assert Spaces(g) + rest == rest;
    }
  }

  lemma {:induction false} SplitHead(t: string, g: nat, rest: string)
    requires NoSpace(t) && g >= 1 && (rest == "" || rest[0] != ' ')
    ensures Pieces(t + Spaces(g) + rest) == [t] + Pieces(rest)
  {
    var s := t + Spaces(g) + rest;
    assert s == t + (Spaces(g) + rest);
    IndexOfSpaceAfter(t, Spaces(g) + rest);
    assert s[..|t|] == t;
    assert s[|t|..] == Spaces(g) + rest;
    DropSpacesRun(g, rest);
  }

  /** Pieces of an aligned row followed by `trail` spaces: the tokens, then one empty piece if `trail > 0`. */
  lemma {:induction false} PiecesAligned(toks: seq<string>, gaps: seq<nat>, trail: nat)
    requires |toks| >= 1 && |gaps| == |toks| - 1 && PlainTokens(toks)
    requires forall k :: 0 <= k < |gaps| ==> gaps[k] >= 1
    ensures Pieces(Aligned(toks, gaps) + Spaces(trail)) == toks + (if trail > 0 then [""] else [])
  {
    if |toks| == 1 {
      if trail == 0 {
        assert Aligned(toks, gaps) + Spaces(trail) == toks[0];
      } else {
        SplitHead(toks[0], trail, "");
        assert toks[0] + Spaces(trail) + "" == Aligned(toks, gaps) + Spaces(trail);
      }
    } else {
      var tail := Aligned(toks[1..], gaps[1..]) + Spaces(trail);
      AlignedStartsWithToken(toks[1..], gaps[1..]);
      SplitHead(toks[0], gaps[0], tail);
      assert toks[0] + Spaces(gaps[0]) + tail == Aligned(toks, gaps) + Spaces(trail);
      PiecesAligned(toks[1..], gaps[1..], trail);
      assert toks == [toks[0]] + toks[1..];
    }
  }

  /** Pieces of a padded aligned row: an empty piece for each of the leading and trailing runs. */
  lemma {:induction false} PiecesPadded(lead: nat, toks: seq<string>, gaps: seq<nat>, trail: nat)
    requires |toks| >= 1 && |gaps| == |toks| - 1 && PlainTokens(toks)
    requires forall k :: 0 <= k < |gaps| ==> gaps[k] >= 1
    ensures Pieces(Spaces(lead) + Aligned(toks, gaps) + Spaces(trail))
         == (if lead > 0 then [""] else []) + toks + (if trail > 0 then [""] else [])
  {
    var row := Aligned(toks, gaps) + Spaces(trail);
    var extra: seq<string> := if trail > 0 then [""] else [];
    PiecesAligned(toks, gaps, trail);
    assert Pieces(row) == toks + extra;
    var s := Spaces(lead) + Aligned(toks, gaps) + Spaces(trail);
    assert s == Spaces(lead) + row;
    if lead > 0 {
      AlignedStartsWithToken(toks, gaps);
      assert row[0] == toks[0][0];
      SplitHead("", lead, row);
      assert "" + Spaces(lead) + row == s;
      assert Pieces(s) == [""] + (toks + extra);
    } else {
      assert s == row;
    }
  }

  lemma StripOneTrailingEmpty(p: seq<string>, extra: seq<string>)
    requires p != [] && p[|p| - 1] != ""
    requires extra == [] || extra == [""]
    ensures StripTrailingEmpty(p + extra) == p
  {
    if extra == [""] {
      assert (p + extra)[..|p + extra| - 1] == p;
    } else {
      assert p + extra == p;
    }
  }

  /**
   * `split(" +")` recovers the columns of a row however wide its padding: a leading run of
   * spaces contributes one empty first token, a trailing run contributes nothing.
   */
  lemma {:induction false} SplitAligned(lead: nat, toks: seq<string>, gaps: seq<nat>, trail: nat)
    requires |toks| >= 1 && |gaps| == |toks| - 1 && PlainTokens(toks)
    requires forall k :: 0 <= k < |gaps| ==> gaps[k] >= 1
    ensures Split(Spaces(lead) + Aligned(toks, gaps) + Spaces(trail)) == (if lead > 0 then [""] else []) + toks
  {
    var s := Spaces(lead) + Aligned(toks, gaps) + Spaces(trail);
    var expected := (if lead > 0 then [""] else []) + toks;
    var extra: seq<string> := if trail > 0 then [""] else [];
    PiecesPadded(lead, toks, gaps, trail);
    assert Pieces(s) == expected + extra;
    if !NoSpace(s) {
      assert expected[|expected| - 1] == toks[|toks| - 1];
      StripOneTrailingEmpty(expected, extra);
    }
  }

  /** A line with no token: the empty line splits to one empty token, a line of spaces to none. */
  lemma SplitBlank(n: nat)
    ensures Split("") == [""]
    ensures n >= 1 ==> Split(Spaces(n)) == []
  {
    if n >= 1 {
      var s := Spaces(n);
      assert s[0] == ' ';
      assert IndexOfSpace(s) == 0;
      DropSpacesRun(n, "");
      assert s + "" == s && s[0..] == s;
      assert Pieces(s) == [""] + Pieces("");
      assert StripTrailingEmpty(["", ""]) == [];
    }
  }
}
