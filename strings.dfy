/** The pieces of Python's `str` behaviour that the extractors rely on:
    whitespace as `str.isspace()` sees it, `str.split()` with no separator,
    `str.strip()`, `sep.join(...)`, the `in` substring test, `int(...)` on a
    string and `str(...)` on an integer. */
module Strings {
  import opened Wrappers

  /** Python's `str.isspace()` for one character: the ASCII controls
      TAB..CR and FS..US, SPACE, NEL, NO-BREAK SPACE and the Unicode space
      separators. NO-BREAK SPACE (U+00A0) is among them, which is what lets
      "Block S3" collapse to "Block S3". */
  predicate IsSpace(c: char) {
    || c == ' '
    || ('\t' <= c <= '\r')
    || ('\U{1C}' <= c <= '\U{1F}')
    || c == '\U{85}'
    || c == '\U{A0}'
    || c == '\U{1680}'
    || ('\U{2000}' <= c <= '\U{200A}')
    || c == '\U{2028}'
    || c == '\U{2029}'
    || c == '\U{202F}'
    || c == '\U{205F}'
    || c == '\U{3000}'
  }

  predicate AllSpace(s: string) {
    forall i :: 0 <= i < |s| ==> IsSpace(s[i])
  }

  predicate NoSpace(s: string) {
    forall i :: 0 <= i < |s| ==> !IsSpace(s[i])
  }

  /** A word as `str.split()` produces it: non-empty, without whitespace. */
  predicate IsWord(w: string) {
    w != [] && NoSpace(w)
  }

  /** Every element of `ws` is a word. */
  predicate AllWords(ws: seq<string>) {
    ws == [] || (IsWord(ws[0]) && AllWords(ws[1..]))
  }

  lemma {:induction false} AllWordsAt(ws: seq<string>, k: nat)
    requires AllWords(ws) && k < |ws|
    ensures IsWord(ws[k])
  {
    if k > 0 {
      AllWordsAt(ws[1..], k - 1);
    }
  }

  /** `s.lstrip()`. */
  function TrimLeft(s: string): string
    decreases |s|
  {
    if s != [] && IsSpace(s[0]) then TrimLeft(s[1..]) else s
  }

  /** `lstrip` drops a whitespace prefix: what is left is a suffix that is
      empty or starts with non-whitespace, and is empty exactly when the
      whole string is whitespace. */
  lemma {:induction false} TrimLeftSpec(s: string)
    ensures var r := TrimLeft(s);
      && |r| <= |s| && r == s[|s| - |r|..]
      && AllSpace(s[..|s| - |r|])
      && (r == [] || !IsSpace(r[0]))
      && (r == [] <==> AllSpace(s))
    decreases |s|
  {
    if s != [] && IsSpace(s[0]) {
      TrimLeftSpec(s[1..]);
      var r := TrimLeft(s[1..]);
      assert s[..|s| - |r|] == [s[0]] + s[1..][..|s[1..]| - |r|];
      assert AllSpace(s) <==> AllSpace(s[1..]) by {
        assert forall i :: 0 < i < |s| ==> s[i] == s[1..][i - 1];
      }
    } else {
      assert s[..0] == [];
    }
  }

  /** `s.rstrip()`. */
  function TrimRight(s: string): string
    decreases |s|
  {
    if s != [] && IsSpace(s[|s| - 1]) then TrimRight(s[..|s| - 1]) else s
  }

  /** `rstrip` drops a whitespace suffix, symmetrically. */
  lemma {:induction false} TrimRightSpec(s: string)
    ensures var r := TrimRight(s);
      && |r| <= |s| && r == s[..|r|]
      && AllSpace(s[|r|..])
      && (r == [] || !IsSpace(r[|r| - 1]))
      && (r == [] <==> AllSpace(s))
    decreases |s|
  {
    if s != [] && IsSpace(s[|s| - 1]) {
      var t := s[..|s| - 1];
      TrimRightSpec(t);
      var r := TrimRight(t);
      assert t[..|r|] == s[..|r|];
      assert s[|r|..] == t[|r|..] + [s[|s| - 1]];
      assert AllSpace(s) <==> AllSpace(t) by {
        assert forall i :: 0 <= i < |s| - 1 ==> s[i] == t[i];
      }
    } else {
      assert s[|s|..] == [];
    }
  }

  /** `s.strip()`. */
  function Strip(s: string): string {
    TrimRight(TrimLeft(s))
  }

  /** The strip of `s` is `s` with a whitespace prefix and a whitespace
      suffix removed; it is blank exactly when `s` is all whitespace, and
      otherwise begins and ends with a non-whitespace character. */
  lemma StripSpec(s: string)
    ensures |Strip(s)| <= |s|
    ensures exists a, b :: 0 <= a <= b <= |s| && Strip(s) == s[a..b] && AllSpace(s[..a]) && AllSpace(s[b..])
    ensures Strip(s) == [] <==> AllSpace(s)
    ensures var r := Strip(s); r == [] || (!IsSpace(r[0]) && !IsSpace(r[|r| - 1]))
  {
    TrimLeftSpec(s);
    var l := TrimLeft(s);
    TrimRightSpec(l);
    var r := TrimRight(l);
    if r != [] {
      assert r[0] == l[0];
    }
    StripIsInfix(s);
  }

  /** The strip of `s` is the part of `s` between a whitespace prefix and a
      whitespace suffix. */
  lemma StripIsInfix(s: string)
    ensures exists a, b :: 0 <= a <= b <= |s| && Strip(s) == s[a..b] && AllSpace(s[..a]) && AllSpace(s[b..])
  {
    TrimLeftSpec(s);
    var l := TrimLeft(s);
    TrimRightSpec(l);
    var r := TrimRight(l);
    var a, b := |s| - |l|, |s| - |l| + |r|;
    assert l == s[a..];
    assert r == s[a..b];
    assert s[b..] == l[|r|..];
    assert 0 <= a <= b <= |s| && Strip(s) == s[a..b] && AllSpace(s[..a]) && AllSpace(s[b..]);
  }

  /** `s.strip()` is empty exactly when `s` is all whitespace. */
  lemma StripBlank(s: string)
    ensures Strip(s) == [] <==> AllSpace(s)
  {
    StripSpec(s);
  }

  /** Leading whitespace does not change what `lstrip` leaves. */
  lemma {:induction false} TrimLeftOfSpacePrefix(a: string, s: string)
    requires AllSpace(a)
    ensures TrimLeft(a + s) == TrimLeft(s)
    decreases |a|
  {
    if a == [] {
      assert a + s == s;
    } else {
      assert (a + s)[0] == a[0];
      assert (a + s)[1..] == a[1..] + s;
      TrimLeftOfSpacePrefix(a[1..], s);
    }
  }

  /** A string that begins and ends with non-whitespace is its own strip. */
  lemma StripOfTrimmed(s: string)
    requires s != [] && !IsSpace(s[0]) && !IsSpace(s[|s| - 1])
    ensures Strip(s) == s
  {
    assert TrimLeft(s) == s;
  }

  /** The leading run of non-whitespace characters of `s`. */
  function LeadingWord(s: string): (w: string)
    ensures w <= s && NoSpace(w)
    ensures |w| == |s| || IsSpace(s[|w|])
  {
    if s == [] || IsSpace(s[0]) then [] else [s[0]] + LeadingWord(s[1..])
  }

  /** `s.split()`: the maximal runs of non-whitespace characters, in order. */
  function Split(s: string): (ws: seq<string>)
    decreases |s|
  {
    TrimLeftSpec(s);
    var t := TrimLeft(s);
    if t == [] then
      []
    else
      var w := LeadingWord(t);
      LeadingWordIsWord(t);
      [w] + Split(t[|w|..])
  }

  /** Every piece `split` produces is a word, and there are none exactly
      when the string is blank. */
  lemma {:induction false} SplitWords(s: string)
    ensures AllWords(Split(s))
    ensures Split(s) == [] <==> AllSpace(s)
    decreases |s|
  {
    TrimLeftSpec(s);
    var t := TrimLeft(s);
    if t != [] {
      var w := LeadingWord(t);
      LeadingWordIsWord(t);
      SplitWords(t[|w|..]);
      assert Split(s) == [w] + Split(t[|w|..]);
      assert Split(s)[1..] == Split(t[|w|..]);
    }
  }

  lemma LeadingWordIsWord(t: string)
    requires t != [] && !IsSpace(t[0])
    ensures IsWord(LeadingWord(t))
  {
  }

  /** `sep.join(xs)`. */
  function Join(sep: string, xs: seq<string>): string {
    if xs == [] then ""
    else if |xs| == 1 then xs[0]
    else xs[0] + sep + Join(sep, xs[1..])
  }

  /** `" ".join(s.split())`: every whitespace run becomes one SPACE, and
      leading and trailing whitespace disappears. */
  function Collapse(s: string): (r: string)
    ensures Collapsed(r)
    ensures r == [] <==> AllSpace(s)
  {
    var ws := Split(s);
    SplitWords(s);
    JoinWordsCollapsed(ws);
    JoinWordsEmpty(ws);
    Join(" ", ws)
  }

  /** The shape of a collapsed string: the only whitespace is single SPACE
      characters, each with a non-whitespace character on both sides. */
  predicate Collapsed(r: string) {
    forall i :: 0 <= i < |r| && IsSpace(r[i]) ==>
      r[i] == ' ' && 0 < i < |r| - 1 && !IsSpace(r[i - 1]) && !IsSpace(r[i + 1])
  }

  lemma {:induction false} JoinWordsEmpty(ws: seq<string>)
    requires AllWords(ws)
    ensures Join(" ", ws) == [] <==> ws == []
  {
  }

  lemma {:induction false} JoinWordsCollapsed(ws: seq<string>)
    requires AllWords(ws)
    ensures Collapsed(Join(" ", ws))
    ensures ws != [] ==> Join(" ", ws) != [] && !IsSpace(Join(" ", ws)[0])
    ensures ws != [] ==> !IsSpace(Join(" ", ws)[|Join(" ", ws)| - 1])
    decreases |ws|
  {
    if |ws| > 1 {
      var w, rest := ws[0], Join(" ", ws[1..]);
      JoinWordsCollapsed(ws[1..]);
      var r := w + " " + rest;
      assert Join(" ", ws) == r;
      forall i | 0 <= i < |r| && IsSpace(r[i])
        ensures r[i] == ' ' && 0 < i < |r| - 1 && !IsSpace(r[i - 1]) && !IsSpace(r[i + 1])
      {
        if i < |w| {
          assert false;
        } else if i == |w| {
          assert r[i + 1] == rest[0];
        } else {
          var j := i - |w| - 1;
          assert r[i] == rest[j];
          if j > 0 {
            assert r[i - 1] == rest[j - 1];
          }
          assert r[i + 1] == rest[j + 1];
        }
      }
    }
  }

  lemma SplitOfSpacePrefix(a: string, s: string)
    requires AllSpace(a)
    ensures Split(a + s) == Split(s)
  {
    TrimLeftOfSpacePrefix(a, s);
  }

  lemma {:induction false} LeadingWordOf(w: string, s: string)
    requires NoSpace(w)
    requires s == [] || IsSpace(s[0])
    ensures LeadingWord(w + s) == w
    decreases |w|
  {
    if w != [] {
      assert (w + s)[1..] == w[1..] + s;
      LeadingWordOf(w[1..], s);
    }
  }

  /** A word followed by whitespace (or nothing) splits off as the first
      piece. */
  lemma SplitConsWord(w: string, s: string)
    requires IsWord(w)
    requires s == [] || IsSpace(s[0])
    ensures Split(w + s) == [w] + Split(s)
  {
    var x := w + s;
    assert x[0] == w[0];
    assert TrimLeft(x) == x;
    LeadingWordOf(w, s);
    assert x[|w|..] == s;
  }

  lemma SplitOfWord(w: string)
    requires IsWord(w)
    ensures Split(w) == [w]
  {
    SplitConsWord(w, []);
    assert w + [] == w;
    assert Split([]) == [];
  }

  lemma SplitJoinStep(w: string, tail: seq<string>)
    requires IsWord(w) && tail != []
    requires Split(Join(" ", tail)) == tail
    ensures Split(Join(" ", [w] + tail)) == [w] + tail
  {
    var rest := Join(" ", tail);
    assert ([w] + tail)[1..] == tail;
    assert Join(" ", [w] + tail) == w + (" " + rest);
    SplitConsWord(w, " " + rest);
    assert AllSpace(" ");
    SplitOfSpacePrefix(" ", rest);
  }

  /** `split` undoes `" ".join` on words: the two are inverse on lists of
      words. */
  lemma {:induction false} SplitJoin(ws: seq<string>)
    requires AllWords(ws)
    ensures Split(Join(" ", ws)) == ws
    decreases |ws|
  {
    if ws == [] {
      assert Split("") == [];
    } else if |ws| == 1 {
      SplitOfWord(ws[0]);
      assert [ws[0]] == ws;
    } else {
      var w, tail := ws[0], ws[1..];
      assert ws == [w] + tail;
      assert AllWords(tail);
      SplitJoin(tail);
      SplitJoinStep(w, tail);
    }
  }

  /** Collapsing twice is collapsing once, and collapsing keeps the words. */
  lemma CollapseIdempotent(s: string)
    ensures Split(Collapse(s)) == Split(s)
    ensures Collapse(Collapse(s)) == Collapse(s)
  {
    SplitWords(s);
    SplitJoin(Split(s));
  }

  /** Python's slice `s[k:]` for `k >= 0`: what is left after the first `k`
      characters, or "" when `s` is shorter. */
  function Drop(s: string, k: nat): (r: string)
    ensures k <= |s| ==> s == s[..k] + r
    ensures |s| <= k ==> r == []
  {
    if k <= |s| then s[k..] else []
  }

  /** Python's `sub in s` for strings. */
  predicate Contains(s: string, sub: string)
    decreases |s|
  {
    sub <= s || (s != [] && Contains(s[1..], sub))
  }

  /** `Contains` holds exactly when `sub` occurs at some position of `s`. */
  lemma {:induction false} ContainsIff(s: string, sub: string)
    ensures Contains(s, sub) <==> exists i :: 0 <= i <= |s| && sub <= s[i..]
    decreases |s|
  {
    if sub <= s {
      assert sub <= s[0..];
    } else if s != [] {
      ContainsIff(s[1..], sub);
      if Contains(s[1..], sub) {
        var i :| 0 <= i <= |s[1..]| && sub <= s[1..][i..];
        assert s[1..][i..] == s[i + 1..];
      } else {
        forall i | 0 <= i <= |s| ensures !(sub <= s[i..]) {
          if i > 0 {
            assert s[1..][i - 1..] == s[i..];
          }
        }
      }
    } else {
      forall i | 0 <= i <= |s| ensures !(sub <= s[i..]) {
        assert i == 0;
      }
    }
  }

  predicate IsDigit(c: char) {
    '0' <= c <= '9'
  }

  predicate AllDigits(s: string) {
    forall i :: 0 <= i < |s| ==> IsDigit(s[i])
  }

  function DigitValue(c: char): nat
    requires IsDigit(c)
  {
    (c as int) - ('0' as int)
  }

  /** The value of a run of ASCII digits in base 10 (leading zeros allowed). */
  function DigitsValue(d: string): nat
    requires AllDigits(d)
    decreases |d|
  {
    if d == [] then 0 else DigitsValue(d[..|d| - 1]) * 10 + DigitValue(d[|d| - 1])
  }

  function DigitChar(k: nat): (c: char)
    requires k < 10
    ensures IsDigit(c) && DigitValue(c) == k
  {
    (('0' as int) + k) as char
  }

  /** `str(n)` for a non-negative integer: the canonical base-10 spelling,
      which reads back as `n` and has no leading zero. */
  function NatToDecimal(n: nat): (r: string)
    ensures r != [] && AllDigits(r) && DigitsValue(r) == n
    ensures r[0] == '0' ==> r == "0"
  {
    if n < 10 then [DigitChar(n)]
    else
      var r := NatToDecimal(n / 10) + [DigitChar(n % 10)];
      assert r[..|r| - 1] == NatToDecimal(n / 10);
      r
  }

  /** `str(n)` for any integer. */
  function IntToString(n: int): string {
    if n < 0 then "-" + NatToDecimal(-n) else NatToDecimal(n)
  }

  /** The digit string Python's `int()` accepts after the sign: ASCII digits,
      where single underscores may separate two digits. */
  predicate DigitGroups(t: string) {
    && t != []
    && IsDigit(t[0])
    && IsDigit(t[|t| - 1])
    && (forall i :: 0 <= i < |t| ==> IsDigit(t[i]) || t[i] == '_')
    && (forall i :: 0 <= i < |t| - 1 && t[i] == '_' ==> t[i + 1] != '_')
  }

  function DropUnderscores(t: string): (d: string)
    requires forall i :: 0 <= i < |t| ==> IsDigit(t[i]) || t[i] == '_'
    ensures AllDigits(d)
    ensures AllDigits(t) ==> d == t
  {
    if t == [] then []
    else (if t[0] == '_' then [] else [t[0]]) + DropUnderscores(t[1..])
  }

  /** The value of digit groups, or `ValueError` when `t` is not one. */
  function ParseDigitGroups(t: string): (r: Result<nat>)
  {
    if DigitGroups(t) then Ok(DigitsValue(DropUnderscores(t))) else Err(ValueError)
  }

  /** An optional sign followed by digit groups. */
  function ParseSigned(t: string): (r: Result<int>)
  {
    if t != [] && t[0] == '-' then
      var v :- ParseDigitGroups(t[1..]);
      Ok(0 - v)
    else if t != [] && t[0] == '+' then
      var v :- ParseDigitGroups(t[1..]);
      Ok(v)
    else
      var v :- ParseDigitGroups(t);
      Ok(v)
  }

  /** Python's `int(s)` in base 10: surrounding whitespace is ignored, then
      one optional sign and digit groups; anything else raises `ValueError`. */
  function ParseInt(s: string): (r: Result<int>)
  {
    ParseSigned(Strip(s))
  }

  lemma DigitIsNotSpace(c: char)
    requires IsDigit(c) || c == '-'
    ensures !IsSpace(c)
  {
  }

  lemma ParseDigitGroupsOfDecimal(n: nat)
    ensures ParseDigitGroups(NatToDecimal(n)) == Ok(n)
  {
  }

  lemma ParseSignedOfString(n: int)
    ensures ParseSigned(IntToString(n)) == Ok(n)
  {
    var d := NatToDecimal(if n < 0 then -n else n);
    ParseDigitGroupsOfDecimal(if n < 0 then -n else n);
    if n < 0 {
      var s := "-" + d;
      assert s[1..] == d;
    }
  }

  lemma StripOfString(n: int)
    ensures Strip(IntToString(n)) == IntToString(n)
  {
    var s := IntToString(n);
    DigitIsNotSpace(s[0]);
    DigitIsNotSpace(s[|s| - 1]);
    StripOfTrimmed(s);
  }

  /** `int(str(n)) == n`. */
  lemma ParseIntOfString(n: int)
    ensures ParseInt(IntToString(n)) == Ok(n)
  {
    StripOfString(n);
    ParseSignedOfString(n);
  }
}
