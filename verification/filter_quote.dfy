/** `_prepare_okta_filter_string`: the substitution of `FILTER_PATTERN`,
    `(eq|sw|gt|ge|lt|le) ([^ )"]+)`, by `\g<1> "\g<2>"`, which puts quotes
    around the bare value after each operator. */
module FilterQuote {

  /** The first group of the pattern: one of six two-letter operators. */
  predicate IsOperator(a: char, b: char) {
    || (a == 'e' && b == 'q')
    || (a == 's' && b == 'w')
    || (a == 'g' && (b == 't' || b == 'e'))
    || (a == 'l' && (b == 't' || b == 'e'))
  }

  /** The character class `[^ )"]` of the second group. */
  predicate IsTokenChar(c: char) {
    c != ' ' && c != ')' && c != '"'
  }

  /** The pattern matches at `i`: an operator, one space, and at least one
      token character. There is no word boundary before the operator. */
  predicate MatchAt(s: string, i: int) {
    0 <= i && i + 3 < |s| && IsOperator(s[i], s[i + 1]) && s[i + 2] == ' ' && IsTokenChar(s[i + 3])
  }

  /** The pattern matches nowhere in `s`. */
  predicate NoMatch(s: string) {
    forall i :: 0 <= i < |s| ==> !MatchAt(s, i)
  }

  /** Where the greedy `[^ )"]+` starting at `j` stops: every character
      before it is a token character and the one at it is not. */
  function TokenEnd(s: string, j: nat): (e: nat)
    requires j <= |s|
    ensures j <= e <= |s|
    ensures forall k :: j <= k < e ==> IsTokenChar(s[k])
    ensures e == |s| || !IsTokenChar(s[e])
    decreases |s| - j
  {
    if j == |s| || !IsTokenChar(s[j]) then j else TokenEnd(s, j + 1)
  }

  /** The replacement of the match at `i`: `op "token"`. */
  function Replacement(s: string, i: nat): string
    requires MatchAt(s, i)
  {
    s[i..i + 2] + " \"" + s[i + 3..TokenEnd(s, i + 3)] + "\""
  }

  /** `re.sub(FILTER_MATCHER, '\g<1> "\g<2>"', s)` as a left-to-right scan:
      at a match, emit its replacement and go on after the token; else copy
      one character. The six operators are distinct and the token is
      greedy with nothing after it, so the regex never backtracks and this
      scan finds the same leftmost, non-overlapping matches. */
  function PrepareFilter(s: string): string
    decreases |s|
  {
    if s == [] then []
    else if MatchAt(s, 0) then Replacement(s, 0) + PrepareFilter(s[TokenEnd(s, 3)..])
    else [s[0]] + PrepareFilter(s[1..])
  }

  /** The number of matches the substitution replaces. */
  function MatchCount(s: string): nat
    decreases |s|
  {
    if s == [] then 0
    else if MatchAt(s, 0) then 1 + MatchCount(s[TokenEnd(s, 3)..])
    else MatchCount(s[1..])
  }

  /** `s` with every double quote taken out. */
  function Unquoted(s: string): string {
    if s == [] then [] else (if s[0] == '"' then [] else [s[0]]) + Unquoted(s[1..])
  }

  lemma {:induction false} UnquotedConcat(a: string, b: string)
    ensures Unquoted(a + b) == Unquoted(a) + Unquoted(b)
    decreases |a|
  {
    if a == [] {
      assert a + b == b;
    } else {
      var c := a + b;
      assert c[1..] == a[1..] + b;
      UnquotedConcat(a[1..], b);
      var h := if a[0] == '"' then [] else [a[0]];
      assert Unquoted(a) == h + Unquoted(a[1..]);
      assert Unquoted(c) == h + Unquoted(c[1..]);
      assert h + (Unquoted(a[1..]) + Unquoted(b)) == (h + Unquoted(a[1..])) + Unquoted(b);
    }
  }

  /** Shifting a string shifts where the pattern matches and where a token ends. */
  lemma MatchShift(s: string, d: nat, i: nat)
    requires d <= |s|
    ensures MatchAt(s[d..], i) <==> MatchAt(s, i + d)
  {
  }

  lemma {:induction false} TokenEndShift(s: string, d: nat, j: nat)
    requires d <= j <= |s|
    ensures TokenEnd(s[d..], j - d) == TokenEnd(s, j) - d
    decreases |s| - j
  {
    if j < |s| && IsTokenChar(s[j]) {
      TokenEndShift(s, d, j + 1);
    }
  }

  /** A replacement, quotes aside, is the text it replaces. */
  lemma ReplacementUnquoted(s: string)
    requires MatchAt(s, 0)
    ensures Unquoted(Replacement(s, 0)) == Unquoted(s[..TokenEnd(s, 3)])
    ensures |Replacement(s, 0)| == TokenEnd(s, 3) + 2
  {
    var e := TokenEnd(s, 3);
    var op, tok := s[..2], s[3..e];
    assert Replacement(s, 0) == op + ([' ', '"'] + tok + ['"']);
    assert s[..e] == op + ([' '] + tok);
    UnquotedConcat(op, [' ', '"'] + tok + ['"']);
    UnquotedConcat([' ', '"'] + tok, ['"']);
    UnquotedConcat([' ', '"'], tok);
    UnquotedConcat(op, [' '] + tok);
    UnquotedConcat([' '], tok);
    assert Unquoted([' ', '"']) == [' '];
  }

  /** Every character other than the quotes it adds is passed through,
      unchanged and in order, and each match adds exactly two characters
      (its two quotes). */
  lemma {:induction false} PrepareFilterAddsQuotes(s: string)
    ensures Unquoted(PrepareFilter(s)) == Unquoted(s)
    ensures |PrepareFilter(s)| == |s| + 2 * MatchCount(s)
    decreases |s|
  {
    if s != [] {
      if MatchAt(s, 0) {
        var e := TokenEnd(s, 3);
        PrepareFilterAddsQuotes(s[e..]);
        ReplacementUnquoted(s);
        UnquotedConcat(Replacement(s, 0), PrepareFilter(s[e..]));
        assert s == s[..e] + s[e..];
        UnquotedConcat(s[..e], s[e..]);
      } else {
        PrepareFilterAddsQuotes(s[1..]);
        assert s == [s[0]] + s[1..];
        UnquotedConcat([s[0]], PrepareFilter(s[1..]));
        UnquotedConcat([s[0]], s[1..]);
      }
    }
  }

  /** The output starts like the input: the first three characters are
      kept, and a string too short to match is returned as it is. */
  lemma {:induction false} PrepareFilterKeepsHead(s: string)
    ensures |PrepareFilter(s)| >= |s|
    ensures forall k :: 0 <= k < 3 && k < |s| ==> PrepareFilter(s)[k] == s[k]
    ensures |s| < 4 ==> PrepareFilter(s) == s
    decreases |s|
  {
    if s != [] {
      if MatchAt(s, 0) {
        PrepareFilterKeepsHead(s[TokenEnd(s, 3)..]);
      } else {
        PrepareFilterKeepsHead(s[1..]);
        assert s == [s[0]] + s[1..];
      }
    }
  }

  /** Dropping the first `d` characters moves a later match, its token and
      its replacement `d` places to the left. */
  lemma ReplacementShift(s: string, d: nat, i: nat)
    requires d <= i && MatchAt(s, i)
    ensures MatchAt(s[d..], i - d)
    ensures TokenEnd(s[d..], i - d + 3) == TokenEnd(s, i + 3) - d
    ensures Replacement(s[d..], i - d) == Replacement(s, i)
  {
    var t := s[d..];
    MatchShift(s, d, i - d);
    TokenEndShift(s, d, i + 3);
    var e := TokenEnd(s, i + 3);
    assert forall k :: 0 <= k < |t| ==> t[k] == s[k + d];
    assert t[i - d..i - d + 2] == s[i..i + 2];
    assert t[i - d + 3..e - d] == s[i + 3..e];
  }

  /** Before the first match the substitution copies the text as it is. */
  lemma {:induction false} PrepareFilterCopies(s: string, i: nat)
    requires i <= |s|
    requires forall j :: 0 <= j < i ==> !MatchAt(s, j)
    ensures PrepareFilter(s) == s[..i] + PrepareFilter(s[i..])
    decreases i
  {
    if i == 0 {
      assert s[i..] == s;
    } else {
      PrepareFilterCopies(s, i - 1);
      var u := s[i - 1..];
      MatchShift(s, i - 1, 0);
      assert !MatchAt(u, 0);
      assert u[1..] == s[i..];
      assert PrepareFilter(u) == [s[i - 1]] + PrepareFilter(s[i..]);
      assert s[..i] == s[..i - 1] + [s[i - 1]];
    }
  }

  /** `re.sub`'s leftmost rule: when the first match is at `i`, the result
      is the text before it, its replacement, and the substitution applied
      to what follows the token. */
  lemma PrepareFilterLeftmost(s: string, i: nat)
    requires MatchAt(s, i)
    requires forall j :: 0 <= j < i ==> !MatchAt(s, j)
    ensures PrepareFilter(s) == s[..i] + Replacement(s, i) + PrepareFilter(s[TokenEnd(s, i + 3)..])
  {
    PrepareFilterCopies(s, i);
    ReplacementShift(s, i, i);
    var u := s[i..];
    var e := TokenEnd(s, i + 3);
    assert u[e - i..] == s[e..];
    assert PrepareFilter(u) == Replacement(s, i) + PrepareFilter(s[e..]);
  }

  /** A string where the pattern matches nowhere comes back unchanged, and
      only such a string does. */
  lemma {:induction false} PrepareFilterIdentity(s: string)
    ensures PrepareFilter(s) == s <==> NoMatch(s)
    decreases |s|
  {
    if s != [] {
      if MatchAt(s, 0) {
        PrepareFilterAddsQuotes(s);
        assert MatchCount(s) >= 1;
      } else {
        PrepareFilterIdentity(s[1..]);
        forall j | 0 <= j < |s| - 1 ensures MatchAt(s[1..], j) <==> MatchAt(s, j + 1) {
          MatchShift(s, 1, j);
        }
        assert s == [s[0]] + s[1..];
        if NoMatch(s[1..]) {
          assert forall j :: 1 <= j < |s| ==> !MatchAt(s, j) by {
            forall j | 1 <= j < |s| ensures !MatchAt(s, j) {
              assert !MatchAt(s[1..], j - 1);
            }
          }
        }
      }
    }
  }

  /** A match that starts inside the replacement of a match is impossible:
      the replacement is `op`, a space, a quote, the token (no space) and a
      quote, so no operator in it is followed by a space and a token
      character. */
  lemma ReplacementNoMatch(s: string, rest: string, i: int)
    requires MatchAt(s, 0)
    requires 0 <= i < |Replacement(s, 0)|
    ensures !MatchAt(Replacement(s, 0) + rest, i)
  {
    var e := TokenEnd(s, 3);
    var out := Replacement(s, 0) + rest;
    assert Replacement(s, 0) == s[..2] + [' ', '"'] + s[3..e] + ['"'];
    assert |Replacement(s, 0)| == e + 2;
    assert out[2] == ' ' && out[3] == '"';
    assert forall k :: 4 <= k <= e ==> out[k] == s[k - 1];
    assert out[e + 1] == '"';
    if 4 <= i <= e - 1 {
      assert IsTokenChar(out[i + 2]) || out[i + 2] == '"';
    }
  }

  /** No match survives the substitution. */
  lemma {:induction false} PrepareFilterNoMatch(s: string)
    ensures NoMatch(PrepareFilter(s))
    decreases |s|
  {
    if s != [] {
      var out := PrepareFilter(s);
      if MatchAt(s, 0) {
        var r := Replacement(s, 0);
        var rest := PrepareFilter(s[TokenEnd(s, 3)..]);
        PrepareFilterNoMatch(s[TokenEnd(s, 3)..]);
        forall i | 0 <= i < |out| ensures !MatchAt(out, i) {
          if i < |r| {
            ReplacementNoMatch(s, rest, i);
          } else {
            assert out[|r|..] == rest;
            MatchShift(out, |r|, i - |r|);
          }
        }
      } else {
        var rest := PrepareFilter(s[1..]);
        PrepareFilterNoMatch(s[1..]);
        PrepareFilterKeepsHead(s[1..]);
        PrepareFilterKeepsHead(s);
        forall i | 0 <= i < |out| ensures !MatchAt(out, i) {
          if i == 0 {
            if |s| >= 4 {
              assert out[..4] == s[..4];
            }
          } else {
            assert out[1..] == rest;
            MatchShift(out, 1, i - 1);
          }
        }
      }
    }
  }

  /** Quoting is idempotent: quoted values no longer match, so running the
      substitution on its own output changes nothing. */
  lemma PrepareFilterIdempotent(s: string)
    ensures PrepareFilter(PrepareFilter(s)) == PrepareFilter(s)
  {
    PrepareFilterNoMatch(s);
    PrepareFilterIdentity(PrepareFilter(s));
  }

  /** No word boundary: the `eq` at the end of `freq` is an operator. */
  lemma NoWordBoundary()
    ensures PrepareFilter("freq 5") == "freq \"5\""
  {
    var s := "freq 5";
    assert MatchAt(s, 2);
    assert TokenEnd(s, 5) == 6;
    PrepareFilterLeftmost(s, 2);
    assert s[6..] == [];
  }

  /** A value already in quotes is left alone. */
  lemma QuotedValueKept()
    ensures PrepareFilter("name eq \"x\"") == "name eq \"x\""
  {
    var t := "name eq \"x\"";
    forall i | 0 <= i < |t|
      ensures !MatchAt(t, i)
    {
    }
    PrepareFilterIdentity(t);
  }
}
