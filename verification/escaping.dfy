/**
 The two character-level rewrites of the text filter, defined one character at
 a time, together with the grammar of the quoted bodies they produce (plain
 characters and backslash-quote pairs) and its decoder. The grammar is the
 formatter's own: it does not rule out characters a Lua string literal cannot
 hold unescaped, such as line breaks.
 */
module Escaping {
  import opened Text

  const Backslash: char := '\\'
  const Quote: char := '"'

  /** A string neither escape character can appear in. */
  predicate Plain(s: string) {
    Backslash !in s && Quote !in s
  }

  /** Deletes every backslash; every other character is kept, in order. */
  function Strip(s: string): (r: string)
    ensures Backslash !in r
    ensures |r| == |s| - Count(s, Backslash)
    ensures Backslash !in s ==> r == s
    ensures |r| == 0 <==> forall i :: 0 <= i < |s| ==> s[i] == Backslash
  {
    if |s| == 0 then []
    else if s[0] == Backslash then Strip(s[1..])
    else [s[0]] + Strip(s[1..])
  }

  /** Every other character occurs in the stripped string as often as in the input. */
  lemma {:induction false} StripKeepsOthers(s: string, c: char)
    requires c != Backslash
    ensures Count(Strip(s), c) == Count(s, c)
  {
    if |s| > 0 {
      StripKeepsOthers(s[1..], c);
      if s[0] != Backslash {
        assert ([s[0]] + Strip(s[1..]))[1..] == Strip(s[1..]);
      }
    }
  }

  /** Writes every double quote as backslash-quote; every other character is kept. */
  function Escape(s: string): (r: string)
    ensures |r| == |s| + Count(s, Quote)
    ensures Quote !in s ==> r == s
    ensures |r| == 0 <==> |s| == 0
  {
    if |s| == 0 then []
    else if s[0] == Quote then [Backslash, Quote] + Escape(s[1..])
    else [s[0]] + Escape(s[1..])
  }

  /** Every character other than the quote and the backslash occurs in the escaped string as often as in the input. */
  lemma {:induction false} EscapeKeepsOthers(s: string, c: char)
    requires c != Backslash && c != Quote
    ensures Count(Escape(s), c) == Count(s, c)
  {
    if |s| > 0 {
      EscapeKeepsOthers(s[1..], c);
      var head := if s[0] == Quote then [Backslash, Quote] else [s[0]];
      assert Escape(s) == head + Escape(s[1..]);
      CountConcat(head, Escape(s[1..]), c);
      assert s == [s[0]] + s[1..];
      CountConcat([s[0]], s[1..], c);
    }
  }

  lemma {:induction false} EscapeConcat(a: string, b: string)
    ensures Escape(a + b) == Escape(a) + Escape(b)
  {
    if |a| == 0 {
      assert a + b == b;
    } else {
      assert (a + b)[1..] == a[1..] + b;
      EscapeConcat(a[1..], b);
    }
  }

  /**
   A well-formed quoted-string body: a sequence of tokens, each either one
   character other than backslash and quote, or the two characters `\"`.
   */
  predicate Escaped(b: string)
    decreases |b|
  {
    if |b| == 0 then true
    else if b[0] == Backslash then |b| >= 2 && b[1] == Quote && Escaped(b[2..])
    else b[0] != Quote && Escaped(b[1..])
  }

  /** Undoes `Escape`: a backslash drops out and the character after it is kept. */
  function Unescape(b: string): (r: string)
    ensures |r| <= |b|
    decreases |b|
  {
    if |b| == 0 then []
    else if b[0] == Backslash && |b| >= 2 then [b[1]] + Unescape(b[2..])
    else [b[0]] + Unescape(b[1..])
  }

  /** The index-wise reading of `Escaped`: every quote has a backslash right before it and every backslash a quote right after it. */
  ghost predicate QuotesEscaped(b: string) {
    && (forall i :: 0 <= i < |b| && b[i] == Quote ==> i > 0 && b[i - 1] == Backslash)
    && (forall i :: 0 <= i < |b| && b[i] == Backslash ==> i + 1 < |b| && b[i + 1] == Quote)
  }

  lemma {:induction false} EscapedIsQuotesEscaped(b: string)
    ensures Escaped(b) <==> QuotesEscaped(b)
    decreases |b|
  {
    if |b| == 0 {
    } else if b[0] == Backslash {
      if |b| >= 2 && b[1] == Quote {
        var t := b[2..];
        EscapedIsQuotesEscaped(t);
        assert forall i :: 2 <= i < |b| ==> b[i] == t[i - 2];
        if QuotesEscaped(t) {
          forall i | 0 <= i < |b| && b[i] == Quote
            ensures i > 0 && b[i - 1] == Backslash
          {
            if i > 2 {
              assert t[i - 2] == Quote;
            }
          }
          forall i | 0 <= i < |b| && b[i] == Backslash
            ensures i + 1 < |b| && b[i + 1] == Quote
          {
            if i >= 2 {
              assert t[i - 2] == Backslash;
            }
          }
        }
        if QuotesEscaped(b) {
          forall i | 0 <= i < |t| && t[i] == Quote
            ensures i > 0 && t[i - 1] == Backslash
          {
            assert b[i + 2] == Quote;
            assert i + 1 != 1;
          }
          forall i | 0 <= i < |t| && t[i] == Backslash
            ensures i + 1 < |t| && t[i + 1] == Quote
          {
            assert b[i + 2] == Backslash;
          }
        }
      } else {
        assert !Escaped(b);
        assert !(0 + 1 < |b| && b[0 + 1] == Quote);
      }
    } else if b[0] == Quote {
      assert !QuotesEscaped(b) by {
        assert b[0] == Quote;
      }
    } else {
      var t := b[1..];
      EscapedIsQuotesEscaped(t);
      assert forall i :: 1 <= i < |b| ==> b[i] == t[i - 1];
      if QuotesEscaped(t) {
        forall i | 0 <= i < |b| && b[i] == Quote
          ensures i > 0 && b[i - 1] == Backslash
        {
          assert t[i - 1] == Quote;
        }
        forall i | 0 <= i < |b| && b[i] == Backslash
          ensures i + 1 < |b| && b[i + 1] == Quote
        {
          assert t[i - 1] == Backslash;
        }
      }
      if QuotesEscaped(b) {
        forall i | 0 <= i < |t| && t[i] == Quote
          ensures i > 0 && t[i - 1] == Backslash
        {
          assert b[i + 1] == Quote;
        }
        forall i | 0 <= i < |t| && t[i] == Backslash
          ensures i + 1 < |t| && t[i + 1] == Quote
        {
          assert b[i + 1] == Backslash;
        }
      }
    }
  }

  /** Escaping a backslash-free string gives a well-formed body. */
  lemma {:induction false} EscapeIsEscaped(s: string)
    requires Backslash !in s
    ensures Escaped(Escape(s))
  {
    if |s| > 0 {
      assert s[1..] == s[1..] && Backslash !in s[1..] by {
        assert forall i :: 0 <= i < |s[1..]| ==> s[1..][i] == s[i + 1];
      }
      EscapeIsEscaped(s[1..]);
      var e := Escape(s);
      if s[0] == Quote {
        assert e[2..] == Escape(s[1..]);
      } else {
        assert e[1..] == Escape(s[1..]);
      }
    }
  }

  /** Decoding an escaped backslash-free string gives it back. */
  lemma {:induction false} UnescapeEscape(s: string)
    requires Backslash !in s
    ensures Unescape(Escape(s)) == s
  {
    if |s| > 0 {
      assert Backslash !in s[1..] by {
        assert forall i :: 0 <= i < |s[1..]| ==> s[1..][i] == s[i + 1];
      }
      UnescapeEscape(s[1..]);
      var e := Escape(s);
      if s[0] == Quote {
        assert e[2..] == Escape(s[1..]);
      } else {
        assert e[1..] == Escape(s[1..]);
      }
      assert s == [s[0]] + s[1..];
    }
  }

  /** Every well-formed body is the escape of exactly one backslash-free string: its decoding. */
  lemma {:induction false} EscapeUnescape(b: string)
    requires Escaped(b)
    ensures Backslash !in Unescape(b)
    ensures Escape(Unescape(b)) == b
    decreases |b|
  {
    if |b| > 0 {
      if b[0] == Backslash {
        var u := Unescape(b[2..]);
        EscapeUnescape(b[2..]);
        assert Unescape(b) == [Quote] + u;
        assert ([Quote] + u)[1..] == u;
        assert Escape([Quote] + u) == [Backslash, Quote] + Escape(u);
        assert b == [Backslash, Quote] + b[2..];
      } else {
        var u := Unescape(b[1..]);
        EscapeUnescape(b[1..]);
        assert Unescape(b) == [b[0]] + u;
        assert ([b[0]] + u)[1..] == u;
        assert Escape([b[0]] + u) == [b[0]] + Escape(u);
        assert b == [b[0]] + b[1..];
      }
    }
  }

  /** The filter's first `str.replace` is `Strip`. */
  lemma {:induction false} StripIsReplace(s: string)
    ensures ReplaceAll(s, [Backslash], []) == Strip(s)
  {
    if |s| > 0 {
      StripIsReplace(s[1..]);
      assert StartsWith(s, [Backslash]) <==> s[0] == Backslash;
      assert s[1..] == s[|[Backslash]|..];
    }
  }

  /** The filter's second `str.replace` is `Escape`. */
  lemma {:induction false} EscapeIsReplace(s: string)
    ensures ReplaceAll(s, [Quote], [Backslash, Quote]) == Escape(s)
  {
    if |s| > 0 {
      EscapeIsReplace(s[1..]);
      assert StartsWith(s, [Quote]) <==> s[0] == Quote;
      assert s[1..] == s[|[Quote]|..];
    }
  }

  lemma {:induction false} EscapePrefix(t: string, pat: string)
    requires Plain(pat)
    requires StartsWith(Escape(t), pat)
    ensures StartsWith(t, pat)
    decreases |pat|
  {
    if |pat| > 0 {
      var e := Escape(t);
      assert e[0] == pat[0];
      assert pat[0] != Backslash && pat[0] != Quote;
      assert t[0] != Quote;
      assert e == [t[0]] + Escape(t[1..]);
      assert pat[1..] == pat[1..] && Plain(pat[1..]) by {
        assert forall i :: 0 <= i < |pat[1..]| ==> pat[1..][i] == pat[i + 1];
      }
      assert StartsWith(Escape(t[1..]), pat[1..]) by {
        assert Escape(t[1..])[..|pat| - 1] == e[1..|pat|] == pat[1..];
      }
      EscapePrefix(t[1..], pat[1..]);
      assert t[..|pat|] == [t[0]] + t[1..][..|pat| - 1];
    }
  }

  /**
   Escaping and replacing a plain pattern by a plain replacement commute:
   rewriting the escaped text gives the escape of the rewritten text.
   */
  lemma {:induction false} EscapeCommutesWithReplace(t: string, pat: string, rep: string)
    requires |pat| > 0 && Plain(pat) && Plain(rep)
    ensures ReplaceAll(Escape(t), pat, rep) == Escape(ReplaceAll(t, pat, rep))
    decreases |t|
  {
    if |t| == 0 {
    } else if StartsWith(t, pat) {
      EscapeCommutesWithReplace(t[|pat|..], pat, rep);
      CommuteAtMatch(t, pat, rep);
    } else if t[0] == Quote {
      EscapeCommutesWithReplace(t[1..], pat, rep);
      CommuteAtQuote(t, pat, rep);
    } else {
      EscapeCommutesWithReplace(t[1..], pat, rep);
      CommuteAtOther(t, pat, rep);
    }
  }

  lemma CommuteAtMatch(t: string, pat: string, rep: string)
    requires |pat| > 0 && Plain(pat) && Plain(rep)
    requires StartsWith(t, pat)
    requires ReplaceAll(Escape(t[|pat|..]), pat, rep) == Escape(ReplaceAll(t[|pat|..], pat, rep))
    ensures ReplaceAll(Escape(t), pat, rep) == Escape(ReplaceAll(t, pat, rep))
  {
    var rest := t[|pat|..];
    assert t == pat + rest;
    EscapeConcat(pat, rest);
    var e := Escape(t);
    assert e == pat + Escape(rest);
    assert StartsWith(e, pat);
    assert e[|pat|..] == Escape(rest);
    assert ReplaceAll(e, pat, rep) == rep + ReplaceAll(Escape(rest), pat, rep);
    assert ReplaceAll(t, pat, rep) == rep + ReplaceAll(rest, pat, rep);
    EscapeConcat(rep, ReplaceAll(rest, pat, rep));
  }

  /** A plain pattern cannot match at an escape sequence, which passes through unchanged. */
  lemma ReplaceSkipsEscapePair(tail: string, pat: string, rep: string)
    requires |pat| > 0 && Plain(pat)
    ensures ReplaceAll([Backslash, Quote] + tail, pat, rep) == [Backslash, Quote] + ReplaceAll(tail, pat, rep)
  {
    var e := [Backslash, Quote] + tail;
    NotStartsWithHead(e, pat);
    ReplaceAllMiss(e, pat, rep);
    var e1 := e[1..];
    assert e1 == [Quote] + tail;
    NotStartsWithHead(e1, pat);
    ReplaceAllMiss(e1, pat, rep);
    assert e1[1..] == tail;
    var r := ReplaceAll(tail, pat, rep);
    assert [Backslash] + ([Quote] + r) == [Backslash, Quote] + r;
  }

  lemma CommuteAtQuote(t: string, pat: string, rep: string)
    requires |pat| > 0 && Plain(pat) && Plain(rep)
    requires |t| > 0 && t[0] == Quote
    requires ReplaceAll(Escape(t[1..]), pat, rep) == Escape(ReplaceAll(t[1..], pat, rep))
    ensures ReplaceAll(Escape(t), pat, rep) == Escape(ReplaceAll(t, pat, rep))
  {
    ReplaceSkipsEscapePair(Escape(t[1..]), pat, rep);
    NotStartsWithHead(t, pat);
    var u := ReplaceAll(t[1..], pat, rep);
    assert ReplaceAll(t, pat, rep) == [Quote] + u;
    assert ([Quote] + u)[1..] == u;
  }

  lemma CommuteAtOther(t: string, pat: string, rep: string)
    requires |pat| > 0 && Plain(pat) && Plain(rep)
    requires |t| > 0 && t[0] != Quote && !StartsWith(t, pat)
    requires ReplaceAll(Escape(t[1..]), pat, rep) == Escape(ReplaceAll(t[1..], pat, rep))
    ensures ReplaceAll(Escape(t), pat, rep) == Escape(ReplaceAll(t, pat, rep))
  {
    var e := Escape(t);
    assert e == [t[0]] + Escape(t[1..]);
    assert !StartsWith(e, pat) by {
      if StartsWith(e, pat) {
        EscapePrefix(t, pat);
      }
    }
    assert e[1..] == Escape(t[1..]);
    assert ReplaceAll(e, pat, rep) == [t[0]] + ReplaceAll(Escape(t[1..]), pat, rep);
    var u := ReplaceAll(t[1..], pat, rep);
    assert ReplaceAll(t, pat, rep) == [t[0]] + u;
    assert ([t[0]] + u)[1..] == u;
    assert Escape([t[0]] + u) == [t[0]] + Escape(u);
  }
}
