/**
 The per-field text filter of the formatter: it turns one text field of a
 record into the value written for it, either the bare token `nil` or a
 double-quoted string.
 */
module Filter {
  import opened Wrappers
  import opened Text
  import opened Escaping

  /** Russian grammatical-gender placeholders the target runtime cannot render, and their bracket-only forms. */
  const RaceHolder6: string := "|3-6(<раса>)"
  const ClassHolder1: string := "|3-1(<класс>)"
  const ClassHolder2: string := "|3-2(<класс>)"
  const ClassHolder6: string := "|3-6(<класс>)"
  const Race: string := "<раса>"
  const Class: string := "<класс>"

  /** The locale code whose texts get the placeholder rewrites. */
  const Russian: string := "ru"

  /** The four placeholder rewrites, applied one after the other in this order. */
  function RuRewrite(s: string): string {
    var s1 := ReplaceAll(s, RaceHolder6, Race);
    var s2 := ReplaceAll(s1, ClassHolder1, Class);
    var s3 := ReplaceAll(s2, ClassHolder2, Class);
    ReplaceAll(s3, ClassHolder6, Class)
  }

  /** The locale-specific part of the filter: only Russian rewrites anything. */
  function Localize(lang: string, s: string): string {
    if lang == Russian then RuRewrite(s) else s
  }

  /** The value written for a quoted-string body: `nil` when the body is empty. */
  function Literal(body: string): string {
    if |body| == 0 then "nil" else [Quote] + body + [Quote]
  }

  /**
   The filter as the formatter writes it: drop backslashes, escape quotes,
   apply the Russian rewrites for `ru`, then produce the written value.
   */
  function FilterText(lang: string, text: string): (r: string)
    ensures r == "nil" || (|r| >= 2 && r[0] == Quote && r[|r| - 1] == Quote)
    ensures r[0] != '['
  {
    var t1 := ReplaceAll(text, [Backslash], []);
    var t2 := ReplaceAll(t1, [Quote], [Backslash, Quote]);
    var t3 := if lang == Russian then RuRewrite(t2) else t2;
    if |t3| == 0 then "nil" else [Quote] + t3 + [Quote]
  }

  /** Reads a value in the filter's output grammar back as the text it stands for. */
  function DecodeLiteral(lit: string): Option<string> {
    if lit == "nil" then Some([])
    else if |lit| >= 2 && lit[0] == Quote && lit[|lit| - 1] == Quote then Some(Unescape(lit[1..|lit| - 1]))
    else None
  }

  /**
   A value in the filter's output grammar: `nil`, or a non-empty body of plain
   characters and backslash-quote pairs in quotes. This is the formatter's
   grammar, not Lua's: a raw line break is accepted here.
   */
  predicate WellFormedLiteral(lit: string) {
    lit == "nil" || (|lit| >= 3 && lit[0] == Quote && lit[|lit| - 1] == Quote && Escaped(lit[1..|lit| - 1]))
  }

  lemma RuRewriteKeepsPlain(s: string, c: char)
    requires c == Backslash || c == Quote
    requires c !in s
    ensures c !in RuRewrite(s)
  {
    var s1 := ReplaceAll(s, RaceHolder6, Race);
    ReplaceAllKeepsAbsent(s, RaceHolder6, Race, c);
    var s2 := ReplaceAll(s1, ClassHolder1, Class);
    ReplaceAllKeepsAbsent(s1, ClassHolder1, Class, c);
    var s3 := ReplaceAll(s2, ClassHolder2, Class);
    ReplaceAllKeepsAbsent(s2, ClassHolder2, Class, c);
    ReplaceAllKeepsAbsent(s3, ClassHolder6, Class, c);
  }

  lemma RuRewriteEmpty(s: string)
    ensures |RuRewrite(s)| == 0 <==> |s| == 0
  {
  }

  lemma EscapeCommutesWithRuRewrite(s: string)
    ensures RuRewrite(Escape(s)) == Escape(RuRewrite(s))
  {
    var s1 := ReplaceAll(s, RaceHolder6, Race);
    EscapeCommutesWithReplace(s, RaceHolder6, Race);
    var s2 := ReplaceAll(s1, ClassHolder1, Class);
    EscapeCommutesWithReplace(s1, ClassHolder1, Class);
    var s3 := ReplaceAll(s2, ClassHolder2, Class);
    EscapeCommutesWithReplace(s2, ClassHolder2, Class);
    EscapeCommutesWithReplace(s3, ClassHolder6, Class);
  }

  /**
   What the filter computes: the rewrites act on the text with backslashes
   removed, and quote escaping is applied last, so it never interferes with them.
   */
  lemma FilterTextMeaning(lang: string, text: string)
    ensures FilterText(lang, text) == Literal(Escape(Localize(lang, Strip(text))))
  {
    StripIsReplace(text);
    EscapeIsReplace(Strip(text));
    if lang == Russian {
      EscapeCommutesWithRuRewrite(Strip(text));
    }
  }

  /** The filter yields `nil` exactly for a text that is empty or made only of backslashes. */
  lemma FilterTextNil(lang: string, text: string)
    ensures FilterText(lang, text) == "nil" <==> forall i :: 0 <= i < |text| ==> text[i] == Backslash
  {
    FilterTextMeaning(lang, text);
    RuRewriteEmpty(Strip(text));
  }

  /**
   A non-`nil` result is a quoted body in which every quote is preceded by a
   backslash and every backslash is followed by a quote: no backslash of the
   input survives.
   */
  lemma FilterTextQuoted(lang: string, text: string)
    ensures var r := FilterText(lang, text);
      r != "nil" ==> |r| >= 3 && r[0] == Quote && r[|r| - 1] == Quote && QuotesEscaped(r[1..|r| - 1])
  {
    FilterTextMeaning(lang, text);
    var body := Localize(lang, Strip(text));
    if lang == Russian {
      RuRewriteKeepsPlain(Strip(text), Backslash);
    }
    EscapeIsEscaped(body);
    var r := FilterText(lang, text);
    if r != "nil" {
      assert r[1..|r| - 1] == Escape(body);
      EscapedIsQuotesEscaped(Escape(body));
    }
  }

  /**
   Outside Russian the body is the input with backslashes deleted and quotes
   escaped, nothing else; its length is the input length minus the backslashes
   plus the quotes.
   */
  lemma FilterTextOtherLocale(lang: string, text: string)
    requires lang != Russian
    ensures var r := FilterText(lang, text);
      r != "nil" ==>
        && r == [Quote] + Escape(Strip(text)) + [Quote]
        && |r| - 2 == |text| - Count(text, Backslash) + Count(text, Quote)
  {
    FilterTextMeaning(lang, text);
    StripKeepsOthers(text, Quote);
  }

  /** Decoding the filter's output gives the localized text without its backslashes. */
  lemma DecodeFilterText(lang: string, text: string)
    ensures DecodeLiteral(FilterText(lang, text)) == Some(Localize(lang, Strip(text)))
  {
    FilterTextMeaning(lang, text);
    var body := Localize(lang, Strip(text));
    if lang == Russian {
      RuRewriteKeepsPlain(Strip(text), Backslash);
    }
    UnescapeEscape(body);
    var r := FilterText(lang, text);
    if |body| > 0 {
      assert r[1..|r| - 1] == Escape(body);
      assert r != "nil" by {
        assert r[0] == Quote;
      }
    }
  }

  /** Every value the filter can produce outside Russian is the filter of its decoding. */
  lemma FilterTextOfDecode(lang: string, lit: string)
    requires lang != Russian
    requires WellFormedLiteral(lit)
    ensures DecodeLiteral(lit).Some?
    ensures FilterText(lang, DecodeLiteral(lit).value) == lit
  {
    if lit == "nil" {
      FilterTextMeaning(lang, []);
    } else {
      var b := lit[1..|lit| - 1];
      QuotedOfDecode(lang, lit, b);
    }
  }

  lemma QuotedOfDecode(lang: string, lit: string, b: string)
    requires lang != Russian
    requires |lit| >= 3 && lit[0] == Quote && lit[|lit| - 1] == Quote && b == lit[1..|lit| - 1] && Escaped(b)
    ensures DecodeLiteral(lit) == Some(Unescape(b))
    ensures FilterText(lang, Unescape(b)) == lit
  {
    assert lit != "nil" by {
      assert lit[0] != 'n';
    }
    var text := Unescape(b);
    EscapeUnescape(b);
    FilterTextMeaning(lang, text);
    assert Strip(text) == text;
    assert Localize(lang, text) == text;
    assert Escape(text) == b;
    Reframe(lit);
  }

  /** The Russian rewrites applied to each placeholder alone give its bracket-only form. */
  lemma RuRewriteOfPlaceholders()
    ensures RuRewrite(RaceHolder6) == Race
    ensures RuRewrite(ClassHolder1) == Class
    ensures RuRewrite(ClassHolder2) == Class
    ensures RuRewrite(ClassHolder6) == Class
  {
    RuRewriteRaceHolder();
    RuRewriteClassHolder1();
    RuRewriteClassHolder2();
    RuRewriteClassHolder6();
  }

  lemma RuRewriteRaceHolder()
    ensures RuRewrite(RaceHolder6) == Race
  {
    ReplaceAllWhole(RaceHolder6, Race);
    ReplaceAllShort(Race, ClassHolder1, Class);
    ReplaceAllShort(Race, ClassHolder2, Class);
    ReplaceAllShort(Race, ClassHolder6, Class);
  }

  lemma RuRewriteClassHolder1()
    ensures RuRewrite(ClassHolder1) == Class
  {
    MissOneLonger(ClassHolder1, RaceHolder6, Race, 3);
    ReplaceAllWhole(ClassHolder1, Class);
    ReplaceAllShort(Class, ClassHolder2, Class);
    ReplaceAllShort(Class, ClassHolder6, Class);
  }

  lemma RuRewriteClassHolder2()
    ensures RuRewrite(ClassHolder2) == Class
  {
    MissOneLonger(ClassHolder2, RaceHolder6, Race, 3);
    MissSameLength(ClassHolder2, ClassHolder1, Class, 3);
    ReplaceAllWhole(ClassHolder2, Class);
    ReplaceAllShort(Class, ClassHolder6, Class);
  }

  lemma RuRewriteClassHolder6()
    ensures RuRewrite(ClassHolder6) == Class
  {
    MissOneLonger(ClassHolder6, RaceHolder6, Race, 6);
    MissSameLength(ClassHolder6, ClassHolder1, Class, 3);
    MissSameLength(ClassHolder6, ClassHolder2, Class, 3);
    ReplaceAllWhole(ClassHolder6, Class);
  }

  lemma MissSameLength(s: string, pat: string, rep: string, k: nat)
    requires |s| == |pat| && k < |pat| && s[k] != pat[k]
    ensures ReplaceAll(s, pat, rep) == s
  {
    NotStartsWithAt(s, pat, k);
    ReplaceAllShort(s[1..], pat, rep);
    assert s == [s[0]] + s[1..];
  }

  lemma MissOneLonger(s: string, pat: string, rep: string, k: nat)
    requires |s| == |pat| + 1 && k < |pat| && s[k] != pat[k] && s[1] != pat[0]
    ensures ReplaceAll(s, pat, rep) == s
  {
    NotStartsWithAt(s, pat, k);
    assert ReplaceAll(s, pat, rep) == [s[0]] + ReplaceAll(s[1..], pat, rep);
    var s1 := s[1..];
    NotStartsWithHead(s1, pat);
    assert s1[1..] == s[2..];
    assert ReplaceAll(s1, pat, rep) == [s[1]] + ReplaceAll(s[2..], pat, rep);
    ReplaceAllShort(s[2..], pat, rep);
    assert s == [s[0]] + ([s[1]] + s[2..]);
  }

  /** On a text without backslashes the filter only escapes and localizes. */
  lemma FilterOfPlain(lang: string, text: string, expected: string)
    requires Backslash !in text
    requires Localize(lang, text) == expected && |expected| > 0 && Quote !in expected
    ensures FilterText(lang, text) == [Quote] + expected + [Quote]
  {
    FilterTextMeaning(lang, text);
  }

  /** True for the four texts the Russian locale rewrites. */
  predicate IsPlaceholder(p: string) {
    p == RaceHolder6 || p == ClassHolder1 || p == ClassHolder2 || p == ClassHolder6
  }

  /** The bracket-only form the Russian locale gives a placeholder. */
  function RuForm(p: string): string {
    if p == RaceHolder6 then Race else Class
  }

  /** Under `ru` each placeholder alone becomes its bracket-only form. */
  lemma RuPlaceholderRewritten(p: string)
    requires IsPlaceholder(p)
    ensures FilterText(Russian, p) == [Quote] + RuForm(p) + [Quote]
  {
    var e := RuForm(p);
    assert Backslash !in p;
    assert Quote !in e && |e| > 0;
    assert Localize(Russian, p) == e by {
      RuRewriteOfPlaceholders();
    }
    FilterOfPlain(Russian, p, e);
  }

  /** Every other locale leaves the placeholders as they are. */
  lemma PlaceholderKeptOutsideRussian(lang: string, p: string)
    requires lang != Russian
    requires IsPlaceholder(p)
    ensures FilterText(lang, p) == [Quote] + p + [Quote]
  {
    assert Backslash !in p;
    assert Quote !in p && |p| > 0;
    assert Localize(lang, p) == p;
    FilterOfPlain(lang, p, p);
  }

  // ---------------------------------------------------------------------------
  // Placeholders inside a text

  /** Every placeholder opens with a bar, and that is its only bar. */
  const Bar: char := '|'

  lemma PlaceholderBar(p: string)
    requires IsPlaceholder(p)
    ensures |p| >= 12 && p[0] == Bar && Bar !in p[1..]
  {
    if p == RaceHolder6 {
      assert p[1..] == "3-6(<раса>)";
    } else if p == ClassHolder1 {
      assert p[1..] == "3-1(<класс>)";
    } else if p == ClassHolder2 {
      assert p[1..] == "3-2(<класс>)";
    } else {
      assert p[1..] == "3-6(<класс>)";
    }
  }

  /** Two different placeholders differ at a position inside both. */
  lemma PlaceholdersDiffer(p: string, q: string) returns (k: nat)
    requires IsPlaceholder(p) && IsPlaceholder(q) && p != q
    ensures k < |p| && k < |q| && p[k] != q[k]
  {
    if (p == RaceHolder6 || q == RaceHolder6) && (p == ClassHolder6 || q == ClassHolder6) {
      k := 6;
    } else {
      k := 3;
    }
  }

  /** A rewrite pass copies a bar-free prefix through unchanged. */
  lemma PassSkipsBarFree(pre: string, rest: string, pat: string, rep: string)
    requires IsPlaceholder(pat) && Bar !in pre
    ensures NoMatchBefore(pre + rest, pat, |pre|)
    ensures ReplaceAll(pre + rest, pat, rep) == pre + ReplaceAll(rest, pat, rep)
  {
    var s := pre + rest;
    PlaceholderBar(pat);
    forall i: nat | i < |pre| && i <= |s|
      ensures !MatchAt(s, pat, i)
    {
      assert s[i..][0] == pre[i];
      NotStartsWithHead(s[i..], pat);
    }
    ReplaceAllSkip(pre, rest, pat, rep);
  }

  /** A pass for one placeholder steps over a different placeholder after a bar-free prefix. */
  lemma PassSkipsOther(a: string, p: string, rest: string, pat: string, rep: string)
    requires Bar !in a && IsPlaceholder(p) && IsPlaceholder(pat) && p != pat
    ensures ReplaceAll(a + p + rest, pat, rep) == a + p + ReplaceAll(rest, pat, rep)
  {
    var s := a + p + rest;
    PlaceholderBar(p);
    PlaceholderBar(pat);
    forall i: nat | i < |a + p| && i <= |s|
      ensures !MatchAt(s, pat, i)
    {
      if i == |a| {
        var k := PlaceholdersDiffer(p, pat);
        assert s[i..][k] == p[k];
        NotStartsWithAt(s[i..], pat, k);
      } else {
        if i < |a| {
          assert s[i] == a[i];
        } else {
          assert s[i] == p[1..][i - |a| - 1];
        }
        assert s[i..][0] == s[i];
        NotStartsWithHead(s[i..], pat);
      }
    }
    assert s == (a + p) + rest;
    ReplaceAllSkip(a + p, rest, pat, rep);
  }

  /** One rewrite pass over a bar-free prefix, a placeholder or its rewritten form, and the rest. */
  lemma PassStep(a: string, x: string, rest: string, pat: string, rep: string)
    requires Bar !in a && Bar !in rep && IsPlaceholder(pat) && (IsPlaceholder(x) || Bar !in x)
    ensures ReplaceAll(a + x + rest, pat, rep) == a + (if x == pat then rep else x) + ReplaceAll(rest, pat, rep)
  {
    if x == pat {
      assert a + x + rest == a + (pat + rest);
      PassSkipsBarFree(a, pat + rest, pat, rep);
      ReplaceAllLeftmost(a, pat, rest, rep);
    } else if IsPlaceholder(x) {
      PassSkipsOther(a, x, rest, pat, rep);
    } else {
      PassSkipsBarFree(a + x, rest, pat, rep);
    }
  }

  /** The Russian rewrites leave a bar-free text unchanged. */
  lemma RuRewriteBarFree(s: string)
    requires Bar !in s
    ensures RuRewrite(s) == s
  {
    assert s + [] == s;
    PassSkipsBarFree(s, [], RaceHolder6, Race);
    PassSkipsBarFree(s, [], ClassHolder1, Class);
    PassSkipsBarFree(s, [], ClassHolder2, Class);
    PassSkipsBarFree(s, [], ClassHolder6, Class);
  }

  /**
   The first placeholder of a text is rewritten to its bracket-only form and
   the rewrites go on with the rest: applied again to the rest, this gives the
   outcome for every placeholder of a text in which every `|` opens a
   placeholder. Other bars can make the passes cascade (`RuRewriteCascade`).
   */
  lemma RuRewriteEmbedded(a: string, p: string, b: string)
    requires Bar !in a && IsPlaceholder(p)
    ensures RuRewrite(a + p + b) == a + RuForm(p) + RuRewrite(b)
  {
    assert Bar !in Race && Bar !in Class;
    var b1 := ReplaceAll(b, RaceHolder6, Race);
    var b2 := ReplaceAll(b1, ClassHolder1, Class);
    var b3 := ReplaceAll(b2, ClassHolder2, Class);
    PassStep(a, p, b, RaceHolder6, Race);
    var x1 := if p == RaceHolder6 then Race else p;
    PassStep(a, x1, b1, ClassHolder1, Class);
    var x2 := if x1 == ClassHolder1 then Class else x1;
    PassStep(a, x2, b2, ClassHolder2, Class);
    var x3 := if x2 == ClassHolder2 then Class else x2;
    PassStep(a, x3, b3, ClassHolder6, Class);
    var x4 := if x3 == ClassHolder6 then Class else x3;
    assert x4 == RuForm(p);
  }

  /** A placeholder inside a sentence with no other bar is rewritten in place. */
  lemma RuRewriteInSentence(a: string, p: string, b: string)
    requires Bar !in a && Bar !in b && IsPlaceholder(p)
    ensures RuRewrite(a + p + b) == a + RuForm(p) + b
  {
    RuRewriteEmbedded(a, p, b);
    RuRewriteBarFree(b);
  }

  /** Under `ru` the filter of such a sentence quotes it with the placeholder rewritten. */
  lemma RuFilterInSentence(a: string, p: string, b: string)
    requires Bar !in a && Bar !in b && IsPlaceholder(p)
    requires Backslash !in a && Backslash !in b && Quote !in a && Quote !in b
    ensures FilterText(Russian, a + p + b) == [Quote] + (a + RuForm(p) + b) + [Quote]
  {
    var f := RuForm(p);
    var t := a + p + b;
    var e := a + f + b;
    assert Localize(Russian, t) == e by {
      RuRewriteInSentence(a, p, b);
    }
    assert Backslash !in t by {
      PlaceholderPlain(p);
    }
    assert Quote !in e && |e| > 0 by {
      PlaceholderPlain(p);
    }
    FilterOfPlain(Russian, t, e);
  }

  /** Neither a placeholder nor its rewritten form holds a backslash or a quote. */
  lemma PlaceholderPlain(p: string)
    requires IsPlaceholder(p)
    ensures Backslash !in p && Quote !in RuForm(p) && |RuForm(p)| > 0
  {
  }



  /**
   The four passes run one after another over the whole text, so one pass can
   form the placeholder a later pass rewrites: a `ClassHolder1` inside
   `|3-6(`…`)` becomes `ClassHolder6` in the second pass, and that becomes
   `<класс>` in the fourth.
   */
  lemma RuRewriteCascade()
    ensures RuRewrite(Opener6 + ClassHolder1 + ")") == Class
  {
    var s := Opener6 + ClassHolder1 + ")";
    CascadePass(ClassHolder1, RaceHolder6, Race);
    assert ReplaceAll(s, RaceHolder6, Race) == s;
    CascadePass(ClassHolder1, ClassHolder1, Class);
    assert Opener6 + Class + ")" == ClassHolder6;
    MissSameLength(ClassHolder6, ClassHolder2, Class, 3);
    ReplaceAllWhole(ClassHolder6, Class);
  }

  /** One pass over a placeholder wrapped in `Opener6` and `)`. */
  lemma CascadePass(x: string, pat: string, rep: string)
    requires IsPlaceholder(x) && IsPlaceholder(pat) && Bar !in rep
    ensures ReplaceAll(Opener6 + x + ")", pat, rep) == Opener6 + (if x == pat then rep else x) + ")"
  {
    var close := ")";
    PlaceholderBar(x);
    PlaceholderBar(pat);
    SkipOpener6(x, close, pat, rep);
    PassStep([], x, close, pat, rep);
    assert [] + x + close == x + close;
    ReplaceAllShort(close, pat, rep);
    var y := if x == pat then rep else x;
    assert Opener6 + ([] + y + close) == Opener6 + y + close;
  }

  /** The opening of the race and class placeholders for form 6, up to its `(`. */
  const Opener6: string := "|3-6("

  /** No placeholder starts inside `Opener6` when a bar follows it. */
  lemma SkipOpener6(x: string, rest: string, pat: string, rep: string)
    requires IsPlaceholder(pat) && |x| > 0 && x[0] == Bar
    ensures ReplaceAll(Opener6 + x + rest, pat, rep) == Opener6 + ReplaceAll(x + rest, pat, rep)
  {
    var b := x + rest;
    var s := Opener6 + b;
    assert Opener6 + x + rest == s;
    PlaceholderBar(pat);
    assert pat[5] == '<';
    forall i: nat | i < |Opener6| && i <= |s|
      ensures !MatchAt(s, pat, i)
    {
      if i == 0 {
        assert s[0..][5] == s[5] == x[0];
        NotStartsWithAt(s[0..], pat, 5);
      } else {
        assert s[i..][0] == Opener6[i];
        NotStartsWithHead(s[i..], pat);
      }
    }
    ReplaceAllSkip(Opener6, b, pat, rep);
  }

  // ---------------------------------------------------------------------------
  // Line breaks

  /** A character none of the Russian rewrites mentions keeps its count. */
  lemma RuRewriteKeepsCount(s: string, c: char)
    requires c !in RaceHolder6 && c !in ClassHolder1 && c !in ClassHolder2 && c !in ClassHolder6
    requires c !in Race && c !in Class
    ensures Count(RuRewrite(s), c) == Count(s, c)
  {
    var s1 := ReplaceAll(s, RaceHolder6, Race);
    var s2 := ReplaceAll(s1, ClassHolder1, Class);
    var s3 := ReplaceAll(s2, ClassHolder2, Class);
    ReplaceAllKeepsCount(s, RaceHolder6, Race, c);
    ReplaceAllKeepsCount(s1, ClassHolder1, Class, c);
    ReplaceAllKeepsCount(s2, ClassHolder2, Class, c);
    ReplaceAllKeepsCount(s3, ClassHolder6, Class, c);
  }

  /**
   Line breaks pass through the filter untouched: the written value holds every
   line feed and carriage return of the text, unescaped, for every locale.
   */
  lemma FilterKeepsLineBreaks(lang: string, text: string, c: char)
    requires c == '\n' || c == '\r'
    ensures Count(FilterText(lang, text), c) == Count(text, c)
  {
    var stripped := Strip(text);
    var local := Localize(lang, stripped);
    var body := Escape(local);
    FilterTextMeaning(lang, text);
    StripKeepsOthers(text, c);
    if lang == Russian {
      RuRewriteKeepsCount(stripped, c);
    }
    EscapeKeepsOthers(local, c);
    if |body| > 0 {
      CountConcat([Quote] + body, [Quote], c);
      CountConcat([Quote], body, c);
    }
  }

  /** A text with a line feed is written with the raw line feed inside the quotes. */
  lemma FilterLineFeedExample()
    ensures FilterText("en", "a\nb") == "\"a\nb\""
  {
    FilterOfPlain("en", "a\nb", "a\nb");
  }
}
