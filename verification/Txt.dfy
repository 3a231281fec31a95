/** TXT content: quoting (app/mojodns/dnsutil.py) and unquoting (app/mojodns/spf.py), as in
    section 5.1 of RFC 1035. Unquoting is a regular-expression scan for quoted strings followed
    by two global replacements, one after the other. */
module Txt {
  import opened Wrappers
  import opened Text

  /** Every occurrence of one character replaced. */
  function ReplaceChar(s: string, c: char, with: string): string {
    if s == "" then "" else (if s[0] == c then with else [s[0]]) + ReplaceChar(s[1..], c, with)
  }

  /** Every occurrence of two characters in a row replaced, leftmost first, without overlap. */
  function ReplacePair(s: string, a: char, b: char, r: char): string {
    if |s| < 2 then s
    else if s[0] == a && s[1] == b then [r] + ReplacePair(s[2..], a, b, r)
    else [s[0]] + ReplacePair(s[1..], a, b, r)
  }

  predicate IsQuoted(s: string) {
    s != "" && s[0] == '"' && s[|s| - 1] == '"'
  }

  function QuoteTxt(content: string): string {
    var c := Strip(content);
    if IsQuoted(c) then c
    else "\"" + ReplaceChar(ReplaceChar(c, '\\', "\\\\"), '"', "\\\"") + "\""
  }

  // ---- the scan for quoted strings ---------------------------------------------------------

  /** The text inside quotes: plain characters, and a backslash before any character but a
      newline. */
  predicate IsBody(s: string) {
    if s == "" then true
    else if s[0] == '\\' then |s| >= 2 && s[1] != '\n' && IsBody(s[2..])
    else s[0] != '"' && IsBody(s[1..])
  }

  /** The length of the body that a closing quote ends, scanning greedily. */
  function BodyLength(s: string): Option<nat> {
    if s == "" then None
    else if s[0] == '"' then Some(0)
    else if s[0] == '\\' then
      if |s| >= 2 && s[1] != '\n' && BodyLength(s[2..]).Some? then Some(2 + BodyLength(s[2..]).value) else None
    else if BodyLength(s[1..]).Some? then Some(1 + BodyLength(s[1..]).value) else None
  }

  /** The greedy scan finds the one way there is to match a body and its closing quote, so
      backtracking could not find another. */
  lemma {:induction false} BodyIsUnique(s: string, n: nat)
    ensures BodyLength(s) == Some(n) <==> n < |s| && s[n] == '"' && IsBody(s[..n])
    decreases |s|
  {
    if s != "" && s[0] != '"' {
      if s[0] == '\\' {
        if |s| >= 2 && n >= 2 {
          BodyIsUnique(s[2..], n - 2);
          assert n <= |s| ==> s[..n][2..] == s[2..][..n - 2];
        }
      } else if n >= 1 {
        BodyIsUnique(s[1..], n - 1);
        assert n <= |s| ==> s[..n][1..] == s[1..][..n - 1];
      }
    }
  }

  /** The bodies of the quoted strings, left to right. */
  function FindQuoted(s: string): seq<string>
    decreases |s|
  {
    if s == "" then []
    else if s[0] == '"' && BodyLength(s[1..]).Some? then
      var n := BodyLength(s[1..]).value;
      BodyIsUnique(s[1..], n);
      [s[1..][..n]] + FindQuoted(s[1..][n + 1..])
    else FindQuoted(s[1..])
  }

  function Unescape(p: string): string {
    ReplacePair(ReplacePair(p, '\\', '"', '"'), '\\', '\\', '\\')
  }

  function UnescapeAll(parts: seq<string>): string {
    if parts == [] then "" else Unescape(parts[0]) + UnescapeAll(parts[1..])
  }

  /** Join the quoted strings, unescaped; text without any is returned as it is. */
  function StripTxt(content: string): string {
    var c := Strip(content);
    if '"' in c && FindQuoted(c) != [] then UnescapeAll(FindQuoted(c)) else c
  }

  lemma {:induction false} NoQuoteNothingFound(s: string)
    requires '"' !in s
    ensures FindQuoted(s) == []
  {
    if s != "" {
      assert s[0] in s && '"' !in s[1..];
      NoQuoteNothingFound(s[1..]);
    }
  }

  /** Without a complete quoted string a trimmed text is returned as it is, and only then. */
  lemma StripTxtIs(s: string)
    requires Strip(s) == s
    ensures StripTxt(s) == if FindQuoted(s) == [] then s else UnescapeAll(FindQuoted(s))
  {
    hide FindQuoted, UnescapeAll, Strip;
    if '"' !in s { NoQuoteNothingFound(s); }
  }

  // ---- unquoting undoes quoting ------------------------------------------------------------

  /** Escaping, one character at a time. */
  function Escaped(s: string): (e: string)
    ensures e != "" ==> e[0] != '"'
  {
    if s == "" then ""
    else (if s[0] == '\\' then "\\\\" else if s[0] == '"' then "\\\"" else [s[0]]) + Escaped(s[1..])
  }

  /** Only the backslashes escaped. */
  function HalfEscaped(s: string): string {
    if s == "" then "" else (if s[0] == '\\' then "\\\\" else [s[0]]) + HalfEscaped(s[1..])
  }

  lemma {:induction false} ReplaceCharConcat(a: string, b: string, c: char, with: string)
    ensures ReplaceChar(a + b, c, with) == ReplaceChar(a, c, with) + ReplaceChar(b, c, with)
  {
    if a == "" {
      assert a + b == b;
    } else {
      assert (a + b)[1..] == a[1..] + b;
      ReplaceCharConcat(a[1..], b, c, with);
    }
  }

  lemma {:induction false} TwoReplacesEscape(s: string)
    ensures ReplaceChar(ReplaceChar(s, '\\', "\\\\"), '"', "\\\"") == Escaped(s)
  {
    if s != "" {
      TwoReplacesEscape(s[1..]);
      var head := if s[0] == '\\' then "\\\\" else [s[0]];
      ReplaceCharConcat(head, ReplaceChar(s[1..], '\\', "\\\\"), '"', "\\\"");
      assert "\\\\"[1..] == "\\";
      assert ReplaceChar("\\", '"', "\\\"") == "\\";
      assert ReplaceChar(head, '"', "\\\"") == if s[0] == '"' then "\\\"" else head;
    }
  }

  lemma {:induction false} EscapedIsBody(s: string)
    ensures BodyLength(Escaped(s) + "\"") == Some(|Escaped(s)|)
  {
    if s != "" {
      EscapedIsBody(s[1..]);
      var head := if s[0] == '\\' then "\\\\" else if s[0] == '"' then "\\\"" else [s[0]];
      assert (Escaped(s) + "\"")[|head|..] == Escaped(s[1..]) + "\"";
    }
  }

  /** The first replacement only undoes the escaped quotes: a doubled backslash never runs into
      a quote. */
  lemma {:induction false} FirstReplace(s: string)
    ensures ReplacePair(Escaped(s), '\\', '"', '"') == HalfEscaped(s)
  {
    if s != "" {
      FirstReplace(s[1..]);
      var rest := Escaped(s[1..]);
      if s[0] == '\\' {
        assert Escaped(s)[1..] == "\\" + rest;
        assert ("\\" + rest)[1..] == rest;
      } else if s[0] == '"' {
        assert Escaped(s)[2..] == rest;
      } else {
        assert Escaped(s)[1..] == rest;
        if rest == "" {
          assert s[1..] == "";
        }
      }
    }
  }

  lemma {:induction false} SecondReplace(s: string)
    ensures ReplacePair(HalfEscaped(s), '\\', '\\', '\\') == s
  {
    if s != "" {
      SecondReplace(s[1..]);
      var rest := HalfEscaped(s[1..]);
      if s[0] == '\\' {
        assert HalfEscaped(s)[2..] == rest;
      } else {
        assert HalfEscaped(s)[1..] == rest;
      }
    }
  }

  lemma UnescapeEscaped(s: string)
    ensures Unescape(Escaped(s)) == s
  {
    FirstReplace(s);
    SecondReplace(s);
  }

  /** A string wrapped in quotes is left alone by trimming. */
  lemma QuotedIsTrimmed(s: string)
    requires IsQuoted(s)
    ensures Strip(s) == s
  {
    TrimIsIdentity(s, IsSpace);
  }

  lemma QuoteTxtIsQuoted(s: string)
    ensures IsQuoted(QuoteTxt(s)) && QuoteTxt(QuoteTxt(s)) == QuoteTxt(s)
  {
    hide Strip, ReplaceChar;
    QuotedIsTrimmed(QuoteTxt(s));
  }

  lemma FindWhole(e: string)
    requires BodyLength(e + "\"") == Some(|e|)
    ensures FindQuoted("\"" + e + "\"") == [e]
  {
    hide FindQuoted, BodyLength, Unescape, UnescapeAll;
    var s, tail := "\"" + e + "\"", e + "\"";
    assert s[1..] == tail;
    FindOne(s, tail, |e|);
  }

  lemma FindOne(s: string, tail: string, n: nat)
    requires s != "" && s[0] == '"' && s[1..] == tail && |tail| == n + 1 && BodyLength(tail) == Some(n)
    ensures FindQuoted(s) == [tail[..n]]
  {
    hide BodyLength, Unescape, UnescapeAll;
    assert tail[n + 1..] == "";
  }

  lemma StripOfQuote(s: string)
    requires !IsQuoted(Strip(s))
    ensures StripTxt(QuoteTxt(s)) == Strip(s)
  {
    hide Strip, Escaped, ReplaceChar, BodyLength, FindQuoted, Unescape, UnescapeAll;
    var c := Strip(s);
    TwoReplacesEscape(c);
    var q := QuoteTxt(s);
    assert q == "\"" + Escaped(c) + "\"" && q[0] == '"';
    QuotedIsTrimmed(q);
    EscapedIsBody(c);
    FindWhole(Escaped(c));
    UnescapeEscaped(c);
    UnescapeOne(Escaped(c));
  }

  lemma UnescapeOne(p: string)
    ensures UnescapeAll([p]) == Unescape(p)
  {
    hide Unescape;
    assert [p][1..] == [] && Unescape(p) + "" == Unescape(p);
  }

  lemma {:induction false} ReplacePairShrinks(s: string, a: char, b: char, r: char)
    ensures |ReplacePair(s, a, b, r)| <= |s|
  {
    if |s| >= 2 {
      if s[0] == a && s[1] == b {
        ReplacePairShrinks(s[2..], a, b, r);
      } else {
        ReplacePairShrinks(s[1..], a, b, r);
      }
    }
  }

  lemma {:induction false} UnquotingShrinks(s: string)
    ensures |UnescapeAll(FindQuoted(s))| <= |s|
    ensures FindQuoted(s) != [] ==> |UnescapeAll(FindQuoted(s))| < |s|
    decreases |s|
  {
    if s != "" {
      if s[0] == '"' && BodyLength(s[1..]).Some? {
        var n := BodyLength(s[1..]).value;
        BodyIsUnique(s[1..], n);
        var p, rest := s[1..][..n], s[1..][n + 1..];
        UnquotingShrinks(rest);
        ReplacePairShrinks(p, '\\', '"', '"');
        ReplacePairShrinks(ReplacePair(p, '\\', '"', '"'), '\\', '\\', '\\');
        assert FindQuoted(s) == [p] + FindQuoted(rest);
        assert ([p] + FindQuoted(rest))[1..] == FindQuoted(rest);
      } else {
        UnquotingShrinks(s[1..]);
      }
    }
  }

  /** Unquoting undoes quoting exactly on the trimmed texts that are not already quoted, and on
      those quoted-looking ones that hold no complete quoted string. */
  lemma TxtRoundTripExactly(s: string)
    ensures StripTxt(QuoteTxt(s)) == s <==> Trimmed(s, IsSpace) && (!IsQuoted(s) || FindQuoted(s) == [])
  {
    TrimIsIdentity(s, IsSpace);
    if !IsQuoted(Strip(s)) {
      StripOfQuote(s);
    } else {
      var c := Strip(s);
      QuotedIsTrimmed(c);
      UnquotingShrinks(c);
      StripNotLonger(s);
      assert c[0] in c;
    }
  }

  lemma StripNotLonger(s: string)
    ensures |Strip(s)| <= |s|
  {
    TrimLeftIs(s, IsSpace);
    TrimRightIs(TrimLeft(s, IsSpace), IsSpace);
  }

  // ---- several quoted strings side by side -------------------------------------------------

  /** The trimmed texts, one after another. */
  function Concatenated(texts: seq<string>): string {
    if texts == [] then "" else Strip(texts[0]) + Concatenated(texts[1..])
  }

  /** The texts, each in quotes, with `gap` between them. */
  function SideBySide(texts: seq<string>, gap: string): string {
    if texts == [] then ""
    else if |texts| == 1 then QuoteTxt(texts[0])
    else QuoteTxt(texts[0]) + gap + SideBySide(texts[1..], gap)
  }

  lemma {:induction false} GapSkipped(gap: string, rest: string)
    requires '"' !in gap
    ensures FindQuoted(gap + rest) == FindQuoted(rest)
  {
    if gap == "" {
      assert gap + rest == rest;
    } else {
      assert gap[0] in gap && (gap + rest)[1..] == gap[1..] + rest;
      GapSkipped(gap[1..], rest);
    }
  }

  lemma FindFirst(e: string, rest: string)
    requires BodyLength(e + "\"") == Some(|e|)
    ensures FindQuoted("\"" + e + "\"" + rest) == [e] + FindQuoted(rest)
  {
    hide FindQuoted, BodyLength, IsBody;
    var s, tail := "\"" + e + "\"" + rest, e + "\"" + rest;
    assert (e + "\"")[..|e|] == e && tail[..|e|] == e && tail[|e| + 1..] == rest && s[1..] == tail;
    BodyIsUnique(e + "\"", |e|);
    BodyIsUnique(tail, |e|);
    FindStep(s, tail, |e|);
  }

  lemma FindStep(s: string, tail: string, n: nat)
    requires s != "" && s[0] == '"' && s[1..] == tail && n < |tail| && BodyLength(tail) == Some(n)
    ensures FindQuoted(s) == [tail[..n]] + FindQuoted(tail[n + 1..])
  {
    hide BodyLength;
  }

  /** A quoted text is its escaped form in quotes, and that form is found and undone whole. */
  lemma QuoteTxtFound(s: string) returns (e: string)
    requires !IsQuoted(Strip(s))
    ensures QuoteTxt(s) == "\"" + e + "\"" && BodyLength(e + "\"") == Some(|e|) && Unescape(e) == Strip(s)
  {
    e := Escaped(Strip(s));
    hide Strip, Escaped, ReplaceChar, BodyLength, Unescape;
    TwoReplacesEscape(Strip(s));
    EscapedIsBody(Strip(s));
    UnescapeEscaped(Strip(s));
  }

  /** A quoted string at the front is found first, whatever comes behind the gap. */
  lemma FoundBefore(e: string, gap: string, rest: string)
    requires BodyLength(e + "\"") == Some(|e|) && '"' !in gap
    ensures var whole := "\"" + e + "\"" + gap + rest;
            && FindQuoted(whole) == [e] + FindQuoted(rest)
            && UnescapeAll(FindQuoted(whole)) == Unescape(e) + UnescapeAll(FindQuoted(rest))
  {
    hide FindQuoted, BodyLength, Unescape;
    assert "\"" + e + "\"" + gap + rest == "\"" + e + "\"" + (gap + rest);
    FindFirst(e, gap + rest);
    GapSkipped(gap, rest);
    assert ([e] + FindQuoted(rest))[1..] == FindQuoted(rest);
  }

  lemma {:induction false} SideBySideFound(texts: seq<string>, gap: string)
    requires '"' !in gap && forall i :: 0 <= i < |texts| ==> !IsQuoted(Strip(texts[i]))
    ensures |FindQuoted(SideBySide(texts, gap))| == |texts|
    ensures UnescapeAll(FindQuoted(SideBySide(texts, gap))) == Concatenated(texts)
    ensures texts != [] ==> IsQuoted(SideBySide(texts, gap))
  {
    if texts != [] {
      SideBySideFound(texts[1..], gap);
      hide FindQuoted, UnescapeAll, Strip, QuoteTxt, Unescape, BodyLength;
      var e := QuoteTxtFound(texts[0]);
      if |texts| == 1 {
        FoundBefore(e, "", "");
        assert QuoteTxt(texts[0]) + "" + "" == QuoteTxt(texts[0]);
      } else {
        FoundBefore(e, gap, SideBySide(texts[1..], gap));
      }
    }
  }

  /** Unquoting quoted texts side by side, whatever stands between them, gives their concatenation. */
  lemma AdjacentJoined(texts: seq<string>, gap: string)
    requires texts != [] && '"' !in gap && forall i :: 0 <= i < |texts| ==> !IsQuoted(Strip(texts[i]))
    ensures StripTxt(SideBySide(texts, gap)) == Concatenated(texts)
  {
    SideBySideFound(texts, gap);
    hide FindQuoted, UnescapeAll, Concatenated, SideBySide, Strip;
    QuotedIsTrimmed(SideBySide(texts, gap));
    StripTxtIs(SideBySide(texts, gap));
  }

  /** A quoted "a" is left alone by quoting and comes back without its quotes. */
  lemma QuotedTextBroken()
    ensures var s := "\"a\""; Trimmed(s, IsSpace) && StripTxt(QuoteTxt(s)) != s
  {
    var s := "\"a\"";
    assert "a\""[1..] == "\"" && BodyLength("a\"") == Some(1);
    assert s == "\"" + "a" + "\"" && "a" + "\"" == "a\"";
    FindWhole("a");
    hide FindQuoted, StripTxt, QuoteTxt, BodyLength;
    TxtRoundTripExactly(s);
  }
}
