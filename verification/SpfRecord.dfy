/** Whole SPF records (app/mojodns/spf.py): parsing a TXT value into terms with errors and
    warnings, and building a record from terms. */
module SpfRecord {
  import opened Wrappers
  import opened Text
  import opened Txt
  import opened Spf

  datatype Warning =
    | AfterAll(token: string)
    | SeveralAll
    | RedirectIgnored
    | TooManyLookups(count: nat)
    | NoPolicy
    | TooLong(length: nat)

  datatype Record = Record(raw: string, terms: seq<Term>, errors: seq<Error>, warnings: seq<Warning>) {
    predicate Valid() {
      errors == []
    }
  }

  const VERSION := "v=spf1"
  const LOOKUP_LIMIT: nat := 10
  const STRING_LIMIT: nat := 255

  function Terms(v: Validators, tokens: seq<string>): (terms: seq<Term>)
    ensures |terms| == |tokens|
    ensures forall i :: 0 <= i < |tokens| ==> terms[i] == ParseTerm(v, tokens[i])
  {
    seq(|tokens|, i requires 0 <= i < |tokens| => ParseTerm(v, tokens[i]))
  }

  function TermErrors(terms: seq<Term>): seq<Error> {
    if terms == [] then []
    else
      var t := terms[|terms| - 1];
      TermErrors(terms[..|terms| - 1]) + (if t.error.Some? then [InTerm(t.raw, t.error.value)] else [])
  }

  function Count(terms: seq<Term>, k: Kind): nat {
    if terms == [] then 0
    else Count(terms[..|terms| - 1], k) + (if terms[|terms| - 1].kind == k then 1 else 0)
  }

  function Lookups(terms: seq<Term>): nat {
    if terms == [] then 0
    else Lookups(terms[..|terms| - 1]) + (if CostsLookup(terms[|terms| - 1].kind) then 1 else 0)
  }

  /** Term `i` is reported as coming after "all". */
  predicate Late(terms: seq<Term>, i: nat)
    requires i < |terms|
  {
    !terms[i].kind.All? && !terms[i].kind.Unknown? && Count(terms[..i], All) > 0
  }

  function LateWarnings(terms: seq<Term>, n: nat): seq<Warning>
    requires n <= |terms|
  {
    if n == 0 then []
    else LateWarnings(terms, n - 1) + (if Late(terms, n - 1) then [AfterAll(terms[n - 1].raw)] else [])
  }

  function Errors(terms: seq<Term>): seq<Error> {
    TermErrors(terms) + (if Count(terms, Redirect) > 1 then [TwoRedirects] else [])
  }

  function Warnings(raw: string, terms: seq<Term>): seq<Warning> {
    LateWarnings(terms, |terms|) + Summary(|raw|, Count(terms, All), Count(terms, Redirect), Lookups(terms))
  }

  /** The warnings about a record as a whole. */
  function Summary(length: nat, alls: nat, redirects: nat, lookups: nat): seq<Warning> {
    (if alls > 1 then [SeveralAll] else [])
    + (if redirects > 0 && alls > 0 then [RedirectIgnored] else [])
    + (if lookups > LOOKUP_LIMIT then [TooManyLookups(lookups)] else [])
    + (if alls == 0 && redirects == 0 then [NoPolicy] else [])
    + (if length > STRING_LIMIT then [TooLong(length)] else [])
  }

  predicate StartsRecord(tokens: seq<string>) {
    tokens != [] && Lower(tokens[0]) == VERSION
  }

  function Parsed(v: Validators, content: string): Record {
    var raw := StripTxt(content);
    var tokens := Tokens(raw, IsSpace);
    if !StartsRecord(tokens) then Record(raw, [], [NotSpf], [])
    else
      var terms := Terms(v, tokens[1..]);
      Record(raw, terms, Errors(terms), Warnings(raw, terms))
  }

  lemma NothingCounted(terms: seq<Term>)
    ensures TermErrors(terms[..0]) == [] && LateWarnings(terms, 0) == [] && Lookups(terms[..0]) == 0
    ensures Count(terms[..0], All) == 0 && Count(terms[..0], Redirect) == 0 && terms[..0] == []
  {
  }

  lemma NextCounted(terms: seq<Term>, i: nat)
    requires i < |terms|
    ensures var t, before, now := terms[i], terms[..i], terms[..i + 1];
            && now == before + [t]
            && TermErrors(now) == TermErrors(before) + (if t.error.Some? then [InTerm(t.raw, t.error.value)] else [])
            && LateWarnings(terms, i + 1) == LateWarnings(terms, i) +
                 (if !t.kind.All? && !t.kind.Unknown? && Count(before, All) > 0 then [AfterAll(t.raw)] else [])
            && Lookups(now) == Lookups(before) + (if CostsLookup(t.kind) then 1 else 0)
            && Count(now, All) == Count(before, All) + (if t.kind.All? then 1 else 0)
            && Count(now, Redirect) == Count(before, Redirect) + (if t.kind.Redirect? then 1 else 0)
  {
    assert terms[..i + 1][..i] == terms[..i];
  }

  method ParseSpf(v: Validators, content: string) returns (r: Record)
    ensures r == Parsed(v, content)
  {
    hide ParseTerm, StripTxt, Tokens, Lower, Validate, Summary;
    var raw := StripTxt(content);
    var tokens := Tokens(raw, IsSpace);
    if tokens == [] || Lower(tokens[0]) != VERSION {
      return Record(raw, [], [NotSpf], []);
    }
    hide TermErrors, LateWarnings, Lookups, Count, Late;
    var rest := tokens[1..];
    var terms, errors, warnings := [], [], [];
    var seenAll, lookups := false, 0;
    var alls, redirects := 0, 0;
    ghost var all := Terms(v, rest);
    NothingCounted(all);
    for i := 0 to |rest|
      invariant terms == all[..i]
      invariant errors == TermErrors(terms)
      invariant warnings == LateWarnings(all, i)
      invariant lookups == Lookups(terms)
      invariant seenAll <==> Count(terms, All) > 0
      invariant alls == Count(terms, All) && redirects == Count(terms, Redirect)
    {
      var t := ParseTerm(v, rest[i]);
      NextCounted(all, i);
      ParsedTermShape(v, rest[i]);
      terms := terms + [t];
      if t.error.Some? {
        errors := errors + [InTerm(rest[i], t.error.value)];
      }
      if CostsLookup(t.kind) {
        lookups := lookups + 1;
      }
      if t.kind.All? {
        seenAll := true;
        alls := alls + 1;
      } else if seenAll && !t.kind.Unknown? {
        warnings := warnings + [AfterAll(rest[i])];
      }
      if t.kind.Redirect? {
        redirects := redirects + 1;
      }
    }
    assert terms == all;
    r := Record(raw, terms,
                errors + (if redirects > 1 then [TwoRedirects] else []),
                warnings + Summary(|raw|, alls, redirects, lookups));
  }

  function Rendered(terms: seq<Term>): (r: seq<string>)
    ensures |r| == |terms| && forall i :: 0 <= i < |terms| ==> r[i] == RenderTerm(terms[i])
  {
    seq(|terms|, i requires 0 <= i < |terms| => RenderTerm(terms[i]))
  }

  function BuildSpf(terms: seq<Term>): string {
    Join([VERSION] + Rendered(terms), " ")
  }

  // ---- a record built from parsed terms parses to the same terms ---------------------------

  /** The same terms but for their original spelling. */
  predicate SameTerms(a: seq<Term>, b: seq<Term>) {
    |a| == |b| && forall i :: 0 <= i < |a| ==> a[i].(raw := "") == b[i].(raw := "")
  }

  /** A text that can stand as one token of a record. */
  ghost predicate IsWord(s: string) {
    IsToken(s, IsSpace)
  }

  lemma RenderIsWord(v: Validators, token: string)
    requires IsWord(token)
    ensures IsWord(RenderTerm(ParseTerm(v, token)))
  {
    ParsedTermShape(v, token);
    hide ParseTerm;
    RenderedWord(ParseTerm(v, token), token);
  }

  lemma RenderedWord(t: Term, token: string)
    requires IsWord(token) && (forall c :: c in t.value ==> c in token)
    requires t.qualifier.Some? ==> IsQualifier(t.qualifier.value)
    ensures IsWord(RenderTerm(t))
  {
    NameFacts(t.kind);
    hide Name, IsSpace;
    assert forall c :: c in t.value ==> !IsSpace(c);
    if t.qualifier.Some? {
      QualifierIsPlain(t.qualifier.value);
    }
    MarksArePlain();
  }

  lemma QualifierIsPlain(c: char)
    requires IsQualifier(c)
    ensures !IsSpace(c)
  {
  }

  lemma MarksArePlain()
    ensures !IsSpace(':') && !IsSpace('/') && !IsSpace('=')
  {
  }

  lemma {:induction false} JoinedEnds(parts: seq<string>, glue: string)
    requires parts != [] && forall i :: 0 <= i < |parts| ==> parts[i] != ""
    ensures var s := Join(parts, glue);
            s != "" && s[0] == parts[0][0] && s[|s| - 1] == parts[|parts| - 1][|parts[|parts| - 1]| - 1]
  {
    if |parts| > 1 {
      var rest := parts[1..];
      JoinedEnds(rest, glue);
      assert Join(parts, glue) == parts[0] + glue + Join(rest, glue);
      hide Join;
    }
  }

  lemma SpaceGlue()
    ensures forall c :: c in " " ==> IsSpace(c)
  {
  }

  lemma EndsOfTokens(parts: seq<string>)
    requires parts != [] && forall t :: t in parts ==> IsToken(t, IsSpace)
    ensures var first, last := parts[0], parts[|parts| - 1];
            first != "" && last != "" && !IsSpace(first[0]) && !IsSpace(last[|last| - 1])
  {
    var first, last := parts[0], parts[|parts| - 1];
    assert first in parts && last in parts;
    assert first[0] in first && last[|last| - 1] in last;
  }

  lemma JoinedIsTrimmed(parts: seq<string>)
    requires parts != [] && forall i :: 0 <= i < |parts| ==> IsWord(parts[i])
    ensures Trimmed(Join(parts, " "), IsSpace) && Tokens(Join(parts, " "), IsSpace) == parts
    ensures Join(parts, " ") != "" && parts[0] != "" && Join(parts, " ")[0] == parts[0][0]
  {
    forall t | t in parts ensures IsToken(t, IsSpace) {}
    hide Join, Tokens, IsSpace;
    EndsOfTokens(parts);
    forall i | 0 <= i < |parts| ensures parts[i] != "" {}
    hide IsToken;
    JoinedEnds(parts, " ");
    SpaceGlue();
    TokensJoin(parts, " ", IsSpace);
  }

  lemma {:induction false} NoTermErrors(terms: seq<Term>)
    ensures TermErrors(terms) == [] <==> forall i :: 0 <= i < |terms| ==> terms[i].error.None?
  {
    if terms != [] {
      var n := |terms| - 1;
      NoTermErrors(terms[..n]);
      if terms[n].error.None? && TermErrors(terms[..n]) == [] {
        forall i | 0 <= i < |terms| ensures terms[i].error.None? {
          assert i < n ==> terms[..n][i] == terms[i];
        }
      } else if TermErrors(terms[..n]) != [] {
        var i :| 0 <= i < n && terms[..n][i].error.Some?;
        assert terms[i].error.Some?;
      }
    }
  }

  lemma {:induction false} SameCounts(a: seq<Term>, b: seq<Term>, k: Kind)
    requires SameTerms(a, b)
    ensures Count(a, k) == Count(b, k) && Lookups(a) == Lookups(b)
  {
    if a != [] {
      var n := |a| - 1;
      assert a[n].(raw := "") == b[n].(raw := "");
      SameCounts(a[..n], b[..n], k);
    }
  }

  lemma VersionIsWord()
    ensures IsWord(VERSION) && Lower(VERSION) == VERSION
  {
    assert forall i :: 0 <= i < |VERSION| ==> !IsSpace(VERSION[i]) && LowerChar(VERSION[i]) == VERSION[i];
  }

  /** What a valid record guarantees about the tokens it was read from. */
  lemma ValidRecordTokens(v: Validators, content: string) returns (tokens: seq<string>)
    requires Parsed(v, content).Valid()
    ensures Parsed(v, content).terms == Terms(v, tokens)
    ensures forall i :: 0 <= i < |tokens| ==> IsWord(tokens[i]) && ParseTerm(v, tokens[i]).error.None?
    ensures Count(Terms(v, tokens), Redirect) <= 1
    ensures var all := Tokens(Parsed(v, content).raw, IsSpace);
            StartsRecord(all) && all[1..] == tokens
  {
    hide ParseTerm, Tokens, Lower, StripTxt;
    var raw := StripTxt(content);
    var all := Tokens(raw, IsSpace);
    tokens := all[1..];
    TokensAreTokens(raw, IsSpace);
    NoTermErrors(Terms(v, tokens));
    forall i | 0 <= i < |tokens| ensures IsWord(tokens[i]) && ParseTerm(v, tokens[i]).error.None? {
      assert tokens[i] == all[i + 1] && all[i + 1] in all;
      assert Terms(v, tokens)[i].error.None?;
    }
  }

  /** Words that parse, one by one, to given error-free terms make up a valid record with those
      terms, unless a complete quoted string stands in the text. */
  lemma BuiltParses(v: Validators, parts: seq<string>, terms: seq<Term>)
    requires |parts| == |terms| && Count(terms, Redirect) <= 1
    requires forall i :: 0 <= i < |parts| ==>
               && IsWord(parts[i])
               && ParseTerm(v, parts[i]) == terms[i].(raw := parts[i])
               && terms[i].error.None?
    requires FindQuoted(Join([VERSION] + parts, " ")) == []
    ensures var r := Parsed(v, Join([VERSION] + parts, " "));
            r.Valid() && r.raw == Join([VERSION] + parts, " ") && r.terms == Terms(v, parts) && SameTerms(r.terms, terms)
  {
    hide ParseTerm, IsWord, Tokens, StripTxt, Lower, Join, FindQuoted, Warnings, TermErrors;
    VersionIsWord();
    VersionFirst(parts);
    StripTxtIs(Join([VERSION] + parts, " "));
    assert ([VERSION] + parts)[1..] == parts;
    var a := Terms(v, parts);
    SameCounts(a, terms, Redirect);
    NoTermErrors(a);
  }

  // ---- a quoted string in a record ---------------------------------------------------------

  lemma {:induction false} JoinShorter(a: seq<string>, b: seq<string>, glue: string)
    requires |a| == |b| && forall i :: 0 <= i < |a| ==> |a[i]| <= |b[i]|
    ensures |Join(a, glue)| <= |Join(b, glue)|
  {
    if |a| > 1 {
      JoinShorter(a[1..], b[1..], glue);
    }
  }

  /** The pieces of a text, with single separators, fit into it. */
  lemma {:induction false} TokensFit(s: string, sep: char -> bool)
    ensures |Join(Tokens(s, sep), " ")| <= |s|
    decreases |s|
  {
    var front, tok, rest := FirstToken(s, sep);
    NoTokens(sep);
    hide Tokens, IsToken;
    if tok == "" {
      SkipSeparators(s, "", sep);
      assert s + "" == s;
    } else {
      assert s == front + (tok + rest);
      SkipSeparators(front, tok + rest, sep);
      TokenThen(tok, rest, sep);
      if rest != "" {
        assert rest == rest[..1] + rest[1..];
        SkipSeparators(rest[..1], rest[1..], sep);
        TokensFit(rest[1..], sep);
        JoinOneMore(tok, Tokens(rest, sep));
      } else {
        JoinOneMore(tok, []);
      }
    }
  }

  lemma JoinOneMore(first: string, rest: seq<string>)
    ensures |Join([first] + rest, " ")| <= |first| + 1 + |Join(rest, " ")|
    ensures rest == [] ==> Join([first] + rest, " ") == first
  {
    if rest == [] {
      assert [first] + rest == [first];
    } else {
      JoinCons(first, rest, " ");
    }
  }

  /** The record built from a valid record's terms is no longer than its text. */
  lemma BuildNotLonger(v: Validators, content: string)
    requires Parsed(v, content).Valid()
    ensures |BuildSpf(Parsed(v, content).terms)| <= |Parsed(v, content).raw|
  {
    var tokens := ValidRecordTokens(v, content);
    hide Parsed, ParseTerm, RenderTerm, Tokens, Join, IsWord;
    var all, terms := Tokens(Parsed(v, content).raw, IsSpace), Terms(v, tokens);
    var parts := [VERSION] + Rendered(terms);
    assert |Lower(all[0])| == |all[0]|;
    forall i | 0 <= i < |parts| ensures |parts[i]| <= |all[i]| {
      if i > 0 {
        assert all[i] == tokens[i - 1];
        ParsedTermShape(v, tokens[i - 1]);
        RenderNotLonger(v, tokens[i - 1]);
      }
    }
    JoinShorter(parts, all, " ");
    TokensFit(Parsed(v, content).raw, IsSpace);
  }

  /** A record in which the parser finds a quoted string never parses back to the terms it was
      built from: too little text is left. */
  lemma QuotedNeverSame(v: Validators, terms: seq<Term>)
    requires FindQuoted(BuildSpf(terms)) != []
    requires forall i :: 0 <= i < |terms| ==> IsWord(RenderTerm(terms[i]))
    ensures var again := Parsed(v, BuildSpf(terms)); !(again.Valid() && SameTerms(again.terms, terms))
  {
    hide Parsed, RenderTerm, IsWord, Tokens, FindQuoted, UnescapeAll, StripTxt;
    var text := BuildSpf(terms);
    var again := Parsed(v, text);
    VersionFirst(Rendered(terms));
    StripTxtIs(text);
    assert again.raw == StripTxt(text) by { RawIsUnquoted(v, text); }
    QuotesShrink(text);
    if again.Valid() && SameTerms(again.terms, terms) {
      BuildNotLonger(v, text);
      SameTermsRender(again.terms, terms);
    }
  }

  lemma RawIsUnquoted(v: Validators, content: string)
    ensures Parsed(v, content).raw == StripTxt(content)
  {
  }

  lemma QuotesShrink(s: string)
    requires s != "" && s[0] != '"'
    ensures |UnescapeAll(FindQuoted(s))| < |s|
  {
    hide UnescapeAll, BodyLength;
    assert FindQuoted(s) == FindQuoted(s[1..]);
    hide FindQuoted;
    UnquotingShrinks(s[1..]);
  }

  /** For every valid record, parsing the record built from its terms returns the same terms
      without error if and only if the built text holds no complete quoted string; building is
      then stable. */
  lemma RecordRoundTripExactly(v: Validators, content: string)
    requires Parsed(v, content).Valid()
    ensures var terms := Parsed(v, content).terms;
            var built := BuildSpf(terms);
            var again := Parsed(v, built);
            && (again.Valid() && SameTerms(again.terms, terms) <==> FindQuoted(built) == [])
            && (FindQuoted(built) == [] ==> again.raw == built && BuildSpf(again.terms) == built)
  {
    hide ParseTerm, RenderTerm, IsWord, Parsed, FindQuoted;
    var tokens := ValidRecordTokens(v, content);
    var terms := Terms(v, tokens);
    var parts := Rendered(terms);
    forall i | 0 <= i < |tokens| ensures IsWord(parts[i]) && ParseTerm(v, parts[i]) == terms[i].(raw := parts[i]) {
      RenderIsWord(v, tokens[i]);
      TermRoundTrip(v, tokens[i]);
    }
    if FindQuoted(BuildSpf(terms)) == [] {
      BuiltParses(v, parts, terms);
      SameTermsRender(Terms(v, parts), terms);
    } else {
      QuotedNeverSame(v, terms);
    }
  }

  /** Rendering does not look at a term's original spelling. */
  lemma SameTermsRender(a: seq<Term>, b: seq<Term>)
    requires SameTerms(a, b)
    ensures Rendered(a) == Rendered(b) && BuildSpf(a) == BuildSpf(b)
  {
    hide Join, RenderBody, Name;
    forall i | 0 <= i < |a| ensures RenderTerm(a[i]) == RenderTerm(b[i]) {
      assert a[i].(raw := "") == b[i].(raw := "");
    }
  }

  lemma {:induction false} JoinedChars(parts: seq<string>, glue: string, c: char)
    requires c in Join(parts, glue)
    ensures c in glue || exists i :: 0 <= i < |parts| && c in parts[i]
  {
    if |parts| > 1 {
      if c !in parts[0] && c !in glue {
        JoinedChars(parts[1..], glue, c);
        var i :| 0 <= i < |parts[1..]| && c in parts[1..][i];
        assert parts[i + 1] == parts[1..][i];
      }
    }
  }

  lemma NoQuoteJoined(parts: seq<string>)
    requires forall i :: 0 <= i < |parts| ==> '"' !in parts[i]
    ensures FindQuoted(Join(parts, " ")) == []
  {
    hide Join, FindQuoted;
    if '"' in Join(parts, " ") {
      JoinedChars(parts, " ", '"');
    }
    NoQuoteNothingFound(Join(parts, " "));
  }

  // ---- storing a record --------------------------------------------------------------------

  /** A trimmed text and its first piece start alike. */
  lemma FirstPiece(s: string)
    requires Trimmed(s, IsSpace) && Tokens(s, IsSpace) != []
    ensures s != "" && Tokens(s, IsSpace)[0] != "" && s[0] == Tokens(s, IsSpace)[0][0]
  {
    RunIs(s, IsSpace, true, 0);
    hide IsSpace;
    assert s[0..] == s;
  }

  /** The text of a valid record does not look quoted: it starts with its version. */
  lemma ValidIsUnquoted(v: Validators, content: string)
    requires Parsed(v, content).Valid()
    ensures !IsQuoted(Strip(Parsed(v, content).raw))
  {
    var tokens := ValidRecordTokens(v, content);
    var raw := Parsed(v, content).raw;
    var first := Tokens(raw, IsSpace)[0];
    TokensOfTrim(raw, IsSpace);
    TrimIsTrimmed(raw, IsSpace);
    assert Strip(raw) == Trim(raw, IsSpace);
    hide Parsed, Tokens, Strip, Trim, IsSpace;
    FirstPiece(Strip(raw));
    assert VERSION[0] == 'v' && LowerChar(first[0]) == Lower(first)[0];
    hide Lower;
  }

  lemma SameTokensParse(v: Validators, a: string, b: string)
    requires Tokens(Parsed(v, a).raw, IsSpace) == Tokens(Parsed(v, b).raw, IsSpace)
    ensures Parsed(v, a).terms == Parsed(v, b).terms && Parsed(v, a).errors == Parsed(v, b).errors
  {
    hide Tokens, StripTxt, Warnings, Errors, Lower;
  }

  /** A valid record quoted for storing is valid and has the same terms; only outer spaces go. */
  lemma StoredParses(v: Validators, content: string)
    requires Parsed(v, content).Valid()
    ensures var p := Parsed(v, content);
            var again := Parsed(v, QuoteTxt(p.raw));
            again.Valid() && again.terms == p.terms && again.raw == Strip(p.raw)
  {
    var raw := Parsed(v, content).raw;
    ValidIsUnquoted(v, content);
    RawIsUnquoted(v, QuoteTxt(raw));
    StripOfQuote(raw);
    TokensOfTrim(raw, IsSpace);
    assert Strip(raw) == Trim(raw, IsSpace);
    hide Parsed, Trim, Strip, QuoteTxt, StripTxt, Tokens;
    SameTokensParse(v, content, QuoteTxt(raw));
  }

  /** Words, joined and quoted, come apart again, whatever quotes they hold. */
  lemma QuotedPieces(parts: seq<string>)
    requires forall i :: 0 <= i < |parts| ==> IsWord(parts[i])
    ensures Tokens(StripTxt(QuoteTxt(Join([VERSION] + parts, " "))), IsSpace) == [VERSION] + parts
  {
    hide IsWord, Tokens, StripTxt, Strip, QuoteTxt, Join, IsSpace;
    VersionFirst(parts);
    StripOfQuote(Join([VERSION] + parts, " "));
  }

  lemma VersionFirst(parts: seq<string>)
    requires forall i :: 0 <= i < |parts| ==> IsWord(parts[i])
    ensures var text := Join([VERSION] + parts, " ");
            Strip(text) == text && text != "" && text[0] == 'v' && Tokens(text, IsSpace) == [VERSION] + parts
  {
    var all := [VERSION] + parts;
    VersionIsWord();
    hide IsWord, Tokens, Strip, Join, IsSpace, Lower;
    assert forall i :: 0 <= i < |all| ==> IsWord(all[i]);
    JoinedIsTrimmed(all);
    assert all[0] == VERSION && VERSION[0] == 'v';
    StripOfTrimmed(Join(all, " "));
  }

  lemma PiecesParse(v: Validators, content: string, parts: seq<string>)
    requires Tokens(StripTxt(content), IsSpace) == [VERSION] + parts
    requires Count(Terms(v, parts), Redirect) <= 1
    requires forall i :: 0 <= i < |parts| ==> ParseTerm(v, parts[i]).error.None?
    ensures Parsed(v, content).Valid() && Parsed(v, content).terms == Terms(v, parts)
  {
    VersionIsWord();
    hide ParseTerm, Tokens, StripTxt, Lower, Warnings, TermErrors, Count;
    assert ([VERSION] + parts)[1..] == parts;
    NoTermErrors(Terms(v, parts));
  }

  lemma StripOfTrimmed(s: string)
    requires Trimmed(s, IsSpace)
    ensures Strip(s) == s
  {
    TrimIsIdentity(s, IsSpace);
  }
}
