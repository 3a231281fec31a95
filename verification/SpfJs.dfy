/** The browser's SPF parser and printer (app/mojodns/static/js/spf.js), written independently of
    the server's, and the agreement of the two. */
module SpfJs {
  import opened Wrappers
  import opened Text
  import opened Txt
  import opened Spf
  import opened SpfRecord

  /** A row of the builder; `qualifier` and `kind` are free text there. */
  datatype Row = Row(qualifier: string, kind: string, value: string)

  /** The text up to the first separator. */
  function Before(s: string, c: char): string {
    s[..Find(s, c)]
  }

  function ParseBody(qual: string, body: string): Row {
    if Find(body, ':') < |body| then Row(qual, Lower(Before(body, ':')), body[Find(body, ':') + 1..])
    else if Find(body, '/') < |body| && Lower(Before(body, '/')) in ["a", "mx", "ptr"] then
      Row(qual, Lower(Before(body, '/')), body[Find(body, '/')..])
    else Row(qual, Lower(body), "")
  }

  function ParseToken(tok: string): Row {
    var modName := Lower(Before(tok, '='));
    if Find(tok, '=') < |tok| && (modName == "redirect" || modName == "exp") then
      Row("", modName, tok[Find(tok, '=') + 1..])
    else if tok == "" then ParseBody("", "") // "".indexOf("") is 0, so no "+" is supplied
    else if tok[0] in "+-~?" then ParseBody([tok[0]], tok[1..])
    else ParseBody("+", tok)
  }

  function RenderValue(kind: string, value: string): string {
    if value == "" || kind == "all" then kind
    else if kind == "a" || kind == "mx" || kind == "ptr" then
      kind + (if value[0] == '/' then value else ":" + value)
    else kind + ":" + value
  }

  function RenderRow(t: Row): string {
    if t.kind == "" then ""
    else if t.kind == "redirect" || t.kind == "exp" then t.kind + "=" + t.value
    else (if t.qualifier != "" && t.qualifier != "+" then t.qualifier else "") + RenderValue(t.kind, t.value)
  }

  function RenderRows(rows: seq<Row>): string {
    if rows == [] then ""
    else
      var r := RenderRow(rows[0]);
      (if r != "" then " " + r else "") + RenderRows(rows[1..])
  }

  /** The record the builder writes back into the form. */
  function Sync(rows: seq<Row>): string {
    VERSION + RenderRows(rows)
  }

  /** A server term as the page receives it. */
  function RowOf(t: Term): Row {
    Row(Sign(t.qualifier), Name(t.kind), t.value)
  }

  /** An explicit "+" is the default qualifier. */
  function DropPlus(q: Option<char>): Option<char> {
    if q == Some('+') then None else q
  }

  // ---- parsers -----------------------------------------------------------------------------

  lemma QualifierChars(c: char)
    ensures IsQualifier(c) <==> c in "+-~?"
  {
    assert "+-~?" == ['+', '-', '~', '?'];
  }

  lemma BodiesAgree(v: Validators, q: Option<char>, qual: string, body: string, raw: string)
    requires !ParseMechanism(v, q, body, raw).kind.Unknown?
    ensures var t := ParseMechanism(v, q, body, raw);
            ParseBody(qual, body) == Row(qual, Name(t.kind), t.value) && t.qualifier == q && !IsModifier(t.kind)
  {
    hide Lower, Name, MechanismNamed, Validate, Find;
    MechanismNames(Lower(SplitBody(body).0));
  }

  /** On every token whose kind the server recognises, the browser reads the same kind and
      value, and the same qualifier with a missing one shown as "+" for mechanisms. */
  lemma ParsersAgree(v: Validators, tok: string)
    requires !ParseTerm(v, tok).kind.Unknown?
    ensures var t := ParseTerm(v, tok);
            ParseToken(tok) == Row(if IsModifier(t.kind) then "" else if t.qualifier.None? then "+" else Sign(t.qualifier),
                                   Name(t.kind), t.value)
  {
    hide Lower, Name, ModifierNamed, Find, ParseMechanism, ParseBody, Validate;
    var modName := Lower(Before(tok, '='));
    ModifierNames(modName);
    if Find(tok, '=') == |tok| || ModifierNamed(modName).None? {
      if tok == "" {
        EmptyIsUnknown(v);
      } else {
        QualifierChars(tok[0]);
        if IsQualifier(tok[0]) {
          BodiesAgree(v, Some(tok[0]), [tok[0]], tok[1..], tok);
        } else {
          BodiesAgree(v, None, "+", tok, tok);
        }
      }
    }
  }

  lemma EmptyIsUnknown(v: Validators)
    ensures ParseTerm(v, "").kind.Unknown?
  {
  }

  // ---- printers ----------------------------------------------------------------------------

  lemma NamesDiffer(k: Kind)
    ensures Name(k) != ""
    ensures IsModifier(k) <==> Name(k) == "redirect" || Name(k) == "exp"
    ensures k.All? <==> Name(k) == "all"
    ensures TakesPrefix(k) <==> Name(k) == "a" || Name(k) == "mx" || Name(k) == "ptr"
  {
  }

  lemma BodiesPrintAlike(k: Kind, value: string)
    requires !IsModifier(k)
    ensures if k.All? && value != "" then |RenderValue(Name(k), value)| < |RenderBody(k, value)|
            else RenderValue(Name(k), value) == RenderBody(k, value)
  {
    NamesDiffer(k);
    hide Name;
    if value != "" && TakesPrefix(k) && value[0] != '/' {
      assert Name(k) + (":" + value) == Name(k) + ":" + value;
    }
  }

  /** The browser prints a server term as the server would, without the explicit "+", unless it is
      an "all" with a value, which only the server prints. */
  lemma PrintersAgree(t: Term)
    requires IsModifier(t.kind) ==> t.qualifier.None?
    ensures RenderRow(RowOf(t)) == RenderTerm(t.(qualifier := DropPlus(t.qualifier)))
            <==> !(t.kind.All? && t.value != "")
  {
    NamesDiffer(t.kind);
    hide Name, RenderBody, RenderValue;
    if !IsModifier(t.kind) {
      BodiesPrintAlike(t.kind, t.value);
      assert Sign(Some('+')) == "+";
      if t.qualifier.Some? && t.qualifier != Some('+') {
        assert Sign(t.qualifier)[0] != '+';
      }
    }
  }

  lemma {:induction false} RowsJoin(parts: seq<string>, rows: seq<Row>, first: string)
    requires |parts| == |rows| && forall i :: 0 <= i < |rows| ==> parts[i] == RenderRow(rows[i]) && parts[i] != ""
    ensures first + RenderRows(rows) == Join([first] + parts, " ")
  {
    hide RenderRow;
    if rows == [] {
      assert first + "" == first && [first] + parts == [first];
    } else {
      RowsJoin(parts[1..], rows[1..], parts[0]);
      assert ([first] + parts)[1..] == [parts[0]] + parts[1..] == parts;
      assert first + (" " + parts[0] + RenderRows(rows[1..])) == first + " " + (parts[0] + RenderRows(rows[1..]));
    }
  }

  function Rows(terms: seq<Term>): (r: seq<Row>)
    ensures |r| == |terms| && forall i :: 0 <= i < |terms| ==> r[i] == RowOf(terms[i])
  {
    seq(|terms|, i requires 0 <= i < |terms| => RowOf(terms[i]))
  }

  function WithoutPlus(terms: seq<Term>): (r: seq<Term>)
    ensures |r| == |terms|
    ensures forall i :: 0 <= i < |terms| ==> r[i] == terms[i].(qualifier := DropPlus(terms[i].qualifier))
  {
    seq(|terms|, i requires 0 <= i < |terms| => terms[i].(qualifier := DropPlus(terms[i].qualifier)))
  }

  lemma {:induction false} CountIgnoresPlus(terms: seq<Term>, k: Kind)
    ensures Count(WithoutPlus(terms), k) == Count(terms, k)
  {
    if terms != [] {
      var n := |terms| - 1;
      CountIgnoresPlus(terms[..n], k);
      assert WithoutPlus(terms)[..n] == WithoutPlus(terms[..n]);
    }
  }

  lemma ValidAllIsBare(v: Validators, token: string)
    requires ParseTerm(v, token).error.None? && ParseTerm(v, token).kind.All?
    ensures ParseTerm(v, token).value == ""
  {
    ParsedTermShape(v, token);
  }

  /** One term through the browser: its printing parses in the server to the same term up to
      an explicit "+". */
  lemma PrintedRowParses(v: Validators, token: string)
    requires ParseTerm(v, token).error.None? && IsWord(token)
    ensures var t := ParseTerm(v, token);
            var s := RenderRow(RowOf(t));
            && IsWord(s) && ParseTerm(v, s) == t.(qualifier := DropPlus(t.qualifier), raw := s)
            && RenderTerm(t.(qualifier := DropPlus(t.qualifier))) == s
  {
    hide ParseTerm, RenderTerm, RenderRow, Validate, Ambiguous;
    var t := ParseTerm(v, token);
    ParsedTermShape(v, token);
    if t.kind.All? { ValidAllIsBare(v, token); }
    PrintersAgree(t);
    var u := t.(qualifier := DropPlus(t.qualifier));
    RenderReparsesExactly(v, u);
    RenderedWord(u, token);
  }

  /** For every valid record, the record the browser writes from its terms is valid for the server
      and has the same terms, with explicit "+" dropped, if and only if it holds no complete quoted
      string. */
  lemma BrowserRecordExactly(v: Validators, content: string)
    requires Parsed(v, content).Valid()
    ensures var terms := Parsed(v, content).terms;
            var written := Sync(Rows(terms));
            var again := Parsed(v, written);
            again.Valid() && SameTerms(again.terms, WithoutPlus(terms)) <==> FindQuoted(written) == []
  {
    hide ParseTerm, RenderRow, RenderTerm, IsWord, Parsed, DropPlus, FindQuoted;
    var tokens := ValidRecordTokens(v, content);
    var terms := Terms(v, tokens);
    var rows, plain := Rows(terms), WithoutPlus(terms);
    var parts := seq(|rows|, i requires 0 <= i < |rows| => RenderRow(rows[i]));
    forall i | 0 <= i < |tokens|
      ensures IsWord(parts[i]) && parts[i] != "" && ParseTerm(v, parts[i]) == plain[i].(raw := parts[i])
      ensures RenderTerm(plain[i]) == parts[i]
    {
      PrintedRowParses(v, tokens[i]);
      WordNotEmpty(parts[i]);
    }
    assert Rendered(plain) == parts;
    CountIgnoresPlus(terms, Redirect);
    RowsJoin(parts, rows, VERSION);
    if FindQuoted(Sync(rows)) == [] {
      BuiltParses(v, parts, plain);
    } else {
      QuotedNeverSame(v, plain);
    }
  }

  lemma WordNotEmpty(s: string)
    requires IsWord(s)
    ensures s != ""
  {
  }
}
