/** Which terms and records the SPF parser accepts, word by word, and which warnings it gives
    (app/mojodns/spf.py). */
module SpfTerms {
  import opened Wrappers
  import opened Text
  import opened Txt
  import opened Spf
  import opened SpfRecord

  // ---- reading a term by its name ----------------------------------------------------------

  lemma {:induction false} NoMarks(w: string)
    requires forall i :: 0 <= i < |w| ==> 'a' <= LowerChar(w[i]) <= 'z' || '0' <= w[i] <= '9'
    ensures ':' !in w && '/' !in w && '=' !in w && (w != "" ==> !IsQualifier(w[0]))
  {
    forall c | c in w ensures c != ':' && c != '/' && c != '=' {
      var i :| 0 <= i < |w| && w[i] == c;
    }
  }

  /** A word that spells a mechanism or modifier, in any case. */
  predicate Spells(w: string, k: Kind) {
    Lower(w) == Name(k) && !k.Unknown?
  }

  lemma SpelledPlainly(w: string, k: Kind)
    requires Spells(w, k)
    ensures w != "" && ':' !in w && '/' !in w && '=' !in w && !IsQualifier(w[0])
  {
    var n := Name(k);
    assert forall i :: 0 <= i < |n| ==> 'a' <= n[i] <= 'z' || '0' <= n[i] <= '9';
    assert |w| == |n| && forall i :: 0 <= i < |w| ==> LowerChar(w[i]) == n[i];
    hide Lower, Name;
    forall i | 0 <= i < |w| ensures 'a' <= LowerChar(w[i]) <= 'z' || '0' <= w[i] <= '9' {
      assert LowerChar(w[i]) == n[i];
    }
    NoMarks(w);
  }

  lemma BodyParses(v: Validators, q: Option<char>, w: string, k: Kind, rest: string)
    requires Spells(w, k) && (q.Some? ==> IsQualifier(q.value))
    requires rest != "" ==> rest[0] == ':' || rest[0] == '/'
    ensures ParseTerm(v, Sign(q) + (w + rest)) == ParseMechanism(v, q, w + rest, Sign(q) + (w + rest))
  {
    SpelledPlainly(w, k);
    if q.Some? { QualifierIsNoMark(q.value); }
    hide Spells, ParseTerm, ParseMechanism, ModifierNamed, Lower, Find, IsQualifier;
    MarkOrNothing(Sign(q) + w, w, q, rest);
    assert Sign(q) + w + rest == Sign(q) + (w + rest) && (w + rest)[0] == w[0];
    ParseUnmodified(v, q, w + rest);
  }

  lemma QualifierIsNoMark(c: char)
    requires IsQualifier(c)
    ensures c != '='
  {
  }

  lemma MarkOrNothing(front: string, w: string, q: Option<char>, rest: string)
    requires front == Sign(q) + w && '=' !in w && (q.Some? ==> q.value != '=')
    requires rest != "" ==> rest[0] == ':' || rest[0] == '/'
    ensures var s := front + rest; var eq := Find(s, '='); eq < |s| ==> ModifierNamed(Lower(s[..eq])) == None
  {
    assert '=' !in front;
    hide ModifierNamed, Lower, Find;
    MarkBeforeEquals(front, rest);
  }

  lemma Named(w: string, k: Kind)
    requires Spells(w, k)
    ensures IsMechanism(k) ==> MechanismNamed(Lower(w)) == Some(k)
    ensures IsModifier(k) ==> ModifierNamed(Lower(w)) == Some(k)
    ensures TakesPrefix(k) ==> Lower(w) in {"a", "mx", "ptr"}
  {
    KindOfName(k);
  }

  /** name:value */
  lemma ColonParses(v: Validators, q: Option<char>, w: string, k: Kind, value: string)
    requires Spells(w, k) && IsMechanism(k) && (q.Some? ==> IsQualifier(q.value))
    ensures var s := Sign(q) + (w + (":" + value)); ParseTerm(v, s) == Term(q, k, value, s, Validate(v, k, value))
  {
    Named(w, k);
    SpelledPlainly(w, k);
    hide Spells, ParseTerm, Lower, MechanismNamed, Validate, Find;
    var body := w + (":" + value);
    BodyParses(v, q, w, k, ":" + value);
    assert body == w + [':'] + value;
    FindAfter(w, ':', value);
    assert body[..|w|] == w && body[|w| + 1..] == value;
  }

  /** A name alone. */
  lemma BareParses(v: Validators, q: Option<char>, w: string, k: Kind)
    requires Spells(w, k) && IsMechanism(k) && (q.Some? ==> IsQualifier(q.value))
    ensures ParseTerm(v, Sign(q) + w) == Term(q, k, "", Sign(q) + w, Validate(v, k, ""))
  {
    Named(w, k);
    SpelledPlainly(w, k);
    FindIs(w, ':');
    FindIs(w, '/');
    hide Spells, ParseTerm, Lower, MechanismNamed, Validate, Find;
    BodyParses(v, q, w, k, "");
    assert w + "" == w;
  }

  /** name/length */
  lemma SlashParses(v: Validators, q: Option<char>, w: string, k: Kind, rest: string)
    requires Spells(w, k) && TakesPrefix(k) && (q.Some? ==> IsQualifier(q.value)) && ':' !in rest
    ensures var s := Sign(q) + (w + ("/" + rest));
            ParseTerm(v, s) == Term(q, k, "/" + rest, s, Validate(v, k, "/" + rest))
  {
    Named(w, k);
    SpelledPlainly(w, k);
    SlashFound(w, rest);
    hide Spells, ParseTerm, Lower, MechanismNamed, Validate, Find;
    BodyParses(v, q, w, k, "/" + rest);
  }

  lemma SlashFound(w: string, rest: string)
    requires ':' !in w && '/' !in w && ':' !in rest
    ensures var body := w + ("/" + rest);
            && Find(body, ':') == |body| && Find(body, '/') == |w|
            && body[..|w|] == w && body[|w|..] == "/" + rest
  {
    var body := w + ("/" + rest);
    assert ':' !in body;
    FindIs(body, ':');
    hide Find;
    assert body == w + ['/'] + rest;
    FindAfter(w, '/', rest);
  }

  /** name=value */
  lemma EqualsParses(v: Validators, w: string, k: Kind, value: string)
    requires Spells(w, k) && IsModifier(k)
    ensures ParseTerm(v, w + ("=" + value)) == Term(None, k, value, w + ("=" + value), Validate(v, k, value))
  {
    Named(w, k);
    SpelledPlainly(w, k);
    hide Spells, Lower, ModifierNamed, Validate, Find, ParseMechanism;
    var s := w + ("=" + value);
    assert s == w + ['='] + value;
    FindAfter(w, '=', value);
    assert s[..|w|] == w && s[|w| + 1..] == value;
  }

  // ---- which terms are accepted ------------------------------------------------------------

  predicate SignOk(q: Option<char>) {
    q == None || q == Some('+') || q == Some('-') || q == Some('~') || q == Some('?')
  }

  /** "ip4" takes exactly what the IPv4 validator takes. */
  lemma Ip4Accepted(v: Validators, q: Option<char>, w: string, a: string)
    requires Lower(w) == "ip4" && SignOk(q)
    ensures var t := ParseTerm(v, Sign(q) + (w + (":" + a)));
            t.kind == Ip4 && t.value == a && t.qualifier == q && (t.error.None? <==> a != "" && v.ip4(a))
    ensures ParseTerm(v, Sign(q) + w).error.Some?
  {
    hide Lower, ParseTerm;
    ColonParses(v, q, w, Ip4, a);
    BareParses(v, q, w, Ip4);
  }

  /** "ip6" takes exactly what the IPv6 validator takes. */
  lemma Ip6Accepted(v: Validators, q: Option<char>, w: string, a: string)
    requires Lower(w) == "ip6" && SignOk(q)
    ensures var t := ParseTerm(v, Sign(q) + (w + (":" + a)));
            t.kind == Ip6 && t.value == a && t.qualifier == q && (t.error.None? <==> a != "" && v.ip6(a))
    ensures ParseTerm(v, Sign(q) + w).error.Some?
  {
    hide Lower, ParseTerm;
    ColonParses(v, q, w, Ip6, a);
    BareParses(v, q, w, Ip6);
  }

  /** "all" is accepted exactly without a value. */
  lemma AllAccepted(v: Validators, q: Option<char>, w: string, a: string)
    requires Lower(w) == "all" && SignOk(q)
    ensures var t := ParseTerm(v, Sign(q) + w); t.kind == All && t.qualifier == q && t.error.None?
    ensures ParseTerm(v, Sign(q) + (w + (":" + a))).error.None? <==> a == ""
  {
    hide Lower, ParseTerm;
    ColonParses(v, q, w, All, a);
    BareParses(v, q, w, All);
  }

  /** "include" and "exists" are accepted exactly with a valid domain. */
  lemma DomainAccepted(v: Validators, q: Option<char>, w: string, d: string)
    requires Lower(w) == "include" || Lower(w) == "exists"
    requires SignOk(q)
    ensures var t := ParseTerm(v, Sign(q) + (w + (":" + d)));
            && t.kind == (if Lower(w) == "include" then Include else Exists) && t.value == d && t.qualifier == q
            && (t.error.None? <==> d != "" && ValidDomain(d))
    ensures ParseTerm(v, Sign(q) + w).error.Some?
  {
    var k := if Lower(w) == "include" then Include else Exists;
    hide Lower, ParseTerm, ValidDomain;
    ColonParses(v, q, w, k, d);
    BareParses(v, q, w, k);
  }

  /** "redirect" and "exp" are accepted exactly with a valid domain. */
  lemma ModifierAccepted(v: Validators, w: string, d: string)
    requires Lower(w) == "redirect" || Lower(w) == "exp"
    ensures var t := ParseTerm(v, w + ("=" + d));
            && t.kind == (if Lower(w) == "redirect" then Redirect else Exp) && t.value == d && t.qualifier == None
            && (t.error.None? <==> d != "" && ValidDomain(d))
  {
    var k := if Lower(w) == "redirect" then Redirect else Exp;
    hide Lower, ParseTerm, ValidDomain;
    EqualsParses(v, w, k, d);
  }

  /** A prefix length: nothing, or decimal digits of at most 128. */
  predicate PrefixOk(n: string) {
    n == "" || ValidCidr(n)
  }

  /** "a", "mx" and "ptr" are accepted exactly bare, with a valid domain, with a prefix length, or
      with both. */
  lemma HostAccepted(v: Validators, q: Option<char>, w: string, d: string, n: string)
    requires Lower(w) == "a" || Lower(w) == "mx" || Lower(w) == "ptr"
    requires SignOk(q) && '/' !in d && ':' !in n
    ensures var k := if Lower(w) == "a" then A else if Lower(w) == "mx" then Mx else Ptr;
            && ParseTerm(v, Sign(q) + w).(raw := "") == Term(q, k, "", "", None)
            && (var t := ParseTerm(v, Sign(q) + (w + (":" + d)));
                t.kind == k && t.value == d && t.qualifier == q && (t.error.None? <==> d == "" || ValidDomain(d)))
            && (var t := ParseTerm(v, Sign(q) + (w + ("/" + n)));
                t.kind == k && t.value == "/" + n && t.qualifier == q && (t.error.None? <==> PrefixOk(n)))
            && (var t := ParseTerm(v, Sign(q) + (w + (":" + (d + ("/" + n)))));
                && t.kind == k && t.value == d + ("/" + n) && t.qualifier == q
                && (t.error.None? <==> (d == "" || ValidDomain(d)) && PrefixOk(n)))
  {
    var k := if Lower(w) == "a" then A else if Lower(w) == "mx" then Mx else Ptr;
    hide Lower, ParseTerm, ValidDomain, ValidCidr, Find;
    BareParses(v, q, w, k);
    ColonParses(v, q, w, k, d);
    SlashParses(v, q, w, k, n);
    ColonParses(v, q, w, k, d + ("/" + n));
    DomainAlone(d);
    DomainAndLength(d, n);
    assert SplitPrefix("") == ("", "") by { DomainAlone(""); }
    assert SplitPrefix("/" + n) == ("", n) by { DomainAndLength("", n); assert "" + ("/" + n) == "/" + n; }
  }

  lemma DomainAlone(d: string)
    requires '/' !in d
    ensures SplitPrefix(d) == (d, "")
  {
    FindIs(d, '/');
    assert d != "" ==> d[0] in d;
  }

  lemma DomainAndLength(d: string, n: string)
    requires '/' !in d
    ensures SplitPrefix(d + ("/" + n)) == (d, n)
  {
    var s := d + ("/" + n);
    assert s == d + ['/'] + n;
    FindAfter(d, '/', n);
    assert s[..|d|] == d && s[|d| + 1..] == n;
    assert d != "" ==> d[0] in d && s[0] == d[0];
  }

  // ---- numbers and domains -----------------------------------------------------------------

  lemma {:induction false} DecimalOfShow(n: nat)
    ensures IsDigits(ShowNat(n)) && Decimal(ShowNat(n)) == n
  {
    ShowNatDigits(n);
    if n < 10 {
      assert ShowNat(n)[..0] == "";
    } else {
      var s := ShowNat(n);
      DecimalOfShow(n / 10);
      assert s[..|s| - 1] == ShowNat(n / 10);
    }
  }

  /** A prefix length in decimal is accepted exactly up to 128; a text with anything but digits is
      not. */
  lemma LengthAccepted(n: nat, other: string)
    ensures PrefixOk(ShowNat(n)) <==> n <= 128
    ensures (exists i :: 0 <= i < |other| && !('0' <= other[i] <= '9')) ==> !PrefixOk(other)
  {
    DecimalOfShow(n);
    hide Decimal, ShowNat;
  }

  /** One label of a domain: 1 to 63 letters, digits and hyphens, without a hyphen at either end;
      all but the last may have underscores. */
  predicate LabelOk(l: string, last: bool) {
    && 1 <= |l| <= 63
    && l[0] != '-' && l[|l| - 1] != '-'
    && forall c :: c in l ==> 'a' <= c <= 'z' || 'A' <= c <= 'Z' || '0' <= c <= '9' || c == '-' || (c == '_' && !last)
  }

  lemma LabelIs(l: string, last: bool)
    ensures IsLabel(l, !last) <==> LabelOk(l, last)
  {
  }

  /** A domain without macros, with or without a final dot, is valid exactly if it has at most 253
      characters and every label is right. */
  lemma DomainExactly(labels: seq<string>)
    requires labels != [] && labels[|labels| - 1] != "" && forall i :: 0 <= i < |labels| ==> '.' !in labels[i]
    requires '%' !in Join(labels, ".")
    ensures var d, n := Join(labels, "."), |labels|;
            && (ValidDomain(d) <==> |d| <= 253 && forall i :: 0 <= i < n ==> LabelOk(labels[i], i == n - 1))
            && (ValidDomain(d + ".") <==> ValidDomain(d))
  {
    hide Join, Split, IsLabel, LabelOk, TrimRight, ValidDomain;
    var d := Join(labels, ".");
    SplitJoin(labels, '.');
    LastOfJoin(labels);
    FinalDot(d);
    LabelsDecide(d, d, labels);
    LabelsDecide(d + ".", d, labels);
  }

  lemma FinalDot(d: string)
    requires d != "" && d[|d| - 1] != '.'
    ensures TrimRight(d, IsDot) == d && TrimRight(d + ".", IsDot) == d
  {
    DropDot(d);
  }

  lemma LabelsDecide(domain: string, d: string, labels: seq<string>)
    requires TrimRight(domain, IsDot) == d && d != "" && '%' !in d && Split(d, '.') == labels && labels != []
    ensures ValidDomain(domain) <==>
            |d| <= 253 && forall i :: 0 <= i < |labels| ==> LabelOk(labels[i], i == |labels| - 1)
  {
    var n := |labels|;
    forall i | 0 <= i < n - 1 ensures IsLabel(labels[i], true) <==> LabelOk(labels[i], i == n - 1) {
      LabelIs(labels[i], false);
    }
    LabelIs(labels[n - 1], true);
    hide Split, IsLabel, LabelOk, TrimRight;
  }

  lemma {:induction false} LastOfJoin(labels: seq<string>)
    requires labels != [] && labels[|labels| - 1] != "" && forall i :: 0 <= i < |labels| ==> '.' !in labels[i]
    ensures var d := Join(labels, "."); d != "" && d[|d| - 1] != '.'
  {
    if |labels| > 1 {
      LastOfJoin(labels[1..]);
    } else {
      assert labels[0][|labels[0]| - 1] in labels[0];
    }
  }

  /** A domain with a macro is only held to its length. */
  lemma MacroDomainExactly(d: string)
    requires '%' in d && d[|d| - 1] != '.'
    ensures ValidDomain(d) <==> |d| <= 253
  {
    assert TrimRight(d, IsDot) == d;
  }

  // ---- unknown names -----------------------------------------------------------------------

  /** The names of the mechanisms. */
  const MECHANISMS := ["all", "include", "a", "mx", "ip4", "ip6", "exists", "ptr"]

  /** Any other word is an unknown mechanism, and an error, with or without a value. */
  lemma UnknownExactly(v: Validators, w: string, value: string)
    requires ':' !in w && '/' !in w && '=' !in w && (w != "" ==> !IsQualifier(w[0])) && w != ""
    ensures ParseTerm(v, w).kind.Unknown? <==> Lower(w) !in MECHANISMS
    ensures ParseTerm(v, w + (":" + value)).kind.Unknown? <==> Lower(w) !in MECHANISMS
    ensures Lower(w) !in MECHANISMS ==>
              ParseTerm(v, w).error == Some(UnknownMechanism(w)) == ParseTerm(v, w + (":" + value)).error
  {
    FindIs(w, ':');
    FindIs(w, '/');
    NamesAre(Lower(w));
    hide Lower, ParseTerm, MechanismNamed, Validate, Find, ModifierNamed;
    MarkOrNothing(w, w, None, "");
    MarkOrNothing(w, w, None, ":" + value);
    assert Sign(None) + w == w && w + "" == w && Sign(None) + (w + (":" + value)) == w + (":" + value);
    ParseUnmodified(v, None, w);
    ParseUnmodified(v, None, w + (":" + value));
    var body := w + (":" + value);
    assert body == w + [':'] + value;
    FindAfter(w, ':', value);
    assert body[..|w|] == w;
  }

  lemma NamesAre(name: string)
    ensures MechanismNamed(name).Some? <==> name in MECHANISMS
    ensures MechanismNamed(name).Some? ==> !MechanismNamed(name).value.Unknown?
  {
    assert MECHANISMS[0] == "all" && MECHANISMS[1] == "include" && MECHANISMS[2] == "a" && MECHANISMS[3] == "mx";
    assert MECHANISMS[4] == "ip4" && MECHANISMS[5] == "ip6" && MECHANISMS[6] == "exists" && MECHANISMS[7] == "ptr";
  }

  // ---- which records are valid, and which warnings they get --------------------------------

  /** Two terms of this kind. */
  predicate Twice(terms: seq<Term>, k: Kind) {
    exists i, j :: 0 <= i < j < |terms| && terms[i].kind == k && terms[j].kind == k
  }

  predicate Once(terms: seq<Term>, k: Kind) {
    exists i :: 0 <= i < |terms| && terms[i].kind == k
  }

  lemma OnceSnoc(terms: seq<Term>, k: Kind)
    requires terms != []
    ensures var n := |terms| - 1; Once(terms, k) <==> Once(terms[..n], k) || terms[n].kind == k
  {
    var n := |terms| - 1;
    if i :| 0 <= i < n && terms[..n][i].kind == k { assert terms[i].kind == k; }
    if i :| 0 <= i < |terms| && terms[i].kind == k { assert i < n ==> terms[..n][i].kind == k; }
  }

  lemma TwiceSnoc(terms: seq<Term>, k: Kind)
    requires terms != []
    ensures var n := |terms| - 1; Twice(terms, k) <==> Twice(terms[..n], k) || (terms[n].kind == k && Once(terms[..n], k))
  {
    var n := |terms| - 1;
    var front := terms[..n];
    if i, j :| 0 <= i < j < n && front[i].kind == k && front[j].kind == k {
      assert terms[i].kind == k && terms[j].kind == k;
    }
    if i, j :| 0 <= i < j < |terms| && terms[i].kind == k && terms[j].kind == k {
      assert front[i].kind == k && (j < n ==> front[j].kind == k);
    }
    if i :| 0 <= i < n && front[i].kind == k && terms[n].kind == k {
      assert terms[i].kind == k;
    }
  }

  lemma {:induction false} CountMeans(terms: seq<Term>, k: Kind)
    ensures Count(terms, k) > 0 <==> Once(terms, k)
    ensures Count(terms, k) > 1 <==> Twice(terms, k)
  {
    if terms != [] {
      CountMeans(terms[..|terms| - 1], k);
      OnceSnoc(terms, k);
      TwiceSnoc(terms, k);
      hide Once, Twice;
    }
  }

  /** The positions of the terms that cost a receiver a lookup. */
  function LookupAt(terms: seq<Term>): set<int> {
    set i | 0 <= i < |terms| && terms[i].kind in {Include, A, Mx, Ptr, Exists, Redirect}
  }

  lemma {:induction false} LookupsAre(terms: seq<Term>)
    ensures Lookups(terms) == |LookupAt(terms)|
  {
    if terms != [] {
      var n := |terms| - 1;
      LookupsAre(terms[..n]);
      assert LookupAt(terms) == LookupAt(terms[..n]) + (if terms[n].kind in {Include, A, Mx, Ptr, Exists, Redirect} then {n} else {});
    } else {
      assert LookupAt(terms) == {};
    }
  }

  /** Term `i` comes after an "all" without being one. */
  predicate Trails(terms: seq<Term>, i: nat)
    requires i < |terms|
  {
    terms[i].kind != All && terms[i].kind != Unknown && exists j :: 0 <= j < i && terms[j].kind == All
  }

  lemma LateIs(terms: seq<Term>, i: nat)
    requires i < |terms|
    ensures Late(terms, i) <==> Trails(terms, i)
  {
    CountMeans(terms[..i], All);
    if j :| 0 <= j < i && terms[j].kind == All { assert terms[..i][j].kind == All; }
    if Once(terms[..i], All) {
      var j :| 0 <= j < i && terms[..i][j].kind == All;
      assert terms[j].kind == All;
    }
  }

  lemma {:induction false} LateWarningsAre(terms: seq<Term>, n: nat, w: Warning)
    requires n <= |terms|
    ensures w in LateWarnings(terms, n) <==> exists i :: 0 <= i < n && Trails(terms, i) && w == AfterAll(terms[i].raw)
  {
    if n > 0 {
      LateWarningsAre(terms, n - 1, w);
      LateIs(terms, n - 1);
      hide Trails, Late;
    }
  }

  /** A record is valid exactly if it starts with its version, every term is accepted, and
      "redirect" is not repeated. */
  lemma ValidExactly(v: Validators, content: string)
    ensures var p := Parsed(v, content);
            var tokens := Tokens(p.raw, IsSpace);
            && (tokens != [] && Lower(tokens[0]) == "v=spf1" ==>
                  |p.terms| == |tokens| - 1 && forall i :: 0 <= i < |p.terms| ==> p.terms[i] == ParseTerm(v, tokens[i + 1]))
            && (p.Valid() <==>
                  && tokens != [] && Lower(tokens[0]) == "v=spf1"
                  && (forall i :: 0 <= i < |p.terms| ==> p.terms[i].error.None?)
                  && !Twice(p.terms, Redirect))
  {
    hide ParseTerm, Tokens, Lower, StripTxt, Warnings, TermErrors, Count;
    var terms := Parsed(v, content).terms;
    NoTermErrors(terms);
    CountMeans(terms, Redirect);
  }

  /** Each warning about a record is given exactly when it is true. */
  lemma WarningsExactly(v: Validators, content: string)
    requires Parsed(v, content).Valid()
    ensures var p := Parsed(v, content);
            var terms := p.terms;
            && (forall token :: AfterAll(token) in p.warnings <==>
                  exists i :: 0 <= i < |terms| && Trails(terms, i) && terms[i].raw == token)
            && (SeveralAll in p.warnings <==> Twice(terms, All))
            && (RedirectIgnored in p.warnings <==> Once(terms, Redirect) && Once(terms, All))
            && (forall n :: TooManyLookups(n) in p.warnings <==> n == |LookupAt(terms)| && n > 10)
            && (NoPolicy in p.warnings <==> !Once(terms, All) && !Once(terms, Redirect))
            && (forall n :: TooLong(n) in p.warnings <==> n == |p.raw| && n > 255)
  {
    var p := Parsed(v, content);
    var terms := p.terms;
    hide Parsed, Record.Valid, Lookups, Count, LateWarnings, Summary, Trails, Once, Twice, LookupAt;
    CountMeans(terms, All);
    CountMeans(terms, Redirect);
    LookupsAre(terms);
    var summary := Summary(|p.raw|, Count(terms, All), Count(terms, Redirect), Lookups(terms));
    forall w
      ensures w in p.warnings <==>
              w in summary || exists i :: 0 <= i < |terms| && Trails(terms, i) && w == AfterAll(terms[i].raw)
      ensures w in summary <==>
              match w
              case AfterAll(_) => false
              case SeveralAll => Twice(terms, All)
              case RedirectIgnored => Once(terms, Redirect) && Once(terms, All)
              case TooManyLookups(n) => n == |LookupAt(terms)| && n > 10
              case NoPolicy => !Once(terms, All) && !Once(terms, Redirect)
              case TooLong(n) => n == |p.raw| && n > 255
    {
      WarningsOf(v, content, w);
      LateWarningsAre(terms, |terms|, w);
      SummaryMeans(|p.raw|, Count(terms, All), Count(terms, Redirect), Lookups(terms), w);
    }
  }

  lemma WarningsOf(v: Validators, content: string, w: Warning)
    requires Parsed(v, content).Valid()
    ensures var p := Parsed(v, content);
            w in p.warnings <==>
              || w in LateWarnings(p.terms, |p.terms|)
              || w in Summary(|p.raw|, Count(p.terms, All), Count(p.terms, Redirect), Lookups(p.terms))
  {
    hide ParseTerm, Tokens, Lower, StripTxt, Summary, LateWarnings, Count, Lookups;
  }

  lemma SummaryMeans(length: nat, alls: nat, redirects: nat, lookups: nat, w: Warning)
    ensures w in Summary(length, alls, redirects, lookups) <==>
            match w
            case AfterAll(_) => false
            case SeveralAll => alls > 1
            case RedirectIgnored => redirects > 0 && alls > 0
            case TooManyLookups(n) => n == lookups && n > 10
            case NoPolicy => alls == 0 && redirects == 0
            case TooLong(n) => n == length && n > 255
  {
  }
}
