/** The record edit form: building a record's content from form fields and taking it apart again
    (app/mojodns/dnsutil.py), and showing an owner name relative to its zone and reading it back
    (app/mojodns/routers/zones.py, app/mojodns/idn.py). */
module EditForm {
  import opened Wrappers
  import opened Text
  import opened Txt
  import opened SpfRecord
  import opened Records

  // ---- integers ----------------------------------------------------------------------------

  /** An integer in decimal. */
  function ShowInt(n: int): string {
    if n < 0 then "-" + ShowNat(-n) else ShowNat(n)
  }

  /** The value of ASCII digits with single underscores between them. */
  function NatOf(s: string): Option<nat> {
    if s == "" then None
    else
      var n := |s| - 1;
      if !('0' <= s[n] <= '9') then None
      else
        var d := (s[n] - '0') as nat;
        if n == 0 then Some(d)
        else
          var front := if s[n - 1] == '_' then s[..n - 1] else s[..n];
          match NatOf(front)
          case None => None
          case Some(m) => Some(10 * m + d)
  }

  /** A text read as an integer: white space around it and a sign are allowed; None is a refusal. */
  function IntOf(s: string): Option<int> {
    var t := Strip(s);
    var digits := if t != "" && (t[0] == '+' || t[0] == '-') then t[1..] else t;
    match NatOf(digits)
    case None => None
    case Some(n) =>
      var value: int := n;
      Some(if t != "" && t[0] == '-' then -value else value)
  }

  lemma {:induction false} NatOfShow(n: nat)
    ensures NatOf(ShowNat(n)) == Some(n)
  {
    if n >= 10 {
      NatOfShow(n / 10);
      ShowNatDigits(n / 10);
      var s := ShowNat(n);
      assert s[..|s| - 1] == ShowNat(n / 10);
    }
  }

  lemma IntOfText(sign: string, digits: string, k: nat)
    requires digits != "" && (forall i :: 0 <= i < |digits| ==> '0' <= digits[i] <= '9')
    requires NatOf(digits) == Some(k) && (sign == "" || sign == "-")
    ensures var v: int := k; IntOf(sign + digits) == Some(if sign == "-" then -v else v)
    ensures ' ' !in sign + digits && sign + digits != ""
  {
    hide Strip, NatOf;
    var s := sign + digits;
    assert forall i :: 0 <= i < |s| ==> s[i] == '-' || '0' <= s[i] <= '9';
    SignedIsTrimmed(s);
    if sign == "-" {
      assert s[1..] == digits;
    } else {
      assert s == digits && s[0] != '-' && s[0] != '+';
    }
  }

  lemma SignedIsTrimmed(s: string)
    requires forall i :: 0 <= i < |s| ==> s[i] == '-' || '0' <= s[i] <= '9'
    ensures Strip(s) == s
  {
    NothingToTrim(s, IsSpace);
  }

  lemma IntOfShow(n: int)
    ensures IntOf(ShowInt(n)) == Some(n)
    ensures ShowInt(n) != "" && ' ' !in ShowInt(n)
  {
    hide IntOf, ShowNat, NatOf;
    var k: nat := if n < 0 then -n else n;
    ShowNatDigits(k);
    NatOfShow(k);
    IntOfText(if n < 0 then "-" else "", ShowNat(k), k);
    assert "" + ShowNat(k) == ShowNat(k);
  }

  // ---- content -----------------------------------------------------------------------------

  /** `dotted`: stripped, with a trailing dot. */
  function Dotted(host: string): string {
    var h := Strip(host);
    if h != "" && h[|h| - 1] == '.' then h else h + "."
  }

  predicate HasPriority(rtype: string) {
    rtype == "MX" || rtype == "SRV"
  }

  predicate IsPlainHost(rtype: string) {
    rtype == "CNAME" || rtype == "NS" || rtype == "PTR"
  }

  /** The last field of an SRV record is a host name. */
  function DotLast(parts: seq<string>): seq<string> {
    if parts == [] then [] else parts[..|parts| - 1] + [Dotted(parts[|parts| - 1])]
  }

  function BuildContent(rtype: string, data: string, prio: Option<int>): string {
    var d := Strip(data);
    var p := if prio.Some? then prio.value else 0;
    if rtype == "TXT" then QuoteTxt(d)
    else if IsPlainHost(rtype) then Dotted(d)
    else if rtype == "MX" then ShowInt(p) + " " + Dotted(d)
    else if rtype == "SRV" then ShowInt(p) + " " + Join(DotLast(Tokens(d, IsSpace)), " ")
    else d
  }

  /** The priority and the rest, as the edit form shows them. */
  function SplitPrio(rtype: string, content: string): (Option<int>, string) {
    if HasPriority(rtype) then
      var i := Find(content, ' ');
      var rest := if i < |content| then content[i + 1..] else "";
      match IntOf(content[..i])
      case None => (None, content)
      case Some(p) => (Some(p), rest)
    else (None, content)
  }

  lemma StripTwice(s: string)
    ensures Strip(Strip(s)) == Strip(s)
  {
    TrimIsTrimmed(s, IsSpace);
    TrimIsIdentity(Strip(s), IsSpace);
  }

  lemma StripIsTrim(s: string)
    ensures Strip(s) == Trim(s, IsSpace)
  {
  }

  lemma DottedTwice(host: string)
    ensures Dotted(Dotted(host)) == Dotted(host) && Strip(Dotted(host)) == Dotted(host)
  {
    TrimIsTrimmed(host, IsSpace);
    StripIsTrim(host);
    hide Strip, Trim;
    var h, d := Strip(host), Dotted(host);
    assert Trimmed(h, IsSpace);
    assert d[|d| - 1] == '.' && !IsSpace('.') && (d[0] == '.' || d[0] == h[0]);
    TrimIsIdentity(d, IsSpace);
    assert Strip(d) == d by { StripIsTrim(d); }
  }

  lemma DottedToken(t: string)
    requires IsToken(t, IsSpace)
    ensures IsToken(Dotted(t), IsSpace)
  {
    assert t[0] in t && t[|t| - 1] in t;
    TrimIsIdentity(t, IsSpace);
  }

  lemma PrioritySplits(rtype: string, p: int, rest: string)
    requires HasPriority(rtype)
    ensures SplitPrio(rtype, ShowInt(p) + " " + rest) == (Some(p), rest)
  {
    IntOfShow(p);
    var s, c := ShowInt(p), ShowInt(p) + " " + rest;
    hide ShowInt, IntOf;
    assert c == s + [' '] + rest && c[..|s|] == s;
    FindAt(c, ' ', |s|);
    assert c[|s| + 1..] == rest;
  }

  lemma ServiceStable(d: string)
    ensures var rest := Join(DotLast(Tokens(d, IsSpace)), " ");
            Strip(rest) == rest && DotLast(Tokens(rest, IsSpace)) == DotLast(Tokens(d, IsSpace))
  {
    var parts := Tokens(d, IsSpace);
    TokensAreTokens(d, IsSpace);
    NoTokens(IsSpace);
    var dotted := DotLast(parts);
    var rest := Join(dotted, " ");
    if parts != [] {
      var n := |parts| - 1;
      assert parts[n] in parts;
      DottedToken(parts[n]);
      DottedTwice(parts[n]);
      forall t | t in dotted ensures IsToken(t, IsSpace) {
        assert t in parts || t == Dotted(parts[n]);
      }
      hide Dotted;
      forall i | 0 <= i < |dotted| ensures dotted[i] != "" { assert dotted[i] in dotted; }
      JoinedEnds(dotted, " ");
      EndsOfTokens(dotted);
      TrimIsIdentity(rest, IsSpace);
      SpaceGlue();
      TokensJoin(dotted, " ", IsSpace);
    }
  }

  // ---- what built content says -------------------------------------------------------------

  /** `full` is the host name without outer spaces, with one dot added if it ends in none. */
  predicate IsHost(full: string, host: string) {
    var h := Strip(host);
    full == h + (if h != "" && h[|h| - 1] == '.' then "" else ".")
  }

  lemma DottedIsHost(host: string)
    ensures IsHost(Dotted(host), host) && IsHost(Dotted(Strip(host)), host)
  {
    StripTwice(host);
    hide Strip;
    var h := Strip(host);
    assert h + "" == h;
  }

  /** The content of an alias, name server or pointer is its host. */
  lemma HostContent(rtype: string, data: string, prio: Option<int>)
    requires rtype == "CNAME" || rtype == "NS" || rtype == "PTR"
    ensures IsHost(BuildContent(rtype, data, prio), data)
  {
    DottedIsHost(data);
    hide Strip, Dotted, IsHost;
  }

  /** The content of a mail exchanger is its priority, 0 if none is given, and its host. */
  lemma MailContent(data: string, prio: Option<int>)
    ensures var (p, host) := SplitPrio("MX", BuildContent("MX", data, prio));
            p == Some(if prio.Some? then prio.value else 0) && IsHost(host, data)
  {
    DottedIsHost(data);
    PrioritySplits("MX", if prio.Some? then prio.value else 0, Dotted(Strip(data)));
    hide Strip, Dotted, IsHost, ShowInt, SplitPrio;
  }

  lemma DottedTokens(d: string)
    ensures Tokens(Join(DotLast(Tokens(d, IsSpace)), " "), IsSpace) == DotLast(Tokens(d, IsSpace))
  {
    var parts := Tokens(d, IsSpace);
    TokensAreTokens(d, IsSpace);
    NoTokens(IsSpace);
    if parts != [] {
      var n := |parts| - 1;
      assert parts[n] in parts;
      DottedToken(parts[n]);
      forall t | t in DotLast(parts) ensures IsToken(t, IsSpace) {
        assert t in parts || t == Dotted(parts[n]);
      }
      hide Dotted, IsToken, Tokens, Join;
      SpaceGlue();
      TokensJoin(DotLast(parts), " ", IsSpace);
    }
  }

  /** The content of a service record is its priority, 0 if none is given, and the fields of its
      data, the last one as a host. */
  lemma ServiceContent(data: string, prio: Option<int>)
    ensures var (p, rest) := SplitPrio("SRV", BuildContent("SRV", data, prio));
            var before, after := Tokens(data, IsSpace), Tokens(rest, IsSpace);
            var n := |before|;
            && p == Some(if prio.Some? then prio.value else 0)
            && |after| == n && (forall i :: 0 <= i < n - 1 ==> after[i] == before[i])
            && (n > 0 ==> IsHost(after[n - 1], before[n - 1]))
  {
    var p := if prio.Some? then prio.value else 0;
    var before := Tokens(data, IsSpace);
    var rest := Join(DotLast(before), " ");
    ServiceText(data, prio);
    DottedTokens(data);
    PrioritySplits("SRV", p, rest);
    LastIsHost(before);
    hide BuildContent, IsHost, ShowInt, SplitPrio, Tokens, Join, DotLast;
  }

  lemma ServiceText(data: string, prio: Option<int>)
    ensures BuildContent("SRV", data, prio) ==
            ShowInt(if prio.Some? then prio.value else 0) + " " + Join(DotLast(Tokens(data, IsSpace)), " ")
  {
    TokensOfTrim(data, IsSpace);
    StripIsTrim(data);
    hide Strip, Trim, Tokens, Join, DotLast, ShowInt;
  }

  lemma LastIsHost(parts: seq<string>)
    ensures var n, dotted := |parts|, DotLast(parts);
            && |dotted| == n && (forall i :: 0 <= i < n - 1 ==> dotted[i] == parts[i])
            && (n > 0 ==> IsHost(dotted[n - 1], parts[n - 1]))
  {
    if parts != [] { DottedIsHost(parts[|parts| - 1]); }
    hide IsHost, Dotted;
  }

  /** The content of a text record unquotes to its text, unless that looks quoted; then it is kept
      as it is. */
  lemma TextContent(data: string, prio: Option<int>)
    ensures var c := BuildContent("TXT", data, prio);
            if IsQuoted(Strip(data)) then c == Strip(data) else StripTxt(c) == Strip(data)
  {
    StripTwice(data);
    hide Strip, StripTxt;
    if !IsQuoted(Strip(data)) { StripOfQuote(Strip(data)); }
  }

  /** The content of every other type is its data without outer spaces. */
  lemma PlainDataContent(rtype: string, data: string, prio: Option<int>)
    requires rtype !in {"CNAME", "NS", "PTR", "MX", "SRV", "TXT"}
    ensures BuildContent(rtype, data, prio) == Strip(data)
  {
    hide Strip;
  }

  /** Splitting built content for the form and building it again gives it back, for every type,
      data and priority. */
  lemma BuildIsFixpoint(rtype: string, data: string, prio: Option<int>)
    ensures var c := BuildContent(rtype, data, prio);
            BuildContent(rtype, SplitPrio(rtype, c).1, SplitPrio(rtype, c).0) == c
  {
    hide Strip, ShowInt, QuoteTxt, Dotted, Tokens, Join, IntOf, DotLast, SplitPrio;
    var d := Strip(data);
    var p := if prio.Some? then prio.value else 0;
    StripTwice(data);
    if HasPriority(rtype) {
      PriorityFixpoint(rtype, d, p);
    } else {
      NoPriority(rtype, BuildContent(rtype, data, prio));
      if rtype == "TXT" {
        QuoteTxtIsQuoted(d);
        QuotedIsTrimmed(QuoteTxt(d));
      } else if IsPlainHost(rtype) {
        DottedTwice(d);
      }
    }
  }

  lemma NoPriority(rtype: string, content: string)
    requires !HasPriority(rtype)
    ensures SplitPrio(rtype, content) == (None, content)
  {
  }

  lemma PriorityFixpoint(rtype: string, d: string, p: int)
    requires HasPriority(rtype) && Strip(d) == d
    ensures var c := BuildContent(rtype, d, Some(p));
            BuildContent(rtype, SplitPrio(rtype, c).1, SplitPrio(rtype, c).0) == c
  {
    hide Strip, ShowInt, Dotted, Tokens, Join, IntOf, DotLast, SplitPrio;
    if rtype == "MX" {
      PrioritySplits(rtype, p, Dotted(d));
      DottedTwice(d);
    } else {
      PrioritySplits(rtype, p, Join(DotLast(Tokens(d, IsSpace)), " "));
      ServiceStable(d);
    }
  }

  // ---- owner names -------------------------------------------------------------------------

  /** The IDNA codec: labels that are not ASCII are encoded by `encode`, labels that start with
      "xn--" are shown by `decode`. */
  datatype Idna = Idna(encode: string -> string, decode: string -> string)

  predicate IsAscii(s: string) {
    forall c :: c in s ==> c as int < 128
  }

  predicate IsPunycode(lbl: string) {
    |lbl| >= 4 && lbl[..4] == "xn--"
  }

  function LabelToAscii(idna: Idna, lbl: string): string {
    if IsAscii(lbl) then Lower(lbl) else idna.encode(lbl)
  }

  function LabelToUnicode(idna: Idna, lbl: string): string {
    if IsPunycode(lbl) then idna.decode(lbl) else lbl
  }

  function AsciiLabels(idna: Idna, labels: seq<string>): seq<string> {
    if labels == [] then []
    else (if labels[0] != "" then [LabelToAscii(idna, labels[0])] else []) + AsciiLabels(idna, labels[1..])
  }

  function UnicodeLabels(idna: Idna, labels: seq<string>): seq<string> {
    if labels == [] then [] else [LabelToUnicode(idna, labels[0])] + UnicodeLabels(idna, labels[1..])
  }

  predicate EndsWithDot(s: string) {
    s != "" && s[|s| - 1] == '.'
  }

  function ToAscii(idna: Idna, name: string): string {
    var n := Strip(name);
    Join(AsciiLabels(idna, Split(Bare(n), '.')), ".") + (if EndsWithDot(n) then "." else "")
  }

  function ToUnicode(idna: Idna, name: string): string {
    Join(UnicodeLabels(idna, Split(Bare(name), '.')), ".") + (if EndsWithDot(name) then "." else "")
  }

  predicate HasSuffix(s: string, suffix: string) {
    |s| >= |suffix| && s[|s| - |suffix|..] == suffix
  }

  lemma HasSuffixExactly(s: string, suffix: string)
    ensures HasSuffix(s, suffix) <==> exists front :: s == front + suffix
  {
    if HasSuffix(s, suffix) {
      assert s == s[..|s| - |suffix|] + suffix;
    }
  }

  /** `rel_name`: the name shown in the form, "@" for the apex. */
  function RelName(idna: Idna, name: string, zone: string): string {
    var bare, zbare := Bare(name), Bare(zone);
    if bare == zbare then "@"
    else if HasSuffix(bare, "." + zbare) then ToUnicode(idna, bare[..|bare| - |zbare| - 1])
    else ToUnicode(idna, bare)
  }

  /** `fqdn`: the owner name a host field stands for. */
  function Fqdn(idna: Idna, host: string, zone: string): string {
    var h := Strip(host);
    if h == "@" || h == "" then Canonical(zone) else Canonical(ToAscii(idna, h) + "." + Bare(zone))
  }

  /** A lower-case ASCII label without spaces, that is not punycode. */
  predicate CleanLabel(lbl: string) {
    && lbl != "" && !IsPunycode(lbl)
    && forall i :: 0 <= i < |lbl| ==> lbl[i] as int < 128 && LowerChar(lbl[i]) == lbl[i] && !IsSpace(lbl[i])
  }

  predicate CleanLabels(labels: seq<string>) {
    forall l :: l in labels ==> CleanLabel(l)
  }

  /** A canonical absolute name made of clean labels. */
  predicate CleanName(name: string) {
    name == Bare(name) + "." && CleanLabels(Split(Bare(name), '.'))
  }

  lemma {:induction false} CleanLabelsConvert(idna: Idna, labels: seq<string>)
    requires CleanLabels(labels)
    ensures AsciiLabels(idna, labels) == labels && UnicodeLabels(idna, labels) == labels
  {
    if labels != [] {
      assert CleanLabel(labels[0]) by { assert labels[0] in labels; }
      assert Lower(labels[0]) == labels[0];
      assert IsAscii(labels[0]);
      hide CleanLabel, IsAscii, IsPunycode;
      assert CleanLabels(labels[1..]);
      CleanLabelsConvert(idna, labels[1..]);
    }
  }

  predicate CleanChar(c: char) {
    LowerChar(c) == c && !IsSpace(c)
  }

  lemma CleanLabelChars(lbl: string)
    requires CleanLabel(lbl)
    ensures lbl != "" && forall i :: 0 <= i < |lbl| ==> CleanChar(lbl[i])
  {
  }

  /** A dotted text of clean labels is clean throughout. */
  lemma {:induction false} CleanText(s: string)
    requires CleanLabels(Split(s, '.'))
    ensures s != "" && s[0] != '.' && s[|s| - 1] != '.'
    ensures forall i :: 0 <= i < |s| ==> CleanChar(s[i])
    decreases |s|
  {
    var i := Find(s, '.');
    var parts := Split(s, '.');
    FindIs(s, '.');
    SplitIs(s, '.');
    assert parts[0] in parts && parts == if i == |s| then [s] else [s[..i]] + Split(s[i + 1..], '.');
    hide CleanLabel, CleanChar, Split, Find;
    CleanLabelChars(parts[0]);
    if i == |s| {
      assert s[0] != '.' && s[|s| - 1] != '.';
    } else {
      var rest := s[i + 1..];
      assert s == s[..i] + "." + rest;
      assert forall l :: l in Split(rest, '.') ==> l in parts;
      CleanText(rest);
      CleanJoined(s, s[..i], rest);
    }
  }

  lemma CleanJoined(s: string, first: string, rest: string)
    requires s == first + "." + rest && first != "" && first[0] != '.' && rest != "" && rest[|rest| - 1] != '.'
    requires forall i :: 0 <= i < |first| ==> CleanChar(first[i])
    requires forall i :: 0 <= i < |rest| ==> CleanChar(rest[i])
    ensures s != "" && s[0] != '.' && s[|s| - 1] != '.'
    ensures forall i :: 0 <= i < |s| ==> CleanChar(s[i])
  {
    assert CleanChar('.');
    hide CleanChar;
  }

  lemma CleanTextFacts(s: string)
    requires CleanLabels(Split(s, '.'))
    ensures Lower(s) == s && Strip(s) == s && Bare(s) == s && !EndsWithDot(s)
    ensures Trimmed(s, IsSpace) && Trimmed(s, IsDot)
  {
    CleanText(s);
    hide CleanLabels, Split;
    assert Lower(s) == s;
    NothingToTrim(s, IsSpace);
    assert TrimRight(s, IsDot) == s;
  }

  lemma {:induction false} SplitConcat(a: string, b: string)
    ensures Split(a + "." + b, '.') == Split(a, '.') + Split(b, '.')
    decreases |a|
  {
    hide Split;
    var s, i := a + "." + b, Find(a, '.');
    FindIs(a, '.');
    if i < |a| {
      assert s[..i] == a[..i] && s[i] == '.';
      FindAt(s, '.', i);
      assert s[i + 1..] == a[i + 1..] + "." + b;
      SplitConcat(a[i + 1..], b);
      SplitAt(s, i);
      SplitAt(a, i);
    } else {
      assert s[..|a|] == a;
      FindAt(s, '.', |a|);
      assert s[|a| + 1..] == b;
      SplitAt(s, |a|);
      SplitNone(a);
    }
  }

  lemma SplitNone(s: string)
    requires '.' !in s
    ensures Split(s, '.') == [s]
  {
    FindIs(s, '.');
  }

  lemma SplitAt(s: string, i: nat)
    requires i < |s| && Find(s, '.') == i
    ensures Split(s, '.') == [s[..i]] + Split(s[i + 1..], '.')
  {
  }

  lemma CleanPieces(a: string, b: string)
    requires CleanLabels(Split(a + "." + b, '.'))
    ensures CleanLabels(Split(a, '.')) && CleanLabels(Split(b, '.'))
  {
    hide CleanLabel, Split;
    SplitConcat(a, b);
  }

  lemma CleanRelative(idna: Idna, rel: string)
    requires CleanLabels(Split(rel, '.'))
    ensures ToUnicode(idna, rel) == rel && ToAscii(idna, rel) == rel
  {
    hide CleanLabels, Strip, Bare;
    CleanTextFacts(rel);
    CleanLabelsConvert(idna, Split(rel, '.'));
    JoinSplit(rel, '.');
  }

  /** Reading back the shown name of a clean in-zone owner gives the owner, exactly unless its
      relative part is a single "@", which the form takes for the apex. */
  lemma NameRoundTripExactly(idna: Idna, name: string, zone: string)
    requires CleanName(name) && CleanName(zone)
    requires name == zone || HasSuffix(Bare(name), "." + Bare(zone))
    ensures Fqdn(idna, RelName(idna, name, zone), zone) == name
            <==> name == zone || Bare(name) != "@." + Bare(zone)
  {
    hide CleanLabels, Strip, Bare, Canonical, ToAscii, ToUnicode, Split;
    var b, zb := Bare(name), Bare(zone);
    CleanTextFacts(zb);
    CanonicalOfBare(zone);
    AtSign();
    if b == zb {
      assert RelName(idna, name, zone) == "@";
    } else {
      var rel := b[..|b| - |zb| - 1];
      assert b == rel + "." + zb;
      CleanPieces(rel, zb);
      CleanRelative(idna, rel);
      CleanTextFacts(rel);
      assert RelName(idna, name, zone) == rel;
      if rel != "@" {
        CleanNotEmpty(rel);
        assert Fqdn(idna, rel, zone) == Canonical(b);
        CleanTextFacts(b);
        CanonicalOfClean(b);
      } else {
        assert |name| == |zone| + 2;
      }
    }
  }

  /** A host field is "@" or nothing for the apex, and otherwise stands in front of the zone. */
  lemma FqdnOfClean(idna: Idna, host: string, zone: string)
    requires CleanName(zone)
    ensures Fqdn(idna, "@", zone) == zone == Fqdn(idna, "", zone)
    ensures CleanLabels(Split(host, '.')) && host != "@" ==> Fqdn(idna, host, zone) == host + "." + zone
  {
    hide CleanLabels, Strip, Bare, Canonical, ToAscii, Split, IsSpace;
    AtSign();
    StripNothing();
    CanonicalOfBare(zone);
    if CleanLabels(Split(host, '.')) && host != "@" {
      var b, zb := host + "." + Bare(zone), Bare(zone);
      CleanRelative(idna, host);
      CleanTextFacts(host);
      CleanNotEmpty(host);
      JoinedClean(host, zb);
      CleanTextFacts(b);
      CanonicalOfClean(b);
      assert b + "." == host + "." + zone;
    }
  }

  lemma StripNothing()
    ensures Strip("") == ""
  {
  }

  lemma JoinedClean(a: string, b: string)
    requires CleanLabels(Split(a, '.')) && CleanLabels(Split(b, '.'))
    ensures CleanLabels(Split(a + "." + b, '.'))
  {
    hide CleanLabel, Split;
    SplitConcat(a, b);
  }

  lemma BareBelow(rel: string, zone: string)
    requires CleanName(zone) && CleanLabels(Split(rel, '.'))
    ensures Bare(rel + "." + zone) == rel + "." + Bare(zone)
  {
    hide CleanLabels, CleanLabel, Split;
    var b := rel + "." + Bare(zone);
    JoinedClean(rel, Bare(zone));
    CleanTextFacts(b);
    assert rel + "." + zone == b + ".";
    DropDot(b) by { CleanText(b); }
  }

  lemma RelNameBelow(idna: Idna, rel: string, zone: string)
    requires CleanName(zone) && CleanLabels(Split(rel, '.'))
    ensures RelName(idna, rel + "." + zone, zone) == rel
  {
    hide CleanLabels, CleanLabel, ToAscii, ToUnicode, Split, Bare, CleanName;
    BareBelow(rel, zone);
    CleanRelative(idna, rel);
    var b, zb := rel + "." + Bare(zone), Bare(zone);
    assert b[|rel|..] == "." + zb && b[..|rel|] == rel;
  }

  /** The form shows "@" for the apex, an owner below the zone relative to it, and any other owner
      in full. */
  lemma RelNameOfClean(idna: Idna, rel: string, other: string, zone: string)
    requires CleanName(zone) && CleanLabels(Split(rel, '.')) && CleanName(other)
    requires other != zone && !HasSuffix(Bare(other), "." + Bare(zone))
    ensures RelName(idna, zone, zone) == "@"
    ensures RelName(idna, rel + "." + zone, zone) == rel
    ensures RelName(idna, other, zone) + "." == other
  {
    hide CleanLabels, CleanLabel, ToAscii, ToUnicode, Split, Bare, HasSuffix;
    RelNameBelow(idna, rel, zone);
    CleanRelative(idna, Bare(other));
  }

  /** Names are converted label by label: ASCII labels to lower case, others by the codec. */
  lemma {:induction false} AsciiLabelwise(idna: Idna, labels: seq<string>)
    requires forall i :: 0 <= i < |labels| ==> labels[i] != ""
    ensures |AsciiLabels(idna, labels)| == |labels|
    ensures forall i :: 0 <= i < |labels| ==>
              AsciiLabels(idna, labels)[i] ==
                if forall c :: c in labels[i] ==> c < '\U{80}' then Lower(labels[i]) else idna.encode(labels[i])
  {
    if labels != [] {
      hide IsAscii, Lower;
      AsciiLabelwise(idna, labels[1..]);
    }
  }

  /** ... and back: labels that start with "xn--" by the codec, others as they are. */
  lemma {:induction false} UnicodeLabelwise(idna: Idna, labels: seq<string>)
    ensures |UnicodeLabels(idna, labels)| == |labels|
    ensures forall i :: 0 <= i < |labels| ==>
              UnicodeLabels(idna, labels)[i] ==
                if |labels[i]| >= 4 && labels[i][..4] == "xn--" then idna.decode(labels[i]) else labels[i]
  {
    if labels != [] {
      UnicodeLabelwise(idna, labels[1..]);
    }
  }

  /** The owner "@.z." of zone "z." is shown as "@" and read back as the apex. */
  lemma AtSignBroken(idna: Idna)
    ensures CleanName("@.z.") && CleanName("z.") && Fqdn(idna, RelName(idna, "@.z.", "z."), "z.") != "@.z."
  {
    DropDot("z");
    DropDot("@.z");
    assert "z" + "." == "z." && "@.z" + "." == "@.z.";
    CleanZ();
    hide CleanLabels, Split, Fqdn, RelName, Bare;
    assert "@.z"[1..] == "." + "z" && "@.z" == "@." + "z";
    NameRoundTripExactly(idna, "@.z.", "z.");
  }

  lemma CleanZ()
    ensures CleanLabels(Split("z", '.')) && CleanLabels(Split("@.z", '.'))
  {
    assert ["@", "z"][1..] == ["z"] && Join(["z"], ".") == "z" && Join(["@", "z"], ".") == "@.z";
    SplitJoin(["z"], '.');
    SplitJoin(["@", "z"], '.');
    assert CleanLabel("z") && CleanLabel("@");
  }

  lemma AtSign()
    ensures Strip("@") == "@"
  {
    TrimIsIdentity("@", IsSpace);
  }

  lemma CleanNotEmpty(s: string)
    requires CleanLabels(Split(s, '.'))
    ensures s != ""
  {
    CleanText(s);
  }

  lemma CanonicalOfBare(name: string)
    requires CleanName(name)
    ensures Canonical(name) == name
  {
    hide CleanLabels, Split, Lower;
    var b := Bare(name);
    CleanTextFacts(b);
    CleanText(b);
    AppendDotTrimmed(b);
  }

  // ---- which forms give canonical names ----------------------------------------------------

  /** A host field that gives a canonical owner name: the apex, or text in which no space follows
      the dots at its front. */
  predicate WellSpelled(idna: Idna, host: string) {
    var h := Strip(host);
    || h == "@" || h == ""
    || FrontOf(ToAscii(idna, h)) == "" || !IsSpace(FrontOf(ToAscii(idna, h))[0])
  }

  lemma ZoneFront(zone: string)
    requires Canonical(zone) == zone
    ensures var b := Bare(zone);
            b != "" ==> b[0] != '.' && b[|b| - 1] != '.' && !IsSpace(b[0])
  {
    CanonicalTwiceExactly(zone);
    var t := Core(zone);
    TrimIsTrimmed(Strip(zone), IsDot);
    LowerKeepsSpaces(t);
    hide Strip, Trim, Lower, IsSpace;
    DropDot(Lower(t));
  }

  /** `fqdn` gives a name that stays as it is when made canonical again, as it is before it is
      written, exactly for well-spelled hosts. */
  lemma FqdnCanonicalExactly(idna: Idna, host: string, zone: string)
    requires Canonical(zone) == zone
    ensures Canonical(Fqdn(idna, host, zone)) == Fqdn(idna, host, zone) <==> WellSpelled(idna, host)
  {
    hide Canonical, Strip, Bare, ToAscii, IsSpace, TrimLeft;
    var h := Strip(host);
    if h != "@" && h != "" {
      var a, b := ToAscii(idna, h), Bare(zone);
      var name := a + "." + b;
      CanonicalTwiceExactly(name);
      ZoneFront(zone);
      FrontOfJoined(a, b);
      SpaceIsNoDot();
      assert FrontOf(a) != "" ==> FrontOf(name)[|FrontOf(a)|] == '.';
      StartsCleanIs(name);
    }
  }

  lemma SpaceIsNoDot()
    ensures !IsSpace('.') && !IsDot(' ')
  {
  }

  lemma FrontOfJoined(a: string, b: string)
    requires b != "" ==> b[0] != '.' && !IsSpace(b[0])
    ensures FrontOf(a + "." + b) == if FrontOf(a) != "" then FrontOf(a) + "." + b else b
  {
    hide TrimLeft;
    var s, tail := TrimLeft(a, IsSpace), "." + b;
    assert a + "." + b == a + tail;
    TrimLeftConcat(a, tail, IsSpace);
    DotFirst(b);
    assert TrimLeft(a + tail, IsSpace) == s + tail;
    TrimLeftConcat(s, tail, IsDot);
    assert FrontOf(a) + tail == FrontOf(a) + "." + b;
  }

  lemma DotFirst(b: string)
    requires b != "" ==> b[0] != '.'
    ensures TrimLeft("." + b, IsSpace) == "." + b && TrimLeft("." + b, IsDot) == b
  {
    assert ("." + b)[1..] == b;
  }

  /** What the record and SPF forms send: owner names and contents of existing records as given,
      new ones by host field and data; `raw` is the unquoted text of a valid SPF record. */
  datatype Form =
    | CreateForm(host: string, rtype: string, ttl: nat, data: string, prio: Option<int>)
    | UpdateForm(origName: string, rtype: string, origContent: string, host: string, data: string, prio: Option<int>, ttl: nat)
    | DeleteForm(name: string, rtype: string, content: string)
    | SpfForm(name: string, origContent: string, raw: string, ttl: nat)

  /** The edit a handler makes of a form. */
  function EditOf(idna: Idna, zone: string, f: Form): Edit {
    match f
    case CreateForm(host, rtype, ttl, data, prio) =>
      Create(Fqdn(idna, host, zone), rtype, ttl, BuildContent(rtype, data, prio))
    case UpdateForm(origName, rtype, origContent, host, data, prio, ttl) =>
      Update(origName, rtype, origContent, Fqdn(idna, host, zone), BuildContent(rtype, data, prio), ttl)
    case DeleteForm(name, rtype, content) => Delete(name, rtype, content)
    case SpfForm(name, origContent, raw, ttl) => SaveSpf(Canonical(name), origContent, QuoteTxt(raw), ttl)
  }

  predicate WellSpelledForm(idna: Idna, f: Form) {
    match f
    case CreateForm(host, _, _, _, _) => WellSpelled(idna, host)
    case UpdateForm(origName, _, _, host, _, _, _) => WellSpelled(idna, host) && Canonical(origName) == origName
    case DeleteForm(name, _, _) => Canonical(name) == name
    case SpfForm(name, _, _, _) => StartsClean(name)
  }

  /** A form names canonical owners exactly when it is well spelled. */
  lemma FormNamesExactly(idna: Idna, zone: string, f: Form)
    requires Canonical(zone) == zone
    ensures CanonicalNames(EditOf(idna, zone, f)) <==> WellSpelledForm(idna, f)
  {
    hide Canonical, Fqdn, WellSpelled, StartsClean, BuildContent, QuoteTxt;
    match f
    case CreateForm(host, _, _, _, _) => FqdnCanonicalExactly(idna, host, zone);
    case UpdateForm(_, _, _, host, _, _, _) => FqdnCanonicalExactly(idna, host, zone);
    case DeleteForm(_, _, _) =>
    case SpfForm(name, _, _, _) => CanonicalTwiceExactly(name);
  }

  function EditsOf(idna: Idna, zone: string, forms: seq<Form>): (edits: seq<Edit>)
    ensures |edits| == |forms| && forall i :: 0 <= i < |forms| ==> edits[i] == EditOf(idna, zone, forms[i])
  {
    seq(|forms|, i requires 0 <= i < |forms| => EditOf(idna, zone, forms[i]))
  }

  /** Any sequence of well-spelled forms inserts and removes what it says on the flat set of
      records, and nothing else. */
  lemma FormsRefine(idna: Idna, zone: string, rr: RRsets, forms: seq<Form>)
    requires Sound(rr) && Canonical(zone) == zone
    requires forall i :: 0 <= i < |forms| ==> WellSpelledForm(idna, forms[i])
    ensures var edits := EditsOf(idna, zone, forms);
            FlatOf(ApplyAll(rr, edits)) == FlatApplyAll(FlatOf(rr), edits) && Sound(ApplyAll(rr, edits))
  {
    hide Canonical, Sound, ApplyAll, FlatApplyAll, WellSpelledForm, EditOf, CanonicalNames;
    var edits := EditsOf(idna, zone, forms);
    forall i | 0 <= i < |edits| ensures CanonicalNames(edits[i]) {
      FormNamesExactly(idna, zone, forms[i]);
    }
    EditsRefine(rr, edits);
  }

  /** The host ". . .x" of zone "z." gives " .x.z.", which is written as "x.z.". */
  lemma SpacedHost(idna: Idna)
    ensures Fqdn(idna, ". . .x", "z.") == " .x.z." && Canonical(" .x.z.") == "x.z."
  {
    SpacedAscii(idna);
    SpacedTrimmed();
    SpacedCanonical();
    BareZ();
    hide Canonical, ToAscii, Strip, Bare;
    assert " . .x" + "." + "z" == " . .x.z";
  }

  lemma BareZ()
    ensures Bare("z.") == "z"
  {
    assert "z" + "." == "z.";
    DropDot("z");
  }

  lemma SpacedTrimmed()
    ensures Strip(". . .x") == ". . .x" && Bare(". . .x") == ". . .x"
  {
    TrimIsIdentity(". . .x", IsSpace);
  }

  lemma SpacedAscii(idna: Idna)
    ensures ToAscii(idna, ". . .x") == " . .x"
  {
    var parts := ["", " ", " ", "x"];
    SpacedTrimmed();
    SpacedJoin();
    PlainLabels(idna);
    SpacedParts();
    hide Strip, Bare, Split, Join, LabelToAscii;
    assert parts[1..] == [" ", " ", "x"] && [" ", " ", "x"][1..] == [" ", "x"] && [" ", "x"][1..] == ["x"] && ["x"][1..] == [];
    assert AsciiLabels(idna, []) == [];
    assert AsciiLabels(idna, ["x"]) == ["x"];
    assert AsciiLabels(idna, [" ", "x"]) == [" ", "x"];
    assert AsciiLabels(idna, [" ", " ", "x"]) == [" ", " ", "x"];
    assert AsciiLabels(idna, parts) == [" ", " ", "x"];
    assert !EndsWithDot(". . .x") && " . .x" + "" == " . .x";
  }

  lemma SpacedParts()
    ensures Split(". . .x", '.') == ["", " ", " ", "x"]
  {
    SpacedJoin();
    hide Join;
    SplitJoin(["", " ", " ", "x"], '.');
  }

  lemma PlainLabels(idna: Idna)
    ensures LabelToAscii(idna, " ") == " " && LabelToAscii(idna, "x") == "x"
  {
    assert Lower(" ") == " " && Lower("x") == "x" && IsAscii(" ") && IsAscii("x");
  }

  lemma SpacedJoin()
    ensures Join(["", " ", " ", "x"], ".") == ". . .x" && Join([" ", " ", "x"], ".") == " . .x"
  {
    var t := ["x"];
    assert Join(t, ".") == "x";
    assert [" ", "x"][1..] == t && Join([" ", "x"], ".") == " .x";
    assert [" ", " ", "x"][1..] == [" ", "x"];
    assert ["", " ", " ", "x"][1..] == [" ", " ", "x"];
  }

  lemma SpacedCanonical()
    ensures Canonical(" . .x.z") == " .x.z." && Canonical(" .x.z.") == "x.z."
  {
    assert TrimLeft(" . .x.z", IsSpace) == ". .x.z" by { assert " . .x.z"[1..] == ". .x.z"; }
    TrimIsIdentity(". .x.z", IsSpace);
    assert TrimLeft(". .x.z", IsDot) == " .x.z" by { assert ". .x.z"[1..] == " .x.z"; }
    assert TrimLeft(" .x.z.", IsSpace) == ".x.z." by { assert " .x.z."[1..] == ".x.z."; }
    TrimIsIdentity(".x.z.", IsSpace);
    assert TrimLeft(".x.z.", IsDot) == "x.z." by { assert ".x.z."[1..] == "x.z."; }
    assert Lower(" .x.z") == " .x.z" && Lower("x.z") == "x.z";
  }

  /** Creating a record under that host loses the records of "x.z.". */
  lemma SpacedHostBroken(idna: Idna)
    ensures var e := EditOf(idna, "z.", CreateForm(". . .x", "A", 300, "3", None));
            Sound(TWO_RECORDS) && FlatOf(Apply(TWO_RECORDS, e)) != FlatApply(FlatOf(TWO_RECORDS), Written(e))
  {
    SpacedHost(idna);
    TwoRecords();
    hide Canonical, Fqdn, Apply, FlatOf, FlatApply, BuildContent;
    var e := EditOf(idna, "z.", CreateForm(". . .x", "A", 300, "3", None));
    assert BuildContent("A", "3", None) == "3" by { PlainContent(); }
    assert LostAt(FlatOf(TWO_RECORDS), e, ("x.z.", "A", "2"));
    EditByNameExactly(TWO_RECORDS, e);
  }

  lemma PlainContent()
    ensures BuildContent("A", "3", None) == "3"
  {
    TrimIsIdentity("3", IsSpace);
  }

  // ---- saving an unchanged form ------------------------------------------------------------

  /** The edit a user makes by opening the form of a record and saving it as it is. */
  function UnchangedSave(idna: Idna, zone: string, name: string, rtype: string, content: string, ttl: nat): Edit {
    var (prio, data) := SplitPrio(rtype, content);
    Update(name, rtype, content, Fqdn(idna, RelName(idna, name, zone), zone), BuildContent(rtype, data, prio), ttl)
  }

  /** Saving the unchanged form of any stored record leaves the flat set of records as it was, but
      for enabling that record, if and only if the form shows the owner name faithfully and
      builds the content it took apart again, as it does for every content it has built. */
  lemma UnchangedSaveKeepsExactly(
    idna: Idna, rr: RRsets, zone: string, name: string, rtype: string, content: string, ttl: nat)
    requires Sound(rr) && CleanName(name) && CleanName(zone)
    requires name == zone || HasSuffix(Bare(name), "." + Bare(zone))
    requires (name, rtype, content) in FlatOf(rr)
    ensures FlatOf(Apply(rr, UnchangedSave(idna, zone, name, rtype, content, ttl)))
              == FlatOf(rr)[(name, rtype, content) := false]
            <==> && (name == zone || Bare(name) != "@." + Bare(zone))
                 && BuildContent(rtype, SplitPrio(rtype, content).1, SplitPrio(rtype, content).0) == content
  {
    hide Canonical, CleanName, BuildContent, SplitPrio, RelName, Fqdn, Sound, Apply, Bare, HasSuffix, FlatApply, Lookup;
    NameRoundTripExactly(idna, name, zone);
    ShownNameIsCanonical(idna, name, zone);
    CanonicalOfBare(name);
    var e := UnchangedSave(idna, zone, name, rtype, content, ttl);
    EditRefines(rr, e);
    SameRecordExactly(FlatOf(rr), e);
  }

  lemma ShownNameIsCanonical(idna: Idna, name: string, zone: string)
    requires CleanName(name) && CleanName(zone)
    requires name == zone || HasSuffix(Bare(name), "." + Bare(zone))
    ensures var n := Fqdn(idna, RelName(idna, name, zone), zone); Canonical(n) == n
  {
    hide CleanLabels, Strip, Bare, Canonical, ToAscii, ToUnicode, Split;
    NameRoundTripExactly(idna, name, zone);
    CanonicalOfBare(name);
    CanonicalOfBare(zone);
    if name != zone && Bare(name) == "@." + Bare(zone) {
      assert Bare(name) == "@" + "." + Bare(zone) && Bare(name) != Bare(zone);
      CleanPieces("@", Bare(zone));
      CleanRelative(idna, "@");
      assert Bare(name)[..1] == "@";
      AtSign();
    }
  }

  lemma SameRecordExactly(f: Flat, e: Edit)
    requires e.Update? && (e.origName, e.rtype, e.origContent) in f
    ensures FlatApply(f, e) == f[(e.origName, e.rtype, e.origContent) := false]
            <==> e.name == e.origName && e.content == e.origContent
  {
    var k := (e.origName, e.rtype, e.origContent);
    assert (f - {k})[k := false] == f[k := false];
    assert e.name != e.origName || e.content != e.origContent ==> k !in FlatApply(f, e);
  }

  /** A stored alias without its trailing dot comes back with one. */
  lemma UnchangedSaveBroken()
    ensures BuildContent("CNAME", SplitPrio("CNAME", "m").1, SplitPrio("CNAME", "m").0) == "m."
  {
    TrimIsIdentity("m", IsSpace);
  }
}
