/** Aggregating catalogs for a shared NSD (nsd-slave/nsd-catalog-sync.sh): transfer every source's
    catalog, list each member zone once under the first source that offers it, and touch the
    live include file only when every source was transferred and the list has changed. */
module Catalog {
  import opened Wrappers
  import opened Text

  // ---- sort -u -----------------------------------------------------------------------------

  /** Byte order of strings. */
  predicate Less(a: string, b: string) {
    b != "" && (a == "" || a[0] < b[0] || (a[0] == b[0] && Less(a[1..], b[1..])))
  }

  lemma {:induction false} LessIrreflexive(a: string)
    ensures !Less(a, a)
  {
    if a != "" { LessIrreflexive(a[1..]); }
  }

  lemma {:induction false} LessTransitive(a: string, b: string, c: string)
    requires Less(a, b) && Less(b, c)
    ensures Less(a, c)
  {
    if a != "" && a[0] == b[0] && b[0] == c[0] {
      LessTransitive(a[1..], b[1..], c[1..]);
    }
  }

  lemma {:induction false} LessTotal(a: string, b: string)
    ensures Less(a, b) || a == b || Less(b, a)
  {
    if a != "" && b != "" && a[0] == b[0] {
      LessTotal(a[1..], b[1..]);
      assert a == [a[0]] + a[1..] && b == [b[0]] + b[1..];
    }
  }

  predicate Sorted(s: seq<string>) {
    forall i, j :: 0 <= i < j < |s| ==> Less(s[i], s[j])
  }

  function Insert(x: string, s: seq<string>): seq<string> {
    if s == [] then [x]
    else if x == s[0] then s
    else if Less(x, s[0]) then [x] + s
    else [s[0]] + Insert(x, s[1..])
  }

  function SortUnique(s: seq<string>): seq<string> {
    if s == [] then [] else Insert(s[0], SortUnique(s[1..]))
  }

  lemma {:induction false} InsertSorted(x: string, s: seq<string>)
    requires Sorted(s)
    ensures Sorted(Insert(x, s)) && forall y :: y in Insert(x, s) <==> y == x || y in s
  {
    hide Less;
    if s != [] && x != s[0] {
      if Less(x, s[0]) {
        forall j | 0 <= j < |s| ensures Less(x, s[j]) {
          if j > 0 { LessTransitive(x, s[0], s[j]); }
        }
      } else {
        LessTotal(x, s[0]);
        InsertSorted(x, s[1..]);
        var rest := Insert(x, s[1..]);
        forall j | 0 <= j < |rest| ensures Less(s[0], rest[j]) {
          assert rest[j] in rest;
        }
      }
    }
  }

  lemma {:induction false} SortUniqueIs(s: seq<string>)
    ensures Sorted(SortUnique(s)) && forall y :: y in SortUnique(s) <==> y in s
  {
    if s != [] {
      SortUniqueIs(s[1..]);
      InsertSorted(s[0], SortUnique(s[1..]));
    }
  }

  /** A sorted list is determined by its elements. */
  lemma {:induction false} SortedUnique(a: seq<string>, b: seq<string>)
    requires Sorted(a) && Sorted(b) && forall y :: y in a <==> y in b
    ensures a == b
  {
    hide Less;
    assert b != [] ==> b[0] in b;
    if a != [] {
      assert a[0] in b;
      assert b[0] in a;
      LeastFirst(a, b[0]);
      LeastFirst(b, a[0]);
      if a[0] != b[0] {
        LessTransitive(a[0], b[0], a[0]);
        LessIrreflexive(a[0]);
      }
      TailElements(a);
      TailElements(b);
      SortedUnique(a[1..], b[1..]);
      assert a == [a[0]] + a[1..] && b == [b[0]] + b[1..];
    }
  }

  lemma LeastFirst(s: seq<string>, x: string)
    requires Sorted(s) && x in s
    ensures x == s[0] || Less(s[0], x)
  {
    hide Less;
  }

  lemma TailElements(s: seq<string>)
    requires Sorted(s) && s != []
    ensures Sorted(s[1..]) && forall y :: y in s[1..] <==> y in s && y != s[0]
  {
    hide Less;
    forall y | y in s[1..] ensures y != s[0] {
      LessIrreflexive(s[0]);
    }
  }

  // ---- one source --------------------------------------------------------------------------

  /** One line of a zone transfer: owner, type and first data field, as printed. */
  datatype Line = Line(owner: string, rtype: string, data: string)

  datatype Source = Source(
    master: string, port: string, catalog: string, tsigName: string, tsigSecret: string, transfer: seq<Line>)

  function UpperChar(c: char): char {
    if 'a' <= c <= 'z' then c - 'a' + 'A' else c
  }

  predicate IsType(rtype: string, wanted: string) {
    |rtype| == |wanted| && forall i :: 0 <= i < |rtype| ==> UpperChar(rtype[i]) == wanted[i]
  }

  /** Without one trailing dot. */
  function OneDotLess(s: string): string {
    if s != "" && s[|s| - 1] == '.' then s[..|s| - 1] else s
  }

  predicate FoundAt(s: string, t: string, i: nat) {
    i + |t| <= |s| && s[i..i + |t|] == t
  }

  /** The text occurs somewhere. */
  predicate Contains(s: string, t: string) {
    exists i :: 0 <= i <= |s| && FoundAt(s, t, i)
  }

  predicate IsPointer(l: Line, mark: string) {
    IsType(l.rtype, "PTR") && Contains(Lower(l.owner), mark)
  }

  /** The targets of the member pointers, lower-case; the shell drops empty words. */
  function Targets(lines: seq<Line>, mark: string): seq<string> {
    if lines == [] then []
    else
      var target := Lower(OneDotLess(lines[0].data));
      (if IsPointer(lines[0], mark) && target != "" then [target] else []) + Targets(lines[1..], mark)
  }

  datatype Stanza = Stanza(zone: string, master: string, port: string, key: string)

  /** Settings without what was transferred. */
  predicate SameSettings(a: Source, b: Source) {
    a.(transfer := []) == b.(transfer := [])
  }

  function Mark(s: Source): string {
    ".zones." + OneDotLess(s.catalog) + "."
  }

  function Members(s: Source): seq<string> {
    SortUnique(Targets(s.transfer, Mark(s)))
  }

  predicate HasSoa(lines: seq<Line>) {
    exists i :: 0 <= i < |lines| && IsType(lines[i].rtype, "SOA")
  }

  predicate Succeeds(s: Source) {
    s.master != "" && s.catalog != "" && HasSoa(s.transfer)
  }

  /** On the lines themselves: both settings are there, and the transfer brought an SOA record. */
  predicate Transferred(s: Source) {
    s.master != "" && s.catalog != "" && exists l :: l in s.transfer && Lower(l.rtype) == "soa"
  }

  lemma TypesByLower(rtype: string)
    ensures IsType(rtype, "SOA") <==> Lower(rtype) == "soa"
    ensures IsType(rtype, "PTR") <==> Lower(rtype) == "ptr"
  {
    if |rtype| == 3 {
      assert forall i :: 0 <= i < 3 ==> (UpperChar(rtype[i]) == "SOA"[i] <==> LowerChar(rtype[i]) == "soa"[i]);
      assert forall i :: 0 <= i < 3 ==> (UpperChar(rtype[i]) == "PTR"[i] <==> LowerChar(rtype[i]) == "ptr"[i]);
    }
  }

  lemma SucceedsExactly(s: Source)
    ensures Succeeds(s) <==> Transferred(s)
  {
    forall i | 0 <= i < |s.transfer| ensures IsType(s.transfer[i].rtype, "SOA") <==> Lower(s.transfer[i].rtype) == "soa" {
      TypesByLower(s.transfer[i].rtype);
    }
    hide IsType, Lower;
    if l :| l in s.transfer && Lower(l.rtype) == "soa" {
      var i :| 0 <= i < |s.transfer| && s.transfer[i] == l;
      assert IsType(s.transfer[i].rtype, "SOA");
    }
    if i :| 0 <= i < |s.transfer| && IsType(s.transfer[i].rtype, "SOA") {
      assert s.transfer[i] in s.transfer;
    }
  }

  lemma AllSucceedExactly(sources: seq<Source>)
    ensures AllSucceed(sources) <==> forall i :: 0 <= i < |sources| ==> Transferred(sources[i])
  {
    hide Succeeds, Transferred;
    forall i | 0 <= i < |sources| ensures Succeeds(sources[i]) <==> Transferred(sources[i]) {
      SucceedsExactly(sources[i]);
    }
  }

  function StanzaFor(s: Source, zone: string): Stanza {
    Stanza(zone, s.master, if s.port == "" then "53" else s.port,
           if s.tsigName != "" && s.tsigSecret != "" then s.tsigName else "NOKEY")
  }

  // ---- merging -----------------------------------------------------------------------------

  /** Zones already listed, and the stanzas written so far. */
  datatype Merge = Merge(seen: seq<string>, stanzas: seq<Stanza>)

  function AddMembers(m: Merge, s: Source, zones: seq<string>): Merge {
    if zones == [] then m
    else
      var n := |zones| - 1;
      var front := AddMembers(m, s, zones[..n]);
      if zones[n] in front.seen then front
      else Merge(front.seen + [zones[n]], front.stanzas + [StanzaFor(s, zones[n])])
  }

  function Merged(sources: seq<Source>): Merge {
    if sources == [] then Merge([], [])
    else
      var n := |sources| - 1;
      if Succeeds(sources[n]) then AddMembers(Merged(sources[..n]), sources[n], Members(sources[n]))
      else Merged(sources[..n])
  }

  predicate AllSucceed(sources: seq<Source>) {
    forall i :: 0 <= i < |sources| ==> Succeeds(sources[i])
  }

  const HEADER := "# generated by nsd-catalog-sync.sh \U{2014} do not edit"

  function StanzaText(s: Stanza): string {
    "zone:" + "\n"
    + ("    name: \"" + s.zone + "\"") + "\n"
    + ("    allow-notify: " + s.master + " " + s.key) + "\n"
    + ("    request-xfr: AXFR " + s.master + "@" + s.port + " " + s.key) + "\n"
  }

  function FileText(stanzas: seq<Stanza>): string {
    if stanzas == [] then HEADER + "\n"
    else FileText(stanzas[..|stanzas| - 1]) + StanzaText(stanzas[|stanzas| - 1])
  }

  /** The include file after a run, and whether the run reports success. */
  function LiveAfter(live: Option<string>, sources: seq<Source>): Option<string> {
    if AllSucceed(sources) then Some(FileText(Merged(sources).stanzas)) else live
  }

  /** The NSD host: the include file, and how often it has been written. */
  class Host {
    var live: Option<string>
    var writes: nat

    constructor (live: Option<string>)
      ensures this.live == live && writes == 0
    {
      this.live, writes := live, 0;
    }

    method ProcessSource(s: Source, seen0: seq<string>, tmp0: string, ghost m: Merge)
      returns (ok: bool, seen: seq<string>, tmp: string)
      requires seen0 == m.seen && tmp0 == FileText(m.stanzas)
      ensures ok == Succeeds(s)
      ensures var after := if ok then AddMembers(m, s, Members(s)) else m;
              seen == after.seen && tmp == FileText(after.stanzas)
    {
      hide StanzaText, Succeeds, Members, StanzaFor;
      seen, tmp, ok := seen0, tmp0, Succeeds(s);
      if !ok { return; }
      var zones := Members(s);
      ghost var g := m;
      for i := 0 to |zones|
        invariant g == AddMembers(m, s, zones[..i])
        invariant seen == g.seen && tmp == FileText(g.stanzas)
      {
        assert zones[..i + 1][..i] == zones[..i];
        if zones[i] !in seen {
          var st := StanzaFor(s, zones[i]);
          assert (g.stanzas + [st])[..|g.stanzas|] == g.stanzas;
          seen, tmp := seen + [zones[i]], tmp + StanzaText(st);
          g := Merge(g.seen + [zones[i]], g.stanzas + [st]);
        }
      }
      assert zones[..|zones|] == zones;
    }

    /** Gather all sources into a fresh text; abort if any failed; write only on a change. */
    method Sync(sources: seq<Source>) returns (ok: bool)
      modifies this
      ensures ok <==> forall i :: 0 <= i < |sources| ==> Transferred(sources[i])
      ensures !ok ==> live == old(live) && writes == old(writes)
      ensures ok ==> live.Some?
      ensures live == LiveAfter(old(live), sources)
      ensures writes == old(writes) + (if live != old(live) then 1 else 0)
    {
      hide Succeeds, AddMembers, Members, StanzaText;
      var seen: seq<string>, tmp, fail := [], HEADER + "\n", false;
      for i := 0 to |sources|
        invariant seen == Merged(sources[..i]).seen && tmp == FileText(Merged(sources[..i]).stanzas)
        invariant !fail <==> AllSucceed(sources[..i])
        invariant live == old(live) && writes == old(writes)
      {
        assert sources[..i + 1][..i] == sources[..i];
        var done;
        done, seen, tmp := ProcessSource(sources[i], seen, tmp, Merged(sources[..i]));
        assert AllSucceed(sources[..i + 1]) <==> AllSucceed(sources[..i]) && done by {
          AllSucceedSnoc(sources, i);
        }
        if !done { fail := true; }
      }
      assert sources[..|sources|] == sources;
      ok := !fail;
      AllSucceedExactly(sources);
      hide Transferred;
      if ok && live != Some(tmp) {
        live, writes := Some(tmp), writes + 1;
      }
    }
  }

  lemma AllSucceedSnoc(sources: seq<Source>, i: nat)
    requires i < |sources|
    ensures AllSucceed(sources[..i + 1]) <==> AllSucceed(sources[..i]) && Succeeds(sources[i])
  {
    hide Succeeds;
    if AllSucceed(sources[..i + 1]) {
      assert sources[..i + 1][i] == sources[i];
      forall j | 0 <= j < i ensures Succeeds(sources[..i][j]) {
        assert sources[..i + 1][j] == sources[..i][j];
      }
    }
  }

  // ---- what the merge guarantees -----------------------------------------------------------

  predicate NoRepeats(s: seq<string>) {
    forall i, j :: 0 <= i < j < |s| ==> s[i] != s[j]
  }

  /** Source `i` is the first that offers `zone`. */
  predicate FirstOffers(sources: seq<Source>, i: nat, zone: string)
    requires i < |sources|
  {
    && Succeeds(sources[i]) && zone in Members(sources[i])
    && forall j :: 0 <= j < i ==> !(Succeeds(sources[j]) && zone in Members(sources[j]))
  }

  /** The stanzas are in step with the zones seen. */
  predicate InStep(m: Merge) {
    |m.seen| == |m.stanzas| && NoRepeats(m.seen) && forall i :: 0 <= i < |m.seen| ==> m.stanzas[i].zone == m.seen[i]
  }

  /** `r` extends `m` by stanzas of source `s` for zones among `zones`. */
  ghost predicate Extends(m: Merge, r: Merge, s: Source, zones: seq<string>) {
    && InStep(r) && |m.seen| <= |r.seen| && |m.stanzas| <= |r.stanzas|
    && r.seen[..|m.seen|] == m.seen && r.stanzas[..|m.stanzas|] == m.stanzas
    && (forall z :: z in r.seen <==> z in m.seen || z in zones)
    && (forall i :: |m.stanzas| <= i < |r.stanzas| ==>
          r.stanzas[i] == StanzaFor(s, r.seen[i]) && r.seen[i] in zones && r.seen[i] !in m.seen)
  }

  lemma ExtendsByOne(m: Merge, front: Merge, s: Source, zones: seq<string>, z: string)
    requires InStep(m) && Extends(m, front, s, zones)
    ensures z in front.seen ==> Extends(m, front, s, zones + [z])
    ensures z !in front.seen ==> Extends(m, Merge(front.seen + [z], front.stanzas + [StanzaFor(s, z)]), s, zones + [z])
  {
    StanzaZone(s, z);
    hide StanzaFor;
    var r := Merge(front.seen + [z], front.stanzas + [StanzaFor(s, z)]);
    assert r.seen[..|m.seen|] == front.seen[..|m.seen|] && r.stanzas[..|m.stanzas|] == front.stanzas[..|m.stanzas|];
  }

  lemma {:induction false} AddMembersIs(m: Merge, s: Source, zones: seq<string>)
    requires InStep(m)
    ensures Extends(m, AddMembers(m, s, zones), s, zones)
  {
    if zones != [] {
      hide Extends, InStep, StanzaFor;
      var n := |zones| - 1;
      AddMembersIs(m, s, zones[..n]);
      assert zones == zones[..n] + [zones[n]];
      ExtendsByOne(m, AddMembers(m, s, zones[..n]), s, zones[..n], zones[n]);
    }
  }

  lemma StanzaZone(s: Source, zone: string)
    ensures StanzaFor(s, zone).zone == zone
  {
  }

  /** Some successful source offers the zone. */
  predicate Offered(sources: seq<Source>, zone: string) {
    exists k :: 0 <= k < |sources| && Succeeds(sources[k]) && zone in Members(sources[k])
  }

  /** The stanza is the one of the first source that offers its zone. */
  predicate Attributed(sources: seq<Source>, st: Stanza) {
    exists k :: 0 <= k < |sources| && FirstOffers(sources, k, st.zone) && StanzaOf(sources[k], st)
  }

  /** The stanza takes its zone from this source: its master, its port or 53, and its key, if it has
      both a name and a secret for one. */
  predicate StanzaOf(s: Source, st: Stanza) {
    && st.master == s.master
    && (s.port != "" ==> st.port == s.port) && (s.port == "" ==> st.port == "53")
    && (s.tsigName != "" && s.tsigSecret != "" ==> st.key == s.tsigName)
    && (s.tsigName == "" || s.tsigSecret == "" ==> st.key == "NOKEY")
  }

  /** The file lists every member offered by some source exactly once, under the first source that
      offers it. */
  lemma {:induction false} FirstSourceWins(sources: seq<Source>)
    ensures var m := Merged(sources);
            && InStep(m)
            && (forall z :: z in m.seen <==> Offered(sources, z))
            && (forall i :: 0 <= i < |m.stanzas| ==> Attributed(sources, m.stanzas[i]))
  {
    hide StanzaFor, Succeeds, Members, Attributed, Offered;
    if sources != [] {
      var n := |sources| - 1;
      FirstSourceWins(sources[..n]);
      var before, m := Merged(sources[..n]), Merged(sources);
      if Succeeds(sources[n]) {
        AddMembersIs(before, sources[n], Members(sources[n]));
      }
      forall i | 0 <= i < |m.stanzas| ensures Attributed(sources, m.stanzas[i]) {
        if i < |before.stanzas| {
          assert m.stanzas[i] == m.stanzas[..|before.stanzas|][i] == before.stanzas[i];
          AttributedGrows(sources, n, m.stanzas[i]);
        } else {
          OfferedSnoc(sources, m.seen[i]);
          NewlyAttributed(sources, m.seen[i]);
        }
      }
      forall z ensures z in m.seen <==> Offered(sources, z) {
        OfferedSnoc(sources, z);
      }
    } else {
      forall z ensures !Offered(sources, z) { NothingOffered(z); }
    }
  }

  lemma NothingOffered(z: string)
    ensures !Offered([], z)
  {
  }

  lemma StanzaIsOf(s: Source, zone: string)
    ensures StanzaOf(s, StanzaFor(s, zone))
  {
  }

  lemma NewlyAttributed(sources: seq<Source>, zone: string)
    requires sources != [] && Succeeds(sources[|sources| - 1]) && zone in Members(sources[|sources| - 1])
    requires !Offered(sources[..|sources| - 1], zone)
    ensures Attributed(sources, StanzaFor(sources[|sources| - 1], zone))
  {
    hide StanzaFor, Succeeds, Members;
    var n := |sources| - 1;
    StanzaZone(sources[n], zone);
    StanzaIsOf(sources[n], zone);
    hide StanzaOf;
    forall j | 0 <= j < n ensures !(Succeeds(sources[j]) && zone in Members(sources[j])) {
      assert sources[..n][j] == sources[j];
    }
    assert FirstOffers(sources, n, zone);
  }

  lemma AttributedGrows(sources: seq<Source>, n: nat, st: Stanza)
    requires n <= |sources| && Attributed(sources[..n], st)
    ensures Attributed(sources, st)
  {
    hide StanzaOf, FirstOffers;
    var k :| 0 <= k < n && FirstOffers(sources[..n], k, st.zone) && StanzaOf(sources[..n][k], st);
    FirstOffersGrows(sources, n, k, st.zone);
  }

  lemma FirstOffersGrows(sources: seq<Source>, n: nat, k: nat, zone: string)
    requires k < n <= |sources| && FirstOffers(sources[..n], k, zone)
    ensures FirstOffers(sources, k, zone)
  {
    hide Succeeds, Members;
    forall j | 0 <= j < k ensures !(Succeeds(sources[j]) && zone in Members(sources[j])) {
      assert sources[..n][j] == sources[j];
    }
  }

  lemma OfferedSnoc(sources: seq<Source>, z: string)
    requires sources != []
    ensures var n := |sources| - 1;
            Offered(sources, z) <==> Offered(sources[..n], z) || (Succeeds(sources[n]) && z in Members(sources[n]))
  {
    hide Succeeds, Members;
    var n := |sources| - 1;
    if k :| 0 <= k < |sources| && Succeeds(sources[k]) && z in Members(sources[k]) {
      assert k < n ==> sources[..n][k] == sources[k];
    }
    if k :| 0 <= k < n && Succeeds(sources[..n][k]) && z in Members(sources[..n][k]) {
      assert sources[k] == sources[..n][k];
    }
  }

  /** Two transfers of the same catalogs with the same members. */
  predicate SameMembers(a: seq<Source>, b: seq<Source>) {
    |a| == |b| && forall i :: 0 <= i < |a| ==> SameOffer(a[i], b[i])
  }

  predicate SameOffer(a: Source, b: Source) {
    && SameSettings(a, b) && Succeeds(a) && Succeeds(b)
    && AsSet(Targets(a.transfer, Mark(a))) == AsSet(Targets(b.transfer, Mark(b)))
  }

  function AsSet(s: seq<string>): set<string> {
    set x | x in s
  }

  lemma SameOfferSameMembers(a: Source, b: Source)
    requires SameOffer(a, b)
    ensures Members(a) == Members(b)
  {
    hide Mark, Targets;
    var ta, tb := Targets(a.transfer, Mark(a)), Targets(b.transfer, Mark(b));
    SortUniqueIs(ta);
    SortUniqueIs(tb);
    forall y ensures y in SortUnique(ta) <==> y in SortUnique(tb) {
      assert y in AsSet(ta) <==> y in AsSet(tb);
    }
    SortedUnique(SortUnique(ta), SortUnique(tb));
  }

  lemma {:induction false} SameStanzas(m: Merge, a: Source, b: Source, zones: seq<string>)
    requires SameSettings(a, b)
    ensures AddMembers(m, a, zones) == AddMembers(m, b, zones)
  {
    if zones != [] {
      SameStanzas(m, a, b, zones[..|zones| - 1]);
    }
  }

  /** The file depends only on each source's settings and set of members: not on the order or
      repetition of records in a transfer. */
  lemma {:induction false} TransferOrderIrrelevant(a: seq<Source>, b: seq<Source>, live: Option<string>)
    requires SameMembers(a, b)
    ensures Merged(a) == Merged(b) && LiveAfter(live, a) == LiveAfter(live, b)
  {
    hide Members, AddMembers, SameSettings, Succeeds;
    if a != [] {
      var n := |a| - 1;
      TransferOrderIrrelevant(a[..n], b[..n], live);
      SameOfferSameMembers(a[n], b[n]);
      SameStanzas(Merged(a[..n]), a[n], b[n], Members(a[n]));
    }
  }

  /** All or nothing: a source without a setting, or without an SOA record in its transfer, leaves
      the live file alone whatever the others brought; with none such the file is the new list. */
  lemma AllOrNothing(live: Option<string>, sources: seq<Source>)
    ensures (exists i :: 0 <= i < |sources| && !Transferred(sources[i])) ==> LiveAfter(live, sources) == live
    ensures (forall i :: 0 <= i < |sources| ==> Transferred(sources[i])) ==>
              LiveAfter(live, sources) == Some(FileText(Merged(sources).stanzas))
  {
    hide Transferred, Merged, FileText;
    AllSucceedExactly(sources);
  }

  /** An unreachable source, whose transfer is empty, leaves the live file alone. */
  lemma UnreachableKeepsFile(live: Option<string>, s: Source, others: seq<Source>)
    requires s.transfer == []
    ensures LiveAfter(live, [s] + others) == live == LiveAfter(live, others + [s])
  {
    hide Merged, FileText;
    assert !Transferred(s);
    assert ([s] + others)[0] == s && (others + [s])[|others|] == s;
    AllOrNothing(live, [s] + others);
    AllOrNothing(live, others + [s]);
  }

  /** A failed source leaves the live file alone, and running again on the same inputs, in any
      transfer order, changes nothing. */
  lemma RerunChangesNothing(live: Option<string>, a: seq<Source>, b: seq<Source>)
    requires SameMembers(a, b) || a == b
    ensures LiveAfter(LiveAfter(live, a), b) == LiveAfter(live, a)
    ensures !AllSucceed(a) ==> LiveAfter(live, a) == live
  {
    hide Merged, SameOffer, FileText;
    if SameMembers(a, b) {
      TransferOrderIrrelevant(a, b, live);
      TransferOrderIrrelevant(a, b, LiveAfter(live, a));
      forall i | 0 <= i < |a| ensures Succeeds(a[i]) && Succeeds(b[i]) {
        OffersSucceed(a[i], b[i]);
      }
    }
  }

  lemma OffersSucceed(a: Source, b: Source)
    requires SameOffer(a, b)
    ensures Succeeds(a) && Succeeds(b)
  {
  }

  // ---- which zones a source offers ---------------------------------------------------------

  /** A pointer record somewhere below "zones" in the catalog, whose target is `zone`. */
  predicate Names(l: Line, catalog: string, zone: string, a: string, b: string) {
    && Lower(l.rtype) == "ptr"
    && Lower(l.owner) == a + ".zones." + catalog + "." + b
    && (Lower(l.data) == zone + "." || (Lower(l.data) == zone && zone != "" && zone[|zone| - 1] != '.'))
  }

  lemma ContainsMeans(s: string, t: string)
    ensures Contains(s, t) <==> exists a, b :: s == a + t + b
  {
    if i :| 0 <= i <= |s| && FoundAt(s, t, i) {
      assert s == s[..i] + t + s[i + |t|..];
    }
    if a, b :| s == a + t + b {
      assert s[|a|..|a| + |t|] == t;
      assert FoundAt(s, t, |a|);
    }
  }

  lemma TargetMeans(l: Line, zone: string)
    requires zone != ""
    ensures TargetOf(l) == zone <==> Lower(l.data) == zone + "." || (Lower(l.data) == zone && zone[|zone| - 1] != '.')
  {
    var d := l.data;
    LowerKeepsSpaces(d);
    if d != "" && d[|d| - 1] == '.' {
      assert Lower(d) == Lower(d[..|d| - 1]) + ".";
      assert Lower(d) == zone + "." ==> Lower(d)[..|d| - 1] == zone;
    } else if d != "" {
      assert Lower(d)[|d| - 1] != '.' && (zone + ".")[|zone|] == '.';
    }
  }

  /** A source offers exactly the zones that its pointers below "zones" name. */
  lemma MembersAre(s: Source, zone: string)
    ensures zone in Members(s) <==>
            zone != "" && exists l, a, b :: l in s.transfer && Names(l, OneDotLess(s.catalog), zone, a, b)
  {
    SortUniqueIs(Targets(s.transfer, Mark(s)));
    TargetsAre(s.transfer, Mark(s), zone);
    hide IsPointer, Mark, TargetOf, Names, OneDotLess, Targets;
    if zone != "" {
      if i :| 0 <= i < |s.transfer| && IsPointer(s.transfer[i], Mark(s)) && TargetOf(s.transfer[i]) == zone {
        PointerNames(s, s.transfer[i], zone);
        var a, b :| Names(s.transfer[i], OneDotLess(s.catalog), zone, a, b);
        assert s.transfer[i] in s.transfer;
      }
      if l, a, b :| l in s.transfer && Names(l, OneDotLess(s.catalog), zone, a, b) {
        PointerNames(s, l, zone);
        var i :| 0 <= i < |s.transfer| && s.transfer[i] == l;
      }
    }
  }

  lemma PointerNames(s: Source, l: Line, zone: string)
    requires zone != ""
    ensures IsPointer(l, Mark(s)) && TargetOf(l) == zone <==> exists a, b :: Names(l, OneDotLess(s.catalog), zone, a, b)
  {
    TypesByLower(l.rtype);
    TargetMeans(l, zone);
    ContainsMeans(Lower(l.owner), Mark(s));
    hide Lower, IsType, Contains, TargetOf, OneDotLess;
    var cat := OneDotLess(s.catalog);
    if a, b :| Lower(l.owner) == a + Mark(s) + b {
      Regrouped(a, ".zones.", cat, b);
      assert Contains(Lower(l.owner), Mark(s)) && TargetOf(l) == zone && IsType(l.rtype, "PTR") ==> Names(l, cat, zone, a, b);
    }
    if a, b :| Names(l, cat, zone, a, b) {
      Regrouped(a, ".zones.", cat, b);
      assert Lower(l.owner) == a + Mark(s) + b;
    }
  }

  lemma Regrouped(a: string, zones: string, cat: string, b: string)
    ensures a + zones + cat + "." + b == a + (zones + cat + ".") + b
  {
    assert a + (zones + cat + ".") == a + zones + cat + ".";
  }

  // ---- the text of the file ----------------------------------------------------------------

  /** The lines of the include file. */
  function FileLines(stanzas: seq<Stanza>): seq<string> {
    if stanzas == [] then [HEADER]
    else
      var n := |stanzas| - 1;
      FileLines(stanzas[..n]) + StanzaLines(stanzas[n])
  }

  function StanzaLines(st: Stanza): seq<string> {
    ["zone:",
     "    name: \"" + st.zone + "\"",
     "    allow-notify: " + st.master + " " + st.key,
     "    request-xfr: AXFR " + st.master + "@" + st.port + " " + st.key]
  }

  predicate OneLine(s: string) {
    '\n' !in s
  }

  lemma {:induction false} JoinClosed(lines: seq<string>, last: string)
    ensures Join(lines + [last] + [""], "\n") == Join(lines + [""], "\n") + last + "\n"
  {
    if lines == [] {
      assert lines + [last] + [""] == [last] + [""] && lines + [""] == [""];
      JoinCons(last, [""], "\n");
      assert Join([""], "\n") == "";
    } else {
      var rest := lines[1..];
      JoinClosed(rest, last);
      assert lines + [last] + [""] == [lines[0]] + (rest + [last] + [""]);
      assert lines + [""] == [lines[0]] + (rest + [""]);
      JoinCons(lines[0], rest + [last] + [""], "\n");
      JoinCons(lines[0], rest + [""], "\n");
    }
  }

  lemma FourLines(lines: seq<string>, a: string, b: string, c: string, d: string)
    ensures Join(lines + [a, b, c, d] + [""], "\n")
            == Join(lines + [""], "\n") + (a + "\n" + b + "\n" + c + "\n" + d + "\n")
  {
    JoinClosed(lines, a);
    JoinClosed(lines + [a], b);
    JoinClosed(lines + [a] + [b], c);
    JoinClosed(lines + [a] + [b] + [c], d);
    hide Join;
    assert lines + [a, b, c, d] == lines + [a] + [b] + [c] + [d];
    var front := Join(lines + [""], "\n");
    assert front + (a + "\n" + b + "\n" + c + "\n" + d + "\n") == front + a + "\n" + b + "\n" + c + "\n" + d + "\n";
  }

  lemma StanzaAppended(lines: seq<string>, st: Stanza)
    ensures Join(lines + StanzaLines(st) + [""], "\n") == Join(lines + [""], "\n") + StanzaText(st)
  {
    var l := StanzaLines(st);
    FourLines(lines, l[0], l[1], l[2], l[3]);
    hide Join;
  }

  lemma {:induction false} FileIsJoined(stanzas: seq<Stanza>)
    ensures FileText(stanzas) == Join(FileLines(stanzas) + [""], "\n")
  {
    if stanzas == [] {
      JoinClosed([], FileLines([])[0]);
      assert FileLines([]) + [""] == [] + [FileLines([])[0]] + [""];
      assert [] + [""] == [""] && Join([""], "\n") == "";
    } else {
      var n := |stanzas| - 1;
      FileIsJoined(stanzas[..n]);
      hide Join, StanzaText, StanzaLines;
      StanzaAppended(FileLines(stanzas[..n]), stanzas[n]);
    }
  }

  lemma {:induction false} LinesAreLines(stanzas: seq<Stanza>)
    requires forall i :: 0 <= i < |stanzas| ==>
               var st := stanzas[i]; OneLine(st.zone) && OneLine(st.master) && OneLine(st.port) && OneLine(st.key)
    ensures forall i :: 0 <= i < |FileLines(stanzas)| ==> OneLine(FileLines(stanzas)[i])
  {
    if stanzas != [] {
      LinesAreLines(stanzas[..|stanzas| - 1]);
      StanzaOfLines(stanzas[|stanzas| - 1]);
      hide StanzaLines, OneLine;
    } else {
      HeaderIsLine();
    }
  }

  lemma HeaderIsLine()
    ensures OneLine(HEADER)
  {
    var a, b := "# generated by nsd-catalog-sync.sh", " \U{2014} do not edit";
    assert '\n' !in a && '\n' !in b && HEADER == a + b;
  }

  lemma StanzaOfLines(st: Stanza)
    requires OneLine(st.zone) && OneLine(st.master) && OneLine(st.port) && OneLine(st.key)
    ensures forall i :: 0 <= i < 4 ==> OneLine(StanzaLines(st)[i])
  {
  }

  /** Read line by line, the file is its header and four lines for each stanza. */
  lemma FileReadsBack(stanzas: seq<Stanza>)
    requires forall i :: 0 <= i < |stanzas| ==>
               var st := stanzas[i]; OneLine(st.zone) && OneLine(st.master) && OneLine(st.port) && OneLine(st.key)
    ensures Split(FileText(stanzas), '\n') == FileLines(stanzas) + [""]
  {
    hide Split, Join, FileText, FileLines, OneLine;
    FileIsJoined(stanzas);
    LinesAreLines(stanzas);
    SplitsAt(FileLines(stanzas));
  }

  lemma SplitsAt(lines: seq<string>)
    requires forall i :: 0 <= i < |lines| ==> OneLine(lines[i])
    ensures Split(Join(lines + [""], "\n"), '\n') == lines + [""]
  {
    SplitJoin(lines + [""], '\n');
  }

  // ---- member pointers as the standard defines them ----------------------------------------

  /** The text every member node ends in: names compare without regard to case, so it is in lower
      case whatever the configured spelling. */
  function MarkByStandard(s: Source): string {
    Lower(Mark(s))
  }

  /** Section 4.1 of RFC 9432: one label below "zones" under the catalog name. */
  predicate IsMemberNode(owner: string, mark: string) {
    var o := Lower(owner);
    && |o| > |mark| && o[|o| - |mark|..] == mark
    && '.' !in o[..|o| - |mark|]
  }

  function TargetOf(l: Line): string {
    Lower(OneDotLess(l.data))
  }

  /** The pointer of a member node, naming a zone. */
  predicate NamesMember(l: Line, s: Source) {
    IsType(l.rtype, "PTR") && IsMemberNode(l.owner, MarkByStandard(s)) && TargetOf(l) != ""
  }

  /** Text data as printed, without its quotes. */
  function Unquoted(data: string): string {
    if data == "" then "" else (if data[0] == '"' then "" else [data[0]]) + Unquoted(data[1..])
  }

  predicate IsVersion(l: Line, s: Source) {
    IsType(l.rtype, "TXT") && Lower(l.owner) == Lower("version." + OneDotLess(s.catalog) + ".")
  }

  /** Section 4.3.1: the version property is one record, of value "2". */
  predicate VersionKnown(s: Source) {
    exists i :: 0 <= i < |s.transfer| && OnlyVersion(s, i) && Unquoted(s.transfer[i].data) == "2"
  }

  predicate OnlyVersion(s: Source, i: nat)
    requires i < |s.transfer|
  {
    forall j :: 0 <= j < |s.transfer| ==> (IsVersion(s.transfer[j], s) <==> j == i)
  }

  /** Two pointers of one member node. */
  predicate SameNode(a: Line, b: Line, s: Source) {
    && IsType(a.rtype, "PTR") && IsType(b.rtype, "PTR") && IsMemberNode(a.owner, MarkByStandard(s))
    && Lower(a.owner) == Lower(b.owner)
  }

  /** Section 4.1: the pointer of a member node is the only one there. */
  predicate SinglePointers(s: Source) {
    forall i, j :: 0 <= i < j < |s.transfer| ==> !SameNode(s.transfer[i], s.transfer[j], s)
  }

  /** A catalog a consumer may process: any other is broken and offers nothing. */
  predicate Processable(s: Source) {
    VersionKnown(s) && SinglePointers(s)
  }

  predicate OffersByStandard(s: Source, zone: string) {
    Processable(s)
    && exists i :: 0 <= i < |s.transfer| && NamesMember(s.transfer[i], s) && TargetOf(s.transfer[i]) == zone
  }

  /** A pointer the script takes a zone from. */
  predicate Counts(l: Line, s: Source) {
    IsPointer(l, Mark(s)) && TargetOf(l) != ""
  }

  /** A pointer the script counts though it is not a member node, such as the "coo" property of
      section 4.4.1. */
  predicate Stray(l: Line, s: Source) {
    Counts(l, s) && !IsMemberNode(l.owner, MarkByStandard(s))
  }

  predicate HasCapital(name: string) {
    exists i :: 0 <= i < |name| && 'A' <= name[i] <= 'Z'
  }

  lemma {:induction false} TargetsAre(lines: seq<Line>, mark: string, zone: string)
    ensures zone in Targets(lines, mark) <==>
            zone != "" && exists i :: 0 <= i < |lines| && IsPointer(lines[i], mark) && TargetOf(lines[i]) == zone
  {
    hide IsPointer;
    if lines != [] {
      TargetsAre(lines[1..], mark, zone);
      if i :| 0 <= i < |lines| && IsPointer(lines[i], mark) && TargetOf(lines[i]) == zone {
        assert i > 0 ==> lines[1..][i - 1] == lines[i];
      }
      if i :| 0 <= i < |lines[1..]| && IsPointer(lines[1..][i], mark) && TargetOf(lines[1..][i]) == zone {
        assert lines[i + 1] == lines[1..][i];
      }
    }
  }

  /** The script lists exactly the members RFC 9432 defines if and only if either the catalog may
      be processed, is configured without capitals or has no members, and every stray pointer
      names a zone that is a member anyway; or it may not be processed and the script counts no
      pointer. */
  lemma MembersByStandardExactly(s: Source)
    ensures (forall zone :: zone in Members(s) <==> OffersByStandard(s, zone))
            <==> if Processable(s) then
                   && (!HasCapital(OneDotLess(s.catalog))
                       || forall i :: 0 <= i < |s.transfer| ==> !NamesMember(s.transfer[i], s))
                   && (forall i :: 0 <= i < |s.transfer| && Stray(s.transfer[i], s) ==>
                         OffersByStandard(s, TargetOf(s.transfer[i])))
                 else forall i :: 0 <= i < |s.transfer| ==> !Counts(s.transfer[i], s)
  {
    CountedAreMembers(s);
    if !Processable(s) {
      hide Processable, Counts, TargetOf, Members;
      if i :| 0 <= i < |s.transfer| && Counts(s.transfer[i], s) {
        assert TargetOf(s.transfer[i]) in Members(s);
      }
    } else if HasCapital(OneDotLess(s.catalog)) {
      CapitalCatalogHasNoMembers(s);
      hide Processable, HasCapital, IsMemberNode, MarkByStandard, Counts, TargetOf, IsType, OneDotLess, Members;
      forall i | 0 <= i < |s.transfer| ensures !Counts(s.transfer[i], s) {
        assert TargetOf(s.transfer[i]) !in Members(s);
      }
      forall i | 0 <= i < |s.transfer| && NamesMember(s.transfer[i], s) ensures OffersByStandard(s, TargetOf(s.transfer[i])) {}
    } else {
      LowerCaseMark(s);
      hide IsType, Contains, Mark, OneDotLess, HasCapital, Processable, Members;
      MembersWithoutCapitals(s);
    }
  }

  /** The script's members are the targets of the pointers it counts. */
  lemma CountedAreMembers(s: Source)
    ensures forall zone :: zone in Members(s) <==>
              exists i :: 0 <= i < |s.transfer| && Counts(s.transfer[i], s) && TargetOf(s.transfer[i]) == zone
  {
    hide IsPointer, Mark, TargetOf;
    SortUniqueIs(Targets(s.transfer, Mark(s)));
    forall zone ensures zone in Members(s) <==>
              exists i :: 0 <= i < |s.transfer| && Counts(s.transfer[i], s) && TargetOf(s.transfer[i]) == zone
    {
      TargetsAre(s.transfer, Mark(s), zone);
      if i :| 0 <= i < |s.transfer| && IsPointer(s.transfer[i], Mark(s)) && TargetOf(s.transfer[i]) == zone && zone != "" {
        assert Counts(s.transfer[i], s);
      }
    }
  }

  lemma LowerCaseMark(s: Source)
    requires !HasCapital(OneDotLess(s.catalog))
    ensures MarkByStandard(s) == Mark(s)
  {
    var cat, mark := OneDotLess(s.catalog), Mark(s);
    forall i | 0 <= i < |mark| ensures LowerChar(mark[i]) == mark[i] {
      assert mark[i] == if i < 7 then ".zones."[i] else if i < 7 + |cat| then cat[i - 7] else '.';
    }
  }

  lemma MembersWithoutCapitals(s: Source)
    requires MarkByStandard(s) == Mark(s) && Processable(s)
    ensures (forall zone :: zone in Members(s) <==> OffersByStandard(s, zone))
            <==> forall i :: 0 <= i < |s.transfer| && Stray(s.transfer[i], s) ==>
                   OffersByStandard(s, TargetOf(s.transfer[i]))
  {
    CountedAreMembers(s);
    hide IsType, Contains, Mark, OneDotLess, MarkByStandard, TargetOf, IsMemberNode, Processable, Members;
    forall i | 0 <= i < |s.transfer| && NamesMember(s.transfer[i], s) ensures Counts(s.transfer[i], s) {
      MemberNodeContains(s.transfer[i].owner, Mark(s));
    }
  }

  lemma MemberNodeContains(owner: string, mark: string)
    requires IsMemberNode(owner, mark)
    ensures Contains(Lower(owner), mark)
  {
    var o := Lower(owner);
    var i := |o| - |mark|;
    assert o[i..i + |mark|] == o[i..] && FoundAt(o, mark, i);
  }

  /** A catalog configured with a capital letter in its name transfers well but yields no members. */
  lemma CapitalCatalogHasNoMembers(s: Source)
    requires HasCapital(OneDotLess(s.catalog))
    ensures Members(s) == []
  {
    var cat := OneDotLess(s.catalog);
    var i :| 0 <= i < |cat| && 'A' <= cat[i] <= 'Z';
    assert Mark(s)[|".zones."| + i] == cat[i];
    CapitalMarkNeverFound(s.transfer, Mark(s), |".zones."| + i);
  }

  lemma {:induction false} CapitalMarkNeverFound(lines: seq<Line>, mark: string, i: nat)
    requires i < |mark| && 'A' <= mark[i] <= 'Z'
    ensures Targets(lines, mark) == []
  {
    if lines != [] {
      CapitalMarkNeverFound(lines[1..], mark, i);
      var o := Lower(lines[0].owner);
      forall j | 0 <= j <= |o| ensures !FoundAt(o, mark, j) {
        assert j + |mark| <= |o| ==> o[j..j + |mark|][i] == LowerChar(lines[0].owner[j + i]);
      }
    }
  }

  // ---- concrete catalogs -------------------------------------------------------------------

  const SOA := Line("cat.", "SOA", "a.")
  const VERSION := Line("version.cat.", "TXT", "\"2\"")
  const OLD_VERSION := Line("version.cat.", "TXT", "\"1\"")
  const MEMBER := Line("x.zones.cat.", "PTR", "b.")
  const COO := Line("coo.x.zones.cat.", "PTR", "b.")
  const MARK := ".zones.cat."

  /** The catalog "cat.", as configured under `name`: its SOA, a version and one pointer. */
  function Small(name: string, version: Line, pointer: Line): Source {
    Source("10.0.0.1", "", name, "", "", [SOA, version, pointer])
  }

  lemma LowerOf(s: string)
    requires forall i :: 0 <= i < |s| ==> !('A' <= s[i] <= 'Z')
    ensures Lower(s) == s
  {
  }

  lemma OwnerBelow(lbl: string, owner: string)
    requires owner == lbl + MARK && lbl != "" && forall i :: 0 <= i < |owner| ==> !('A' <= owner[i] <= 'Z')
    ensures Contains(Lower(owner), MARK)
    ensures IsMemberNode(owner, MARK) <==> '.' !in lbl
  {
    hide Lower;
    LowerOf(owner);
    assert owner[|lbl|..|lbl| + |MARK|] == MARK && owner[..|lbl|] == lbl && owner[|lbl|..] == MARK;
    assert FoundAt(owner, MARK, |lbl|);
  }

  lemma Types()
    ensures IsType("SOA", "SOA") && IsType("TXT", "TXT") && IsType("PTR", "PTR")
    ensures !IsType("SOA", "TXT") && !IsType("SOA", "PTR") && !IsType("TXT", "PTR") && !IsType("PTR", "TXT")
  {
    assert "SOA"[0] == 'S' && "TXT"[0] == 'T' && "PTR"[0] == 'P';
  }

  lemma TargetIsB(l: Line)
    requires l.data == "b."
    ensures TargetOf(l) == "b"
  {
    assert OneDotLess("b.") == "b";
    LowerOf("b");
  }

  lemma MemberPointer()
    ensures Contains(Lower(MEMBER.owner), MARK) && IsMemberNode(MEMBER.owner, MARK) && TargetOf(MEMBER) == "b"
  {
    TargetIsB(MEMBER);
    hide Lower, IsMemberNode, Contains, TargetOf;
    OwnerBelow("x", MEMBER.owner);
  }

  lemma CooPointer()
    ensures Contains(Lower(COO.owner), MARK) && !IsMemberNode(COO.owner, MARK) && TargetOf(COO) == "b"
  {
    TargetIsB(COO);
    hide Lower, IsMemberNode, Contains, TargetOf;
    assert "coo.x"[3] == '.';
    OwnerBelow("coo.x", COO.owner);
  }

  lemma Marks(s: Source)
    requires s.catalog == "cat." || s.catalog == "Cat."
    ensures MarkByStandard(s) == MARK && (s.catalog == "cat." ==> Mark(s) == MARK)
    ensures Lower("version." + OneDotLess(s.catalog) + ".") == "version.cat."
  {
    assert s.catalog[..3] + "." == s.catalog && OneDotLess(s.catalog) == s.catalog[..3];
    var mark, version := Mark(s), "version." + OneDotLess(s.catalog) + ".";
    assert mark == ".zones." + s.catalog && version == "version." + s.catalog;
    assert forall i :: 0 <= i < |MARK| ==> LowerChar(mark[i]) == MARK[i];
    assert forall i :: 0 <= i < |version| ==> LowerChar(version[i]) == "version.cat."[i];
  }

  lemma Versions()
    ensures Lower(VERSION.owner) == "version.cat." && Lower(OLD_VERSION.owner) == "version.cat."
    ensures Unquoted(VERSION.data) == "2" && Unquoted(OLD_VERSION.data) == "1"
  {
    LowerOf("version.cat.");
    assert Unquoted("\"") == "" && "\"2\""[1..] == "2\"" && "\"1\""[1..] == "1\"" && "2\""[1..] == "\"" && "1\""[1..] == "\"";
    assert Unquoted("2\"") == "2" && Unquoted("1\"") == "1";
  }

  lemma SmallSource(name: string, version: Line, pointer: Line)
    requires name == "cat." || name == "Cat."
    requires version == VERSION || version == OLD_VERSION
    requires pointer == MEMBER || pointer == COO
    ensures var s := Small(name, version, pointer);
            && Succeeds(s)
            && (Processable(s) <==> version == VERSION)
            && (OffersByStandard(s, "b") <==> version == VERSION && pointer == MEMBER)
            && (name == "cat." ==> "b" in Members(s))
  {
    var s := Small(name, version, pointer);
    assert s.transfer[0] == SOA && s.transfer[1] == version && s.transfer[2] == pointer;
    Types();
    MemberPointer();
    CooPointer();
    Marks(s);
    SmallProcessable(s, version);
    hide Lower, IsType, OneDotLess, Mark, MarkByStandard, IsMemberNode, Contains, TargetOf, Processable, Members;
    CountedAreMembers(s);
    assert NamesMember(pointer, s) <==> pointer == MEMBER;
    assert name == "cat." ==> Counts(s.transfer[2], s);
  }

  lemma SmallProcessable(s: Source, version: Line)
    requires s.catalog == "cat." || s.catalog == "Cat."
    requires version == VERSION || version == OLD_VERSION
    requires |s.transfer| == 3 && s.transfer[0] == SOA && s.transfer[1] == version && s.transfer[2].rtype == "PTR"
    ensures Processable(s) <==> version == VERSION
  {
    Types();
    Marks(s);
    Versions();
    hide Lower, IsType, OneDotLess, MarkByStandard, IsMemberNode, Unquoted;
    SmallVersion(s, version);
  }

  lemma SmallVersion(s: Source, version: Line)
    requires |s.transfer| == 3 && s.transfer[1] == version && IsVersion(version, s)
    requires !IsVersion(s.transfer[0], s) && !IsVersion(s.transfer[2], s)
    ensures VersionKnown(s) <==> Unquoted(version.data) == "2"
  {
    hide IsVersion, Unquoted;
    assert OnlyVersion(s, 1);
  }

  /** A catalog whose one pointer is a "coo" property: the script lists its target, the standard
      knows no member. */
  lemma StrayPointerListed()
    ensures var s := Small("cat.", VERSION, COO);
            Succeeds(s) && Processable(s) && "b" in Members(s) && !OffersByStandard(s, "b")
  {
    hide Succeeds, Processable, Members, OffersByStandard;
    SmallSource("cat.", VERSION, COO);
  }

  /** A catalog of schema version "1" with a proper member: the script warns and lists it. */
  lemma OldVersionListed()
    ensures var s := Small("cat.", OLD_VERSION, MEMBER);
            Succeeds(s) && !Processable(s) && "b" in Members(s) && !OffersByStandard(s, "b")
  {
    hide Succeeds, Processable, Members, OffersByStandard;
    SmallSource("cat.", OLD_VERSION, MEMBER);
  }

  /** A proper catalog configured as "Cat.": the script lists nothing. */
  lemma CapitalCatalogBroken()
    ensures var s := Small("Cat.", VERSION, MEMBER);
            Succeeds(s) && Processable(s) && Members(s) == [] && OffersByStandard(s, "b")
  {
    assert OneDotLess("Cat.")[0] == 'C';
    CapitalCatalogHasNoMembers(Small("Cat.", VERSION, MEMBER));
    hide Succeeds, Processable, Members, OffersByStandard;
    SmallSource("Cat.", VERSION, MEMBER);
  }
}
