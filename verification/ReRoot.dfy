/** Importing a zone under another name (app/mojodns/axfr.py): names at or under the old origin
    move to the new one, other names stay, and the records are grouped into rrsets. The zone
    file itself has been parsed; names are label sequences, the most specific label first, and
    compare without regard to case. */
module ReRoot {
  import opened Wrappers
  import opened Text

  type Name = seq<string>

  function Fold(n: Name): (f: Name)
    ensures |f| == |n| && forall i :: 0 <= i < |n| ==> f[i] == Lower(n[i])
  {
    seq(|n|, i requires 0 <= i < |n| => Lower(n[i]))
  }

  predicate Same(a: Name, b: Name) {
    Fold(a) == Fold(b)
  }

  /** `n` is `origin` or lies below it. */
  predicate Under(n: Name, origin: Name) {
    |n| >= |origin| && Same(n[|n| - |origin|..], origin)
  }

  datatype Ref = Relative(rel: Name) | Absolute(name: Name)

  function Relativize(n: Name, origin: Name): Ref {
    if Under(n, origin) then Relative(n[..|n| - |origin|]) else Absolute(n)
  }

  function Derelativize(r: Ref, origin: Name): Name {
    match r
    case Relative(rel) => rel + origin
    case Absolute(name) => name
  }

  /** What becomes of a name when a zone moves from `from` to `to`. */
  function Moved(n: Name, from: Name, to: Name): Name {
    Derelativize(Relativize(n, from), to)
  }

  lemma FoldConcat(a: Name, b: Name)
    ensures Fold(a + b) == Fold(a) + Fold(b)
  {
  }

  lemma FoldSlice(a: Name, i: nat, j: nat)
    requires i <= j <= |a|
    ensures Fold(a[i..j]) == Fold(a)[i..j]
  {
  }

  lemma UnderSuffix(rel: Name, origin: Name)
    ensures Under(rel + origin, origin) && Relativize(rel + origin, origin) == Relative(rel)
  {
    var n := rel + origin;
    assert n[|n| - |origin|..] == origin && n[..|n| - |origin|] == rel;
  }

  lemma UnderSplits(n: Name, origin: Name)
    requires Under(n, origin)
    ensures Fold(n) == Fold(n[..|n| - |origin|]) + Fold(origin)
  {
    var k := |n| - |origin|;
    assert n == n[..k] + n[k..];
    FoldConcat(n[..k], n[k..]);
  }

  /** Moving a zone onto its own origin changes no name but the spelling of the origin. */
  lemma MovedToSelf(n: Name, origin: Name)
    ensures Same(Moved(n, origin, origin), n)
  {
    if Under(n, origin) {
      UnderSplits(n, origin);
      FoldConcat(n[..|n| - |origin|], origin);
    }
  }

  /** Different owners stay different. */
  lemma MovedInjective(a: Name, b: Name, from: Name, to: Name)
    requires Under(a, from) && Under(b, from)
    ensures Same(Moved(a, from, to), Moved(b, from, to)) <==> Same(a, b)
  {
    var ra, rb := a[..|a| - |from|], b[..|b| - |from|];
    UnderSplits(a, from);
    UnderSplits(b, from);
    FoldConcat(ra, to);
    FoldConcat(rb, to);
    if Same(Moved(a, from, to), Moved(b, from, to)) {
      assert |ra| == |rb|;
      assert Fold(ra) == (Fold(ra) + Fold(to))[..|ra|] && Fold(rb) == (Fold(rb) + Fold(to))[..|rb|];
    }
    if Same(a, b) {
      assert Fold(ra) == Fold(a)[..|ra|] && Fold(rb) == Fold(b)[..|rb|];
    }
  }

  /** Moving a name from A to B and back restores it exactly unless it lay outside A but under B:
      such a name is captured by the way back. */
  lemma RoundTripExactly(n: Name, a: Name, b: Name)
    ensures Same(Moved(Moved(n, a, b), b, a), n) <==> Under(n, a) || !Under(n, b)
  {
    if Under(n, a) {
      var rel := n[..|n| - |a|];
      UnderSuffix(rel, b);
      UnderSplits(n, a);
      FoldConcat(rel, a);
    } else if Under(n, b) {
      var rel := n[..|n| - |b|];
      UnderSplits(n, b);
      FoldConcat(rel, a);
      assert Same(rel + a, n) ==> Under(n, a) by {
        if Same(rel + a, n) { SameSuffixIsUnder(n, rel, a); }
      }
    }
  }

  lemma SameSuffixIsUnder(n: Name, rel: Name, a: Name)
    requires Same(rel + a, n)
    ensures Under(n, a)
  {
    FoldConcat(rel, a);
    FoldSlice(n, |rel|, |n|);
    assert n[|n| - |a|..] == n[|rel|..|n|];
    assert (Fold(rel) + Fold(a))[|rel|..] == Fold(a);
  }

  /** A name that ends in the old origin, in any spelling, ends in the new one instead. */
  lemma MovedUnder(rel: Name, o: Name, from: Name, to: Name)
    requires |o| == |from| && forall i :: 0 <= i < |o| ==> Lower(o[i]) == Lower(from[i])
    ensures Moved(rel + o, from, to) == rel + to
  {
    var n := rel + o;
    assert n[|n| - |from|..] == o && n[..|n| - |from|] == rel;
    assert Fold(o) == Fold(from);
  }

  /** A name that ends otherwise stays. */
  lemma MovedOutside(n: Name, from: Name, to: Name)
    requires |n| < |from| || exists i :: 0 <= i < |from| && Lower(n[|n| - |from| + i]) != Lower(from[i])
    ensures Moved(n, from, to) == n
  {
    if |n| >= |from| {
      var i :| 0 <= i < |from| && Lower(n[|n| - |from| + i]) != Lower(from[i]);
      assert Fold(n[|n| - |from|..])[i] != Fold(from)[i];
    }
  }

  // ---- records -----------------------------------------------------------------------------

  /** Record data as text and names in order. */
  datatype Piece = Literal(text: string) | NameIn(name: Name)

  type Data = seq<Piece>

  /** All records of one owner and type, as the parser delivers them. */
  datatype RdataSet = RdataSet(owner: Name, rtype: string, ttl: nat, rdatas: seq<Data>)

  function MovedPiece(p: Piece, from: Name, to: Name): Piece {
    match p
    case Literal(_) => p
    case NameIn(n) => NameIn(Moved(n, from, to))
  }

  function MovedData(d: Data, from: Name, to: Name): (r: Data)
    ensures |r| == |d| && forall i :: 0 <= i < |d| ==> r[i] == MovedPiece(d[i], from, to)
  {
    seq(|d|, i requires 0 <= i < |d| => MovedPiece(d[i], from, to))
  }

  function MovedSet(s: RdataSet, from: Name, to: Name): (r: RdataSet)
    ensures |r.rdatas| == |s.rdatas|
    ensures forall i :: 0 <= i < |s.rdatas| ==> r.rdatas[i] == MovedData(s.rdatas[i], from, to)
  {
    RdataSet(Moved(s.owner, from, to), s.rtype, s.ttl,
             seq(|s.rdatas|, i requires 0 <= i < |s.rdatas| => MovedData(s.rdatas[i], from, to)))
  }

  predicate SamePiece(p: Piece, q: Piece) {
    match (p, q)
    case (Literal(s), Literal(t)) => s == t
    case (NameIn(m), NameIn(n)) => Same(m, n)
    case _ => false
  }

  predicate SameSet(a: RdataSet, b: RdataSet) {
    && Same(a.owner, b.owner) && a.rtype == b.rtype && a.ttl == b.ttl && |a.rdatas| == |b.rdatas|
    && forall i :: 0 <= i < |a.rdatas| ==>
         && |a.rdatas[i]| == |b.rdatas[i]|
         && forall j :: 0 <= j < |a.rdatas[i]| ==> SamePiece(a.rdatas[i][j], b.rdatas[i][j])
  }

  /** Some data name of the set lies outside A but under B. */
  predicate Captured(s: RdataSet, a: Name, b: Name) {
    exists i, j :: 0 <= i < |s.rdatas| && 0 <= j < |s.rdatas[i]| && CapturedPiece(s.rdatas[i][j], a, b)
  }

  predicate CapturedPiece(p: Piece, a: Name, b: Name) {
    p.NameIn? && !Under(p.name, a) && Under(p.name, b)
  }

  /** Moving a zone's records from A to B and back restores every owner and all data exactly
      unless some name in the data lay outside A but under B. */
  lemma ZoneRoundTripExactly(sets: seq<RdataSet>, a: Name, b: Name)
    requires forall k :: 0 <= k < |sets| ==> Under(sets[k].owner, a)
    ensures (forall k :: 0 <= k < |sets| ==> SameSet(MovedSet(MovedSet(sets[k], a, b), b, a), sets[k]))
            <==> (forall k :: 0 <= k < |sets| ==> !Captured(sets[k], a, b))
  {
    hide Moved, Same, Under, SameSet, Captured;
    forall k | 0 <= k < |sets|
      ensures SameSet(MovedSet(MovedSet(sets[k], a, b), b, a), sets[k]) <==> !Captured(sets[k], a, b)
    {
      SetRoundTripExactly(sets[k], a, b);
    }
  }

  lemma SetRoundTripExactly(s: RdataSet, a: Name, b: Name)
    requires Under(s.owner, a)
    ensures SameSet(MovedSet(MovedSet(s, a, b), b, a), s) <==> !Captured(s, a, b)
  {
    hide Moved, Same, Under;
    RoundTripExactly(s.owner, a, b);
    var back := MovedSet(MovedSet(s, a, b), b, a);
    forall i, j | 0 <= i < |s.rdatas| && 0 <= j < |s.rdatas[i]|
      ensures SamePiece(back.rdatas[i][j], s.rdatas[i][j]) <==> !CapturedPiece(s.rdatas[i][j], a, b)
    {
      var p := s.rdatas[i][j];
      assert back.rdatas[i][j] == MovedPiece(MovedPiece(p, a, b), b, a);
      if p.NameIn? {
        RoundTripExactly(p.name, a, b);
      }
    }
  }

  // ---- grouping ----------------------------------------------------------------------------

  type Key = (Name, string)

  datatype RRset = RRset(ttl: nat, records: seq<Data>)

  /** How the DNS library reads a spelled label, encoding letters outside ASCII, and how it prints a
      label it holds. */
  datatype Codec = Codec(read: string -> string, show: string -> string)

  /** A spelled name as the library holds it. */
  function Read(c: Codec, n: Name): (r: Name)
    ensures |r| == |n|
  {
    seq(|n|, i requires 0 <= i < |n| => c.read(n[i]))
  }

  /** A name as the grouping keys it: printed and in lower case. */
  function Printed(c: Codec, n: Name): (r: Name)
    ensures |r| == |n|
  {
    seq(|n|, i requires 0 <= i < |n| => Lower(c.show(n[i])))
  }

  /** The dictionary of rrsets with its insertion order. */
  datatype Groups = Groups(order: seq<Key>, table: map<Key, RRset>)

  predicate IsDnssec(rtype: string) {
    rtype in {"RRSIG", "NSEC", "NSEC3", "NSEC3PARAM", "DNSKEY"}
  }

  function Appended(records: seq<Data>, rdatas: seq<Data>): seq<Data> {
    if rdatas == [] then records
    else
      var n := |rdatas| - 1;
      var front := Appended(records, rdatas[..n]);
      if rdatas[n] in front then front else front + [rdatas[n]]
  }

  /** Add one moved record set, unless it is DNSSEC material. */
  function AddSet(c: Codec, g: Groups, s: RdataSet): Groups {
    if IsDnssec(s.rtype) then g
    else
      var key := (Printed(c, s.owner), s.rtype);
      if key in g.table then
        Groups(g.order, g.table[key := RRset(g.table[key].ttl, Appended(g.table[key].records, s.rdatas))])
      else
        Groups(g.order + [key], g.table[key := RRset(s.ttl, Appended([], s.rdatas))])
  }

  function Grouped(c: Codec, sets: seq<RdataSet>, from: Name, to: Name): Groups {
    if sets == [] then Groups([], map[])
    else AddSet(c, Grouped(c, sets[..|sets| - 1], from, to), MovedSet(sets[|sets| - 1], from, to))
  }

  /** Group the records under `origin`; without an SOA at the apex the import fails. The key of
      the apex is the origin as it is spelled, while owner names have been read and printed. */
  method ParseZone(c: Codec, sets: seq<RdataSet>, from: Name, origin: Name) returns (r: Result<Groups, string>)
    ensures var g := Grouped(c, sets, from, Read(c, origin));
            r == if (origin, "SOA") in g.table then Ok(g) else Err("no SOA record at the zone apex")
  {
    var newOrigin := Read(c, origin);
    var order: seq<Key> := [];
    var table: map<Key, RRset> := map[];
    for i := 0 to |sets|
      invariant Groups(order, table) == Grouped(c, sets[..i], from, newOrigin)
    {
      assert sets[..i + 1][..i] == sets[..i];
      var s := MovedSet(sets[i], from, newOrigin);
      if IsDnssec(s.rtype) { continue; }
      var key := (Printed(c, s.owner), s.rtype);
      var ttl, records := s.ttl, [];
      if key in table {
        ttl, records := table[key].ttl, table[key].records;
      } else {
        order := order + [key];
      }
      ghost var before := records;
      for j := 0 to |s.rdatas|
        invariant records == Appended(before, s.rdatas[..j])
      {
        assert s.rdatas[..j + 1][..j] == s.rdatas[..j];
        if s.rdatas[j] !in records {
          records := records + [s.rdatas[j]];
        }
      }
      assert s.rdatas[..|s.rdatas|] == s.rdatas;
      table := table[key := RRset(ttl, records)];
    }
    assert sets[..|sets|] == sets;
    r := if (origin, "SOA") in table then Ok(Groups(order, table)) else Err("no SOA record at the zone apex");
  }

  predicate NoRepeats<T(==)>(s: seq<T>) {
    forall i, j :: 0 <= i < j < |s| ==> s[i] != s[j]
  }

  lemma {:induction false} AppendedIs(records: seq<Data>, rdatas: seq<Data>)
    ensures forall d :: d in Appended(records, rdatas) <==> d in records || d in rdatas
    ensures NoRepeats(records) ==> NoRepeats(Appended(records, rdatas))
  {
    if rdatas != [] {
      var n := |rdatas| - 1;
      AppendedIs(records, rdatas[..n]);
      assert rdatas == rdatas[..n] + [rdatas[n]];
    }
  }

  /** The record (key, data) comes from one of the sets. */
  predicate Comes(c: Codec, sets: seq<RdataSet>, from: Name, to: Name, key: Key, d: Data) {
    exists i :: 0 <= i < |sets| && ComesFrom(c, sets[i], from, to, key, d)
  }

  predicate ComesFrom(c: Codec, s: RdataSet, from: Name, to: Name, key: Key, d: Data) {
    && !IsDnssec(s.rtype)
    && key == (Printed(c, Moved(s.owner, from, to)), s.rtype)
    && d in MovedSet(s, from, to).rdatas
  }

  function RecordsAt(g: Groups, key: Key): seq<Data> {
    if key in g.table then g.table[key].records else []
  }

  /** The grouping keeps exactly the moved non-DNSSEC records, each once: rrsets are listed once,
      and no rrset repeats a record. */
  lemma {:induction false} GroupingKeepsRecords(c: Codec, sets: seq<RdataSet>, from: Name, to: Name)
    ensures var g := Grouped(c, sets, from, to);
            && NoRepeats(g.order) && (forall k :: k in g.order <==> k in g.table)
            && (forall k :: k in g.table ==> NoRepeats(g.table[k].records))
            && (forall k, d :: d in RecordsAt(g, k) <==> Comes(c, sets, from, to, k, d))
  {
    hide Fold, Moved;
    if sets != [] {
      var n := |sets| - 1;
      GroupingKeepsRecords(c, sets[..n], from, to);
      var g, s := Grouped(c, sets[..n], from, to), MovedSet(sets[n], from, to);
      var h := AddSet(c, g, s);
      AppendedIs(RecordsAt(g, (Printed(c, s.owner), s.rtype)), s.rdatas);
      forall k: Key, d: Data ensures d in RecordsAt(h, k) <==> Comes(c, sets, from, to, k, d) {
        ComesSnoc(c, sets, from, to, k, d);
        assert Comes(c, sets[..n], from, to, k, d) == (d in RecordsAt(g, k));
      }
    }
  }

  lemma ComesSnoc(c: Codec, sets: seq<RdataSet>, from: Name, to: Name, key: Key, d: Data)
    requires sets != []
    ensures var n := |sets| - 1;
            Comes(c, sets, from, to, key, d) <==> Comes(c, sets[..n], from, to, key, d) || ComesFrom(c, sets[n], from, to, key, d)
  {
    hide ComesFrom;
    var n := |sets| - 1;
    if i :| 0 <= i < n && ComesFrom(c, sets[..n][i], from, to, key, d) {
      assert ComesFrom(c, sets[i], from, to, key, d);
    }
    if i :| 0 <= i < |sets| && ComesFrom(c, sets[i], from, to, key, d) {
      assert i < n ==> sets[..n][i] == sets[i];
    }
  }

  /** The set belongs to the rrset `key` of the import. */
  predicate Belongs(c: Codec, s: RdataSet, from: Name, to: Name, key: Key) {
    && s.rtype !in {"RRSIG", "NSEC", "NSEC3", "NSEC3PARAM", "DNSKEY"}
    && key == (Printed(c, Moved(s.owner, from, to)), s.rtype)
  }

  predicate FirstOf(c: Codec, sets: seq<RdataSet>, i: nat, from: Name, to: Name, key: Key)
    requires i < |sets|
  {
    Belongs(c, sets[i], from, to, key) && forall j :: 0 <= j < i ==> !Belongs(c, sets[j], from, to, key)
  }

  /** There is an rrset for every key that some set belongs to, and it takes its TTL from the first
      of them. */
  lemma {:induction false} FirstSetGivesTtl(c: Codec, sets: seq<RdataSet>, from: Name, to: Name, key: Key)
    ensures var table := Grouped(c, sets, from, to).table;
            && (key in table <==> exists i :: 0 <= i < |sets| && Belongs(c, sets[i], from, to, key))
            && (forall i :: 0 <= i < |sets| && FirstOf(c, sets, i, from, to, key) ==>
                  key in table && table[key].ttl == sets[i].ttl)
  {
    if sets != [] {
      hide Moved, Belongs, AddSet, MovedSet;
      var n := |sets| - 1;
      FirstSetGivesTtl(c, sets[..n], from, to, key);
      AddSetTtl(c, Grouped(c, sets[..n], from, to), sets[n], from, to, key);
      assert forall i :: 0 <= i < n ==> sets[..n][i] == sets[i];
      forall i | 0 <= i < n && FirstOf(c, sets, i, from, to, key) ensures FirstOf(c, sets[..n], i, from, to, key) {}
    }
  }

  lemma AddSetTtl(c: Codec, g: Groups, s: RdataSet, from: Name, to: Name, key: Key)
    ensures var h := AddSet(c, g, MovedSet(s, from, to)).table;
            && (key in h <==> key in g.table || Belongs(c, s, from, to, key))
            && (key in g.table ==> h[key].ttl == g.table[key].ttl)
            && (key !in g.table && Belongs(c, s, from, to, key) ==> h[key].ttl == s.ttl)
  {
    hide Moved;
  }

  /** An import succeeds exactly when the origin is spelled as the library prints it, in lower
      case, and some SOA set sits at the apex: an origin taken from a file with capitals, or with
      letters outside ASCII, is never found. */
  lemma ImportSucceedsExactly(c: Codec, sets: seq<RdataSet>, from: Name, origin: Name)
    requires forall i :: 0 <= i < |sets| ==> Under(sets[i].owner, from) && sets[i].rdatas != []
    ensures (origin, "SOA") in Grouped(c, sets, from, Read(c, origin)).table
            <==> Printed(c, Read(c, origin)) == origin
                 && exists i :: 0 <= i < |sets| && sets[i].rtype == "SOA" && Same(sets[i].owner, from)
  {
    var to := Read(c, origin);
    hide Moved, Under, Read, Printed;
    GroupingKeepsRecords(c, sets, from, to);
    var key, g := (origin, "SOA"), Grouped(c, sets, from, to);
    if key in g.table {
      NonEmptyRRset(c, sets, from, to, key);
      var d := RecordsAt(g, key)[0];
      assert d in RecordsAt(g, key) && Comes(c, sets, from, to, key, d);
      var i :| 0 <= i < |sets| && ComesFrom(c, sets[i], from, to, key, d);
      ApexOwner(c, sets[i].owner, from, to);
    }
    if i :| Printed(c, to) == origin && 0 <= i < |sets| && sets[i].rtype == "SOA" && Same(sets[i].owner, from) {
      ApexOwner(c, sets[i].owner, from, to);
      var d := MovedSet(sets[i], from, to).rdatas[0];
      assert ComesFrom(c, sets[i], from, to, key, d);
      assert d in RecordsAt(g, key);
    }
  }

  /** Only the apex moves to a name as long as the origin. */
  lemma ApexOwner(c: Codec, owner: Name, from: Name, to: Name)
    requires Under(owner, from)
    ensures |Printed(c, Moved(owner, from, to))| == |to| <==> Same(owner, from)
    ensures Same(owner, from) ==> Printed(c, Moved(owner, from, to)) == Printed(c, to)
    ensures |Printed(c, Moved(owner, from, to))| == |to| ==> Printed(c, Moved(owner, from, to)) == Printed(c, to)
  {
    var rel := owner[..|owner| - |from|];
    if |owner| == |from| {
      assert owner[0..] == owner && rel + to == to;
    }
    assert |Fold(owner)| == |owner| && |Fold(from)| == |from|;
  }

  lemma {:induction false} NonEmptyRRset(c: Codec, sets: seq<RdataSet>, from: Name, to: Name, key: Key)
    requires forall i :: 0 <= i < |sets| ==> sets[i].rdatas != []
    requires key in Grouped(c, sets, from, to).table
    ensures Grouped(c, sets, from, to).table[key].records != []
  {
    hide Fold, Moved;
    var n := |sets| - 1;
    var g, s := Grouped(c, sets[..n], from, to), MovedSet(sets[n], from, to);
    AppendedIs(RecordsAt(g, (Printed(c, s.owner), s.rtype)), s.rdatas);
    assert s.rdatas[0] in s.rdatas;
    if key in g.table {
      NonEmptyRRset(c, sets[..n], from, to, key);
    }
  }

  // ---- concrete imports --------------------------------------------------------------------

  /** A zone with nothing but its SOA. */
  function SoaOnly(apex: Name): seq<RdataSet> {
    [RdataSet(apex, "SOA", 3600, [[Literal("1")]])]
  }

  lemma OriginNotFound(c: Codec, origin: Name)
    requires Printed(c, Read(c, origin)) != origin
    ensures (origin, "SOA") !in Grouped(c, SoaOnly(Read(c, origin)), Read(c, origin), Read(c, origin)).table
  {
    hide Printed, Read;
    var apex := Read(c, origin);
    UnderSuffix([], apex);
    assert [] + apex == apex;
    ImportSucceedsExactly(c, SoaOnly(apex), apex, origin);
  }

  /** Zone files that say "Example" or "b\U{FC}cher" for their origin fail to import. */
  lemma SpelledOriginBroken()
    ensures var c := Codec(l => if l == "b\U{FC}cher" then "xn--bcher-kva" else l, l => l);
            && (["Example"], "SOA") !in Grouped(c, SoaOnly(["Example"]), ["Example"], ["Example"]).table
            && var apex := ["xn--bcher-kva"];
               (["b\U{FC}cher"], "SOA") !in Grouped(c, SoaOnly(apex), apex, apex).table
  {
    var c := Codec(l => if l == "b\U{FC}cher" then "xn--bcher-kva" else l, l => l);
    assert Lower("Example")[0] == 'e';
    assert "b\U{FC}cher"[0] == 'b' && Lower("xn--bcher-kva")[0] == 'x';
    assert Read(c, ["Example"]) == ["Example"] && Read(c, ["b\U{FC}cher"]) == ["xn--bcher-kva"];
    assert Printed(c, ["Example"])[0] == Lower("Example") && Printed(c, ["xn--bcher-kva"])[0] == Lower("xn--bcher-kva");
    OriginNotFound(c, ["Example"]);
    OriginNotFound(c, ["b\U{FC}cher"]);
  }

  /** A zone "a" whose data names a host under "b" comes back from "b" naming one under "a". */
  lemma CaptureBroken()
    ensures var n, a, b := ["x", "b"], ["a"], ["b"];
            !Same(Moved(Moved(n, a, b), b, a), n)
  {
    var n, a, b := ["x", "b"], ["a"], ["b"];
    assert "a"[0] != "b"[0] && Lower("a") == "a" && Lower("b") == "b";
    assert n[1..] == ["b"] && Fold(["b"])[0] == "b" && Fold(["a"])[0] == "a";
    RoundTripExactly(n, a, b);
  }
}
