/** The dynamic-update gate: PowerDNS ANDs a source-address check and a TSIG check over two
    independent metadata entries, and the panel keeps the pair in step with what the user set. */
module UpdateGate {
  import opened Wrappers
  import opened Text
  import opened KeyStore
  import opened PdnsClient

  /** The addresses a range covers, and PowerDNS's own global default range. */
  datatype Network = Network(covers: (string, string) -> bool, inDefault: string -> bool) {
    /** The two open ranges together cover every source. */
    ghost predicate OpenCoversAll() {
      forall src :: covers("0.0.0.0/0", src) || covers("::/0", src)
    }
  }

  predicate InRanges(net: Network, ranges: seq<string>, src: string) {
    exists r :: r in ranges && net.covers(r, src)
  }

  /** PowerDNS's decision on an update from `src`, signed with `key` or unsigned. */
  predicate PdnsAdmits(net: Network, rec: Zone, src: string, key: Option<string>) {
    && (InRanges(net, rec.updateFrom, src) || net.inDefault(src))
    && (rec.updateKeys != [] ==> key.Some? && key.value in rec.updateKeys)
  }

  /** What the user has set up: the keys, and the ranges the form shows. */
  datatype Access = Access(keys: seq<string>, ranges: seq<string>) {
    /** Updates are off without a key; otherwise signed by a listed key and from a listed range,
        or from anywhere when no range is listed. */
    predicate Admits(net: Network, src: string, key: Option<string>) {
      && keys != []
      && key.Some? && key.value in keys
      && (ranges == [] || InRanges(net, ranges, src))
    }
  }

  /** The user's view after a change: without a key everything is off and the ranges are
      forgotten; with one, the ranges survive a change of keys and read back as written. */
  function Changed(a: Access, c: Change): Access {
    match c
    case SetKeys(names) => if names == [] then Access([], []) else Access(LowerBareAll(names), a.ranges)
    case SetIps(ranges) => if a.keys == [] then Access([], []) else Access(a.keys, UserRanges(ranges))
  }

  /** The metadata says what the user set. */
  predicate Represents(rec: Zone, a: Access) {
    && rec.updateKeys == a.keys
    && LowerBareAll(a.keys) == a.keys && BareAll(a.keys) == a.keys
    && a.ranges == UserRanges(rec.updateFrom)
    && (rec.updateFrom == [] <==> a.keys == [])
  }

  lemma LowerBareAllStable(names: seq<string>)
    ensures LowerBareAll(LowerBareAll(names)) == LowerBareAll(names)
    ensures BareAll(LowerBareAll(names)) == LowerBareAll(names)
  {
    hide Lower, Bare;
    var r := LowerBareAll(names);
    forall i | 0 <= i < |names| ensures Bare(r[i]) == r[i] && Lower(Bare(r[i])) == r[i] {
      LowerBareStable(names[i]);
    }
  }

  lemma LowerBareStable(name: string)
    ensures Bare(Lower(Bare(name))) == Lower(Bare(name))
    ensures Lower(Bare(Lower(Bare(name)))) == Lower(Bare(name))
  {
    var b := Bare(name);
    var t := Lower(b);
    TrimRightIs(name, IsDot);
    assert t == "" || t[|t| - 1] == LowerChar(b[|b| - 1]);
    assert TrimRight(t, IsDot) == t;
    LowerIdempotent(b);
  }

  lemma ChangeKept(rec: Zone, a: Access, c: Change)
    requires Represents(rec, a)
    ensures Represents(Written(rec, c), Changed(a, c))
  {
    hide Lower, Bare;
    if c.SetKeys? {
      LowerBareAllStable(c.names);
    }
    assert UPDATE_ANY != [] && UserRanges(UPDATE_ANY) == [];
    assert AsSet([]) != AsSet(UPDATE_ANY) by { assert UPDATE_ANY[0] in AsSet(UPDATE_ANY); }
  }

  function WrittenAll(rec: Zone, changes: seq<Change>): Zone {
    if changes == [] then rec
    else Written(WrittenAll(rec, changes[..|changes| - 1]), changes[|changes| - 1])
  }

  function ChangedAll(a: Access, changes: seq<Change>): Access {
    if changes == [] then a
    else Changed(ChangedAll(a, changes[..|changes| - 1]), changes[|changes| - 1])
  }

  lemma {:induction false} ChangesKept(rec: Zone, a: Access, changes: seq<Change>)
    requires Represents(rec, a)
    ensures Represents(WrittenAll(rec, changes), ChangedAll(a, changes))
  {
    hide Represents, Written, Changed;
    if changes != [] {
      var n := |changes| - 1;
      ChangesKept(rec, a, changes[..n]);
      ChangeKept(WrittenAll(rec, changes[..n]), ChangedAll(a, changes[..n]), changes[n]);
    }
  }

  /** Metadata that represents the user's settings admits exactly what the user allowed. */
  lemma RepresentedGate(net: Network, rec: Zone, a: Access, src: string, key: Option<string>)
    requires Represents(rec, a) && net.OpenCoversAll() && !net.inDefault(src)
    ensures PdnsAdmits(net, rec, src, key) <==> a.Admits(net, src, key)
  {
    hide LowerBareAll, BareAll;
    if AsSet(rec.updateFrom) == AsSet(UPDATE_ANY) {
      assert UPDATE_ANY[0] in AsSet(UPDATE_ANY) && UPDATE_ANY[1] in AsSet(UPDATE_ANY);
      assert UPDATE_ANY[0] in rec.updateFrom && UPDATE_ANY[1] in rec.updateFrom;
      assert InRanges(net, rec.updateFrom, src);
    }
  }

  /** The gate refines the user's settings: starting from a zone without update access, after
      any completed sequence of key and range changes, for every source outside PowerDNS's
      default range, an update is admitted exactly when the user's settings allow it, and the
      form reads those settings back. */
  lemma GateRefinesSettings(net: Network, rec: Zone, changes: seq<Change>, src: string, key: Option<string>)
    requires rec.updateKeys == [] && rec.updateFrom == []
    requires net.OpenCoversAll() && !net.inDefault(src)
    ensures var now, a := WrittenAll(rec, changes), ChangedAll(Access([], []), changes);
            && (PdnsAdmits(net, now, src, key) <==> a.Admits(net, src, key))
            && BareAll(now.updateKeys) == a.keys && UserRanges(now.updateFrom) == a.ranges
  {
    hide LowerBareAll, BareAll, PdnsAdmits, Access.Admits, WrittenAll, ChangedAll;
    EmptyRepresents(rec);
    ChangesKept(rec, Access([], []), changes);
    RepresentedGate(net, WrittenAll(rec, changes), ChangedAll(Access([], []), changes), src, key);
  }

  lemma EmptyRepresents(rec: Zone)
    requires rec.updateKeys == [] && rec.updateFrom == []
    ensures Represents(rec, Access([], []))
  {
    assert UPDATE_ANY[0] in AsSet(UPDATE_ANY);
  }

  /** Ranges read back as written (the open catch-all as none) after any number of key changes
      that each leave a key. */
  lemma {:induction false} RangesSurvive(rec: Zone, ranges: seq<string>, keyChanges: seq<Change>)
    requires BareAll(rec.updateKeys) != []
    requires forall c :: c in keyChanges ==> c.SetKeys? && c.names != []
    ensures UserRanges(WrittenAll(Written(rec, SetIps(ranges)), keyChanges).updateFrom) == UserRanges(ranges)
  {
    hide Lower, Bare, BareAll, LowerBareAll;
    assert UserRanges(UPDATE_ANY) == [];
    assert AsSet([]) != AsSet(UPDATE_ANY) by { assert UPDATE_ANY[0] in AsSet(UPDATE_ANY); }
    if keyChanges != [] {
      var n := |keyChanges| - 1;
      assert keyChanges[n] in keyChanges;
      assert forall c :: c in keyChanges[..n] ==> c in keyChanges;
      RangesSurvive(rec, ranges, keyChanges[..n]);
    }
  }
}
