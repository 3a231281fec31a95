/** The panel's PowerDNS client (app/mojodns/pdns.py), call by call. Any call may fail, and
    neither the client nor its callers have a rollback, so the store is recorded after every
    write that took effect. */
module PdnsClient {
  import opened Text
  import opened KeyStore

  /** The fate of one call: answered; answered with an error status; or the connection broke. The
      last two may come with the request applied or not. */
  datatype Reply = Fine | Refused(applied: bool) | Dropped(applied: bool)

  /** How a call or a handler ended. Only `PdnsError` is caught by the handlers. */
  datatype Status = Done | PdnsError | Broken | Rejected {
    predicate IsFailure() {
      !Done?
    }

    function PropagateFailure(): Status
      requires !Done?
    {
      this
    }
  }

  const UPDATE_ANY := ["0.0.0.0/0", "::/0"]

  function AsSet(s: seq<string>): set<string> {
    set x | x in s
  }

  /** `get_zone_update_ips`: the open catch-all reads back as no restriction. */
  function UserRanges(from: seq<string>): seq<string> {
    if AsSet(from) == AsSet(UPDATE_ANY) then [] else from
  }

  /** `_write_update_access`, completed. */
  function WithAccess(rec: Zone, keys: seq<string>, ranges: seq<string>): Zone {
    if keys != [] then
      rec.(updateKeys := LowerBareAll(keys), updateFrom := if ranges != [] then ranges else UPDATE_ANY)
    else rec.(updateKeys := [], updateFrom := [])
  }

  /** A change to a zone's update access: its keys, or its source ranges. */
  datatype Change = SetKeys(names: seq<string>) | SetIps(ranges: seq<string>)

  /** The metadata after a completed change: each kind keeps the other's setting. */
  function Written(rec: Zone, c: Change): Zone {
    match c
    case SetKeys(names) => WithAccess(rec, names, UserRanges(rec.updateFrom))
    case SetIps(ranges) => WithAccess(rec, BareAll(rec.updateKeys), ranges)
  }

  /** The non-global keys among `former` that no zone of `s` references any more. */
  function Orphans(cfg: Config, s: Store, former: seq<string>): set<string> {
    set k | k in former && !cfg.IsGlobal(k) && !InUse(s, k) :: Canonical(k)
  }

  // ---- what each kind of write keeps -------------------------------------------------------

  lemma AxfrWriteKept(cfg: Config, s: Store, zone: string, rec: Zone)
    requires Consistent(cfg, s) && zone in s.zones && zone != cfg.catalog
    requires AxfrSound(s.keys, rec.axfr) && rec.updateKeys == s.zones[zone].updateKeys
    ensures Consistent(cfg, s.Put(zone, rec))
  {
    hide Canonical, IsId, IsBareName;
  }

  lemma OtherWriteKept(cfg: Config, s: Store, zone: string, rec: Zone)
    requires Consistent(cfg, s) && zone in s.zones
    requires UpdateSound(s.keys, rec.updateKeys) && rec.axfr == s.zones[zone].axfr
    ensures Consistent(cfg, s.Put(zone, rec))
  {
    hide Canonical, IsId, IsBareName;
  }

  lemma NewZoneKept(cfg: Config, s: Store, zone: string, rec: Zone)
    requires Consistent(cfg, s) && zone !in s.zones && rec.axfr == [] && rec.updateKeys == []
    ensures Consistent(cfg, s.Put(zone, rec))
  {
    hide Canonical, IsId, IsBareName;
  }

  lemma NewKeyKept(cfg: Config, s: Store, id: string)
    requires Consistent(cfg, s)
    ensures Consistent(cfg, Store(s.keys + {id}, s.zones))
  {
    hide Canonical, IsId, IsBareName;
  }

  lemma ZoneDeleteKept(cfg: Config, s: Store, zone: string)
    requires Consistent(cfg, s) && zone != cfg.catalog
    ensures Consistent(cfg, Store(s.keys, s.zones - {zone}))
  {
    hide Canonical, IsId, IsBareName;
  }

  /** Deleting a key leaves no dangling reference exactly when nothing references it. */
  lemma KeyDeleteKeptExactly(s: Store, id: string)
    requires NoDangling(s)
    ensures NoDangling(Store(s.keys - {id}, s.zones)) <==> !Referenced(s, id)
  {
    hide Canonical, IsId, IsBareName;
    var t := Store(s.keys - {id}, s.zones);
    if Referenced(s, id) {
      var z :| z in s.zones && DependsOn(s.zones[z], id);
      if id !in s.zones[z].axfr {
        var u :| u in s.zones[z].updateKeys && u + "." == id;
        assert !UpdateSound(t.keys, t.zones[z].updateKeys);
      } else {
        assert !AxfrSound(t.keys, t.zones[z].axfr);
      }
    } else {
      forall z | z in t.zones
        ensures AxfrSound(t.keys, t.zones[z].axfr) && UpdateSound(t.keys, t.zones[z].updateKeys)
      {
        assert !DependsOn(s.zones[z], id);
      }
    }
  }

  lemma BareIdsTidy(keys: set<string>, ids: seq<string>)
    requires AxfrSound(keys, ids)
    ensures forall k :: k in BareAll(ids) ==> IsBareName(k) && Canonical(k) in ids
  {
    forall k | k in BareAll(ids) ensures IsBareName(k) && Canonical(k) in ids {
      var i :| 0 <= i < |ids| && BareAll(ids)[i] == k;
      assert ids[i] in ids;
      IdFacts(ids[i]);
    }
  }

  lemma CanonicalAllSound(keys: set<string>, names: seq<string>)
    requires forall k :: k in names ==> IsId(Canonical(k)) && Canonical(k) in keys
    ensures AxfrSound(keys, CanonicalAll(names))
  {
    hide Canonical, IsId;
    forall id | id in CanonicalAll(names) ensures IsId(id) && id in keys {
      var i :| 0 <= i < |names| && CanonicalAll(names)[i] == id;
      assert names[i] in names;
    }
  }

  /** Bare names written to the update metadata are written as they are. */
  lemma LowerBareIsIdentity(names: seq<string>)
    requires forall k :: k in names ==> IsBareName(k)
    ensures LowerBareAll(names) == names
  {
    forall i | 0 <= i < |names| ensures Lower(Bare(names[i])) == names[i] {
      assert names[i] in names;
      BareNameFacts(names[i]);
    }
  }

  // ---- the client --------------------------------------------------------------------------

  /** The panel's PowerDNS client and the server behind it. `faults` scripts the fate of the coming
      calls (every later call is answered); `failures` counts the calls that failed so far, and
      `history` records the store after every write that took effect. */
  class Client {
    const cfg: Config
    var store: Store
    var faults: seq<Reply>
    ghost var history: seq<Store>
    ghost var failures: nat

    constructor (cfg: Config, store: Store, faults: seq<Reply>)
      ensures this.cfg == cfg && this.store == store && this.faults == faults && history == [store] && failures == 0
    {
      this.cfg, this.store, this.faults, history, failures := cfg, store, faults, [store], 0;
    }

    /** The invariant holds now and held after every write so far. */
    ghost predicate Good()
      reads this
    {
      Consistent(cfg, store) && forall i :: 0 <= i < |history| ==> Consistent(cfg, history[i])
    }

    // -- calls --

    method Turn() returns (r: Reply)
      modifies this`faults, this`failures
      ensures failures == old(failures) + (if r.Fine? then 0 else 1)
      ensures old(faults) == [] ==> r.Fine? && faults == []
    {
      if faults == [] { return Fine; }
      r := faults[0];
      faults := faults[1..];
      if !r.Fine? { failures := failures + 1; }
    }

    /** A call that reads, or one that is bound to be answered with an error. */
    method Ask(found: bool) returns (st: Status)
      modifies this`faults, this`failures
      ensures !st.Rejected?
      ensures st.Done? ==> found
      ensures old(failures) <= failures && (old(faults) == [] ==> faults == [] && failures == old(failures))
      ensures failures == old(failures) ==> (st == if found then Done else PdnsError)
    {
      var r := Turn();
      st := if r.Dropped? then Broken else if r.Refused? || !found then PdnsError else Done;
    }

    /** A call that would take the store to `next`. */
    method Write(next: Store) returns (st: Status)
      modifies this
      ensures !st.Rejected?
      ensures st.Done? ==> store == next
      ensures store == next || store == old(store)
      ensures history == old(history) + [store] || (store == old(store) && history == old(history))
      ensures old(failures) <= failures && (old(faults) == [] ==> faults == [] && failures == old(failures))
      ensures failures == old(failures) ==> st.Done?
      ensures old(Good()) && Consistent(cfg, next) ==> Good()
    {
      var r := Turn();
      if r.Fine? || r.applied {
        store := next;
        history := history + [next];
      }
      st := if r.Fine? then Done else if r.Refused? then PdnsError else Broken;
    }

    /** `PUT` on a zone or on its metadata. */
    method PutZone(zone: string, rec: Zone) returns (st: Status)
      modifies this
      ensures !st.Rejected?
      ensures st.Done? ==> zone in old(store).zones && store == old(store).Put(zone, rec)
      ensures store == old(store) || (zone in old(store).zones && store == old(store).Put(zone, rec))
      ensures old(failures) <= failures && (old(faults) == [] ==> faults == [] && failures == old(failures))
      ensures failures == old(failures) ==> (zone in old(store).zones ==> st.Done?)
      ensures old(Good()) && (zone in old(store).zones ==> Consistent(cfg, old(store).Put(zone, rec))) ==> Good()
    {
      if zone !in store.zones {
        st := Ask(false);
      } else {
        st := Write(store.Put(zone, rec));
      }
    }

    method SetTsigKeys(zone: string, names: seq<string>) returns (st: Status)
      modifies this
      ensures !st.Rejected?
      ensures store.keys == old(store).keys
      ensures st.Done? ==>
                && zone in old(store).zones
                && store == old(store).Put(zone, old(store).zones[zone].(axfr := CanonicalAll(names)))
      ensures old(failures) <= failures && (old(faults) == [] ==> faults == [] && failures == old(failures))
      ensures failures == old(failures) ==> (zone in old(store).zones ==> st.Done?)
      ensures old(Good()) && zone != cfg.catalog && AxfrSound(old(store).keys, CanonicalAll(names)) ==> Good()
    {
      hide Canonical, Consistent, AxfrSound, CanonicalAll;
      if zone !in store.zones {
        st := Ask(false);
        return;
      }
      ghost var s := store;
      var rec := store.zones[zone].(axfr := CanonicalAll(names));
      st := PutZone(zone, rec);
      assert old(Good()) && zone != cfg.catalog && AxfrSound(s.keys, rec.axfr) ==> Good() by {
        if old(Good()) && zone != cfg.catalog && AxfrSound(s.keys, rec.axfr) {
          AxfrWriteKept(cfg, s, zone, rec);
        }
      }
    }

    /** A metadata or zone-field write that touches neither kind of key reference, or, with
        `names`, rewrites the update keys to sound ones. */
    method SetFields(zone: string, rec: Zone) returns (st: Status)
      requires zone in store.zones ==> rec.axfr == store.zones[zone].axfr
      modifies this
      ensures !st.Rejected?
      ensures store.keys == old(store).keys
      ensures st.Done? ==> zone in old(store).zones && store == old(store).Put(zone, rec)
      ensures store == old(store) || (zone in old(store).zones && store == old(store).Put(zone, rec))
      ensures old(failures) <= failures && (old(faults) == [] ==> faults == [] && failures == old(failures))
      ensures failures == old(failures) ==> (zone in old(store).zones ==> st.Done?)
      ensures old(Good()) && UpdateSound(old(store).keys, rec.updateKeys) ==> Good()
    {
      hide Canonical, Consistent, UpdateSound;
      ghost var s := store;
      st := PutZone(zone, rec);
      if old(Good()) && UpdateSound(s.keys, rec.updateKeys) && zone in s.zones {
        OtherWriteKept(cfg, s, zone, rec);
      }
    }

    /** Deleting metadata; a missing zone or entry (404) is not an error. */
    method DropFields(zone: string, rec: Zone) returns (st: Status)
      requires zone in store.zones ==> rec.axfr == store.zones[zone].axfr
      modifies this
      ensures !st.Rejected?
      ensures store.keys == old(store).keys
      ensures st.Done? ==> store == if zone in old(store).zones then old(store).Put(zone, rec) else old(store)
      ensures store == old(store) || (zone in old(store).zones && store == old(store).Put(zone, rec))
      ensures old(failures) <= failures && (old(faults) == [] ==> faults == [] && failures == old(failures))
      ensures failures == old(failures) ==> st.Done?
      ensures old(Good()) && UpdateSound(old(store).keys, rec.updateKeys) ==> Good()
    {
      if zone !in store.zones {
        st := Ask(true);
      } else {
        st := SetFields(zone, rec);
      }
    }

    method ZoneTsigKeys(zone: string) returns (st: Status, names: seq<string>)
      modifies this`faults, this`failures
      ensures !st.Rejected?
      ensures st.Done? ==> zone in store.zones && names == BareAll(store.zones[zone].axfr)
      ensures !st.Done? ==> names == []
      ensures old(failures) <= failures && (old(faults) == [] ==> faults == [] && failures == old(failures))
      ensures failures == old(failures) ==> (st == if zone in store.zones then Done else PdnsError)
    {
      st := Ask(zone in store.zones);
      names := if st.Done? then BareAll(store.zones[zone].axfr) else [];
    }

    method ZoneUpdateKeys(zone: string) returns (st: Status, names: seq<string>)
      modifies this`faults, this`failures
      ensures !st.Rejected?
      ensures st.Done? ==> names == store.UpdateKeysOf(zone)
      ensures !st.Done? ==> names == []
      ensures old(failures) <= failures && (old(faults) == [] ==> faults == [] && failures == old(failures))
      ensures failures == old(failures) ==> st.Done?
    {
      st := Ask(true);
      names := if st.Done? then store.UpdateKeysOf(zone) else [];
    }

    method ZoneUpdateIps(zone: string) returns (st: Status, ranges: seq<string>)
      modifies this`faults, this`failures
      ensures !st.Rejected?
      ensures st.Done? ==> ranges == UserRanges(store.UpdateFromOf(zone))
      ensures old(failures) <= failures && (old(faults) == [] ==> faults == [] && failures == old(failures))
      ensures failures == old(failures) ==> st.Done?
    {
      st := Ask(true);
      ranges := if st.Done? then UserRanges(store.UpdateFromOf(zone)) else [];
    }

    /** Ask every zone, one by one, whether it mentions the key. */
    method TsigKeyInUse(name: string) returns (st: Status, used: bool)
      modifies this`faults, this`failures
      ensures !st.Rejected?
      ensures st.Done? ==> used == InUse(store, name)
      ensures old(failures) <= failures && (old(faults) == [] ==> faults == [] && failures == old(failures))
      ensures failures == old(failures) ==> st.Done?
    {
      hide Canonical, Bare;
      used := false;
      st := Ask(true);
      if !st.Done? { return; }
      var rest := store.zones.Keys;
      while rest != {}
        invariant st.Done? && rest <= store.zones.Keys
        invariant forall z :: z in store.zones && z !in rest ==> !Mentions(store.zones[z], name)
        invariant old(failures) <= failures && (old(faults) == [] ==> faults == [] && failures == old(failures))
        decreases rest
      {
        var z :| z in rest;
        st := Ask(true);
        if !st.Done? { return; }
        if Canonical(name) in store.zones[z].axfr {
          used := true;
          return;
        }
        var keys;
        st, keys := ZoneUpdateKeys(z);
        if !st.Done? { return; }
        if Bare(name) in keys {
          used := true;
          return;
        }
        rest := rest - {z};
      }
    }

    method CreateTsigKey(name: string) returns (st: Status)
      modifies this
      ensures !st.Rejected?
      ensures st.Done? ==> store == Store(old(store).keys + {Bare(name) + "."}, old(store).zones)
      ensures store.zones == old(store).zones && old(store).keys <= store.keys
      ensures old(failures) <= failures && (old(faults) == [] ==> faults == [] && failures == old(failures))
      ensures failures == old(failures) ==> (Bare(name) + "." !in old(store).keys ==> st.Done?)
      ensures old(Good()) ==> Good()
    {
      hide Canonical, Consistent, Bare;
      var id := Bare(name) + ".";
      if id in store.keys {
        st := Ask(false);
      } else {
        if old(Good()) { NewKeyKept(cfg, store, id); }
        st := Write(Store(store.keys + {id}, store.zones));
      }
    }

    method DeleteTsigKey(name: string) returns (st: Status)
      modifies this
      ensures !st.Rejected?
      ensures st.Done? ==> store == Store(old(store).keys - {Canonical(name)}, old(store).zones)
      ensures store.zones == old(store).zones
      ensures store.keys == old(store).keys || store.keys == old(store).keys - {Canonical(name)}
      ensures old(failures) <= failures && (old(faults) == [] ==> faults == [] && failures == old(failures))
      ensures failures == old(failures) ==> store.keys == old(store).keys - {Canonical(name)}
      ensures failures == old(failures) ==> st == if Canonical(name) in old(store).keys then Done else PdnsError
      ensures old(Good()) && !Referenced(old(store), Canonical(name)) ==> Good()
    {
      hide Canonical, Consistent, Referenced;
      var id := Canonical(name);
      if id !in store.keys {
        assert store.keys - {id} == store.keys;
        st := Ask(false);
      } else {
        if old(Good()) && !Referenced(store, id) { KeyDeleteKept(cfg, store, id); }
        st := Write(Store(store.keys - {id}, store.zones));
      }
    }

    /** `ensure_tsig_allow_axfr`: every global key, unless there are none. */
    method EnsureAxfr(zone: string) returns (st: Status)
      requires cfg.Valid()
      modifies this
      ensures !st.Rejected?
      ensures store.keys == old(store).keys
      ensures st.Done? ==> store == WithGlobals(cfg, old(store), zone)
      ensures old(failures) <= failures && (old(faults) == [] ==> faults == [] && failures == old(failures))
      ensures failures == old(failures) ==> (zone in old(store).zones ==> st.Done?)
      ensures old(Good()) && zone != cfg.catalog ==> Good()
    {
      hide Canonical, Consistent, IsId, Config.Globals;
      if cfg.Globals() == [] {
        return Done;
      }
      ghost var s := store;
      if old(Good()) { GlobalsSound(cfg, s, cfg.Globals()); }
      st := SetTsigKeys(zone, cfg.Globals());
    }
  }

  function WithGlobals(cfg: Config, s: Store, zone: string): Store {
    if cfg.Globals() != [] && zone in s.zones then
      s.Put(zone, s.zones[zone].(axfr := CanonicalAll(cfg.Globals())))
    else s
  }

  lemma GlobalsSound(cfg: Config, s: Store, names: seq<string>)
    requires cfg.Valid() && Consistent(cfg, s) && forall n :: n in names ==> n in cfg.Globals()
    ensures AxfrSound(s.keys, CanonicalAll(names))
  {
    hide Canonical, IsId, IsBareName;
    assert AxfrSound(s.keys, s.zones[cfg.catalog].axfr);
    CanonicalAllSound(s.keys, names);
  }

  lemma KeyDeleteKept(cfg: Config, s: Store, id: string)
    requires Consistent(cfg, s) && !Referenced(s, id)
    ensures Consistent(cfg, Store(s.keys - {id}, s.zones))
  {
    hide Canonical, Referenced;
    KeyDeleteKeptExactly(s, id);
  }
}
