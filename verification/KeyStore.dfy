/** The part of PowerDNS the key and access handlers touch: the TSIG key store and, per zone,
    its kind, catalog, transfer keys and metadata; the meaning of a key being referenced; and
    what each kind of write does to "no zone references a key that does not exist". */
module KeyStore {
  import opened Text

  datatype Kind = Master | Native | Producer

  /** `axfr` holds key ids (trailing dot); the three metadata lists are empty when absent.
      `updateKeys` holds bare key names. */
  datatype Zone = Zone(
    kind: Kind, catalog: string, axfr: seq<string>,
    updateKeys: seq<string>, updateFrom: seq<string>, alsoNotify: seq<string>)

  datatype Store = Store(keys: set<string>, zones: map<string, Zone>) {
    function UpdateKeysOf(zone: string): seq<string> {
      if zone in zones then BareAll(zones[zone].updateKeys) else []
    }

    function UpdateFromOf(zone: string): seq<string> {
      if zone in zones then zones[zone].updateFrom else []
    }

    function AlsoNotifyOf(zone: string): seq<string> {
      if zone in zones then zones[zone].alsoNotify else []
    }

    function Put(zone: string, rec: Zone): Store {
      Store(keys, zones[zone := rec])
    }
  }

  function BareAll(names: seq<string>): (r: seq<string>)
    ensures |r| == |names| && forall i :: 0 <= i < |names| ==> r[i] == Bare(names[i])
  {
    seq(|names|, i requires 0 <= i < |names| => Bare(names[i]))
  }

  function CanonicalAll(names: seq<string>): (r: seq<string>)
    ensures |r| == |names| && forall i :: 0 <= i < |names| ==> r[i] == Canonical(names[i])
  {
    seq(|names|, i requires 0 <= i < |names| => Canonical(names[i]))
  }

  function LowerBareAll(names: seq<string>): (r: seq<string>)
    ensures |r| == |names| && forall i :: 0 <= i < |names| ==> r[i] == Lower(Bare(names[i]))
  {
    seq(|names|, i requires 0 <= i < |names| => Lower(Bare(names[i])))
  }

  /** The names that are not spellings of the given one. */
  function Without(names: seq<string>, name: string): seq<string> {
    if names == [] then []
    else (if Canonical(names[0]) != Canonical(name) then [names[0]] else []) + Without(names[1..], name)
  }

  lemma {:induction false} WithoutMembers(names: seq<string>, name: string)
    ensures forall k :: k in Without(names, name) <==> k in names && Canonical(k) != Canonical(name)
  {
    hide Canonical;
    if names != [] {
      WithoutMembers(names[1..], name);
    }
  }

  /** Append unless present. */
  function Including(names: seq<string>, name: string): seq<string> {
    if name in names then names else names + [name]
  }

  // ---- key names ---------------------------------------------------------------------------

  /** A name whose bare spelling is its canonical one: lower-case, no stray space or leading dot. */
  predicate Tidy(name: string) {
    Bare(name) + "." == Canonical(name)
  }

  /** A key id as PowerDNS stores it. */
  predicate IsId(id: string) {
    Canonical(Bare(id)) == id && Bare(id) + "." == id
  }

  /** A bare name as the update metadata stores it. */
  predicate IsBareName(name: string) {
    Tidy(name) && Bare(name) == name
  }

  predicate IsAlnum(c: char) {
    'a' <= c <= 'z' || '0' <= c <= '9'
  }

  /** The panel's key-name pattern: dot-separated labels of letters, digits and inner hyphens. */
  predicate ValidKeyName(name: string) {
    && name != ""
    && IsAlnum(name[0]) && IsAlnum(name[|name| - 1])
    && (forall c :: c in name ==> IsAlnum(c) || c == '-' || c == '.')
    && (forall i :: 0 < i < |name| - 1 && name[i] == '.' ==> IsAlnum(name[i - 1]) && IsAlnum(name[i + 1]))
  }

  /** One label of a key name. */
  predicate IsKeyLabel(l: string) {
    l != "" && l[0] != '-' && l[|l| - 1] != '-' && forall c :: c in l ==> 'a' <= c <= 'z' || '0' <= c <= '9' || c == '-'
  }

  lemma KeyLabelByAlnum(l: string)
    ensures IsKeyLabel(l) <==>
            l != "" && IsAlnum(l[0]) && IsAlnum(l[|l| - 1]) && forall c :: c in l ==> IsAlnum(c) || c == '-'
  {
    assert l != "" ==> l[0] in l && l[|l| - 1] in l;
  }

  lemma KeyLabelsOf(a: string, b: string)
    requires '.' !in a && ValidKeyName(a + "." + b)
    ensures IsKeyLabel(a) && ValidKeyName(b)
  {
    var n, k := a + "." + b, |a|;
    assert n[k] == '.' && !IsAlnum('.');
    KeyLabelByAlnum(a);
    hide IsAlnum, IsKeyLabel;
    assert 0 < k < |n| - 1 && IsAlnum(n[k - 1]) && IsAlnum(n[k + 1]);
    assert n[k - 1] == a[k - 1] && n[k + 1] == b[0] && n[0] == a[0] && n[|n| - 1] == b[|b| - 1];
    forall c | c in a || c in b ensures c in n {}
    forall i | 0 < i < |b| - 1 && b[i] == '.' ensures IsAlnum(b[i - 1]) && IsAlnum(b[i + 1]) {
      var m := k + 1 + i;
      assert n[m] == b[i] && n[m - 1] == b[i - 1] && n[m + 1] == b[i + 1];
    }
  }

  lemma LabelsMakeKey(a: string, b: string)
    requires IsKeyLabel(a) && ValidKeyName(b)
    ensures ValidKeyName(a + "." + b)
  {
    var n, k := a + "." + b, |a|;
    KeyLabelByAlnum(a);
    assert !IsAlnum('.');
    hide IsAlnum, IsKeyLabel;
    assert n[0] == a[0] && n[|n| - 1] == b[|b| - 1] && n[k - 1] == a[k - 1] && n[k + 1] == b[0];
    forall c | c in n ensures IsAlnum(c) || c == '-' || c == '.' {
      assert c in a || c == '.' || c in b;
    }
    forall i | 0 <= i < k ensures n[i] != '.' {
      assert n[i] == a[i] && a[i] in a;
    }
    forall i | 0 < i < |n| - 1 && n[i] == '.' ensures IsAlnum(n[i - 1]) && IsAlnum(n[i + 1]) {
      if i > k {
        var m := i - k - 1;
        assert n[i] == b[m] && m != 0;
        assert n[i - 1] == b[m - 1] && n[i + 1] == b[m + 1];
      }
    }
  }

  lemma OnlyKeyLabel(a: string)
    requires '.' !in a
    ensures ValidKeyName(a) <==> IsKeyLabel(a)
  {
    KeyLabelByAlnum(a);
    hide IsAlnum, IsKeyLabel;
    assert forall i :: 0 <= i < |a| ==> a[i] in a;
  }

  /** The pattern takes exactly the names whose every label is one of letters, digits and inner
      hyphens. */
  lemma {:induction false} ValidKeyNameExactly(name: string)
    ensures ValidKeyName(name) <==> forall i :: 0 <= i < |Split(name, '.')| ==> IsKeyLabel(Split(name, '.')[i])
    decreases |name|
  {
    var i := Find(name, '.');
    FindIs(name, '.');
    SplitStep(name, '.');
    hide ValidKeyName, IsKeyLabel, Split, Find;
    if i == |name| {
      OnlyKeyLabel(name);
    } else {
      var a, b := name[..i], name[i + 1..];
      assert name == a + "." + b;
      if ValidKeyName(name) { KeyLabelsOf(a, b); }
      if IsKeyLabel(a) && ValidKeyName(b) { LabelsMakeKey(a, b); }
      ValidKeyNameExactly(b);
      var rest := Split(b, '.');
      assert Split(name, '.') == [a] + rest;
      assert forall j :: 0 <= j < |rest| ==> ([a] + rest)[j + 1] == rest[j];
      assert forall j :: 0 < j < |rest| + 1 ==> ([a] + rest)[j] == rest[j - 1];
      assert ([a] + rest)[0] == a;
    }
  }

  lemma BareOfBare(name: string)
    ensures Bare(Bare(name)) == Bare(name)
  {
    var b := Bare(name);
    TrimRightIs(name, IsDot);
    assert TrimRight(b, IsDot) == b;
  }

  lemma ValidKeyNameIsBare(name: string)
    requires ValidKeyName(name)
    ensures IsBareName(name) && Canonical(name) == name + "." && Lower(name) == name && IsId(name + ".")
  {
    forall i | 0 <= i < |name| ensures LowerChar(name[i]) == name[i] && !IsSpace(name[i]) {
      assert name[i] in name;
    }
    assert Lower(name) == name;
    assert name[0] in name && name[|name| - 1] in name;
    CanonicalOfClean(name);
    DropDot(name);
  }

  lemma IdFacts(id: string)
    requires IsId(id)
    ensures Tidy(Bare(id)) && IsBareName(Bare(id))
  {
    BareOfBare(id);
  }

  lemma BareNameFacts(name: string)
    requires IsBareName(name)
    ensures IsId(name + ".") && Canonical(name) == name + "." && Lower(name) == name
  {
    var t := Trim(Strip(name), IsDot);
    assert name == (name + ".")[..|name|] == Lower(t);
    assert Lower(t)[..] == Lower(t);
    LowerIdempotent(t);
    TrimRightIs(name + ".", IsDot);
    TrimRightIs(name, IsDot);
    DropDot(name);
  }

  // ---- references --------------------------------------------------------------------------

  /** What `tsig_key_in_use` looks for in one zone. The bare name is not lower-cased. */
  predicate Mentions(rec: Zone, name: string) {
    Canonical(name) in rec.axfr || Bare(name) in BareAll(rec.updateKeys)
  }

  predicate InUse(s: Store, name: string) {
    exists z :: z in s.zones && Mentions(s.zones[z], name)
  }

  /** The zone really depends on the key with this id. */
  predicate DependsOn(rec: Zone, id: string) {
    id in rec.axfr || exists u :: u in rec.updateKeys && u + "." == id
  }

  predicate Referenced(s: Store, id: string) {
    exists z :: z in s.zones && DependsOn(s.zones[z], id)
  }

  predicate AxfrSound(keys: set<string>, ids: seq<string>) {
    forall id :: id in ids ==> IsId(id) && id in keys
  }

  predicate UpdateSound(keys: set<string>, names: seq<string>) {
    forall u :: u in names ==> IsBareName(u) && u + "." in keys
  }

  /** No dangling keys: every key a zone references exists, under a well-formed name. */
  predicate NoDangling(s: Store) {
    forall z :: z in s.zones ==> AxfrSound(s.keys, s.zones[z].axfr) && UpdateSound(s.keys, s.zones[z].updateKeys)
  }

  /** Without repeats, in order of first appearance. */
  function FirstOfEach(names: seq<string>): (r: seq<string>)
    ensures forall n :: n in r <==> n in names
    ensures forall i, j :: 0 <= i < j < |r| ==> r[i] != r[j]
  {
    if names == [] then []
    else
      var front, last := FirstOfEach(names[..|names| - 1]), names[|names| - 1];
      assert names == names[..|names| - 1] + [last];
      if last in front then front else front + [last]
  }

  /** The panel's settings: the catalog zone, and the global TSIG keys with the primary first. */
  datatype Config = Config(catalog: string, primary: string, extras: seq<string>) {
    function Globals(): seq<string> {
      FirstOfEach(Primaries() + extras)
    }

    function Primaries(): seq<string> {
      if primary != "" then [primary] else []
    }

    predicate IsGlobalId(id: string) {
      exists g :: g in Globals() && Canonical(g) == id
    }

    predicate IsGlobal(name: string) {
      IsGlobalId(Canonical(name))
    }

    predicate Valid() {
      forall g :: g in Globals() ==> IsId(Canonical(g))
    }
  }

  /** The standing invariant: no dangling keys, and the catalog zone references every global key. */
  ghost predicate Consistent(cfg: Config, s: Store) {
    && NoDangling(s)
    && cfg.catalog in s.zones
    && forall g :: g in cfg.Globals() ==> Canonical(g) in s.zones[cfg.catalog].axfr
  }

  lemma BareAllIsIdentity(keys: set<string>, names: seq<string>)
    requires UpdateSound(keys, names)
    ensures BareAll(names) == names
  {
    forall i | 0 <= i < |names| ensures Bare(names[i]) == names[i] {
      assert names[i] in names;
    }
  }

  /** For a tidy name the panel's test finds exactly the zones that depend on the key. */
  lemma MentionsIsDependsOn(keys: set<string>, rec: Zone, name: string)
    requires AxfrSound(keys, rec.axfr) && UpdateSound(keys, rec.updateKeys) && Tidy(name)
    ensures Mentions(rec, name) <==> DependsOn(rec, Canonical(name))
  {
    hide Canonical, Bare, IsId;
    BareAllIsIdentity(keys, rec.updateKeys);
    forall u | u in rec.updateKeys && u + "." == Canonical(name) ensures u == Bare(name) {
      assert u == (u + ".")[..|u|];
      assert Bare(name) == (Bare(name) + ".")[..|Bare(name)|];
    }
  }

  lemma InUseIsReferenced(s: Store, name: string)
    requires NoDangling(s) && Tidy(name)
    ensures InUse(s, name) <==> Referenced(s, Canonical(name))
  {
    forall z | z in s.zones ensures Mentions(s.zones[z], name) <==> DependsOn(s.zones[z], Canonical(name)) {
      MentionsIsDependsOn(s.keys, s.zones[z], name);
    }
  }

  /** The catalog zone keeps every global key in use. */
  lemma GlobalInUse(cfg: Config, s: Store, name: string)
    requires Consistent(cfg, s) && cfg.IsGlobal(name)
    ensures InUse(s, name)
  {
    hide Canonical, Bare;
    assert Mentions(s.zones[cfg.catalog], name);
  }

  /** A key name as it may arrive in a delete request's path, naming some well-formed key. */
  predicate NamesAKey(name: string) {
    IsId(Canonical(name))
  }

  /** The panel's in-use test is exact on every consistent store if and only if the name is
      tidy or global: for any other spelling of a key there is a store where the key is in
      use for updates and the test denies it. */
  lemma InUseExactly(cfg: Config, name: string)
    requires cfg.Valid() && NamesAKey(name)
    ensures (forall s: Store :: Consistent(cfg, s) ==> (InUse(s, name) <==> Referenced(s, Canonical(name))))
            <==> Tidy(name) || cfg.IsGlobal(name)
  {
    hide Canonical, Bare, IsId;
    if Tidy(name) || cfg.IsGlobal(name) {
      forall s: Store | Consistent(cfg, s) ensures InUse(s, name) <==> Referenced(s, Canonical(name)) {
        if Tidy(name) {
          InUseIsReferenced(s, name);
        } else {
          assert Mentions(s.zones[cfg.catalog], name) && DependsOn(s.zones[cfg.catalog], Canonical(name));
        }
      }
    } else {
      var s, _ := MissedReference(cfg, name);
    }
  }

  /** The ids of the global keys, as `ensure_catalog_zone` lists them. */
  lemma GlobalIds(cfg: Config, id: string)
    ensures id in CanonicalAll(cfg.Globals()) <==> exists g :: g in cfg.Globals() && Canonical(g) == id
  {
    hide Canonical;
    var axfr, gs := CanonicalAll(cfg.Globals()), cfg.Globals();
    if id in axfr {
      var i :| 0 <= i < |axfr| && axfr[i] == id;
      assert gs[i] in gs;
    }
    if g :| g in gs && Canonical(g) == id {
      var i :| 0 <= i < |gs| && gs[i] == g;
      assert axfr[i] == id;
    }
  }

  /** A store with the catalog zone, a zone that may be updated with the key `b`, and one without
      keys. */
  function UpdateOnlyStore(cfg: Config, b: string): Store {
    var axfr := CanonicalAll(cfg.Globals());
    Store({b + "."} + (set a | a in axfr),
          map[cfg.catalog := Zone(Producer, "", axfr, [], [], []),
              cfg.catalog + "x" := Zone(Master, "", [], [b], [], []),
              cfg.catalog + "xx" := Zone(Master, "", [], [], [], [])])
  }

  lemma UpdateOnlyStoreConsistent(cfg: Config, b: string)
    requires cfg.Valid() && IsBareName(b)
    ensures Consistent(cfg, UpdateOnlyStore(cfg, b))
    ensures Referenced(UpdateOnlyStore(cfg, b), b + ".")
  {
    hide Canonical, Bare, IsBareName, IsId, Config.Globals, CanonicalAll;
    var s, other := UpdateOnlyStore(cfg, b), cfg.catalog + "x";
    assert |other| == |cfg.catalog| + 1 && |cfg.catalog + "xx"| == |cfg.catalog| + 2;
    forall g | g in cfg.Globals() ensures Canonical(g) in s.zones[cfg.catalog].axfr {
      GlobalIds(cfg, Canonical(g));
    }
    forall id | id in CanonicalAll(cfg.Globals()) ensures IsId(id) {
      GlobalIds(cfg, id);
    }
    assert b in s.zones[other].updateKeys && DependsOn(s.zones[other], b + ".");
  }

  /** The panel does not see the one reference of `UpdateOnlyStore` under another spelling. */
  lemma UpdateOnlyStoreMissed(cfg: Config, b: string, name: string)
    requires b == Bare(b) && Bare(name) != b && !cfg.IsGlobal(name)
    ensures !InUse(UpdateOnlyStore(cfg, b), name)
  {
    hide Canonical, Bare, Config.Globals, CanonicalAll;
    var s := UpdateOnlyStore(cfg, b);
    GlobalIds(cfg, Canonical(name));
    assert BareAll([b]) == [b];
    assert BareAll([]) == [];
    assert !Mentions(s.zones[cfg.catalog], name);
    assert !Mentions(s.zones[cfg.catalog + "x"], name);
    assert !Mentions(s.zones[cfg.catalog + "xx"], name);
  }

  /** A consistent store where `name`'s key is referenced for updates only, and an ordinary zone of
      it without keys. */
  lemma MissedReference(cfg: Config, name: string) returns (s: Store, zone: string)
    requires cfg.Valid() && NamesAKey(name) && !Tidy(name) && !cfg.IsGlobal(name)
    ensures Consistent(cfg, s)
    ensures zone in s.zones && zone != cfg.catalog && s.zones[zone] == Zone(Master, "", [], [], [], [])
    ensures Referenced(s, Canonical(name)) && !InUse(s, name)
  {
    var b := Bare(Canonical(name));
    IdFacts(Canonical(name));
    hide Canonical, Bare, IsBareName, InUse, Referenced, Consistent, UpdateOnlyStore;
    assert b + "." == Canonical(name);
    s, zone := UpdateOnlyStore(cfg, b), cfg.catalog + "xx";
    UpdateOnlyStoreConsistent(cfg, b);
    BareOfBare(Canonical(name));
    UpdateOnlyStoreMissed(cfg, b, name);
    EmptyZone(cfg, b);
  }

  lemma EmptyZone(cfg: Config, b: string)
    ensures var s, zone := UpdateOnlyStore(cfg, b), cfg.catalog + "xx";
            zone in s.zones && zone != cfg.catalog && s.zones[zone] == Zone(Master, "", [], [], [], [])
  {
    hide CanonicalAll;
    assert |cfg.catalog + "xx"| == |cfg.catalog| + 2 && |cfg.catalog + "x"| == |cfg.catalog| + 1;
  }

  // ---- a concrete store --------------------------------------------------------------------

  const NO_GLOBALS := Config("c.", "", [])

  /** Two ordinary zones; the second may be updated with key "foo". */
  const FOO_STORE := Store(
    {"foo."},
    map["c." := Zone(Producer, "", [], [], [], []),
        "a." := Zone(Master, "", [], [], [], []),
        "b." := Zone(Master, "", [], ["foo"], [], [])])

  lemma FooNames()
    ensures Canonical("FOO") == "foo." && Canonical("foo") == "foo." && Bare("FOO") == "FOO" && Bare("foo") == "foo"
  {
    FooTrims("FOO");
    FooTrims("foo");
    assert Lower("FOO") == "foo" && Lower("foo") == "foo" && "foo" + "." == "foo.";
  }

  lemma FooTrims(name: string)
    requires name == "FOO" || name == "foo"
    ensures Core(name) == name && Bare(name) == name
  {
    TrimIsIdentity(name, IsSpace);
    TrimIsIdentity(name, IsDot);
    assert TrimRight(name, IsDot) == name;
  }

  lemma NoGlobals()
    ensures NO_GLOBALS.Globals() == [] && NO_GLOBALS.Valid()
  {
    assert NO_GLOBALS.Primaries() + NO_GLOBALS.extras == [];
  }

  /** In it key "FOO" is in use, and the panel's test denies it. */
  lemma InUseBroken()
    ensures NO_GLOBALS.Valid() && NamesAKey("FOO") && !Tidy("FOO") && !NO_GLOBALS.IsGlobal("FOO")
    ensures Consistent(NO_GLOBALS, FOO_STORE)
    ensures Referenced(FOO_STORE, Canonical("FOO")) && !InUse(FOO_STORE, "FOO")
  {
    FooNames();
    NoGlobals();
    IdOfFoo();
    hide Canonical, Bare;
    assert "foo" in FOO_STORE.zones["b."].updateKeys && "foo" + "." == "foo.";
    assert DependsOn(FOO_STORE.zones["b."], "foo.");
    assert BareAll(["foo"]) == ["foo"] && BareAll([]) == [];
    assert "FOO"[0] != "foo"[0] && ("FOO" + ".")[0] != "foo."[0];
  }

  lemma IdOfFoo()
    ensures IsId("foo.") && IsBareName("foo")
  {
    FooNames();
    DropDot("foo");
    assert "foo" + "." == "foo.";
  }
}
