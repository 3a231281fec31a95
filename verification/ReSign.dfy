/** The DNSSEC re-sign sweep (app/mojodns/resign.py): one pass over the signed zones that
    restarts the timers of moved zones and re-writes the SOA of due ones, up to a cap.

    The clock, the PowerDNS answers and the database commit are inputs: a sweep is told what
    every call would answer, and every call may fail. */
module ReSign {
  import opened Wrappers

  type Zone = string

  /** A row of the `zone_signing` table; both columns are nullable. */
  datatype Row = Row(lastSerial: Option<nat>, dueAt: Option<int>)

  type Table = map<Zone, Row>

  /** Settings in whole seconds; `digest` stands for the SHA-256 of the zone name. */
  datatype Config = Config(quiet: int, jitterMax: int, digest: Zone -> nat)

  datatype Action = Reset | Bump | Wait

  /** One entry of PowerDNS's zone list. */
  datatype ZoneInfo = ZoneInfo(name: Zone, serial: Option<nat>, dnssec: bool)

  /** What became of a write request: a lost reply means it was applied but reported as failed. */
  datatype Write = Applied | Refused | ReplyLost

  /** What PowerDNS would answer, call by call, while one zone is being bumped.
      `customNotify` is the zone's own notify list being non-empty (None: the read failed);
      `serialRead` is the read-back after the bump (outer None: it failed). */
  datatype Replies = Replies(
    zoneRead: bool, hasSoa: bool, soaWrite: Write,
    customNotify: Option<bool>, pdnsNotify: bool, serialRead: Option<Option<nat>>)
  {
    /** The SOA is re-written, whether or not the panel learns of it. */
    predicate RewritesSoa() {
      zoneRead && hasSoa && !soaWrite.Refused?
    }

    /** `_bump_serial` returns without an exception. */
    predicate Succeeds() {
      && zoneRead
      && (hasSoa ==> soaWrite.Applied?)
      && customNotify.Some?
      && (customNotify.value || pdnsNotify)
    }

    /** The serial read back after a bump; a missing or zero one falls back on the listed one. */
    function SerialAfter(listed: Option<nat>): Option<nat>
      requires serialRead.Some?
    {
      match serialRead.value
      case None => listed
      case Some(s) => if s != 0 then Some(s) else listed
    }
  }

  const CAP_DIVISOR: nat := 40

  function JitterSeconds(zone: Zone, cfg: Config): (j: int)
    ensures 0 <= j
    ensures if cfg.jitterMax > 0 then j < cfg.jitterMax else j == 0
    ensures cfg.jitterMax > 0 ==> j % cfg.jitterMax == cfg.digest(zone) % cfg.jitterMax
  {
    if cfg.jitterMax <= 0 then 0 else cfg.digest(zone) % cfg.jitterMax
  }

  function NextDue(now: int, zone: Zone, cfg: Config): int {
    now + cfg.quiet + JitterSeconds(zone, cfg)
  }

  function Classify(serial: Option<nat>, row: Row, now: int): Action {
    if row.lastSerial.None? || serial != row.lastSerial then Reset
    else if row.dueAt.None? || now >= row.dueAt.value then Bump
    else Wait
  }

  function Cap(n: nat): nat {
    var c := (n + CAP_DIVISOR - 1) / CAP_DIVISOR;
    if c < 1 then 1 else c
  }

  /** One bump for every forty signed zones or part of forty, and never less than one. */
  lemma CapIsCeiling(n: nat)
    ensures n > 0 ==> 40 * (Cap(n) - 1) < n <= 40 * Cap(n)
    ensures Cap(0) == 1
  {
  }

  function Signed(zones: seq<ZoneInfo>): (signed: seq<ZoneInfo>)
    ensures forall e :: e in signed <==> e in zones && e.dnssec
  {
    if zones == [] then []
    else if zones[0].dnssec then [zones[0]] + Signed(zones[1..]) else Signed(zones[1..])
  }

  function Names(signed: seq<ZoneInfo>): (names: set<Zone>) {
    set e | e in signed :: e.name
  }

  predicate DistinctNames(signed: seq<ZoneInfo>) {
    forall i, j :: 0 <= i < j < |signed| ==> signed[i].name != signed[j].name
  }

  /** The state of a sweep part-way through its loop. `rewritten` lists the zones whose SOA
      was re-written, which the source does not record. */
  datatype Progress = Progress(rows: Table, bumped: seq<Zone>, rewritten: seq<Zone>)

  /** What one sweep is told from outside: clock, zone list, answers, fate of the commit. */
  datatype Sweep = Sweep(now: int, zones: seq<ZoneInfo>, replies: Zone -> Replies, committed: bool) {
    function List(): seq<ZoneInfo> {
      Signed(zones)
    }

    function Limit(): nat {
      Cap(|List()|)
    }
  }

  /** The effect of bumping a due zone, with the answers `r`. */
  function Attempt(cfg: Config, now: int, p: Progress, e: ZoneInfo, row: Row, r: Replies): Progress {
    var rewritten := if r.RewritesSoa() then p.rewritten + [e.name] else p.rewritten;
    if !r.Succeeds() then
      p.(rewritten := rewritten)
    else if r.serialRead.None? then
      p.(bumped := p.bumped + [e.name], rewritten := rewritten)
    else
      Progress(p.rows[e.name := Row(r.SerialAfter(e.serial), Some(NextDue(now, e.name, cfg)))],
               p.bumped + [e.name], rewritten)
  }

  /** One iteration of the sweep's loop. */
  function Visit(cfg: Config, sw: Sweep, p: Progress, e: ZoneInfo): Progress {
    var restarted := Row(e.serial, Some(NextDue(sw.now, e.name, cfg)));
    if e.name !in p.rows then p.(rows := p.rows[e.name := restarted])
    else
      match Classify(e.serial, p.rows[e.name], sw.now)
      case Reset => p.(rows := p.rows[e.name := restarted])
      case Wait => p
      case Bump =>
        if |p.bumped| >= sw.Limit() then p
        else Attempt(cfg, sw.now, p, e, p.rows[e.name], sw.replies(e.name))
  }

  /** The state after the first `i` zones of the list. */
  function After(cfg: Config, table: Table, sw: Sweep, i: nat): Progress
    requires i <= |sw.List()|
  {
    if i == 0 then Progress(table, [], [])
    else Visit(cfg, sw, After(cfg, table, sw, i - 1), sw.List()[i - 1])
  }

  function Finish(cfg: Config, table: Table, sw: Sweep): Progress {
    After(cfg, table, sw, |sw.List()|)
  }

  /** Drop the rows of zones that are no longer signed. */
  function Forget(rows: Table, names: set<Zone>): Table {
    map z | z in rows && z in names :: rows[z]
  }

  /** The table left in the database; without a commit it is the old one. */
  function TableAfter(cfg: Config, table: Table, sw: Sweep): Table {
    if sw.committed then Forget(Finish(cfg, table, sw).rows, Names(sw.List())) else table
  }

  /** PowerDNS as the sweep sees it: `soaWrites` logs every SOA re-write it performed. */
  class PowerDns {
    var soaWrites: seq<Zone>

    constructor ()
      ensures soaWrites == []
    {
      soaWrites := [];
    }

    method ReplaceSoa(zone: Zone, outcome: Write) returns (ok: bool)
      modifies this
      ensures ok == outcome.Applied?
      ensures soaWrites == if outcome.Refused? then old(soaWrites) else old(soaWrites) + [zone]
    {
      if !outcome.Refused? {
        soaWrites := soaWrites + [zone];
      }
      ok := outcome.Applied?;
    }
  }

  /** The scheduler: the table it keeps in the database and its PowerDNS client. */
  class Scheduler {
    const cfg: Config
    const pdns: PowerDns
    var table: Table

    constructor (cfg: Config, pdns: PowerDns)
      ensures this.cfg == cfg && this.pdns == pdns && table == map[]
    {
      this.cfg, this.pdns, table := cfg, pdns, map[];
    }

    /** Read the zone, re-write its SOA if it has one, notify; `ok` is false on an exception. */
    method BumpSerial(zone: Zone, r: Replies) returns (ok: bool)
      modifies pdns
      ensures ok == r.Succeeds()
      ensures pdns.soaWrites == if r.RewritesSoa() then old(pdns.soaWrites) + [zone] else old(pdns.soaWrites)
    {
      if !r.zoneRead { return false; }
      if r.hasSoa {
        var written := pdns.ReplaceSoa(zone, r.soaWrite);
        if !written { return false; }
      }
      if r.customNotify.None? { return false; }
      ok := r.customNotify.value || r.pdnsNotify;
    }

    /** The body of the sweep's loop, for one signed zone. */
    method VisitZone(sw: Sweep, e: ZoneInfo, cap: nat, rows0: Table, bumped0: seq<Zone>, ghost p: Progress)
      returns (rows: Table, bumped: seq<Zone>)
      requires cap == sw.Limit() && p.rows == rows0 && p.bumped == bumped0
      modifies pdns
      ensures var v := Visit(cfg, sw, p.(rewritten := []), e);
              rows == v.rows && bumped == v.bumped && pdns.soaWrites == old(pdns.soaWrites) + v.rewritten
    {
      rows, bumped := rows0, bumped0;
      var restarted := Row(e.serial, Some(NextDue(sw.now, e.name, cfg)));
      if e.name !in rows {
        rows := rows[e.name := restarted];
        return;
      }
      match Classify(e.serial, rows[e.name], sw.now)
      case Reset =>
        rows := rows[e.name := restarted];
      case Wait =>
      case Bump =>
        if |bumped| >= cap { return; }
        var r := sw.replies(e.name);
        var ok := BumpSerial(e.name, r);
        if ok {
          bumped := bumped + [e.name];
          if r.serialRead.Some? {
            rows := rows[e.name := Row(r.SerialAfter(e.serial), Some(NextDue(sw.now, e.name, cfg)))];
          }
        }
    }

    /** One sweep over a successfully read zone list. */
    method ResignDueZones(sw: Sweep) returns (bumped: seq<Zone>)
      requires DistinctNames(sw.List())
      modifies this, pdns
      ensures table == TableAfter(cfg, old(table), sw)
      ensures bumped == Finish(cfg, old(table), sw).bumped
      ensures pdns.soaWrites == old(pdns.soaWrites) + Finish(cfg, old(table), sw).rewritten
      ensures bumped != [] ==> 40 * (|bumped| - 1) < |Signed(sw.zones)|
    {
      AfterFirst(cfg, table, sw);
      hide Visit, After, Names, Forget, Cap;
      var signed := sw.List();
      var cap := Cap(|signed|);
      var rows := table;
      var signedNames: set<Zone> := {};
      NoNames(signed);
      bumped := [];
      ghost var p := Progress(table, [], []);
      for i := 0 to |signed|
        invariant p == After(cfg, old(table), sw, i)
        invariant p.rows == rows && p.bumped == bumped
        invariant pdns.soaWrites == old(pdns.soaWrites) + p.rewritten
        invariant signedNames == Names(signed[..i])
        invariant table == old(table) && |bumped| <= cap && (i == 0 ==> bumped == [])
      {
        var e := signed[i];
        VisitBumps(cfg, sw, p, e);
        NamesSnoc(signed, i);
        signedNames := signedNames + {e.name};
        AfterNext(cfg, old(table), sw, i);
        VisitAppends(cfg, sw, p, e);
        rows, bumped := VisitZone(sw, e, cap, rows, bumped, p);
        p := Visit(cfg, sw, p, e);
      }
      assert signed[..|signed|] == signed;
      CapIsCeiling(|signed|);
      if sw.committed {
        table := Forget(rows, signedNames);
      }
    }
  }

  lemma VisitBumps(cfg: Config, sw: Sweep, p: Progress, e: ZoneInfo)
    requires |p.bumped| <= sw.Limit()
    ensures |Visit(cfg, sw, p, e).bumped| <= sw.Limit()
  {
  }

  lemma AfterFirst(cfg: Config, table: Table, sw: Sweep)
    ensures After(cfg, table, sw, 0) == Progress(table, [], [])
  {
  }

  lemma AfterNext(cfg: Config, table: Table, sw: Sweep, i: nat)
    requires i < |sw.List()|
    ensures After(cfg, table, sw, i + 1) == Visit(cfg, sw, After(cfg, table, sw, i), sw.List()[i])
  {
    hide Visit;
  }

  lemma NoNames(signed: seq<ZoneInfo>)
    ensures Names(signed[..0]) == {}
  {
    assert signed[..0] == [];
  }

  lemma NamesSnoc(signed: seq<ZoneInfo>, i: nat)
    requires i < |signed|
    ensures Names(signed[..i + 1]) == Names(signed[..i]) + {signed[i].name}
  {
    assert signed[..i + 1] == signed[..i] + [signed[i]];
  }

  /** The log of re-writes is only ever appended to, and nothing else depends on it. */
  lemma VisitAppends(cfg: Config, sw: Sweep, p: Progress, e: ZoneInfo)
    ensures var v := Visit(cfg, sw, p.(rewritten := []), e);
            Visit(cfg, sw, p, e) == v.(rewritten := p.rewritten + v.rewritten)
  {
    assert p.rewritten + [] == p.rewritten && [] + [e.name] == [e.name];
  }
}
