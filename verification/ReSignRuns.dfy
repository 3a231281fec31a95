/** What the re-sign sweep guarantees over whole runs: the spacing of SOA re-writes, freedom
    from starvation under the per-sweep cap, and the freshness deadline. */
module ReSignRuns {
  import opened Wrappers
  import opened ReSign

  // ---- one sweep, seen from one zone -------------------------------------------------------

  /** Two stages of a sweep that agree about zone `z`. */
  predicate SameAt(p: Progress, q: Progress, z: Zone) {
    && (z in p.rows <==> z in q.rows)
    && (z in p.rows ==> p.rows[z] == q.rows[z])
    && (z in p.bumped <==> z in q.bumped)
    && (z in p.rewritten <==> z in q.rewritten)
  }

  lemma VisitElsewhere(cfg: Config, sw: Sweep, p: Progress, e: ZoneInfo, z: Zone)
    requires e.name != z
    ensures SameAt(p, Visit(cfg, sw, p, e), z)
    ensures |p.bumped| <= |Visit(cfg, sw, p, e).bumped|
  {
  }

  lemma {:induction false} VisitsElsewhere(cfg: Config, table: Table, sw: Sweep, i: nat, j: nat, z: Zone)
    requires i <= j <= |sw.List()|
    requires forall k :: i <= k < j ==> sw.List()[k].name != z
    ensures SameAt(After(cfg, table, sw, i), After(cfg, table, sw, j), z)
    ensures |After(cfg, table, sw, i).bumped| <= |After(cfg, table, sw, j).bumped|
    decreases j
  {
    if i < j {
      VisitsElsewhere(cfg, table, sw, i, j - 1, z);
      VisitElsewhere(cfg, sw, After(cfg, table, sw, j - 1), sw.List()[j - 1], z);
    }
  }

  /** The table row of a visited zone after the sweep, given whether it was tried. */
  function RowAfter(cfg: Config, sw: Sweep, e: ZoneInfo, row: Option<Row>, tried: bool): Row {
    var restarted := Row(e.serial, Some(NextDue(sw.now, e.name, cfg)));
    var r := sw.replies(e.name);
    if row.None? || Classify(e.serial, row.value, sw.now).Reset? then restarted
    else if tried && r.Succeeds() && r.serialRead.Some? then
      Row(r.SerialAfter(e.serial), Some(NextDue(sw.now, e.name, cfg)))
    else row.value
  }

  /** Everything one sweep does to a signed zone. `tried` tells whether its bump was attempted:
      a due, quiet zone is passed over only when the cap has been used up. */
  lemma ZoneOutcome(cfg: Config, table: Table, sw: Sweep, k: nat) returns (tried: bool)
    requires DistinctNames(sw.List()) && k < |sw.List()|
    ensures var e := sw.List()[k];
            var f := Finish(cfg, table, sw);
            var row := if e.name in table then Some(table[e.name]) else None;
            && e.name in f.rows
            && f.rows[e.name] == RowAfter(cfg, sw, e, row, tried)
            && (tried ==> row.Some? && Classify(e.serial, row.value, sw.now).Bump?)
            && (e.name in f.bumped <==> tried && sw.replies(e.name).Succeeds())
            && (e.name in f.rewritten <==> tried && sw.replies(e.name).RewritesSoa())
            && (row.Some? && Classify(e.serial, row.value, sw.now).Bump? && !tried ==>
                  |f.bumped| >= sw.Limit() && 40 * |f.bumped| >= |sw.List()|)
  {
    var e := sw.List()[k];
    VisitsElsewhere(cfg, table, sw, 0, k, e.name);
    VisitsElsewhere(cfg, table, sw, k + 1, |sw.List()|, e.name);
    AfterFirst(cfg, table, sw);
    AfterNext(cfg, table, sw, k);
    hide After, Visit, Classify, RowAfter, Cap, Sweep.Limit, Replies.Succeeds, Replies.RewritesSoa;
    CapIsAFortieth(sw, |Finish(cfg, table, sw).bumped|);
    tried := VisitOutcome(cfg, sw, After(cfg, table, sw, k), e);
  }

  lemma CapIsAFortieth(sw: Sweep, bumped: nat)
    ensures bumped >= sw.Limit() ==> 40 * bumped >= |sw.List()|
  {
    CapIsCeiling(|sw.List()|);
  }

  lemma VisitOutcome(cfg: Config, sw: Sweep, p: Progress, e: ZoneInfo) returns (tried: bool)
    requires e.name !in p.bumped && e.name !in p.rewritten
    ensures var f := Visit(cfg, sw, p, e);
            var row := if e.name in p.rows then Some(p.rows[e.name]) else None;
            && e.name in f.rows
            && f.rows[e.name] == RowAfter(cfg, sw, e, row, tried)
            && (tried ==> row.Some? && Classify(e.serial, row.value, sw.now).Bump?)
            && (e.name in f.bumped <==> tried && sw.replies(e.name).Succeeds())
            && (e.name in f.rewritten <==> tried && sw.replies(e.name).RewritesSoa())
            && (row.Some? && Classify(e.serial, row.value, sw.now).Bump? && !tried ==> |p.bumped| >= sw.Limit())
            && |p.bumped| <= |f.bumped|
  {
    hide Classify;
    tried := e.name in p.rows && Classify(e.serial, p.rows[e.name], sw.now).Bump? && |p.bumped| < sw.Limit();
  }

  lemma NameIsNew(signed: seq<ZoneInfo>, i: nat)
    requires DistinctNames(signed) && i < |signed|
    ensures signed[i].name !in Names(signed[..i])
  {
    forall e | e in signed[..i] ensures e.name != signed[i].name {
      var k :| 0 <= k < i && signed[k] == e;
    }
  }

  /** A report: distinct zones among those visited so far, at most `limit` of them bumped. */
  predicate ReportOver(p: Progress, visited: set<Zone>, limit: nat) {
    && |p.bumped| <= limit
    && (forall z :: z in p.bumped ==> z in visited)
    && (forall z :: z in p.rewritten ==> z in visited)
    && (forall a, b :: 0 <= a < b < |p.bumped| ==> p.bumped[a] != p.bumped[b])
    && (forall a, b :: 0 <= a < b < |p.rewritten| ==> p.rewritten[a] != p.rewritten[b])
  }

  lemma VisitReport(cfg: Config, sw: Sweep, p: Progress, e: ZoneInfo, visited: set<Zone>)
    requires ReportOver(p, visited, sw.Limit()) && e.name !in visited
    ensures ReportOver(Visit(cfg, sw, p, e), visited + {e.name}, sw.Limit())
  {
  }

  lemma {:induction false} ReportUpTo(cfg: Config, table: Table, sw: Sweep, i: nat)
    requires DistinctNames(sw.List()) && i <= |sw.List()|
    ensures ReportOver(After(cfg, table, sw, i), Names(sw.List()[..i]), sw.Limit())
  {
    AfterFirst(cfg, table, sw);
    NoNames(sw.List());
    hide After, Visit, Names;
    if i > 0 {
      AfterNext(cfg, table, sw, i - 1);
      ReportUpTo(cfg, table, sw, i - 1);
      NamesSnoc(sw.List(), i - 1);
      NameIsNew(sw.List(), i - 1);
      VisitReport(cfg, sw, After(cfg, table, sw, i - 1), sw.List()[i - 1], Names(sw.List()[..i - 1]));
    }
  }

  /** The report of a whole sweep: distinct signed zones, never more of them bumped than one for
      every forty signed zones or part of forty. */
  lemma ReportBounded(cfg: Config, table: Table, sw: Sweep)
    requires DistinctNames(sw.List())
    ensures var f := Finish(cfg, table, sw);
            && ReportOver(f, Names(sw.List()), sw.Limit())
            && (if sw.List() == [] then f.bumped == [] else 40 * (|f.bumped| - 1) < |sw.List()|)
  {
    CapIsCeiling(|sw.List()|);
    ReportUpTo(cfg, table, sw, |sw.List()|);
    assert sw.List()[..|sw.List()|] == sw.List();
  }

  /** After a committed sweep the table holds exactly the signed zones. */
  lemma TableHoldsSignedZones(cfg: Config, table: Table, sw: Sweep)
    requires DistinctNames(sw.List()) && sw.committed
    ensures TableAfter(cfg, table, sw).Keys == Names(sw.List())
  {
    forall z | z in Names(sw.List()) ensures z in Finish(cfg, table, sw).rows {
      var k := IndexOf(sw.List(), z);
      var _ := ZoneOutcome(cfg, table, sw, k);
    }
  }

  /** What the panel sees of the calls of a bump that goes through: the zone is read, its SOA if it
      has one is re-written, and it notifies its own list or PowerDNS does. */
  predicate GoesThrough(r: Replies) {
    && r.zoneRead
    && (r.hasSoa ==> r.soaWrite == Applied)
    && (r.customNotify == Some(true) || (r.customNotify == Some(false) && r.pdnsNotify))
  }

  lemma SucceedsIs(r: Replies)
    ensures r.Succeeds() <==> GoesThrough(r)
    ensures r.Succeeds() && r.hasSoa ==> r.RewritesSoa()
  {
    if r.customNotify.Some? {
      assert r.customNotify == if r.customNotify.value then Some(true) else Some(false);
    }
  }

  /** The rules of the sweep for one signed zone, row by row. A zone that is new or whose serial is
      not the recorded one has its timer restarted and is not touched. One whose timer still
      runs keeps its row and is not touched. Any other is bumped if the cap leaves room and its
      calls go through, and then has its timer restarted if the new serial can be read. */
  lemma ZoneRules(cfg: Config, table: Table, sw: Sweep, k: nat)
    requires DistinctNames(sw.List()) && k < |sw.List()|
    ensures var e, f := sw.List()[k], Finish(cfg, table, sw);
            var z, r, timer := e.name, sw.replies(e.name), Some(sw.now + cfg.quiet + JitterSeconds(e.name, cfg));
            && z in f.rows && (sw.committed ==> z in TableAfter(cfg, table, sw) && TableAfter(cfg, table, sw)[z] == f.rows[z])
            && (if z !in table || table[z].lastSerial == None || table[z].lastSerial != e.serial then
                  f.rows[z] == Row(e.serial, timer) && z !in f.bumped && z !in f.rewritten
                else if table[z].dueAt.Some? && sw.now < table[z].dueAt.value then
                  f.rows[z] == table[z] && z !in f.bumped && z !in f.rewritten
                else
                  && (z in f.bumped ==> GoesThrough(r))
                  && (z in f.rewritten ==> r.zoneRead && r.hasSoa && r.soaWrite != Refused)
                  && (z !in f.bumped && GoesThrough(r) ==> 40 * |f.bumped| >= |sw.List()|)
                  && (z in f.bumped && r.hasSoa ==> z in f.rewritten)
                  && (if z in f.bumped && r.serialRead.Some? then
                        f.rows[z] == Row(match r.serialRead.value
                                         case None => e.serial
                                         case Some(n) => if n == 0 then e.serial else Some(n), timer)
                      else f.rows[z] == table[z]))
  {
    var tried := ZoneOutcome(cfg, table, sw, k);
    SucceedsIs(sw.replies(sw.List()[k].name));
    hide Finish, JitterSeconds, GoesThrough, Replies.Succeeds;
    assert sw.List()[k].name in Names(sw.List());
  }

  /** Without a commit a sweep leaves the table as it was. */
  lemma UncommittedKeepsTable(cfg: Config, table: Table, sw: Sweep)
    requires !sw.committed
    ensures TableAfter(cfg, table, sw) == table
  {
  }

  lemma IndexOf(signed: seq<ZoneInfo>, z: Zone) returns (k: nat)
    requires z in Names(signed)
    ensures k < |signed| && signed[k].name == z
  {
    k :| 0 <= k < |signed| && signed[k].name == z;
  }

  // ---- runs --------------------------------------------------------------------------------

  /** PowerDNS's serials beside the panel's table. */
  datatype State = State(serials: Zone -> nat, table: Table)

  /** A sweep over an honest zone list, with any failures. Between this zone list and the next
      anybody may edit any zone: serials only ever grow, and a re-written SOA has a new one. */
  ghost predicate Step(cfg: Config, s: State, sw: Sweep, s': State) {
    var f := Finish(cfg, s.table, sw);
    && DistinctNames(sw.List())
    && (forall k :: 0 <= k < |sw.List()| ==>
          var e := sw.List()[k]; e.serial == Some(s.serials(e.name)) && sw.replies(e.name).hasSoa)
    && s'.table == TableAfter(cfg, s.table, sw)
    && (forall z :: s.serials(z) <= s'.serials(z))
    && (forall z :: z in f.rewritten ==> s.serials(z) < s'.serials(z))
    && (forall z :: z in f.bumped ==> ReadBack(sw.replies(z)) <= s'.serials(z))
  }

  function ReadBack(r: Replies): nat {
    if r.serialRead.Some? && r.serialRead.value.Some? then r.serialRead.value.value else 0
  }

  /** A run of sweeps whose clock never goes back; `states[i]` is what sweep `i` starts from. */
  datatype Run = Run(states: seq<State>, sweeps: seq<Sweep>) {
    ghost predicate Valid(cfg: Config) {
      && |states| == |sweeps| + 1
      && (forall i :: 0 <= i < |sweeps| ==> Step(cfg, states[i], sweeps[i], states[i + 1]))
      && (forall i, j :: 0 <= i <= j < |sweeps| ==> sweeps[i].now <= sweeps[j].now)
    }

    function Bumped(cfg: Config, i: nat): seq<Zone>
      requires i < |sweeps| && i < |states|
    {
      Finish(cfg, states[i].table, sweeps[i]).bumped
    }

    function Rewritten(cfg: Config, i: nat): seq<Zone>
      requires i < |sweeps| && i < |states|
    {
      Finish(cfg, states[i].table, sweeps[i]).rewritten
    }

    /** Sweep `i` sees `z` for the first time or with another serial than the recorded one. */
    predicate Observes(z: Zone, i: nat)
      requires i < |sweeps| && i < |states|
    {
      && z in Names(sweeps[i].List())
      && var t := states[i].table;
         (z in t ==> t[z].lastSerial != Some(states[i].serials(z)))
    }
  }

  /** No row records a serial PowerDNS has not reached yet. */
  ghost predicate Consistent(s: State) {
    forall z :: z in s.table && s.table[z].lastSerial.Some? ==> s.table[z].lastSerial.value <= s.serials(z)
  }

  /** The sweep cannot re-write `z` before time `t`: it is unknown, its recorded serial is out
      of date, or its timer runs at least until `t`. */
  predicate Held(s: State, z: Zone, t: int) {
    z in s.table ==>
      var row := s.table[z];
      || row.lastSerial.None?
      || row.lastSerial.value < s.serials(z)
      || (row.dueAt.Some? && row.dueAt.value >= t)
  }

  lemma ConsistencyKept(cfg: Config, s: State, sw: Sweep, s': State)
    requires Step(cfg, s, sw, s') && Consistent(s)
    ensures Consistent(s')
  {
    forall z | z in s'.table && s'.table[z].lastSerial.Some?
      ensures s'.table[z].lastSerial.value <= s'.serials(z)
    {
      if sw.committed {
        var k := IndexOf(sw.List(), z);
        var tried := ZoneOutcome(cfg, s.table, sw, k);
      }
    }
  }

  lemma HeldKept(cfg: Config, s: State, sw: Sweep, s': State, z: Zone, t: int)
    requires Step(cfg, s, sw, s') && Held(s, z, t) && t <= sw.now + cfg.quiet
    ensures Held(s', z, t)
  {
    if z in s'.table && sw.committed {
      var k := IndexOf(sw.List(), z);
      var tried := ZoneOutcome(cfg, s.table, sw, k);
    }
  }

  lemma HeldNotRewritten(cfg: Config, s: State, sw: Sweep, s': State, z: Zone, t: int)
    requires Step(cfg, s, sw, s') && Held(s, z, t)
    requires z in Finish(cfg, s.table, sw).rewritten || z in Finish(cfg, s.table, sw).bumped
    ensures t <= sw.now
  {
    ReportBounded(cfg, s.table, sw);
    var k := IndexOf(sw.List(), z);
    var tried := ZoneOutcome(cfg, s.table, sw, k);
  }

  lemma RewriteHolds(cfg: Config, s: State, sw: Sweep, s': State, z: Zone)
    requires Step(cfg, s, sw, s')
    requires z in Finish(cfg, s.table, sw).rewritten || z in Finish(cfg, s.table, sw).bumped
    ensures Held(s', z, sw.now + cfg.quiet)
  {
    ReportBounded(cfg, s.table, sw);
    var k := IndexOf(sw.List(), z);
    var tried := ZoneOutcome(cfg, s.table, sw, k);
  }

  lemma ObservationHolds(cfg: Config, s: State, sw: Sweep, s': State, z: Zone)
    requires Step(cfg, s, sw, s') && Consistent(s)
    requires z in Names(sw.List())
    requires z in s.table ==> s.table[z].lastSerial != Some(s.serials(z))
    ensures Held(s', z, sw.now + cfg.quiet)
  {
    var k := IndexOf(sw.List(), z);
    var tried := ZoneOutcome(cfg, s.table, sw, k);
  }

  // ---- spacing -----------------------------------------------------------------------------

  lemma {:induction false} HeldThrough(cfg: Config, r: Run, i: nat, j: nat, z: Zone, t: int)
    requires r.Valid(cfg) && i <= j < |r.states| && Held(r.states[i], z, t)
    requires forall m :: i <= m < j ==> t <= r.sweeps[m].now + cfg.quiet
    ensures Held(r.states[j], z, t)
    decreases j
  {
    if i < j {
      hide Step, Held;
      HeldThrough(cfg, r, i, j - 1, z, t);
      HeldKept(cfg, r.states[j - 1], r.sweeps[j - 1], r.states[j], z, t);
    }
  }

  lemma {:induction false} ConsistentThrough(cfg: Config, r: Run, i: nat)
    requires r.Valid(cfg) && i < |r.states| && Consistent(r.states[0])
    ensures Consistent(r.states[i])
  {
    if i > 0 {
      ConsistentThrough(cfg, r, i - 1);
      ConsistencyKept(cfg, r.states[i - 1], r.sweeps[i - 1], r.states[i]);
    }
  }

  /** Two SOA re-writes of one zone are at least the quiet period apart, whatever fails in
      between: a notify, the read-back, or a whole commit. */
  lemma RewritesSpaced(cfg: Config, r: Run, i: nat, j: nat, z: Zone)
    requires r.Valid(cfg) && i < j < |r.sweeps|
    requires z in r.Rewritten(cfg, i) && z in r.Rewritten(cfg, j)
    ensures r.sweeps[j].now - r.sweeps[i].now >= cfg.quiet
  {
    var t := r.sweeps[i].now + cfg.quiet;
    RewriteHolds(cfg, r.states[i], r.sweeps[i], r.states[i + 1], z);
    HeldThrough(cfg, r, i + 1, j, z, t);
    HeldNotRewritten(cfg, r.states[j], r.sweeps[j], r.states[j + 1], z, t);
  }

  /** No zone is re-written within the quiet period of a change the sweeps observed, even when
      the observation itself was not committed. */
  lemma NoRewriteSoonAfterChange(cfg: Config, r: Run, i: nat, j: nat, z: Zone)
    requires r.Valid(cfg) && Consistent(r.states[0]) && i < j < |r.sweeps|
    requires r.Observes(z, i)
    requires z in r.Rewritten(cfg, j) || z in r.Bumped(cfg, j)
    ensures r.sweeps[j].now - r.sweeps[i].now >= cfg.quiet
  {
    var t := r.sweeps[i].now + cfg.quiet;
    ConsistentThrough(cfg, r, i);
    ObservationHolds(cfg, r.states[i], r.sweeps[i], r.states[i + 1], z);
    HeldThrough(cfg, r, i + 1, j, z, t);
    HeldNotRewritten(cfg, r.states[j], r.sweeps[j], r.states[j + 1], z, t);
  }

  // ---- no starvation -----------------------------------------------------------------------

  const WINDOW: nat := CAP_DIVISOR

  ghost function UnionOf(sets: seq<set<Zone>>): set<Zone> {
    if sets == [] then {} else UnionOf(sets[..|sets| - 1]) + sets[|sets| - 1]
  }

  lemma {:induction false} InUnion(sets: seq<set<Zone>>, z: Zone) returns (i: nat)
    requires z in UnionOf(sets)
    ensures i < |sets| && z in sets[i]
  {
    if z in sets[|sets| - 1] {
      i := |sets| - 1;
    } else {
      i := InUnion(sets[..|sets| - 1], z);
    }
  }

  /** Pairwise disjoint sets of at least `cap` zones each add up. */
  lemma {:induction false} DisjointSetsAddUp(sets: seq<set<Zone>>, cap: nat)
    requires forall i, j :: 0 <= i < j < |sets| ==> sets[i] !! sets[j]
    requires forall i :: 0 <= i < |sets| ==> |sets[i]| >= cap
    ensures |UnionOf(sets)| >= |sets| * cap
  {
    if sets != [] {
      var n := |sets| - 1;
      DisjointSetsAddUp(sets[..n], cap);
      forall z | z in UnionOf(sets[..n]) ensures z !in sets[n] {
        var i := InUnion(sets[..n], z);
      }
      assert UnionOf(sets[..n]) !! sets[n];
      assert |sets| * cap == n * cap + cap;
    }
  }

  lemma {:induction false} DistinctSize(s: seq<Zone>)
    requires forall a, b :: 0 <= a < b < |s| ==> s[a] != s[b]
    ensures |AsSet(s)| == |s|
  {
    if s != [] {
      var front := s[..|s| - 1];
      DistinctSize(front);
      var last := s[|s| - 1];
      assert last !in AsSet(front);
      assert s == front + [last];
      assert AsSet(s) == AsSet(front) + {last};
    }
  }

  lemma BumpsApart(cfg: Config, r: Run, i: nat, j: nat, z: Zone)
    requires r.Valid(cfg) && i < j < |r.sweeps|
    requires z in r.Bumped(cfg, i) && z in r.Bumped(cfg, j)
    ensures r.sweeps[j].now - r.sweeps[i].now >= cfg.quiet
  {
    var t := r.sweeps[i].now + cfg.quiet;
    RewriteHolds(cfg, r.states[i], r.sweeps[i], r.states[i + 1], z);
    HeldThrough(cfg, r, i + 1, j, z, t);
    HeldNotRewritten(cfg, r.states[j], r.sweeps[j], r.states[j + 1], z, t);
  }

  /** `z` is signed, recorded with its current serial and due at sweep `i`. */
  predicate Due(r: Run, z: Zone, i: nat)
    requires i < |r.sweeps| && i < |r.states|
  {
    DueIn(r.states[i], r.sweeps[i], z)
  }

  predicate DueIn(s: State, sw: Sweep, z: Zone) {
    && z in Names(sw.List())
    && z in s.table
    && var row := s.table[z];
       row.lastSerial == Some(s.serials(z)) && (row.dueAt.None? || row.dueAt.value <= sw.now)
  }

  /** The zone list of sweeps `k .. k + WINDOW` is always the set `zones`, in any order, and
      these sweeps span less than the quiet period. */
  ghost predicate SteadyWindow(cfg: Config, r: Run, k: nat, zones: set<Zone>) {
    && r.Valid(cfg)
    && k + WINDOW <= |r.sweeps|
    && (forall i :: k <= i < k + WINDOW ==> Names(r.sweeps[i].List()) == zones)
    && r.sweeps[k + WINDOW - 1].now - r.sweeps[k].now < cfg.quiet
  }

  lemma {:induction false} NamesSize(signed: seq<ZoneInfo>)
    requires DistinctNames(signed)
    ensures |Names(signed)| == |signed|
  {
    if signed != [] {
      var n := |signed| - 1;
      NamesSize(signed[..n]);
      NamesSnoc(signed, n);
      assert signed[..n + 1] == signed;
      NameIsNew(signed, n);
    } else {
      assert Names(signed) == {};
    }
  }

  /** A due zone that is not bumped and does not move stays due, and the sweep's cap was used up. */
  lemma PassedOver(cfg: Config, s: State, sw: Sweep, s': State, z: Zone)
    requires Step(cfg, s, sw, s') && DueIn(s, sw, z)
    requires sw.replies(z).Succeeds() && z !in Finish(cfg, s.table, sw).bumped
    ensures |Finish(cfg, s.table, sw).bumped| >= sw.Limit()
    ensures z in s'.table && s'.table[z] == s.table[z]
  {
    var k := IndexOf(sw.List(), z);
    var tried := ZoneOutcome(cfg, s.table, sw, k);
  }

  lemma DueKept(cfg: Config, s: State, sw: Sweep, s': State, sw': Sweep, z: Zone)
    requires Step(cfg, s, sw, s') && DueIn(s, sw, z)
    requires sw.replies(z).Succeeds() && z !in Finish(cfg, s.table, sw).bumped
    requires z in Names(sw'.List()) && s'.serials(z) == s.serials(z) && sw.now <= sw'.now
    ensures DueIn(s', sw', z)
  {
    PassedOver(cfg, s, sw, s', z);
  }

  lemma {:induction false} StaysDue(cfg: Config, r: Run, k: nat, m: nat, z: Zone)
    requires r.Valid(cfg) && k + m < |r.sweeps| && Due(r, z, k)
    requires forall i :: k <= i <= k + m ==>
               && z in Names(r.sweeps[i].List())
               && r.sweeps[i].replies(z).Succeeds()
               && r.states[i].serials(z) == r.states[k].serials(z)
               && z !in r.Bumped(cfg, i)
    ensures Due(r, z, k + m)
  {
    hide Step, DueIn, Finish, Names;
    if m > 0 {
      StaysDue(cfg, r, k, m - 1, z);
      var i := k + m - 1;
      DueKept(cfg, r.states[i], r.sweeps[i], r.states[i + 1], r.sweeps[i + 1], z);
    }
  }

  /** The zones bumped by each sweep of the window. */
  ghost function WindowBumps(cfg: Config, r: Run, k: nat): (sets: seq<set<Zone>>)
    requires |r.states| == |r.sweeps| + 1 && k + WINDOW <= |r.sweeps|
    ensures |sets| == WINDOW
    ensures forall i :: 0 <= i < WINDOW ==> sets[i] == AsSet(r.Bumped(cfg, k + i))
  {
    seq(WINDOW, i requires 0 <= i < WINDOW => AsSet(r.Bumped(cfg, k + i)))
  }

  ghost function AsSet(s: seq<Zone>): set<Zone> {
    set z | z in s
  }

  lemma WindowBumpsDisjoint(cfg: Config, r: Run, k: nat, i: nat, j: nat)
    requires r.Valid(cfg) && k <= i < j < k + WINDOW <= |r.sweeps|
    requires r.sweeps[k + WINDOW - 1].now - r.sweeps[k].now < cfg.quiet
    ensures AsSet(r.Bumped(cfg, i)) !! AsSet(r.Bumped(cfg, j))
  {
    assert r.sweeps[k].now <= r.sweeps[i].now && r.sweeps[j].now <= r.sweeps[k + WINDOW - 1].now;
    forall z | z in r.Bumped(cfg, i) && z in r.Bumped(cfg, j) ensures false {
      BumpsApart(cfg, r, i, j, z);
    }
  }

  lemma BumpedSize(cfg: Config, r: Run, i: nat)
    requires r.Valid(cfg) && i < |r.sweeps|
    ensures |AsSet(r.Bumped(cfg, i))| == |r.Bumped(cfg, i)|
  {
    assert Step(cfg, r.states[i], r.sweeps[i], r.states[i + 1]);
    ReportBounded(cfg, r.states[i].table, r.sweeps[i]);
    DistinctSize(r.Bumped(cfg, i));
  }

  /** The cap is what makes forty sweeps enough. */
  lemma CapCovers(n: nat)
    ensures WINDOW * Cap(n) >= n && Cap(n) >= 1
  {
  }

  lemma WindowSets(cfg: Config, r: Run, k: nat)
    requires r.Valid(cfg) && k + WINDOW <= |r.sweeps|
    requires r.sweeps[k + WINDOW - 1].now - r.sweeps[k].now < cfg.quiet
    ensures var sets := WindowBumps(cfg, r, k);
            && (forall i, j :: 0 <= i < j < WINDOW ==> sets[i] !! sets[j])
            && (forall i :: 0 <= i < WINDOW ==> |sets[i]| == |r.Bumped(cfg, k + i)|)
  {
    hide WindowBumps, Finish, Step, AsSet;
    var sets := WindowBumps(cfg, r, k);
    forall i, j | 0 <= i < j < WINDOW ensures sets[i] !! sets[j] {
      WindowBumpsDisjoint(cfg, r, k, k + i, k + j);
    }
    forall i | 0 <= i < WINDOW ensures |sets[i]| == |r.Bumped(cfg, k + i)| {
      BumpedSize(cfg, r, k + i);
    }
  }

  /** Forty sweeps that use up their cap bump at least as many different zones as are signed. */
  lemma FullWindow(cfg: Config, r: Run, k: nat, zones: set<Zone>)
    requires SteadyWindow(cfg, r, k, zones)
    requires forall i :: k <= i < k + WINDOW ==> |r.Bumped(cfg, i)| >= Cap(|zones|)
    ensures |UnionOf(WindowBumps(cfg, r, k))| >= |zones|
  {
    WindowSets(cfg, r, k);
    DisjointSetsAddUp(WindowBumps(cfg, r, k), Cap(|zones|));
    CapCovers(|zones|);
  }

  lemma WindowBumpsAreSigned(cfg: Config, r: Run, k: nat, zones: set<Zone>, y: Zone) returns (i: nat)
    requires SteadyWindow(cfg, r, k, zones) && y in UnionOf(WindowBumps(cfg, r, k))
    ensures k <= i < k + WINDOW && y in r.Bumped(cfg, i) && y in zones
  {
    var w := InUnion(WindowBumps(cfg, r, k), y);
    i := k + w;
    assert Step(cfg, r.states[i], r.sweeps[i], r.states[i + 1]);
    ReportBounded(cfg, r.states[i].table, r.sweeps[i]);
  }

  lemma {:induction false} ProperSubsetSize(a: set<Zone>, b: set<Zone>)
    requires a < b
    ensures |a| < |b|
  {
    if a != {} {
      var x :| x in a;
      ProperSubsetSize(a - {x}, b - {x});
    }
  }

  /** Sweep `i` bumps `z`, or finds that its serial has moved since sweep `k`. */
  predicate Served(cfg: Config, r: Run, z: Zone, k: nat, i: nat)
    requires k <= i < |r.sweeps| && i < |r.states|
  {
    z in r.Bumped(cfg, i) || r.states[i].serials(z) != r.states[k].serials(z)
  }

  lemma DueIsSigned(s: State, sw: Sweep, z: Zone)
    requires DueIn(s, sw, z)
    ensures z in Names(sw.List())
  {
  }

  lemma CapUsedUp(cfg: Config, s: State, sw: Sweep, s': State, z: Zone)
    requires Step(cfg, s, sw, s') && DueIn(s, sw, z)
    requires sw.replies(z).Succeeds() && z !in Finish(cfg, s.table, sw).bumped
    ensures |Finish(cfg, s.table, sw).bumped| >= Cap(|Names(sw.List())|)
  {
    hide Finish, Cap, DueIn;
    PassedOver(cfg, s, sw, s', z);
    NamesSize(sw.List());
  }

  /** No starvation: a due zone whose own bump goes through is bumped in that sweep or one of
      the next 39, or its serial moves by itself. The order of the list, the failures of other
      zones and lost commits do not matter. */
  lemma NoStarvation(cfg: Config, r: Run, k: nat, z: Zone, zones: set<Zone>)
    requires SteadyWindow(cfg, r, k, zones) && Due(r, z, k)
    requires forall i :: k <= i < k + WINDOW ==> r.sweeps[i].replies(z).Succeeds()
    ensures exists i :: k <= i < k + WINDOW && Served(cfg, r, z, k, i)
  {
    hide Step, DueIn, Finish, Names, Cap, WindowBumps, UnionOf;
    if forall i :: k <= i < k + WINDOW ==> !Served(cfg, r, z, k, i) {
      forall i | k <= i < k + WINDOW ensures |r.Bumped(cfg, i)| >= Cap(|zones|) {
        forall m | k <= m <= i
          ensures z !in r.Bumped(cfg, m) && r.states[m].serials(z) == r.states[k].serials(z)
          ensures z in Names(r.sweeps[m].List()) && r.sweeps[m].replies(z).Succeeds()
        {
          assert !Served(cfg, r, z, k, m);
          DueIsSigned(r.states[k], r.sweeps[k], z);
        }
        StaysDue(cfg, r, k, i - k, z);
        CapUsedUp(cfg, r.states[i], r.sweeps[i], r.states[i + 1], z);
      }
      FullWindow(cfg, r, k, zones);
      var all := UnionOf(WindowBumps(cfg, r, k));
      forall y | y in all ensures y in zones && y != z {
        var i := WindowBumpsAreSigned(cfg, r, k, zones, y);
        assert !Served(cfg, r, z, k, i);
      }
      DueIsSigned(r.states[k], r.sweeps[k], z);
      assert z in zones && z !in all;
      ProperSubsetSize(all, zones);
      assert false;
    }
  }

  // ---- the freshness deadline --------------------------------------------------------------

  /** From sweep `k` on, the same zones are signed, `z` among them, its own bumps go through, and
      sweeps are at most `gap` apart, often enough that forty of them fit in the quiet period. */
  ghost predicate SteadyFrom(cfg: Config, r: Run, k: nat, z: Zone, zones: set<Zone>, gap: nat) {
    && r.Valid(cfg)
    && k < |r.sweeps|
    && z in zones
    && (forall i :: k <= i < |r.sweeps| ==> Names(r.sweeps[i].List()) == zones)
    && (forall i :: k <= i < |r.sweeps| ==> r.sweeps[i].replies(z).Succeeds())
    && (forall i :: k < i < |r.sweeps| ==> r.sweeps[i].now <= r.sweeps[i - 1].now + gap)
    && (WINDOW - 1) * gap < cfg.quiet
  }

  function MaxJitter(cfg: Config): nat {
    if cfg.jitterMax > 0 then cfg.jitterMax else 0
  }

  lemma {:induction false} GapsAddUp(cfg: Config, r: Run, k: nat, z: Zone, zones: set<Zone>, gap: nat, i: nat, n: nat)
    requires SteadyFrom(cfg, r, k, z, zones, gap) && k <= i && i + n < |r.sweeps|
    ensures r.sweeps[i + n].now <= r.sweeps[i].now + n * gap
  {
    if n > 0 {
      GapsAddUp(cfg, r, k, z, zones, gap, i, n - 1);
      assert n * gap == (n - 1) * gap + gap;
    }
  }

  lemma ObservationRestarts(cfg: Config, s: State, sw: Sweep, s': State, z: Zone)
    requires Step(cfg, s, sw, s') && sw.committed && z in Names(sw.List())
    requires z in s.table ==> s.table[z].lastSerial != Some(s.serials(z))
    ensures z in s'.table && s'.table[z] == Row(Some(s.serials(z)), Some(NextDue(sw.now, z, cfg)))
  {
    var i := IndexOf(sw.List(), z);
    var tried := ZoneOutcome(cfg, s.table, sw, i);
  }

  lemma QuietZoneWaits(cfg: Config, s: State, sw: Sweep, s': State, z: Zone)
    requires Step(cfg, s, sw, s') && z in Names(sw.List()) && z in s.table
    requires s.table[z].lastSerial == Some(s.serials(z))
    requires s.table[z].dueAt.Some? && sw.now < s.table[z].dueAt.value
    ensures z in s'.table && s'.table[z] == s.table[z]
  {
    var i := IndexOf(sw.List(), z);
    var tried := ZoneOutcome(cfg, s.table, sw, i);
  }

  /** The row written when a change is observed is still there when the timer runs out. */
  lemma {:induction false} TimerRuns(cfg: Config, r: Run, k: nat, z: Zone, zones: set<Zone>, gap: nat, i: nat)
    requires SteadyFrom(cfg, r, k, z, zones, gap) && k < i < |r.sweeps|
    requires r.Observes(z, k) && r.sweeps[k].committed
    requires forall j :: k < j < i ==> r.sweeps[j].now < NextDue(r.sweeps[k].now, z, cfg)
    requires forall j :: k <= j < i ==> r.states[j].serials(z) == r.states[k].serials(z)
    ensures z in r.states[i].table
    ensures r.states[i].table[z] == Row(Some(r.states[k].serials(z)), Some(NextDue(r.sweeps[k].now, z, cfg)))
  {
    if i == k + 1 {
      ObservationRestarts(cfg, r.states[k], r.sweeps[k], r.states[i], z);
    } else {
      TimerRuns(cfg, r, k, z, zones, gap, i - 1);
      QuietZoneWaits(cfg, r.states[i - 1], r.sweeps[i - 1], r.states[i], z);
    }
  }

  /** The first sweep at or after `due`. */
  lemma FirstSweepAfter(r: Run, k: nat, due: int) returns (m: nat)
    requires k < |r.sweeps| && r.sweeps[k].now < due <= r.sweeps[|r.sweeps| - 1].now
    ensures k < m < |r.sweeps| && due <= r.sweeps[m].now
    ensures forall j :: k <= j < m ==> r.sweeps[j].now < due
  {
    m := k + 1;
    while r.sweeps[m].now < due
      invariant k < m < |r.sweeps|
      invariant forall j :: k <= j < m ==> r.sweeps[j].now < due
      decreases |r.sweeps| - m
    {
      m := m + 1;
    }
  }

  lemma SerialsGrow(cfg: Config, r: Run, i: nat, j: nat, z: Zone)
    requires r.Valid(cfg) && i <= j < |r.states|
    ensures r.states[i].serials(z) <= r.states[j].serials(z)
    decreases j
  {
    if i < j {
      SerialsGrow(cfg, r, i, j - 1, z);
      assert Step(cfg, r.states[j - 1], r.sweeps[j - 1], r.states[j]);
    }
  }

  lemma Scaled(a: nat, b: nat, c: nat)
    requires a <= b
    ensures a * c <= b * c
  {
  }

  /** Forty sweeps after the first one past the timer lie before the deadline. */
  lemma WindowBeforeDeadline(cfg: Config, r: Run, k: nat, z: Zone, zones: set<Zone>, gap: nat, m: nat)
    requires SteadyFrom(cfg, r, k, z, zones, gap) && k < m < |r.sweeps|
    requires r.sweeps[m - 1].now < NextDue(r.sweeps[k].now, z, cfg)
    requires r.sweeps[k].now + cfg.quiet + MaxJitter(cfg) + WINDOW * gap <= r.sweeps[|r.sweeps| - 1].now
    ensures m + WINDOW <= |r.sweeps|
    ensures r.sweeps[m + WINDOW - 1].now < r.sweeps[k].now + cfg.quiet + MaxJitter(cfg) + WINDOW * gap
    ensures r.sweeps[m + WINDOW - 1].now - r.sweeps[m].now < cfg.quiet
  {
    hide Step;
    if |r.sweeps| - m < WINDOW {
      var n := |r.sweeps| - m;
      GapsAddUp(cfg, r, k, z, zones, gap, m - 1, n);
      Scaled(n, WINDOW, gap);
      assert false;
    }
    GapsAddUp(cfg, r, k, z, zones, gap, m - 1, WINDOW);
    GapsAddUp(cfg, r, k, z, zones, gap, m, WINDOW - 1);
  }

  /** The freshness deadline: a zone whose serial change is observed at time t is bumped, or
      has changed again, before t + quiet + jitter + 40 sweep intervals. */
  lemma FreshnessDeadline(cfg: Config, r: Run, k: nat, z: Zone, zones: set<Zone>, gap: nat)
    requires SteadyFrom(cfg, r, k, z, zones, gap)
    requires r.Observes(z, k) && r.sweeps[k].committed
    requires r.sweeps[k].now + cfg.quiet + MaxJitter(cfg) + WINDOW * gap <= r.sweeps[|r.sweeps| - 1].now
    ensures exists i :: && k < i < |r.sweeps|
                        && r.sweeps[i].now < r.sweeps[k].now + cfg.quiet + MaxJitter(cfg) + WINDOW * gap
                        && Served(cfg, r, z, k, i)
  {
    hide Step, Finish;
    var due := NextDue(r.sweeps[k].now, z, cfg);
    var m := FirstSweepAfter(r, k, due);
    WindowBeforeDeadline(cfg, r, k, z, zones, gap, m);
    assert r.sweeps[m].now <= r.sweeps[m + WINDOW - 1].now;
    if r.states[m].serials(z) != r.states[k].serials(z) {
      assert Served(cfg, r, z, k, m);
    } else {
      forall j | k <= j < m ensures r.states[j].serials(z) == r.states[k].serials(z) {
        SerialsGrow(cfg, r, k, j, z);
        SerialsGrow(cfg, r, j, m, z);
      }
      TimerRuns(cfg, r, k, z, zones, gap, m);
      assert Due(r, z, m);
      NoStarvation(cfg, r, m, z, zones);
      var i :| m <= i < m + WINDOW && Served(cfg, r, z, m, i);
      assert Served(cfg, r, z, k, i);
      assert r.sweeps[i].now <= r.sweeps[m + WINDOW - 1].now;
    }
  }

  /** With the shipped settings (24 h quiet, up to 3 h jitter, a sweep every 30 minutes) a
      changed zone is re-signed, or changes again, within 47 hours. */
  lemma FreshnessWithDefaults(cfg: Config, r: Run, k: nat, z: Zone, zones: set<Zone>)
    requires cfg.quiet == 24 * 3600 && cfg.jitterMax == 3 * 3600
    requires SteadyFrom(cfg, r, k, z, zones, 30 * 60)
    requires r.Observes(z, k) && r.sweeps[k].committed
    requires r.sweeps[k].now + 47 * 3600 <= r.sweeps[|r.sweeps| - 1].now
    ensures exists i :: && k < i < |r.sweeps|
                        && r.sweeps[i].now < r.sweeps[k].now + 47 * 3600
                        && Served(cfg, r, z, k, i)
  {
    FreshnessDeadline(cfg, r, k, z, zones, 30 * 60);
  }

  // ---- the per-sweep ceiling ---------------------------------------------------------------

  /** The quiet zones whose timer has run out when the sweep starts. */
  function DueZones(table: Table, signed: seq<ZoneInfo>, now: int): set<Zone> {
    set e | e in signed && e.name in table && Classify(e.serial, table[e.name], now).Bump? :: e.name
  }

  /** Every call works except PowerDNS's own notify: the SOA is re-written, then the bump fails. */
  const NOTIFY_FAILS := Replies(true, true, Applied, Some(false), false, None)

  lemma RewritesAreDue(cfg: Config, table: Table, sw: Sweep)
    requires DistinctNames(sw.List())
    ensures |Finish(cfg, table, sw).rewritten| <= |DueZones(table, sw.List(), sw.now)|
  {
    var f := Finish(cfg, table, sw);
    ReportBounded(cfg, table, sw);
    forall z | z in f.rewritten ensures z in DueZones(table, sw.List(), sw.now) {
      var k := IndexOf(sw.List(), z);
      var tried := ZoneOutcome(cfg, table, sw, k);
    }
    DistinctSize(f.rewritten);
    SubsetSize(AsSet(f.rewritten), DueZones(table, sw.List(), sw.now));
  }

  lemma {:induction false} SubsetSize(a: set<Zone>, b: set<Zone>)
    requires a <= b
    ensures |a| <= |b|
  {
    if a != b {
      ProperSubsetSize(a, b);
    }
  }

  lemma FailedNotifiesRewriteAll(cfg: Config, table: Table, sw: Sweep)
    requires DistinctNames(sw.List()) && forall z :: sw.replies(z) == NOTIFY_FAILS
    ensures |Finish(cfg, table, sw).rewritten| >= |DueZones(table, sw.List(), sw.now)|
  {
    var f := Finish(cfg, table, sw);
    ReportBounded(cfg, table, sw);
    forall z | z in DueZones(table, sw.List(), sw.now) ensures z in f.rewritten && z !in f.bumped {
      var k := IndexOf(sw.List(), z);
      NoneBumped(cfg, table, sw, |sw.List()|);
      var tried := ZoneOutcome(cfg, table, sw, k);
      assert sw.List()[k].name == z;
      CapCovers(|sw.List()|);
    }
    DistinctSize(f.rewritten);
    SubsetSize(DueZones(table, sw.List(), sw.now), AsSet(f.rewritten));
  }

  lemma {:induction false} NoneBumped(cfg: Config, table: Table, sw: Sweep, i: nat)
    requires i <= |sw.List()| && forall z :: sw.replies(z) == NOTIFY_FAILS
    ensures After(cfg, table, sw, i).bumped == []
  {
    if i > 0 {
      NoneBumped(cfg, table, sw, i - 1);
    }
  }

  /** The cap is not a hard ceiling on SOA re-writes: only completed bumps count against it, so
      bumps that fail after the re-write go uncounted. Re-writes stay within the cap whatever
      PowerDNS answers if and only if no more zones than the cap are due in the first place. */
  lemma CeilingExactly(cfg: Config, table: Table, zones: seq<ZoneInfo>, now: int, committed: bool)
    requires DistinctNames(Signed(zones))
    ensures (forall replies: Zone -> Replies ::
               |Finish(cfg, table, Sweep(now, zones, replies, committed)).rewritten| <= Cap(|Signed(zones)|))
            <==> |DueZones(table, Signed(zones), now)| <= Cap(|Signed(zones)|)
  {
    forall replies: Zone -> Replies
      ensures |Finish(cfg, table, Sweep(now, zones, replies, committed)).rewritten| <= |DueZones(table, Signed(zones), now)|
    {
      RewritesAreDue(cfg, table, Sweep(now, zones, replies, committed));
    }
    FailedNotifiesRewriteAll(cfg, table, Sweep(now, zones, (z: Zone) => NOTIFY_FAILS, committed));
  }

  /** Two due zones, a cap of one, both re-written in one sweep and none reported. */
  lemma CeilingBroken(cfg: Config)
    ensures var zones := [ZoneInfo("a.", Some(1), true), ZoneInfo("b.", Some(1), true)];
            var table := map["a." := Row(Some(1), Some(0)), "b." := Row(Some(1), Some(0))];
            var f := Finish(cfg, table, Sweep(0, zones, (z: Zone) => NOTIFY_FAILS, true));
            Cap(|Signed(zones)|) == 1 && f.rewritten == ["a.", "b."] && f.bumped == []
  {
    var a, b := ZoneInfo("a.", Some(1), true), ZoneInfo("b.", Some(1), true);
    var table := map["a." := Row(Some(1), Some(0)), "b." := Row(Some(1), Some(0))];
    var sw := Sweep(0, [a, b], (z: Zone) => NOTIFY_FAILS, true);
    assert [a, b][1..] == [b] && [b][1..] == [] && Signed([b]) == [b];
    assert sw.List() == [a, b];
    assert After(cfg, table, sw, 0) == Progress(table, [], []);
    assert After(cfg, table, sw, 1) == Progress(table, [], ["a."]);
    assert After(cfg, table, sw, 2) == Progress(table, [], ["a.", "b."]);
  }
}
