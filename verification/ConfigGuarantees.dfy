/** What materializing promises: no table lost or overwritten, canonical before legacy, and no second effect. Handlers
    given in both shapes are lost only beside a canonical key that holds undefined. */
module ConfigGuarantees {
  import opened Common
  import opened ConfigMaterialize

  /** Every table of `a` is in `b` with the same configuration. */
  ghost predicate Keeps(a: Databases, b: Databases) {
    (forall block :: block in a ==> block in b) &&
    forall block, table :: TableOf(a, block, table).Some? ==> TableOf(b, block, table) == TableOf(a, block, table)
  }

  lemma StoreKeeps(dbs: Databases, p: Put)
    requires !Collides(dbs, p)
    ensures Keeps(dbs, Store(dbs, p)) && TableOf(Store(dbs, p), p.block, p.table) == Some(p.config)
  {
  }

  lemma {:induction false} MergePutsKeeps(dbs: Databases, puts: seq<Put>)
    requires MergePuts(dbs, puts).Ok?
    ensures var d := MergePuts(dbs, puts).value;
            Keeps(dbs, d) && forall i :: 0 <= i < |puts| ==> TableOf(d, puts[i].block, puts[i].table) == Some(puts[i].config)
    decreases |puts|
  {
    if puts != [] {
      StoreKeeps(dbs, puts[0]);
      MergePutsKeeps(Store(dbs, puts[0]), puts[1..]);
      assert forall i :: 1 <= i < |puts| ==> puts[i] == puts[1..][i - 1];
    }
  }

  ghost predicate PluginPresent(d: Databases, p: Plugin) {
    p.tables.Some? ==>
      BlockOf(p) in d &&
      forall i :: 0 <= i < |PutsOf(p, p.tables.value)| ==>
        var put := PutsOf(p, p.tables.value)[i]; TableOf(d, put.block, put.table) == Some(put.config)
  }

  lemma {:induction false} MergePluginsKeeps(dbs: Databases, plugins: seq<Plugin>)
    requires MergePlugins(dbs, plugins).Ok?
    ensures var d := MergePlugins(dbs, plugins).value;
            Keeps(dbs, d) && forall i :: 0 <= i < |plugins| ==> PluginPresent(d, plugins[i])
    decreases |plugins|
  {
    if plugins != [] {
      assert forall i :: 1 <= i < |plugins| ==> plugins[i] == plugins[1..][i - 1];
      if plugins[0].tables.Some? {
        var prepared := OpenBlock(dbs, BlockOf(plugins[0]));
        assert Keeps(dbs, prepared);
        MergePutsKeeps(prepared, PutsOf(plugins[0], plugins[0].tables.value));
        MergePluginsKeeps(MergePuts(prepared, PutsOf(plugins[0], plugins[0].tables.value)).value, plugins[1..]);
      } else {
        MergePluginsKeeps(dbs, plugins[1..]);
      }
    }
  }

  lemma {:induction false} MergePutsAgain(d: Databases, puts: seq<Put>)
    requires forall i :: 0 <= i < |puts| ==> TableOf(d, puts[i].block, puts[i].table) == Some(puts[i].config)
    ensures MergePuts(d, puts) == Ok(d)
    decreases |puts|
  {
    if puts != [] {
      assert forall i :: 0 <= i < |puts[1..]| ==> puts[1..][i] == puts[i + 1];
      var p := puts[0];
      assert d[p.block][p.table := p.config] == d[p.block];
      assert Store(d, p) == d;
      MergePutsAgain(d, puts[1..]);
    }
  }

  lemma {:induction false} MergePluginsAgain(d: Databases, plugins: seq<Plugin>)
    requires forall i :: 0 <= i < |plugins| ==> PluginPresent(d, plugins[i])
    ensures MergePlugins(d, plugins) == Ok(d)
    decreases |plugins|
  {
    if plugins != [] {
      assert forall i :: 0 <= i < |plugins[1..]| ==> plugins[1..][i] == plugins[i + 1];
      if plugins[0].tables.Some? { MergePutsAgain(d, PutsOf(plugins[0], plugins[0].tables.value)); }
      MergePluginsAgain(d, plugins[1..]);
    }
  }

  lemma NormalizeRoomAgain(room: Room)
    requires NormalizeRoom(room).Ok?
    ensures NormalizeRoom(NormalizeRoom(room).value) == NormalizeRoom(room)
  {
  }

  lemma {:induction false} NormalizeRoomsAgain(rooms: seq<Room>)
    requires NormalizeRooms(rooms).Ok?
    ensures |NormalizeRooms(rooms).value| == |rooms|
    ensures NormalizeRooms(NormalizeRooms(rooms).value) == NormalizeRooms(rooms)
    ensures forall i :: 0 <= i < |rooms| ==> NormalizeRoom(rooms[i]) == Ok(NormalizeRooms(rooms).value[i])
    decreases |rooms|
  {
    if rooms != [] {
      var k := |rooms| - 1;
      NormalizeRoomsAgain(rooms[..k]);
      NormalizeRoomAgain(rooms[k]);
      var done := NormalizeRooms(rooms).value;
      assert done[..k] == NormalizeRooms(rooms[..k]).value;
      assert forall i :: 0 <= i < k ==> rooms[..k][i] == rooms[i];
    }
  }

  /** Materializing the result again succeeds and changes nothing, without relying on the marker. */
  lemma MaterializeAgainChangesNothing(s: Settings, plugins: seq<Plugin>, legacyTables: set<Ref>, otherLegacy: bool)
    requires Materialized(s, plugins, legacyTables, otherLegacy).Ok?
    ensures var m := Materialized(s, plugins, legacyTables, otherLegacy);
            Materialized(m.value, plugins, legacyTables, otherLegacy) == m
  {
    var m := Materialized(s, plugins, legacyTables, otherLegacy).value;
    MergePluginsKeeps(s.databases, plugins);
    MergePluginsAgain(m.databases, plugins);
    NormalizeRoomsAgain(s.rooms);
    assert NormalizeKeys(m.keys) == m.keys;
  }

  /** One of the plugin's tables: in its block, `shared` when it names none, under the plugin's name and its own. */
  ghost predicate FromPlugin(p: Plugin, block: string, table: string, config: Ref) {
    p.tables.Some? && block == (match p.dbBlock case Some(name) => name case None => "shared") &&
    exists i :: 0 <= i < |p.tables.value| && table == p.name + "/" + p.tables.value[i].0 && config == p.tables.value[i].1
  }

  /** A table of the user's own configuration or of some plugin. */
  ghost predicate Contributed(dbs: Databases, plugins: seq<Plugin>, block: string, table: string, config: Ref) {
    (block in dbs && table in dbs[block] && dbs[block][table] == config) ||
    exists i :: 0 <= i < |plugins| && FromPlugin(plugins[i], block, table, config)
  }

  lemma PutsAreFromPlugin(p: Plugin, put: Put)
    requires p.tables.Some?
    ensures put in PutsOf(p, p.tables.value) <==> FromPlugin(p, put.block, put.table, put.config)
  {
    var puts := PutsOf(p, p.tables.value);
    if FromPlugin(p, put.block, put.table, put.config) {
      var i :| 0 <= i < |p.tables.value| && put.table == p.name + "/" + p.tables.value[i].0 && put.config == p.tables.value[i].1;
      assert puts[i] == put;
    }
  }

  lemma StoredTables(dbs: Databases, p: Put, block: string, table: string, config: Ref)
    requires !Collides(dbs, p)
    ensures TableOf(Store(dbs, p), block, table) == Some(config) <==>
            TableOf(dbs, block, table) == Some(config) || Put(block, table, config) == p
  {
  }

  lemma {:induction false} MergedPuts(dbs: Databases, puts: seq<Put>, block: string, table: string, config: Ref)
    requires MergePuts(dbs, puts).Ok?
    ensures TableOf(MergePuts(dbs, puts).value, block, table) == Some(config) <==>
            TableOf(dbs, block, table) == Some(config) || Put(block, table, config) in puts
    decreases |puts|
  {
    if puts != [] {
      StoredTables(dbs, puts[0], block, table, config);
      MergedPuts(Store(dbs, puts[0]), puts[1..], block, table, config);
      assert puts == [puts[0]] + puts[1..];
    }
  }

  lemma OpeningAddsNoTable(dbs: Databases, added: string, block: string, table: string)
    ensures TableOf(OpenBlock(dbs, added), block, table) == TableOf(dbs, block, table)
  {
  }

  /** One plugin merged, before the others. */
  function MergeFirst(dbs: Databases, p: Plugin): Result<Databases> {
    if p.tables.None? then Ok(dbs) else MergePuts(OpenBlock(dbs, BlockOf(p)), PutsOf(p, p.tables.value))
  }

  lemma MergedFirst(dbs: Databases, p: Plugin, block: string, table: string, config: Ref)
    requires MergeFirst(dbs, p).Ok?
    ensures TableOf(MergeFirst(dbs, p).value, block, table) == Some(config) <==>
            TableOf(dbs, block, table) == Some(config) || FromPlugin(p, block, table, config)
  {
    if p.tables.Some? {
      MergedPuts(OpenBlock(dbs, BlockOf(p)), PutsOf(p, p.tables.value), block, table, config);
      OpeningAddsNoTable(dbs, BlockOf(p), block, table);
      PutsAreFromPlugin(p, Put(block, table, config));
    }
  }

  lemma ContributedFirst(dbs: Databases, plugins: seq<Plugin>, block: string, table: string, config: Ref)
    requires plugins != [] && MergeFirst(dbs, plugins[0]).Ok?
    ensures Contributed(MergeFirst(dbs, plugins[0]).value, plugins[1..], block, table, config) <==>
            Contributed(dbs, plugins, block, table, config)
  {
    MergedFirst(dbs, plugins[0], block, table, config);
    assert forall i :: 1 <= i < |plugins| ==> plugins[i] == plugins[1..][i - 1];
  }

  lemma {:induction false} MergedTables(dbs: Databases, plugins: seq<Plugin>, block: string, table: string, config: Ref)
    requires MergePlugins(dbs, plugins).Ok?
    ensures TableOf(MergePlugins(dbs, plugins).value, block, table) == Some(config) <==>
            Contributed(dbs, plugins, block, table, config)
    decreases |plugins|
  {
    if plugins != [] {
      MergedTables(MergeFirst(dbs, plugins[0]).value, plugins[1..], block, table, config);
      ContributedFirst(dbs, plugins, block, table, config);
    }
  }

  /** Two contributions to one place that differ. */
  ghost predicate TablesClash(dbs: Databases, plugins: seq<Plugin>) {
    exists block, table, a, b :: Contributed(dbs, plugins, block, table, a) && Contributed(dbs, plugins, block, table, b) && a != b
  }

  lemma {:induction false} PutsClash(dbs: Databases, puts: seq<Put>) returns (block: string, table: string, a: Ref, b: Ref)
    requires MergePuts(dbs, puts).Err?
    ensures TableOf(dbs, block, table) == Some(a) || Put(block, table, a) in puts
    ensures Put(block, table, b) in puts && a != b
    decreases |puts|
  {
    var p := puts[0];
    if Collides(dbs, p) {
      block, table, a, b := p.block, p.table, TableOf(dbs, p.block, p.table).value, p.config;
    } else {
      block, table, a, b := PutsClash(Store(dbs, p), puts[1..]);
      StoredTables(dbs, p, block, table, a);
      assert puts == [p] + puts[1..];
    }
  }

  lemma {:induction false} RejectedTablesClash(dbs: Databases, plugins: seq<Plugin>)
    requires MergePlugins(dbs, plugins).Err?
    ensures TablesClash(dbs, plugins)
    decreases |plugins|
  {
    var p := plugins[0];
    if MergeFirst(dbs, p).Err? {
      var block, table, a, b := PutsClash(OpenBlock(dbs, BlockOf(p)), PutsOf(p, p.tables.value));
      OpeningAddsNoTable(dbs, BlockOf(p), block, table);
      PutsAreFromPlugin(p, Put(block, table, a));
      PutsAreFromPlugin(p, Put(block, table, b));
      assert Contributed(dbs, plugins, block, table, a) && Contributed(dbs, plugins, block, table, b);
    } else {
      var merged := MergeFirst(dbs, p).value;
      RejectedTablesClash(merged, plugins[1..]);
      var block, table, a, b :| Contributed(merged, plugins[1..], block, table, a) &&
                                Contributed(merged, plugins[1..], block, table, b) && a != b;
      ContributedFirst(dbs, plugins, block, table, a);
      ContributedFirst(dbs, plugins, block, table, b);
    }
  }

  lemma MergesIffNoClash(dbs: Databases, plugins: seq<Plugin>)
    ensures MergePlugins(dbs, plugins).Ok? <==> !TablesClash(dbs, plugins)
  {
    if MergePlugins(dbs, plugins).Err? {
      RejectedTablesClash(dbs, plugins);
    } else if block, table, a, b :| Contributed(dbs, plugins, block, table, a) &&
                                    Contributed(dbs, plugins, block, table, b) && a != b {
      MergedTables(dbs, plugins, block, table, a);
      MergedTables(dbs, plugins, block, table, b);
    }
  }

  /** The room gives some handlers in both shapes, and they are not equivalent. */
  ghost predicate RoomClashes(room: Room) {
    room.handlers.Some? &&
    var h := room.handlers.value;
    (h.actions.Some? && room.state.Some? && room.state.value.actions.Some? &&
     !Equivalent(room.state.value.actions.value, h.actions.value)) ||
    (h.timers.Some? && room.state.Some? && room.state.value.timers.Some? &&
     !Equivalent(room.state.value.timers.value, h.timers.value)) ||
    (h.lifecycle.Some? && room.hooks.Some? && room.hooks.value.lifecycle.Some? &&
     !Equivalent(room.hooks.value.lifecycle.value, h.lifecycle.value))
  }

  lemma {:induction false} RoomsNormalizeIff(rooms: seq<Room>)
    ensures NormalizeRooms(rooms).Ok? <==> forall i :: 0 <= i < |rooms| ==> !RoomClashes(rooms[i])
    decreases |rooms|
  {
    if rooms != [] {
      var k := |rooms| - 1;
      RoomsNormalizeIff(rooms[..k]);
      assert forall i :: 0 <= i < k ==> rooms[..k][i] == rooms[i];
      assert NormalizeRoom(rooms[k]).Ok? <==> !RoomClashes(rooms[k]);
    }
  }

  lemma LegacyIsContributed(dbs: Databases, plugins: seq<Plugin>, legacyTables: set<Ref>)
    requires MergePlugins(dbs, plugins).Ok?
    ensures HasLegacySyntax(MergePlugins(dbs, plugins).value, legacyTables, false) <==>
            exists block, table, config :: Contributed(dbs, plugins, block, table, config) && config in legacyTables
  {
    var merged := MergePlugins(dbs, plugins).value;
    if block, table :| block in merged && table in merged[block] && merged[block][table] in legacyTables {
      MergedTables(dbs, plugins, block, table, merged[block][table]);
    }
    if block, table, config :| Contributed(dbs, plugins, block, table, config) && config in legacyTables {
      MergedTables(dbs, plugins, block, table, config);
    }
  }

  /** Exactly which configurations are accepted: those without two different tables in one place, without legacy syntax,
      and without a room whose two shapes disagree. */
  lemma MaterializesIff(s: Settings, plugins: seq<Plugin>, legacyTables: set<Ref>, otherLegacy: bool)
    ensures Materialized(s, plugins, legacyTables, otherLegacy).Ok? <==>
            !TablesClash(s.databases, plugins) && !otherLegacy &&
            !(exists block, table, config :: Contributed(s.databases, plugins, block, table, config) && config in legacyTables) &&
            forall i :: 0 <= i < |s.rooms| ==> !RoomClashes(s.rooms[i])
  {
    MergesIffNoClash(s.databases, plugins);
    RoomsNormalizeIff(s.rooms);
    if MergePlugins(s.databases, plugins).Ok? { LegacyIsContributed(s.databases, plugins, legacyTables); }
  }

  /** It fails, or the tables are exactly the user's and the plugins' own, each with its own configuration. */
  lemma NoTableLostOrOverwritten(s: Settings, plugins: seq<Plugin>, legacyTables: set<Ref>, otherLegacy: bool)
    requires Materialized(s, plugins, legacyTables, otherLegacy).Ok?
    ensures var m := Materialized(s, plugins, legacyTables, otherLegacy).value;
            (forall block :: block in s.databases ==> block in m.databases) &&
            forall block, table, config :: Contributed(s.databases, plugins, block, table, config) <==>
              block in m.databases && table in m.databases[block] && m.databases[block][table] == config
  {
    var m := Materialized(s, plugins, legacyTables, otherLegacy).value;
    MergePluginsKeeps(s.databases, plugins);
    forall block, table, config
      ensures Contributed(s.databases, plugins, block, table, config) <==>
              block in m.databases && table in m.databases[block] && m.databases[block][table] == config
    {
      MergedTables(s.databases, plugins, block, table, config);
    }
  }

  /** Every shorthand secret becomes an inline one, and no other key changes. */
  lemma SecretsSurvive(s: Settings, plugins: seq<Plugin>, legacyTables: set<Ref>, otherLegacy: bool, i: nat)
    requires Materialized(s, plugins, legacyTables, otherLegacy).Ok? && i < |s.keys|
    ensures var keys := Materialized(s, plugins, legacyTables, otherLegacy).value.keys;
            |keys| == |s.keys| &&
            if s.keys[i].secret == "" || s.keys[i].secretSource != "" then keys[i] == s.keys[i]
            else keys[i].inlineSecret == s.keys[i].secret && keys[i].secretSource == "inline" && keys[i].secret == ""
  {
  }

  // The room accessors.

  function GetRoomStateConfig(room: Room): Option<RoomState> {
    if room.state.Some? then room.state
    else if room.handlers.None? || (room.handlers.value.actions.None? && room.handlers.value.timers.None?) then None
    else Some(RoomState(room.handlers.value.actions, room.handlers.value.timers))
  }

  function GetRoomHooks(room: Room): Option<RoomHooks> {
    if room.hooks.Some? then room.hooks
    else if room.handlers.None? || room.handlers.value.lifecycle.None? then None
    else Some(RoomHooks(room.handlers.value.lifecycle))
  }

  function GetRoomActionHandlers(room: Room): Option<Record> { ActionsOf(GetRoomStateConfig(room)) }
  function GetRoomTimerHandlers(room: Room): Option<Record> { TimersOf(GetRoomStateConfig(room)) }
  function GetRoomLifecycleHandlers(room: Room): Option<Record> { LifecycleOf(GetRoomHooks(room)) }

  function GetRoomHandlers(room: Room): Option<Handlers> {
    var actions, timers := GetRoomActionHandlers(room), GetRoomTimerHandlers(room);
    var lifecycle := GetRoomLifecycleHandlers(room);
    if actions.None? && timers.None? && lifecycle.None? then None else Some(Handlers(actions, timers, lifecycle))
  }

  function LegacyActions(room: Room): Option<Record> { if room.handlers.Some? then room.handlers.value.actions else None }
  function LegacyTimers(room: Room): Option<Record> { if room.handlers.Some? then room.handlers.value.timers else None }
  function LegacyLifecycle(room: Room): Option<Record> {
    if room.handlers.Some? then room.handlers.value.lifecycle else None
  }

  /** On a materialized room every accessor gives what the user wrote canonically, else the legacy handler. */
  lemma AccessorsPreferCanonical(room: Room)
    requires NormalizeRoom(room).Ok?
    ensures var m := NormalizeRoom(room).value;
            var actions := if room.state.Some? && room.state.value.actions.Some? then room.state.value.actions
                           else if room.handlers.Some? then room.handlers.value.actions else None;
            var timers := if room.state.Some? && room.state.value.timers.Some? then room.state.value.timers
                          else if room.handlers.Some? then room.handlers.value.timers else None;
            var lifecycle := if room.hooks.Some? && room.hooks.value.lifecycle.Some? then room.hooks.value.lifecycle
                             else if room.handlers.Some? then room.handlers.value.lifecycle else None;
            GetRoomActionHandlers(m) == actions && GetRoomTimerHandlers(m) == timers &&
            GetRoomLifecycleHandlers(m) == lifecycle &&
            GetRoomHandlers(m) == if actions.None? && timers.None? && lifecycle.None? then None
                                  else Some(Handlers(actions, timers, lifecycle))
  {
  }

  /** Before materializing, an accessor loses a legacy handler exactly when its canonical parent is given without it. */
  lemma RawAccessorsMayLoseLegacy(room: Room)
    ensures GetRoomActionHandlers(room) != Either(ActionsOf(room.state), LegacyActions(room)) <==>
            room.state.Some? && room.state.value.actions.None? && LegacyActions(room).Some?
    ensures GetRoomTimerHandlers(room) != Either(TimersOf(room.state), LegacyTimers(room)) <==>
            room.state.Some? && room.state.value.timers.None? && LegacyTimers(room).Some?
    ensures GetRoomLifecycleHandlers(room) != Either(LifecycleOf(room.hooks), LegacyLifecycle(room)) <==>
            room.hooks.Some? && room.hooks.value.lifecycle.None? && LegacyLifecycle(room).Some?
  {
  }

  /** A legacy handler that the canonical record does not have, although both were accepted as equivalent. */
  predicate DropsHandler(canonical: Record, legacy: Record) {
    exists key :: key in legacy && legacy[key].Some? && Lookup(canonical, key) != legacy[key]
  }

  predicate AllDefined(r: Record) {
    forall key :: key in r ==> r[key].Some?
  }

  lemma SubsetOfSameSize(a: set<string>, b: set<string>)
    requires a <= b && |a| == |b|
    ensures a == b
  {
    assert b == a + (b - a);
    assert |b - a| == 0;
  }

  lemma EquivalentWithSameKeys(l: Record, r: Record)
    requires Equivalent(l, r) && l.Keys <= r.Keys
    ensures l == r
  {
    SubsetOfSameSize(l.Keys, r.Keys);
    assert forall key :: key in l ==> key in r && r[key] == l[key];
  }

  lemma DefinedEquivalentIsEqual(l: Record, r: Record)
    requires Equivalent(l, r) && AllDefined(l)
    ensures l == r
  {
    assert forall key :: key in l.Keys ==> key in r.Keys;
    EquivalentWithSameKeys(l, r);
  }

  /** Records that pass for equivalent and differ do so at a key of the first that holds undefined and is absent from
      the second. */
  lemma EquivalentDifferAtUndefined(l: Record, r: Record)
    requires Equivalent(l, r) && l != r
    ensures exists key :: key in l && l[key].None? && key !in r
  {
    if l.Keys <= r.Keys { EquivalentWithSameKeys(l, r); }
  }

  /** A key that no record of these keys has. */
  lemma FreshKey(keys: set<string>) returns (key: string)
    ensures key !in keys
  {
    var n := LongerThanAll(keys);
    key := seq(n, _ => 'x');
  }

  lemma LongerThanAll(keys: set<string>) returns (n: nat)
    ensures forall k :: k in keys ==> |k| < n
    decreases |keys|
  {
    n := 0;
    if keys != {} {
      if forall k :: k !in keys { NoElements(keys); }
      var k :| k in keys;
      n := LongerThanAll(keys - {k});
      if n <= |k| { n := |k| + 1; }
    }
  }

  /** Replacing an undefined key by a new one makes a record that passes for equivalent. */
  lemma SwappedIsEquivalent(l: Record, gone: string, added: string, f: Ref)
    requires gone in l && l[gone].None? && added !in l
    ensures var r := (l - {gone})[added := Some(f)]; Equivalent(l, r) && DropsHandler(l, r)
  {
    var r := (l - {gone})[added := Some(f)];
    assert r.Keys == (l.Keys - {gone}) + {added};
    assert added in r && r[added].Some? && Lookup(l, added) != r[added];
  }

  /** Which canonical records are safe beside any legacy one that passes for equivalent: those without an undefined value. */
  lemma EquivalenceIsSafeIff(canonical: Record)
    ensures (forall legacy :: Equivalent(canonical, legacy) ==> !DropsHandler(canonical, legacy)) <==> AllDefined(canonical)
  {
    if AllDefined(canonical) {
      forall legacy | Equivalent(canonical, legacy)
        ensures !DropsHandler(canonical, legacy)
      {
        DefinedEquivalentIsEqual(canonical, legacy);
      }
    } else {
      var gone :| gone in canonical && canonical[gone].None?;
      var added := FreshKey(canonical.Keys);
      SwappedIsEquivalent(canonical, gone, added, 0);
    }
  }

  /** A room whose canonical actions hold one undefined key, beside a legacy handler of another name: materializing
      succeeds, and the handler is gone. */
  lemma MaterializingCanDropHandler(key: string, other: string, f: Ref)
    requires key != other
    ensures var room := Room(Some(Handlers(Some(map[other := Some(f)]), None, None)),
                             Some(RoomState(Some(map[key := None]), None)), None);
            var m := NormalizeRoom(room);
            m.Ok? && GetRoomActionHandlers(m.value) == Some(map[key := None])
  {
    var canonical: Record := map[key := None];
    var legacy: Record := map[other := Some(f)];
    assert canonical.Keys == {key} && legacy.Keys == {other};
    assert Equivalent(canonical, legacy);
  }

  /** A room with canonical timers only, and its action handlers still in the legacy place. */
  lemma RawAccessorLosesActions(actions: Record, timers: Record)
    ensures var room := Room(Some(Handlers(Some(actions), None, None)), Some(RoomState(None, Some(timers))), None);
            GetRoomActionHandlers(room).None? && GetRoomTimerHandlers(room) == Some(timers) &&
            NormalizeRoom(room).Ok? && GetRoomActionHandlers(NormalizeRoom(room).value) == Some(actions)
  {
  }

  datatype Uniqueness = Unique | Duplicated(table: string, first: string, second: string)

  /** A database block: its key, and the names of its tables, which an object's keys make distinct. */
  type Block = (string, seq<string>)

  ghost predicate Shares(blocks: seq<Block>, a: int, b: int, table: string) {
    0 <= a < b < |blocks| && table in blocks[a].1 && table in blocks[b].1
  }

  /** `seen` gives each name of the blocks before `b` the position of its block. */
  ghost predicate SeenBefore(blocks: seq<Block>, b: nat, seen: map<string, nat>) {
    b <= |blocks| &&
    (forall t :: t in seen ==> seen[t] < b && t in blocks[seen[t]].1) &&
    (forall a, t :: 0 <= a < b && t in blocks[a].1 ==> t in seen)
  }

  /** The inner loop: the first name of a block that an earlier block already has. */
  method CheckBlock(blocks: seq<Block>, b: nat, seen: map<string, nat>)
    returns (found: Option<string>, all: map<string, nat>)
    requires b < |blocks| && SeenBefore(blocks, b, seen) && Distinct(blocks[b].1)
    ensures found.None? ==> SeenBefore(blocks, b + 1, all) && forall t :: t in blocks[b].1 ==> t !in seen
    ensures found.Some? ==> found.value in seen && found.value in blocks[b].1
  {
    var names := blocks[b].1;
    all := seen;
    var j := 0;
    while j < |names|
      invariant 0 <= j <= |names|
      invariant forall t :: t in all <==> t in seen || t in names[..j]
      invariant forall t :: t in all ==> all[t] == if t in seen then seen[t] else b
      invariant forall i :: 0 <= i < j ==> names[i] !in seen
    {
      var table := names[j];
      assert table !in names[..j];
      if table in all {
        return Some(table), all;
      }
      assert names[..j + 1] == names[..j] + [table];
      all := all[table := b];
      j := j + 1;
    }
    assert names[..j] == names;
    return None, all;
  }

  /** validateTableUniqueness accepts exactly when no table name occurs in two blocks, and otherwise names
      a shared table and both blocks. */
  method ValidateTableUniqueness(blocks: seq<Block>) returns (r: Uniqueness)
    requires forall b :: 0 <= b < |blocks| ==> Distinct(blocks[b].1)
    ensures r.Unique? <==> forall a, b, t :: !Shares(blocks, a, b, t)
    ensures r.Duplicated? ==>
              exists a, b :: Shares(blocks, a, b, r.table) && blocks[a].0 == r.first && blocks[b].0 == r.second
  {
    var seen: map<string, nat> := map[];
    var b := 0;
    while b < |blocks|
      invariant 0 <= b <= |blocks| && SeenBefore(blocks, b, seen)
      invariant forall a, c, t :: c < b ==> !Shares(blocks, a, c, t)
    {
      var found, all := CheckBlock(blocks, b, seen);
      if found.Some? {
        assert Shares(blocks, seen[found.value], b, found.value);
        return Duplicated(found.value, blocks[seen[found.value]].0, blocks[b].0);
      }
      seen := all;
      b := b + 1;
    }
    return Unique;
  }
}
