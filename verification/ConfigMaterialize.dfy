/** materializeConfig: plugin tables, room handlers and service-key shorthands are merged into the user's
    configuration object in place. Table configurations and handler functions are references. */
module ConfigMaterialize {
  import opened Common

  type Ref = int

  /** Database blocks by key, each with its tables; a block without tables has an empty map. */
  type Databases = map<string, map<string, Ref>>

  datatype Plugin = Plugin(name: string, dbBlock: Option<string>, tables: Option<seq<(string, Ref)>>)

  /** A table that a plugin contributes: block key, namespaced name, and configuration. */
  datatype Put = Put(block: string, table: string, config: Ref)

  /** A record of handlers; a key may be present with the value undefined. */
  type Record = map<string, Option<Ref>>

  datatype Handlers = Handlers(actions: Option<Record>, timers: Option<Record>, lifecycle: Option<Record>)
  datatype RoomState = RoomState(actions: Option<Record>, timers: Option<Record>)
  datatype RoomHooks = RoomHooks(lifecycle: Option<Record>)
  datatype Room = Room(handlers: Option<Handlers>, state: Option<RoomState>, hooks: Option<RoomHooks>)

  /** Service-key strings; an absent field and an empty one are both falsy, so absence is "". */
  datatype ServiceKey = ServiceKey(secret: string, secretSource: string, inlineSecret: string)

  datatype Settings = Settings(databases: Databases, rooms: seq<Room>, keys: seq<ServiceKey>)

  function BlockOf(p: Plugin): string { if p.dbBlock.Some? then p.dbBlock.value else "shared" }

  function PutsOf(p: Plugin, entries: seq<(string, Ref)>): seq<Put> {
    seq(|entries|, i requires 0 <= i < |entries| => Put(BlockOf(p), p.name + "/" + entries[i].0, entries[i].1))
  }

  function TableOf(dbs: Databases, block: string, table: string): Option<Ref> {
    if block in dbs && table in dbs[block] then Some(dbs[block][table]) else None
  }

  function OpenBlock(dbs: Databases, block: string): Databases {
    if block in dbs then dbs else dbs[block := map[]]
  }

  function Store(dbs: Databases, p: Put): Databases {
    var prepared := OpenBlock(dbs, p.block);
    prepared[p.block := prepared[p.block][p.table := p.config]]
  }

  predicate Collides(dbs: Databases, p: Put) {
    var existing := TableOf(dbs, p.block, p.table);
    existing.Some? && existing.value != p.config
  }

  function MergePuts(dbs: Databases, puts: seq<Put>): Result<Databases>
    decreases |puts|
  {
    if puts == [] then Ok(dbs)
    else if Collides(dbs, puts[0]) then Err("Plugin table collision")
    else MergePuts(Store(dbs, puts[0]), puts[1..])
  }

  function MergePlugins(dbs: Databases, plugins: seq<Plugin>): Result<Databases>
    decreases |plugins|
  {
    if plugins == [] then Ok(dbs)
    else if plugins[0].tables.None? then MergePlugins(dbs, plugins[1..])
    else
      var merged := MergePuts(OpenBlock(dbs, BlockOf(plugins[0])), PutsOf(plugins[0], plugins[0].tables.value));
      if merged.Err? then merged else MergePlugins(merged.value, plugins[1..])
  }

  function Lookup(r: Record, key: string): Option<Ref> { if key in r then r[key] else None }

  /** hasEquivalentRecordValues on two given records. */
  predicate Equivalent(left: Record, right: Record) {
    |left.Keys| == |right.Keys| && forall key :: key in left ==> Lookup(right, key) == left[key]
  }

  predicate Conflict(canonical: Option<Record>, legacy: Option<Record>) {
    legacy.Some? && canonical.Some? && !Equivalent(canonical.value, legacy.value)
  }

  function Either(canonical: Option<Record>, legacy: Option<Record>): Option<Record> {
    if canonical.Some? then canonical else legacy
  }

  function ActionsOf(s: Option<RoomState>): Option<Record> { if s.Some? then s.value.actions else None }
  function TimersOf(s: Option<RoomState>): Option<Record> { if s.Some? then s.value.timers else None }
  function LifecycleOf(h: Option<RoomHooks>): Option<Record> { if h.Some? then h.value.lifecycle else None }

  function NormalizeRoom(room: Room): Result<Room> {
    if room.handlers.None? then Ok(room)
    else
      var h := room.handlers.value;
      if Conflict(ActionsOf(room.state), h.actions) then Err("cannot define both handlers.actions and state.actions")
      else if Conflict(TimersOf(room.state), h.timers) then Err("cannot define both handlers.timers and state.timers")
      else if Conflict(LifecycleOf(room.hooks), h.lifecycle)
      then Err("cannot define both handlers.lifecycle and hooks.lifecycle")
      else
        var state := if h.actions.Some? || h.timers.Some?
                     then Some(RoomState(Either(ActionsOf(room.state), h.actions), Either(TimersOf(room.state), h.timers)))
                     else room.state;
        var hooks := if h.lifecycle.Some? then Some(RoomHooks(Either(LifecycleOf(room.hooks), h.lifecycle))) else room.hooks;
        Ok(Room(room.handlers, state, hooks))
  }

  function NormalizeRooms(rooms: seq<Room>): Result<seq<Room>> {
    if rooms == [] then Ok([])
    else
      var k := |rooms| - 1;
      var before := NormalizeRooms(rooms[..k]);
      if before.Err? then before
      else
        var last := NormalizeRoom(rooms[k]);
        if last.Err? then Err(last.message) else Ok(before.value + [last.value])
  }

  function NormalizeKey(k: ServiceKey): ServiceKey {
    if k.secret != "" && k.secretSource == "" then ServiceKey("", "inline", k.secret) else k
  }

  function NormalizeKeys(keys: seq<ServiceKey>): seq<ServiceKey> {
    seq(|keys|, i requires 0 <= i < |keys| => NormalizeKey(keys[i]))
  }

  /** The legacy-syntax check sees the merged tables; other legacy syntax is fixed by the input. */
  predicate HasLegacySyntax(dbs: Databases, legacyTables: set<Ref>, otherLegacy: bool) {
    otherLegacy || exists block, table :: block in dbs && table in dbs[block] && dbs[block][table] in legacyTables
  }

  function Materialized(s: Settings, plugins: seq<Plugin>, legacyTables: set<Ref>, otherLegacy: bool): Result<Settings> {
    var merged := MergePlugins(s.databases, plugins);
    if merged.Err? then Err(merged.message)
    else if HasLegacySyntax(merged.value, legacyTables, otherLegacy) then Err("Legacy config syntax is no longer supported")
    else
      var rooms := NormalizeRooms(s.rooms);
      if rooms.Err? then Err(rooms.message)
      else Ok(Settings(merged.value, rooms.value, NormalizeKeys(s.keys)))
  }

  class Config {
    const plugins: seq<Plugin>
    const legacyTables: set<Ref>
    const otherLegacy: bool
    /** Set by a loader that has already materialized the object. */
    var marked: bool
    var databases: Databases
    var rooms: seq<Room>
    var keys: seq<ServiceKey>

    constructor (plugins: seq<Plugin>, legacyTables: set<Ref>, otherLegacy: bool, marked: bool, s: Settings)
      ensures this.plugins == plugins && this.legacyTables == legacyTables && this.otherLegacy == otherLegacy
      ensures this.marked == marked && Current() == s
    {
      this.plugins := plugins;
      this.legacyTables := legacyTables;
      this.otherLegacy := otherLegacy;
      this.marked := marked;
      databases := s.databases;
      rooms := s.rooms;
      keys := s.keys;
    }

    function Current(): Settings
      reads this
    {
      Settings(databases, rooms, keys)
    }

    /** Everything is written in place; on an error the caller gives the object up. */
    method Materialize() returns (error: Option<string>)
      modifies this`databases, this`rooms, this`keys
      ensures marked ==> error.None? && Current() == old(Current())
      ensures !marked ==>
                var m := Materialized(old(Current()), plugins, legacyTables, otherLegacy);
                if m.Ok? then error.None? && Current() == m.value else error == Some(m.message)
    {
      if marked {
        return None;
      }
      error := MergeTables();
      if error.Some? {
        return;
      }
      if HasLegacySyntax(databases, legacyTables, otherLegacy) {
        return Some("Legacy config syntax is no longer supported");
      }
      error := NormalizeRoomConfig();
      if error.Some? {
        return;
      }
      NormalizeServiceKeys();
    }

    method MergeTables() returns (error: Option<string>)
      modifies this`databases
      ensures var m := MergePlugins(old(databases), plugins);
              if m.Ok? then error.None? && databases == m.value else error == Some(m.message)
    {
      var i := 0;
      assert plugins[0..] == plugins;
      while i < |plugins|
        invariant 0 <= i <= |plugins|
        invariant MergePlugins(old(databases), plugins) == MergePlugins(databases, plugins[i..])
      {
        var plugin := plugins[i];
        assert plugins[i..][0] == plugin && plugins[i..][1..] == plugins[i + 1..];
        if plugin.tables.Some? {
          error := MergePlugin(plugin, plugin.tables.value);
          if error.Some? {
            return;
          }
        }
        i := i + 1;
      }
      assert plugins[i..] == [];
      error := None;
    }

    method MergePlugin(plugin: Plugin, entries: seq<(string, Ref)>) returns (error: Option<string>)
      modifies this`databases
      ensures var m := MergePuts(OpenBlock(old(databases), BlockOf(plugin)), PutsOf(plugin, entries));
              if m.Ok? then error.None? && databases == m.value else error == Some(m.message)
    {
      databases := OpenBlock(databases, BlockOf(plugin));
      ghost var puts := PutsOf(plugin, entries);
      ghost var merged := MergePuts(databases, puts);
      var j := 0;
      assert puts[0..] == puts;
      while j < |entries|
        invariant 0 <= j <= |entries|
        invariant merged == MergePuts(databases, puts[j..])
      {
        var put := Put(BlockOf(plugin), plugin.name + "/" + entries[j].0, entries[j].1);
        assert puts[j..][0] == put && puts[j..][1..] == puts[j + 1..];
        if Collides(databases, put) {
          return Some("Plugin table collision");
        }
        databases := Store(databases, put);
        j := j + 1;
      }
      return None;
    }

    method NormalizeRoomConfig() returns (error: Option<string>)
      modifies this`rooms
      ensures var m := NormalizeRooms(old(rooms));
              if m.Ok? then error.None? && rooms == m.value else error == Some(m.message)
    {
      ghost var before := rooms;
      var i := 0;
      while i < |rooms|
        invariant 0 <= i <= |rooms| == |before|
        invariant NormalizeRooms(before[..i]) == Ok(rooms[..i]) && rooms[i..] == before[i..]
      {
        assert before[..i + 1][..i] == before[..i] && rooms[i] == before[i..][0];
        var room := NormalizeRoom(rooms[i]);
        if room.Err? {
          FirstRoomError(before, i);
          return Some(room.message);
        }
        ghost var done := rooms[..i];
        rooms := rooms[i := room.value];
        assert rooms[..i + 1] == done + [room.value];
        i := i + 1;
      }
      assert before[..i] == before && rooms[..i] == rooms;
      return None;
    }

    method NormalizeServiceKeys()
      modifies this`keys
      ensures keys == NormalizeKeys(old(keys))
      ensures |keys| == |old(keys)|
      ensures forall i :: 0 <= i < |keys| && old(keys)[i].secret != "" && old(keys)[i].secretSource == "" ==>
                keys[i].inlineSecret == old(keys)[i].secret && keys[i].secretSource == "inline" && keys[i].secret == ""
      ensures forall i :: 0 <= i < |keys| && (old(keys)[i].secret == "" || old(keys)[i].secretSource != "") ==>
                keys[i] == old(keys)[i]
    {
      var i := 0;
      while i < |keys|
        invariant 0 <= i <= |keys| == |old(keys)|
        invariant forall k :: 0 <= k < i ==> keys[k] == NormalizeKey(old(keys)[k])
        invariant forall k :: i <= k < |keys| ==> keys[k] == old(keys)[k]
      {
        keys := keys[i := NormalizeKey(keys[i])];
        i := i + 1;
      }
    }
  }

  lemma {:induction false} FirstRoomError(rooms: seq<Room>, i: nat)
    requires i < |rooms| && NormalizeRooms(rooms[..i]).Ok? && NormalizeRoom(rooms[i]).Err?
    ensures NormalizeRooms(rooms) == Err(NormalizeRoom(rooms[i]).message)
    decreases |rooms|
  {
    var k := |rooms| - 1;
    assert rooms[..i + 1][..i] == rooms[..i];
    if i < k {
      assert rooms[..k][..i] == rooms[..i];
      FirstRoomError(rooms[..k], i);
    } else {
      assert rooms[..k] == rooms[..i];
    }
  }
}
