/** The position assigner: given the exported configuration of the
    airport, it picks a runway configuration, a gate and a runway entrance
    or exit for a movement. `random.choice` is a nondeterministic pick from
    the candidates. */
module PositionAssigner {
  import opened Wrappers
  import opened StringOrder
  import opened AirportProcess

  /** The assigner's movement type, the string literals `'arrival'` and
      `'departure'` (the router has its own enum, `Pathfinder.MovementType`). */
  datatype Movement = Arrival | Departure

  /** `{'name': config_name, **config}`. */
  datatype NamedConfig = NamedConfig(name: string, config: RunwayConfig)

  /** The result of `assign_positions`. */
  datatype Assignment = Assignment(config: NamedConfig, movementType: Movement,
                                   gate: Option<GateEntry>, runwayPoint: Option<string>)

  // ---------------------------------------------------------------------
  // `get_config`

  /** `get_config` raises: the direction names no configuration, or no
      direction is given and there is none to pick from. */
  predicate ConfigFails(config: AirportConfig, direction: Option<string>)
  {
    if Truthy(direction) then direction.value !in config.runwayConfigurations
    else config.runwayConfigurations == map[]
  }

  /** `get_config`: the named configuration, or a random one when no
      direction is given. */
  method GetConfig(config: AirportConfig, direction: Option<string>) returns (r: Result<NamedConfig, string>)
    ensures r.Failure? <==> ConfigFails(config, direction)
    ensures r.Success? ==> r.value.name in config.runwayConfigurations &&
                           r.value.config == config.runwayConfigurations[r.value.name]
    ensures r.Success? && Truthy(direction) ==> r.value.name == direction.value
  {
    if Truthy(direction) {
      if direction.value !in config.runwayConfigurations {
        return Failure("Invalid configuration direction");
      }
      return Success(NamedConfig(direction.value, config.runwayConfigurations[direction.value]));
    }
    if config.runwayConfigurations == map[] {
      return Failure("Cannot choose from an empty sequence");
    }
    var configName :| configName in config.runwayConfigurations;
    return Success(NamedConfig(configName, config.runwayConfigurations[configName]));
  }

  // ---------------------------------------------------------------------
  // `get_gate_by_id`

  /** The first gate of the list with id `gateId`. */
  function FirstWithId(gates: seq<GateEntry>, gateId: string): (r: Option<GateEntry>)
    ensures r.Some? ==> r.value in gates && r.value.gateId == gateId
    ensures r.None? ==> forall g :: g in gates ==> g.gateId != gateId
    ensures r.Some? ==> exists i :: 0 <= i < |gates| && gates[i] == r.value &&
                                    forall j :: 0 <= j < i ==> gates[j].gateId != gateId
    decreases |gates|
  {
    if gates == [] then None
    else if gates[0].gateId == gateId then Some(gates[0])
    else
      var r := FirstWithId(gates[1..], gateId);
      assert r.Some? ==> exists i :: 0 <= i < |gates| && gates[i] == r.value &&
                                    forall j :: 0 <= j < i ==> gates[j].gateId != gateId by {
        if r.Some? {
          var i :| 0 <= i < |gates[1..]| && gates[1..][i] == r.value &&
                   forall j :: 0 <= j < i ==> gates[1..][j].gateId != gateId;
          forall j | 0 <= j < i + 1 ensures gates[j].gateId != gateId {
            if j > 0 { assert gates[j] == gates[1..][j - 1]; }
          }
        }
      }
      r
  }

  /** `get_gate_by_id`: the gate with that id, searched for only in the
      terminal named by the id without its digits. */
  function GetGateById(terminals: map<string, seq<GateEntry>>, gateId: string): (r: Option<GateEntry>)
    ensures r.Some? ==> r.value.gateId == gateId && StripDigits(gateId) in terminals &&
                        r.value in terminals[StripDigits(gateId)]
    ensures r.None? <==> !(StripDigits(gateId) in terminals &&
                           exists g :: g in terminals[StripDigits(gateId)] && g.gateId == gateId)
  {
    var terminalId := StripDigits(gateId);
    if terminalId in terminals then FirstWithId(terminals[terminalId], gateId) else None
  }

  /** Looking a gate up in the exported grouping finds exactly the gates of
      the gate table, each with its own entry. */
  lemma ExportedGateFound(gates: map<string, GateRecord>, terminals: map<string, seq<GateEntry>>, gateId: string)
    requires GroupedByTerminal(gates, terminals)
    ensures GetGateById(terminals, gateId) == if gateId in gates then Some(EntryFor(gateId, gates[gateId])) else None
  {
    if gateId in gates {
      assert EntryFor(gateId, gates[gateId]) in terminals[StripDigits(gateId)];
    }
  }

  // ---------------------------------------------------------------------
  // `find_runway_point`

  /** The runway points a movement may use: the entrances for a departure,
      the exits for an arrival. */
  function ValidPoints(config: RunwayConfig, isDeparture: bool): seq<string>
  {
    if isDeparture then config.entrances else config.exits
  }

  /** `find_runway_point`: the requested point if it is valid, otherwise
      (no point requested) any valid point. */
  method FindRunwayPoint(config: RunwayConfig, isDeparture: bool, specificPoint: Option<string>)
    returns (r: Option<string>)
    ensures Truthy(specificPoint) ==> (r.Some? <==> specificPoint.value in ValidPoints(config, isDeparture))
    ensures Truthy(specificPoint) && r.Some? ==> r.value == specificPoint.value
    ensures !Truthy(specificPoint) ==> (r.None? <==> ValidPoints(config, isDeparture) == [])
    ensures r.Some? ==> r.value in ValidPoints(config, isDeparture)
  {
    var validPoints := if isDeparture then config.entrances else config.exits;
    if Truthy(specificPoint) {
      if specificPoint.value in validPoints {
        return specificPoint;
      } else {
        return None;
      }
    }
    if validPoints == [] {
      return None;
    }
    assert validPoints[0] in validPoints;
    var selected :| selected in validPoints;
    return Some(selected);
  }

  // ---------------------------------------------------------------------
  // `find_gate`

  /** `[gate for gate in gates if gate['gate_id'] not in exclude_gates]`. */
  function NotExcluded(gates: seq<GateEntry>, excludeGates: seq<string>): seq<GateEntry>
    decreases |gates|
  {
    if gates == [] then []
    else
      var pre := NotExcluded(gates[..|gates| - 1], excludeGates);
      var g := gates[|gates| - 1];
      if g.gateId in excludeGates then pre else pre + [g]
  }

  /** The filter keeps exactly the gates not excluded by id. */
  lemma {:induction false} NotExcludedContents(gates: seq<GateEntry>, excludeGates: seq<string>)
    ensures forall g :: g in NotExcluded(gates, excludeGates) <==> g in gates && g.gateId !in excludeGates
    decreases |gates|
  {
    if gates != [] {
      NotExcludedContents(gates[..|gates| - 1], excludeGates);
      assert gates == gates[..|gates| - 1] + [gates[|gates| - 1]];
    }
  }

  /** A gate of terminal `t`, where neither the gate nor the terminal is
      excluded. */
  ghost predicate EligibleIn(terminals: map<string, seq<GateEntry>>, t: string, g: GateEntry,
                             excludeGates: seq<string>, excludeTerminals: seq<string>)
  {
    t in terminals && t !in excludeTerminals && g in terminals[t] && g.gateId !in excludeGates
  }

  /** A gate that may be chosen when no specific gate is requested. */
  ghost predicate Eligible(terminals: map<string, seq<GateEntry>>, g: GateEntry,
                           excludeGates: seq<string>, excludeTerminals: seq<string>)
  {
    exists t :: EligibleIn(terminals, t, g, excludeGates, excludeTerminals)
  }

  /** The preferred terminal is given, allowed, known, and has a gate that
      is not excluded. */
  ghost predicate PreferenceUsable(terminals: map<string, seq<GateEntry>>, terminalPreference: Option<string>,
                                   excludeGates: seq<string>, excludeTerminals: seq<string>)
  {
    Truthy(terminalPreference) &&
    exists g :: EligibleIn(terminals, terminalPreference.value, g, excludeGates, excludeTerminals)
  }

  /** `find_gate`. A requested gate is returned unless it is unknown, its
      terminal is excluded or it is excluded itself. Otherwise a gate is
      picked among the non-excluded gates of the preferred terminal, or,
      when that gives none, among those of every allowed terminal. */
  method FindGate(terminals: map<string, seq<GateEntry>>, specificGate: Option<string>,
                  terminalPreference: Option<string>, excludeGates: seq<string>, excludeTerminals: seq<string>)
    returns (r: Option<GateEntry>)
    ensures Truthy(specificGate) ==>
              (r.Some? <==> GetGateById(terminals, specificGate.value).Some? &&
                            StripDigits(specificGate.value) !in excludeTerminals &&
                            specificGate.value !in excludeGates)
    ensures Truthy(specificGate) && r.Some? ==> r == GetGateById(terminals, specificGate.value)
    ensures !Truthy(specificGate) && r.Some? ==> Eligible(terminals, r.value, excludeGates, excludeTerminals)
    ensures !Truthy(specificGate) ==> (r.None? <==> forall g :: !Eligible(terminals, g, excludeGates, excludeTerminals))
    ensures !Truthy(specificGate) && PreferenceUsable(terminals, terminalPreference, excludeGates, excludeTerminals) ==>
              r.Some? && EligibleIn(terminals, terminalPreference.value, r.value, excludeGates, excludeTerminals)
  {
    if Truthy(specificGate) {
      var gateId := specificGate.value;
      var gate := GetGateById(terminals, gateId);
      if gate.Some? {
        var terminalId := StripDigits(gateId);
        if terminalId in excludeTerminals {
          return None;
        }
        if gateId in excludeGates {
          return None;
        }
        return gate;
      } else {
        return None;
      }
    }
    var availableGates: seq<GateEntry> := [];
    if Truthy(terminalPreference) && terminalPreference.value !in excludeTerminals {
      if terminalPreference.value in terminals {
        availableGates := availableGates + NotExcluded(terminals[terminalPreference.value], excludeGates);
        NotExcludedContents(terminals[terminalPreference.value], excludeGates);
        forall g | g in availableGates
          ensures Eligible(terminals, g, excludeGates, excludeTerminals)
        {
          assert EligibleIn(terminals, terminalPreference.value, g, excludeGates, excludeTerminals);
        }
      }
    }
    if PreferenceUsable(terminals, terminalPreference, excludeGates, excludeTerminals) {
      var g :| EligibleIn(terminals, terminalPreference.value, g, excludeGates, excludeTerminals);
      assert g in availableGates;
    }
    if availableGates == [] {
      availableGates := AllAvailable(terminals, excludeGates, excludeTerminals);
    }
    assert forall g :: g in availableGates ==> Eligible(terminals, g, excludeGates, excludeTerminals);
    if availableGates == [] {
      return None;
    }
    assert availableGates[0] in availableGates;
    var chosen :| chosen in availableGates;
    return Some(chosen);
  }

  /** The fallback loop of `find_gate`: the gates of every allowed
      terminal that are not excluded. The terminals come in dictionary
      order, which the choice that follows does not depend on. */
  method AllAvailable(terminals: map<string, seq<GateEntry>>, excludeGates: seq<string>, excludeTerminals: seq<string>)
    returns (availableGates: seq<GateEntry>)
    ensures forall g :: g in availableGates <==> Eligible(terminals, g, excludeGates, excludeTerminals)
  {
    availableGates := [];
    var rest := terminals.Keys;
    while rest != {}
      invariant rest <= terminals.Keys
      invariant forall g :: g in availableGates <==>
                  exists t :: t !in rest && EligibleIn(terminals, t, g, excludeGates, excludeTerminals)
      decreases rest
    {
      var terminalId :| terminalId in rest;
      if terminalId !in excludeTerminals {
        NotExcludedContents(terminals[terminalId], excludeGates);
        availableGates := availableGates + NotExcluded(terminals[terminalId], excludeGates);
      }
      rest := rest - {terminalId};
    }
  }

  // ---------------------------------------------------------------------
  // `assign_positions`

  /** Whether `find_gate` finds a gate: the requested one when it is known
      and neither it nor its terminal is excluded, otherwise any eligible
      gate. */
  ghost predicate GateFound(terminals: map<string, seq<GateEntry>>, specificGate: Option<string>,
                            excludeGates: seq<string>, excludeTerminals: seq<string>)
  {
    if Truthy(specificGate) then
      GetGateById(terminals, specificGate.value).Some? &&
      StripDigits(specificGate.value) !in excludeTerminals && specificGate.value !in excludeGates
    else
      exists g :: Eligible(terminals, g, excludeGates, excludeTerminals)
  }

  /** Whether `find_runway_point` finds a point: the requested one when it
      is valid, otherwise any valid point. */
  predicate PointFound(config: RunwayConfig, isDeparture: bool, specificPoint: Option<string>)
  {
    if Truthy(specificPoint) then specificPoint.value in ValidPoints(config, isDeparture)
    else ValidPoints(config, isDeparture) != []
  }

  /** `assign_positions`: a configuration (the requested one when a
      direction is given), then a gate and a runway point, recorded exactly
      when the gate is found and the point found is non-empty. The ghost
      outputs `gate0` and `point0` are what the two searches returned. */
  method AssignPositions(config: AirportConfig, movementType: Movement, configDirection: Option<string>,
                         specificGate: Option<string>, specificRunwayPoint: Option<string>,
                         terminalPreference: Option<string>, excludeGates: seq<string>, excludeTerminals: seq<string>)
    returns (r: Result<Assignment, string>, ghost gate0: Option<GateEntry>, ghost point0: Option<string>)
    ensures r.Failure? <==> ConfigFails(config, configDirection)
    ensures r.Success? ==> r.value.movementType == movementType &&
                           r.value.config.name in config.runwayConfigurations &&
                           r.value.config.config == config.runwayConfigurations[r.value.config.name]
    ensures r.Success? && Truthy(configDirection) ==> r.value.config.name == configDirection.value
    ensures r.Success? ==> (gate0.Some? <==> GateFound(config.terminals, specificGate, excludeGates, excludeTerminals))
    ensures r.Success? ==> (point0.Some? <==> PointFound(r.value.config.config, movementType == Departure, specificRunwayPoint))
    ensures r.Success? ==> (r.value.gate.Some? <==> gate0.Some? && Truthy(point0))
    ensures r.Success? && r.value.gate.Some? ==> r.value.gate == gate0 && r.value.runwayPoint == point0
    ensures r.Success? ==> (r.value.gate.Some? <==> r.value.runwayPoint.Some?)
    ensures r.Success? && r.value.runwayPoint.Some? ==>
              r.value.runwayPoint.value != "" &&
              r.value.runwayPoint.value in ValidPoints(r.value.config.config, movementType == Departure)
    ensures r.Success? && r.value.gate.Some? && Truthy(specificGate) ==>
              r.value.gate.value.gateId == specificGate.value
    ensures r.Success? && r.value.gate.Some? && !Truthy(specificGate) ==>
              Eligible(config.terminals, r.value.gate.value, excludeGates, excludeTerminals)
  {
    var named := GetConfig(config, configDirection);
    if named.Failure? {
      return Failure(named.error), None, None;
    }
    var result := Assignment(named.value, movementType, None, None);
    var gate := FindGate(config.terminals, specificGate, terminalPreference, excludeGates, excludeTerminals);
    var runwayPoint := FindRunwayPoint(named.value.config, movementType == Departure, specificRunwayPoint);
    gate0, point0 := gate, runwayPoint;
    if gate.Some? && Truthy(runwayPoint) {
      result := result.(gate := gate, runwayPoint := runwayPoint);
    }
    return Success(result), gate0, point0;
  }
}
