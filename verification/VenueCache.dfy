/** The in-memory venue state: what each mutator does to the table map, and the
    class whose methods do it in place. */
module VenueCache {
  import opened Domain

  type Tables = map<int, TableState>

  const TABLE_IDS: set<int> := {1, 2, 3, 4}

  const ZERO_TABLE := TableState(NoStatus, NoLight, None)

  /** A map read in Go: the zero value for an absent key. */
  function Get(m: Tables, t: int): TableState {
    if t in m then m[t] else ZERO_TABLE
  }

  function PendingFor(on: bool): LightStatus {
    if on then LightPendingOn else LightPendingOff
  }

  function FinalFor(on: bool): LightStatus {
    if on then LightOn else LightOff
  }

  function Resolved(l: LightStatus): LightStatus {
    match l
    case LightPendingOn => LightOn
    case LightPendingOff => LightOff
    case _ => l
  }

  function WithLight(m: Tables, t: int, l: LightStatus): Tables {
    m[t := Get(m, t).(light := l)]
  }

  function WithAllLights(m: Tables, l: LightStatus): Tables {
    map t | t in m.Keys + TABLE_IDS :: if IsTable(t) then Get(m, t).(light := l) else m[t]
  }

  function Initial(): Tables {
    map t | t in TABLE_IDS :: TableState(Available, LightPendingOff, None)
  }

  function Hydrated(m: Tables, t: int, booking: Option<CurrentBooking>): Tables {
    m[t := if booking.Some? then TableState(Busy, LightOn, booking)
           else TableState(Available, LightPendingOff, None)]
  }

  function Activated(m: Tables, t: int, booking: CurrentBooking): Tables {
    m[t := TableState(Busy, LightPendingOn, Some(booking))]
  }

  function Deactivated(m: Tables, t: int): Tables {
    m[t := TableState(Available, LightPendingOff, None)]
  }

  /** A manual override; table 0 overrides all four. */
  function Overridden(m: Tables, target: int, on: bool): Tables {
    if target == 0 then WithAllLights(m, PendingFor(on)) else WithLight(m, target, PendingFor(on))
  }

  /** A relay acknowledgement; it overwrites whatever the light showed. */
  function Confirmed(m: Tables, target: int, on: bool): Tables {
    if target == 0 then WithAllLights(m, FinalFor(on)) else WithLight(m, target, FinalFor(on))
  }

  function FullyConfirmed(m: Tables): Tables {
    map t | t in m :: m[t].(light := Resolved(m[t].light))
  }

  /** Replaces the booking of an occupied table, whatever its id. */
  function BookingReplaced(m: Tables, t: int, booking: CurrentBooking): Tables {
    if t in m && m[t].booking.Some? then m[t := m[t].(booking := Some(booking))] else m
  }

  /** An override marks the lights of its tables pending and changes nothing else;
      target 0 means tables 1 to 4. */
  lemma OverrideExactly(m: Tables, target: int, on: bool, t: int)
    requires 0 <= target <= 4
    ensures var e := Overridden(m, target, on);
            if IsTable(t) && Touches(target, t) then
              t in e && e[t] == Get(m, t).(light := if on then LightPendingOn else LightPendingOff)
            else (t in e <==> t in m) && Get(e, t) == Get(m, t)
  {
  }

  /** An acknowledgement makes the lights of its tables final and changes nothing
      else. */
  lemma ConfirmExactly(m: Tables, target: int, on: bool, t: int)
    requires 0 <= target <= 4
    ensures var e := Confirmed(m, target, on);
            if IsTable(t) && Touches(target, t) then
              t in e && e[t] == Get(m, t).(light := if on then LightOn else LightOff)
            else (t in e <==> t in m) && Get(e, t) == Get(m, t)
  {
  }

  /** A snapshot acknowledgement makes pending lights final, each in its own
      direction, and changes nothing else. */
  lemma FullConfirmExactly(m: Tables, t: int)
    ensures var e := FullyConfirmed(m);
            && (t in e <==> t in m)
            && Get(e, t) == Get(m, t).(light := Get(e, t).light)
            && Lit(Get(e, t).light) == Lit(Get(m, t).light) && !Pending(Get(e, t).light)
            && (!Pending(Get(m, t).light) ==> Get(e, t) == Get(m, t))
  {
  }

  lemma NonEmptyHasElement(s: set<int>)
    ensures s == {} || exists x :: x in s
  {
    assert (forall x :: x !in s) ==> s == {};
  }

  class VenueCache {
    var tables: Tables

    constructor ()
      ensures tables == Initial()
    {
      tables := map[];
      new;
      for i := 1 to 5
        invariant tables == map t | t in TABLE_IDS && t < i :: TableState(Available, LightPendingOff, None)
      {
        tables := tables[i := TableState(Available, LightPendingOff, None)];
      }
      assert tables == Initial();
    }

    method GetTable(t: int) returns (state: TableState, ok: bool)
      ensures ok == (t in tables) && state == Get(tables, t)
    {
      ok := t in tables;
      state := if ok then tables[t] else ZERO_TABLE;
    }

    method GetAll() returns (out: seq<TableState>)
      ensures |out| == 4 && forall t :: IsTable(t) ==> out[t - 1] == Get(tables, t)
    {
      out := [];
      for i := 1 to 5
        invariant |out| == i - 1 && forall t :: 1 <= t < i ==> out[t - 1] == Get(tables, t)
      {
        out := out + [Get(tables, i)];
      }
    }

    method HydrateTable(t: int, booking: Option<CurrentBooking>)
      modifies this
      ensures tables == Hydrated(old(tables), t, booking)
    {
      var s := Get(tables, t);
      if booking.Some? {
        s := s.(status := Busy, light := LightOn, booking := booking);
      } else {
        s := s.(status := Available, light := LightPendingOff, booking := None);
      }
      tables := tables[t := s];
    }

    method ActivateTable(t: int, booking: CurrentBooking)
      modifies this
      ensures tables == Activated(old(tables), t, booking)
    {
      var s := Get(tables, t);
      s := s.(status := Busy, light := LightPendingOn, booking := Some(booking));
      tables := tables[t := s];
    }

    method DeactivateTable(t: int)
      modifies this
      ensures tables == Deactivated(old(tables), t)
    {
      var s := Get(tables, t);
      s := s.(status := Available, light := LightPendingOff, booking := None);
      tables := tables[t := s];
    }

    method SetLightStatus(t: int, on: bool)
      modifies this
      ensures tables == WithLight(old(tables), t, PendingFor(on))
    {
      var s := Get(tables, t);
      if on {
        s := s.(light := LightPendingOn);
      } else {
        s := s.(light := LightPendingOff);
      }
      tables := tables[t := s];
    }

    method SetAllLightStatuses(on: bool)
      modifies this
      ensures tables == WithAllLights(old(tables), PendingFor(on))
    {
      for i := 1 to 5
        invariant tables.Keys == old(tables).Keys + set t | t in TABLE_IDS && t < i
        invariant forall t :: t in tables ==>
          tables[t] == if 1 <= t < i then Get(old(tables), t).(light := PendingFor(on)) else old(tables)[t]
      {
        var s := Get(tables, i);
        if on {
          s := s.(light := LightPendingOn);
        } else {
          s := s.(light := LightPendingOff);
        }
        tables := tables[i := s];
      }
    }

    method ConfirmLightStatus(t: int, on: bool)
      modifies this
      ensures Get(tables, t) == Get(old(tables), t).(light := FinalFor(on))
      ensures tables == WithLight(old(tables), t, FinalFor(on))
    {
      var s := Get(tables, t);
      if s.light != FinalFor(on) {
        s := s.(light := FinalFor(on));
        tables := tables[t := s];
      }
    }

    method ConfirmAllLightStatuses(on: bool)
      modifies this
      ensures tables == WithAllLights(old(tables), FinalFor(on))
    {
      for i := 1 to 5
        invariant tables.Keys == old(tables).Keys + set t | t in TABLE_IDS && t < i
        invariant forall t :: t in tables ==>
          tables[t] == if 1 <= t < i then Get(old(tables), t).(light := FinalFor(on)) else old(tables)[t]
      {
        var s := Get(tables, i);
        if s.light != FinalFor(on) {
          s := s.(light := FinalFor(on));
          tables := tables[i := s];
        }
      }
    }

    method ConfirmFullSync()
      modifies this
      ensures tables == FullyConfirmed(old(tables))
    {
      var todo: set<int> := tables.Keys;
      while todo != {}
        invariant todo <= tables.Keys == old(tables).Keys
        invariant forall t :: t in tables ==>
          tables[t] == if t in todo then old(tables)[t] else old(tables)[t].(light := Resolved(old(tables)[t].light))
        decreases |todo|
      {
        NonEmptyHasElement(todo);
        var t :| t in todo;
        var s := tables[t];
        if s.light == LightPendingOn {
          tables := tables[t := s.(light := LightOn)];
        } else if s.light == LightPendingOff {
          tables := tables[t := s.(light := LightOff)];
        }
        todo := todo - {t};
      }
      forall t | t in tables ensures tables[t] == FullyConfirmed(old(tables))[t] {
        assert t !in todo;
      }
    }

    method UpdateCurrentBooking(t: int, booking: CurrentBooking)
      modifies this
      ensures tables == BookingReplaced(old(tables), t, booking)
    {
      if t in tables && tables[t].booking.Some? {
        tables := tables[t := tables[t].(booking := Some(booking))];
      }
    }
  }
}
