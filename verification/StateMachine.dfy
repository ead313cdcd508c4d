/** backend/internal/runstate/fsm.go: a transition table, its compact descriptors, and the machine made of them. */
module StateMachine {
  import opened Wrappers

  type Name = string

  type Table = map<(Name, Name), Name>

  datatype Transition = Transition(from: Name, event: Name, to: Name)

  /** Several sources that one event takes to the same destination. */
  datatype EventDesc = EventDesc(name: Name, src: seq<Name>, dst: Name)

  // --------------------------------------------------------------- what descriptors mean

  /** The map NewFSM of the state machine library builds: event and source to destination. */
  function LoadSources(m: Table, name: Name, src: seq<Name>, dst: Name): Table {
    if src == [] then m else LoadSources(m, name, src[..|src| - 1], dst)[(name, src[|src| - 1]) := dst]
  }

  function Load(descs: seq<EventDesc>): Table {
    if descs == [] then map[]
    else
      var d := descs[|descs| - 1];
      LoadSources(Load(descs[..|descs| - 1]), d.name, d.src, d.dst)
  }

  ghost predicate Declares(descs: seq<EventDesc>, event: Name, from: Name, to: Name) {
    exists d | d in descs :: d.name == event && d.dst == to && from in d.src
  }

  /** The descriptors say exactly what the table says. */
  ghost predicate Describes(descs: seq<EventDesc>, table: Table) {
    forall event, from, to :: Declares(descs, event, from, to) <==> (from, event) in table && table[(from, event)] == to
  }

  lemma {:induction false} LoadedSources(m: Table, name: Name, src: seq<Name>, dst: Name, event: Name, from: Name)
    ensures var r := LoadSources(m, name, src, dst);
            if event == name && from in src then (event, from) in r && r[(event, from)] == dst
            else ((event, from) in r <==> (event, from) in m)
                 && ((event, from) in m ==> r[(event, from)] == m[(event, from)])
  {
    if src != [] {
      assert src == src[..|src| - 1] + [src[|src| - 1]];
      LoadedSources(m, name, src[..|src| - 1], dst, event, from);
    }
  }

  /** Only the last declaration of a pair counts, so a pair declared once is loaded as declared. */
  lemma {:induction false} LoadedIff(descs: seq<EventDesc>, event: Name, from: Name, to: Name)
    requires forall t | Declares(descs, event, from, t) :: t == to
    ensures Declares(descs, event, from, to) <==> (event, from) in Load(descs) && Load(descs)[(event, from)] == to
    ensures (event, from) in Load(descs) ==> Load(descs)[(event, from)] == to
  {
    if descs != [] {
      var init, d := descs[..|descs| - 1], descs[|descs| - 1];
      assert descs == init + [d];
      forall t | Declares(init, event, from, t) ensures t == to {
        assert Declares(descs, event, from, t);
      }
      LoadedIff(init, event, from, to);
      LoadedSources(Load(init), d.name, d.src, d.dst, event, from);
      if d.name == event && from in d.src {
        assert Declares(descs, event, from, d.dst);
      }
    }
  }

  /** Loading descriptors that describe a table gives the table back, whatever their order and grouping. */
  lemma LoadIsTable(descs: seq<EventDesc>, table: Table, event: Name, from: Name)
    requires Describes(descs, table)
    ensures (event, from) in Load(descs) <==> (from, event) in table
    ensures (from, event) in table ==> Load(descs)[(event, from)] == table[(from, event)]
  {
    var to := if (from, event) in table then table[(from, event)] else "";
    LoadedIff(descs, event, from, to);
  }

  // ------------------------------------------------------------------------------- Builder

  class Builder {
    var table: Table

    constructor ()
      ensures table == map[]
    {
      table := map[];
    }

    /** Declaring a pair twice is a programming error, answered by a panic. */
    method Allow(t: Transition)
      requires (t.from, t.event) !in table
      modifies this
      ensures table == old(table)[(t.from, t.event) := t.to]
    {
      table := table[(t.from, t.event) := t.to];
    }

    /** Groups the table by event and destination, in map order. */
    method Events() returns (out: seq<EventDesc>)
      ensures Describes(out, table)
      ensures forall i, j | 0 <= i < j < |out| :: (out[i].name, out[i].dst) != (out[j].name, out[j].dst)
    {
      var groups := Groups();
      out := [];
      var rest := groups.Keys;
      while rest != {}
        invariant rest <= groups.Keys
        invariant forall d | d in out :: (d.name, d.dst) in groups.Keys - rest && d.src == groups[(d.name, d.dst)]
        invariant forall g | g in groups.Keys - rest :: EventDesc(g.0, groups[g], g.1) in out
        invariant forall i, j | 0 <= i < j < |out| :: (out[i].name, out[i].dst) != (out[j].name, out[j].dst)
        decreases rest
      {
        var g :| g in rest;
        rest := rest - {g};
        out := out + [EventDesc(g.0, groups[g], g.1)];
      }
      GroupsDescribe(table, groups, out);
    }

    method Groups() returns (groups: map<(Name, Name), seq<Name>>)
      ensures Grouped(table, table.Keys, groups)
    {
      groups := map[];
      var rest := table.Keys;
      while rest != {}
        invariant rest <= table.Keys && Grouped(table, table.Keys - rest, groups)
        decreases rest
      {
        var k :| k in rest;
        var g := (k.1, table[k]);
        GroupOne(table, table.Keys - rest, groups, k);
        assert table.Keys - (rest - {k}) == (table.Keys - rest) + {k};
        rest := rest - {k};
        groups := groups[g := (if g in groups then groups[g] else []) + [k.0]];
      }
      assert table.Keys - rest == table.Keys;
    }

    method Build(initial: Name) returns (f: FSM)
      ensures f.current == initial && Describes(f.events, table)
    {
      var events := Events();
      f := FSM(initial, events);
    }
  }

  /** groups holds exactly the sources seen so far, under their event and destination. */
  ghost predicate Grouped(table: Table, seen: set<(Name, Name)>, groups: map<(Name, Name), seq<Name>>) {
    && seen <= table.Keys
    && forall event, to, from :: InGroup(groups, event, to, from) <==> InTable(table, seen, event, to, from)
  }

  predicate InGroup(groups: map<(Name, Name), seq<Name>>, event: Name, to: Name, from: Name) {
    (event, to) in groups && from in groups[(event, to)]
  }

  predicate InTable(table: Table, seen: set<(Name, Name)>, event: Name, to: Name, from: Name) {
    (from, event) in seen && (from, event) in table && table[(from, event)] == to
  }

  lemma GroupOne(table: Table, seen: set<(Name, Name)>, groups: map<(Name, Name), seq<Name>>, k: (Name, Name))
    requires Grouped(table, seen, groups) && k in table
    ensures var g := (k.1, table[k]);
            Grouped(table, seen + {k}, groups[g := (if g in groups then groups[g] else []) + [k.0]])
  {
    var g := (k.1, table[k]);
    var was := if g in groups then groups[g] else [];
    var groups' := groups[g := was + [k.0]];
    forall event, to, from
      ensures InGroup(groups', event, to, from) <==> InTable(table, seen + {k}, event, to, from)
    {
      assert InGroup(groups, event, to, from) <==> InTable(table, seen, event, to, from);
      if (event, to) == g {
        assert from in was + [k.0] <==> from in was || from == k.0;
      }
    }
  }

  lemma GroupsDescribe(table: Table, groups: map<(Name, Name), seq<Name>>, out: seq<EventDesc>)
    requires Grouped(table, table.Keys, groups)
    requires forall d | d in out :: (d.name, d.dst) in groups && d.src == groups[(d.name, d.dst)]
    requires forall g | g in groups :: EventDesc(g.0, groups[g], g.1) in out
    ensures Describes(out, table)
  {
    forall event, from, to
      ensures Declares(out, event, from, to) <==> (from, event) in table && table[(from, event)] == to
    {
      assert InGroup(groups, event, to, from) <==> InTable(table, table.Keys, event, to, from);
      if (event, to) in groups && from in groups[(event, to)] {
        assert EventDesc((event, to).0, groups[(event, to)], (event, to).1) in out;
      }
      if d :| d in out && d.name == event && d.dst == to && from in d.src {
        assert from in groups[(event, to)];
      }
    }
  }

  // ----------------------------------------------------------------------------------- FSM

  datatype FSM = FSM(current: Name, events: seq<EventDesc>) {
    predicate Can(event: Name) { (event, current) in Load(events) }

    /** None is an error; the library also answers a transition to the current state with an error. */
    function Apply(event: Name): Option<FSM> {
      var m := Load(events);
      if (event, current) !in m then None
      else if m[(event, current)] == current then None
      else Some(FSM(m[(event, current)], events))
    }
  }

  /** Can says what the table says, and so does Apply exactly when the entry is not a self-loop; the machine
      then moves to the destination declared. */
  lemma MachineFollowsTable(f: FSM, table: Table, event: Name)
    requires Describes(f.events, table)
    ensures f.Can(event) <==> (f.current, event) in table
    ensures (f.Can(event) <==> f.Apply(event).Some?)
            <==> !((f.current, event) in table && table[(f.current, event)] == f.current)
    ensures f.Apply(event).Some? ==> f.Apply(event).value == FSM(table[(f.current, event)], f.events)
  {
    LoadIsTable(f.events, table, event, f.current);
  }

  /** The state reached by a sequence of events, if all are accepted. */
  ghost function Accept(table: Table, s: Name, events: seq<Name>): Option<Name>
    decreases events
  {
    if events == [] then Some(s)
    else if (s, events[0]) in table then Accept(table, table[(s, events[0])], events[1..])
    else None
  }

  /** The state after a sequence of events when rejected ones are ignored. */
  ghost function Drive(table: Table, s: Name, events: seq<Name>): Name
    decreases events
  {
    if events == [] then s
    else Drive(table, if (s, events[0]) in table then table[(s, events[0])] else s, events[1..])
  }

  function ApplyAll(f: FSM, events: seq<Name>): Option<FSM>
    decreases events
  {
    if events == [] then Some(f)
    else
      var next := f.Apply(events[0]);
      if next.None? then None else ApplyAll(next.value, events[1..])
  }

  ghost predicate NoSelfLoops(table: Table) { forall k | k in table :: table[k] != k.0 }

  /** Applying events one by one to a machine accepts exactly the sequences the table accepts. */
  lemma {:induction false} MachineAccepts(f: FSM, table: Table, events: seq<Name>)
    requires Describes(f.events, table) && NoSelfLoops(table)
    ensures ApplyAll(f, events).Some? <==> Accept(table, f.current, events).Some?
    ensures ApplyAll(f, events).Some?
            ==> ApplyAll(f, events).value == FSM(Accept(table, f.current, events).value, f.events)
    decreases |events|
  {
    if events != [] {
      MachineFollowsTable(f, table, events[0]);
      if f.Apply(events[0]).Some? {
        MachineAccepts(f.Apply(events[0]).value, table, events[1..]);
      }
    }
  }
}
