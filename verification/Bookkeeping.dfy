/**
 What a node remembers of the instructions on its path, besides values: under which names
 its function has declared which cells, what cells are called, where each value was stored
 last, and the conditions shown to the user.
 */
module Bookkeeping {
  import opened Wrappers
  import opened Program
  import opened ExpressionTree
  import opened Symbolic
  import opened Concrete
  import opened Simulation
  import opened Exploration
  import opened Partition
  import opened TreeViews
  import opened TreePaths

  // ----- The last of its kind -----

  /** What an instruction says under a key, if it does. */
  type Note<K, V> = Instr -> Option<(K, V)>

  ghost predicate Notes<K, V>(w: Note<K, V>, ins: Instr, k: K) {
    w(ins).Some? && w(ins).value.0 == k
  }

  /** Under exactly the keys some instruction of the trace notes, the map has what the last
      of them says. */
  ghost predicate Latest<K(!new), V>(m: map<K, V>, trace: seq<Instr>, w: Note<K, V>) {
    && (forall k :: k in m <==> exists i :: 0 <= i < |trace| && Notes(w, trace[i], k))
    && (forall k :: k in m ==> exists i :: LastNote(trace, w, k, i) && m[k] == w(trace[i]).value.1)
  }

  /** The last instruction of the trace that notes the key. */
  ghost predicate LastNote<K(!new), V>(trace: seq<Instr>, w: Note<K, V>, k: K, i: int) {
    0 <= i < |trace| && Notes(w, trace[i], k) && forall j :: i < j < |trace| ==> !Notes(w, trace[j], k)
  }

  lemma LatestGrows<K(!new), V>(m: map<K, V>, trace: seq<Instr>, w: Note<K, V>, ins: Instr)
    requires Latest(m, trace, w)
    ensures Latest(if w(ins).Some? then m[w(ins).value.0 := w(ins).value.1] else m, trace + [ins], w)
  {
    var more := trace + [ins];
    var r := if w(ins).Some? then m[w(ins).value.0 := w(ins).value.1] else m;
    assert more[|trace|] == ins && forall i :: 0 <= i < |trace| ==> more[i] == trace[i];
    forall k
      ensures k in r <==> exists i :: 0 <= i < |more| && Notes(w, more[i], k)
      ensures k in r ==> exists i :: LastNote(more, w, k, i) && r[k] == w(more[i]).value.1
    {
      if Notes(w, ins, k) {
        assert LastNote(more, w, k, |trace|);
      } else if k in m {
        var i :| LastNote(trace, w, k, i) && m[k] == w(trace[i]).value.1;
        assert LastNote(more, w, k, i) && Notes(w, more[i], k);
      }
    }
  }

  lemma LatestStays<K(!new), V>(m: map<K, V>, trace: seq<Instr>, w: Note<K, V>, ins: Instr)
    requires Latest(m, trace, w) && w(ins).None?
    ensures Latest(m, trace + [ins], w)
  {
    LatestGrows(m, trace, w, ins);
  }

  /** The variable a declaration names, the name it gives to its cell, and the cell a value
      is stored to. */
  const VARIABLES: Note<string, Value> := (ins: Instr) => if ins.Declare? then Some((ins.name, Cell(ins.cell))) else None
  const NAMES: Note<Value, string> := (ins: Instr) => if ins.Declare? then Some((Cell(ins.cell), ins.name)) else None
  const STORES: Note<Value, Value> := (ins: Instr) => if ins.Store? then Some((ins.src, Cell(ins.cell))) else None

  // ----- One block -----

  /** The state's records against the instructions run so far: those of the function's own
      activation, and all of them. */
  ghost predicate Records(s: State, own: seq<Instr>, all: seq<Instr>) {
    Latest(s.userVars, own, VARIABLES) && Latest(s.llvmVars, all, NAMES) && Latest(s.stores, all, STORES)
  }

  lemma StepRecords(s: State, own: seq<Instr>, all: seq<Instr>, ins: Instr)
    requires Records(s, own, all)
    ensures Records(Step(s, ins), own + [ins], all + [ins])
  {
    hide Latest;
    LatestGrows(s.userVars, own, VARIABLES, ins);
    LatestGrows(s.llvmVars, all, NAMES, ins);
    LatestGrows(s.stores, all, STORES, ins);
  }

  lemma {:induction false} SegmentRecords(instrs: seq<Instr>, ip: nat, s: State, own: seq<Instr>, all: seq<Instr>)
    requires ip <= |instrs| && Records(s, own, all)
    ensures var g := RunSegment(instrs, ip, s);
            ip <= g.ip <= |instrs| && Records(g.state, own + instrs[ip..g.ip], all + instrs[ip..g.ip])
    decreases |instrs| - ip
  {
    hide Records, Step;
    if ip == |instrs| {
      assert own + instrs[ip..ip] == own && all + instrs[ip..ip] == all;
    } else if IsSplit(instrs[ip]) {
      assert instrs[ip..ip + 1] == [instrs[ip]];
      SplitRecords(s, own, all, instrs[ip]);
    } else {
      StepRecords(s, own, all, instrs[ip]);
      SegmentRecords(instrs, ip + 1, Step(s, instrs[ip]), own + [instrs[ip]], all + [instrs[ip]]);
      var g := RunSegment(instrs, ip, s);
      assert instrs[ip..g.ip] == [instrs[ip]] + instrs[ip + 1..g.ip];
      assert own + [instrs[ip]] + instrs[ip + 1..g.ip] == own + instrs[ip..g.ip];
      assert all + [instrs[ip]] + instrs[ip + 1..g.ip] == all + instrs[ip..g.ip];
    }
  }

  lemma SplitRecords(s: State, own: seq<Instr>, all: seq<Instr>, ins: Instr)
    requires Records(s, own, all) && IsSplit(ins)
    ensures Records(s, own + [ins], all + [ins])
  {
    hide Latest;
    LatestStays(s.userVars, own, VARIABLES, ins);
    LatestStays(s.llvmVars, all, NAMES, ins);
    LatestStays(s.stores, all, STORES, ins);
  }

  // ----- Along a path -----

  /** The instructions a node's run carries out. */
  function Carried(p: Program, n: Node): seq<Instr>
    requires InProgram(p, n)
  {
    var instrs, end := p.blocks[n.block].instrs, NodeSegment(p, n).ip;
    if n.ip <= end <= |instrs| then instrs[n.ip..end] else []
  }

  /** All instructions on a path, in order. */
  function Trace(p: Program, root: Node, path: seq<Edge>): seq<Instr>
    requires WellFormed(p) && InProgram(p, root)
  {
    if path == [] then []
    else
      var before := NodeAt(p, root, path[..|path| - 1]);
      Trace(p, root, path[..|path| - 1]) + (if before.Some? then Carried(p, before.value) else [])
  }

  /** Those of the activations still open, outermost first: a call opens one, a return
      closes it. */
  function Activations(p: Program, root: Node, path: seq<Edge>): (r: seq<seq<Instr>>)
    requires WellFormed(p) && InProgram(p, root)
    ensures r != []
  {
    if path == [] then [[]]
    else
      var init, e := path[..|path| - 1], path[|path| - 1];
      var before, open := NodeAt(p, root, init), Activations(p, root, init);
      var ran := open[..|open| - 1] + [open[|open| - 1] + (if before.Some? then Carried(p, before.value) else [])];
      match e
      case Enter => ran + [[]]
      case Leave => if |ran| > 1 then ran[..|ran| - 1] else ran
      case _ => ran
  }

  function Own(open: seq<seq<Instr>>): seq<Instr>
    requires open != []
  {
    open[|open| - 1]
  }

  /** A node's records, and those its callers will resume with. */
  ghost predicate Remembers(n: Node, open: seq<seq<Instr>>, all: seq<Instr>)
    requires open != []
  {
    && Records(n.state, Own(open), all)
    && CallersRemember(n.caller, open[..|open| - 1], n.state)
  }

  ghost predicate CallersRemember(caller: Option<Node>, open: seq<seq<Instr>>, s: State) {
    if caller.None? then open == []
    else
      && open != [] && Latest(caller.value.state.userVars, Own(open), VARIABLES)
      && caller.value.state.llvmVars.Keys <= s.llvmVars.Keys && caller.value.state.stores.Keys <= s.stores.Keys
      && CallersRemember(caller.value.caller, open[..|open| - 1], caller.value.state)
  }

  lemma LatestHasKeys<K(!new), V>(m: map<K, V>, trace: seq<Instr>, more: map<K, V>, longer: seq<Instr>, w: Note<K, V>)
    requires Latest(m, trace, w) && Latest(more, longer, w) && trace <= longer
    ensures m.Keys <= more.Keys
  {
    forall k | k in m
      ensures k in more
    {
      var i :| 0 <= i < |trace| && Notes(w, trace[i], k);
      assert longer[i] == trace[i];
    }
  }

  lemma CallersRememberMore(caller: Option<Node>, open: seq<seq<Instr>>, s: State, more: State)
    requires CallersRemember(caller, open, s)
    requires s.llvmVars.Keys <= more.llvmVars.Keys && s.stores.Keys <= more.stores.Keys
    ensures CallersRemember(caller, open, more)
  {
  }

  /** Running the node up to its split. */
  lemma RunRemembers(p: Program, n: Node, open: seq<seq<Instr>>, all: seq<Instr>)
    requires InProgram(p, n) && open != [] && Remembers(n, open, all)
    ensures var ran := open[..|open| - 1] + [Own(open) + Carried(p, n)];
            Remembers(Executed(p, n), ran, all + Carried(p, n))
  {
    hide Latest, CallersRemember;
    var instrs, after := p.blocks[n.block].instrs, Executed(p, n);
    if n.ip <= |instrs| {
      SegmentRecords(instrs, n.ip, n.state, Own(open), all);
    } else {
      assert Own(open) + [] == Own(open) && all + [] == all;
    }
    LatestHasKeys(n.state.llvmVars, all, after.state.llvmVars, all + Carried(p, n), NAMES);
    LatestHasKeys(n.state.stores, all, after.state.stores, all + Carried(p, n), STORES);
    CallersRememberMore(n.caller, open[..|open| - 1], n.state, after.state);
    var ran := open[..|open| - 1] + [Own(open) + Carried(p, n)];
    assert ran[..|ran| - 1] == open[..|open| - 1];
  }

  lemma NothingNoted<K(!new), V>(w: Note<K, V>)
    ensures Latest(map[], [], w)
  {
  }

  /** A map whose keys another has gives nothing when merged under it. */
  lemma Overridden<K, V>(to: map<K, V>, from: map<K, V>)
    requires to.Keys <= from.Keys
    ensures to + from == from
  {
  }

  lemma SuccessorRemembers(p: Program, n: Node, split: Instr, e: Edge, open: seq<seq<Instr>>, all: seq<Instr>)
    requires WellFormed(p) && InProgram(p, n) && InRange(p, split) && open != [] && Remembers(n, open, all)
    requires ChildAlong(Successors(p, n, split), e).Some?
    ensures var next := match e case Enter => open + [[]] case Leave => open[..|open| - 1] case _ => open;
            next != [] && Remembers(ChildAlong(Successors(p, n, split), e).value, next, all)
  {
    hide Latest;
    ChildAlongIsChild(Successors(p, n, split), e);
    match split {
      case Call(_, callee, args) =>
        NothingNoted(VARIABLES);
        CallRemembers(p, n, callee, args);
        assert (open + [[]])[..|open|] == open;
      case Return(result) =>
        var caller := n.caller.value;
        ReturnRemembers(p, n, result);
        CallersRememberMore(caller.caller, open[..|open| - 1][..|open| - 2], caller.state, ReturnState(p, n, result));
      case _ =>
    }
  }

  /** A callee starts without variables, but with the names and stores of its caller. */
  lemma CallRemembers(p: Program, n: Node, callee: FunctionId, args: seq<Value>)
    requires callee < |p.functions|
    ensures var s := CallState(p, n, callee, args); s.userVars == map[] && s.llvmVars == n.state.llvmVars && s.stores == n.state.stores
  {
    assert map[] + n.state.llvmVars == n.state.llvmVars && map[] + n.state.stores == n.state.stores;
  }

  /** A resumed caller has its own variables, and the names and stores of its callee. */
  lemma ReturnRemembers(p: Program, n: Node, result: Option<Value>)
    requires n.caller.Some? && n.caller.value.block < |p.blocks|
    requires n.caller.value.state.llvmVars.Keys <= n.state.llvmVars.Keys && n.caller.value.state.stores.Keys <= n.state.stores.Keys
    ensures var s := ReturnState(p, n, result);
            s.userVars == n.caller.value.state.userVars && s.llvmVars == n.state.llvmVars && s.stores == n.state.stores
  {
    Overridden(n.caller.value.state.llvmVars, n.state.llvmVars);
    Overridden(n.caller.value.state.stores, n.state.stores);
  }

  /** On every path, calls and returns included: the user variables are the last declared
      ones of the function's own activation, and names of cells and the last stores are
      those of everything that has run. */
  lemma {:induction false} PathRemembers(p: Program, f: FunctionId, path: seq<Edge>)
    requires WellFormed(p) && f < |p.functions| && NodeAt(p, Root(p, f), path).Some?
    ensures Remembers(NodeAt(p, Root(p, f), path).value, Activations(p, Root(p, f), path), Trace(p, Root(p, f), path))
  {
    hide Remembers, Children, Carried;
    var root := Root(p, f);
    if path == [] {
      RootRemembers(p, f);
    } else {
      var init, e := path[..|path| - 1], path[|path| - 1];
      PathRemembers(p, f, init);
      ChildRemembers(p, NodeAt(p, root, init).value, e, Activations(p, root, init), Trace(p, root, init));
    }
  }

  lemma RootRemembers(p: Program, f: FunctionId)
    requires f < |p.functions|
    ensures Remembers(Root(p, f), [[]], [])
  {
    hide Latest;
    NothingNoted(VARIABLES);
    NothingNoted(NAMES);
    NothingNoted(STORES);
  }

  lemma ChildRemembers(p: Program, n: Node, e: Edge, open: seq<seq<Instr>>, all: seq<Instr>)
    requires WellFormed(p) && InProgram(p, n) && open != [] && Remembers(n, open, all) && ChildAlong(Children(p, n), e).Some?
    ensures var ran := open[..|open| - 1] + [Own(open) + Carried(p, n)];
            var next := match e case Enter => ran + [[]] case Leave => (if |ran| > 1 then ran[..|ran| - 1] else ran) case _ => ran;
            Remembers(ChildAlong(Children(p, n), e).value, next, all + Carried(p, n))
  {
    hide Remembers, Carried, Successors;
    RunRemembers(p, n, open, all);
    var ran := open[..|open| - 1] + [Own(open) + Carried(p, n)];
    SuccessorRemembers(p, Executed(p, n), NodeSegment(p, n).split.value, e, ran, all + Carried(p, n));
  }

  /** So it is for every node an exploration builds, run or not. */
  lemma ExploredRemember(p: Program, solve: Solver, f: FunctionId, order: seq<nat>, i: nat) returns (path: seq<Edge>, own: seq<Instr>, all: seq<Instr>)
    requires WellFormed(p) && f < |p.functions| && i < |Explore(p, solve, f, order).nodes|
    ensures EndsAt(p, f, Explore(p, solve, f, order).nodes[i], path)
    ensures Records(Explore(p, solve, f, order).nodes[i].node.state, own, all)
    ensures var root, t := Root(p, f), Explore(p, solve, f, order).nodes[i];
            var found := NodeAt(p, root, path).value;
            if t.node == found then own == Own(Activations(p, root, path)) && all == Trace(p, root, path)
            else own == Own(Activations(p, root, path)) + Carried(p, found) && all == Trace(p, root, path) + Carried(p, found)
  {
    hide Explore, NodeAt, Activations, Trace, Carried, Latest, CallersRemember, Records, Executed;
    path := EveryNodeHasPath(p, solve, f, order, i);
    var root, t := Root(p, f), Explore(p, solve, f, order).nodes[i];
    var found := NodeAt(p, root, path).value;
    PathRemembers(p, f, path);
    own, all := Own(Activations(p, root, path)), Trace(p, root, path);
    if t.node != found {
      RunRemembers(p, found, Activations(p, root, path), all);
      own, all := own + Carried(p, found), all + Carried(p, found);
    }
  }

  /** What the user sees of a node: under each name its function has declared, the value in
      the cell of the last declaration, which on the run's path is the run's own. */
  lemma VariablesAreShown(p: Program, f: FunctionId, input: Input, path: seq<Edge>, name: string)
    requires WellFormed(p) && Supported(p) && f < |p.functions|
    requires Faithful(p, Root(p, f), path) && NodeAt(p, Root(p, f), path).Some? && Follow(p, Start(p, f, input), path).On?
    ensures var s, own := NodeAt(p, Root(p, f), path).value.state, Own(Activations(p, Root(p, f), path));
            && (name in s.userVars <==> exists i :: 0 <= i < |own| && own[i].Declare? && own[i].name == name)
            && (name in s.userVars ==>
                  exists i :: LastNote(own, VARIABLES, name, i) && s.userVars[name] == Cell(own[i].cell)
                    && CellShown(s, Cell(own[i].cell), Follow(p, Start(p, f, input), path).frame.env, input))
  {
    hide Activations, Faithful, Follow, NodeAt, CallersRemember, Trace, Supported;
    RunIsModelled(p, f, input, path);
    PathRemembers(p, f, path);
    var s, own := NodeAt(p, Root(p, f), path).value.state, Own(Activations(p, Root(p, f), path));
    forall i | 0 <= i < |own|
      ensures Notes(VARIABLES, own[i], name) <==> own[i].Declare? && own[i].name == name
    {
    }
    if name in s.userVars {
      var i :| LastNote(own, VARIABLES, name, i) && s.userVars[name] == VARIABLES(own[i]).value.1;
    }
  }

  /** The cell has a tree exactly when the run has written it, and then the tree evaluates
      to what is there. */
  ghost predicate CellShown(s: State, cell: Value, env: Env, input: Input) {
    Get(s, cell).Some? == (cell in env) && (cell in env ==> Eval(Get(s, cell).value, input) == env[cell])
  }

  // ----- Conditions -----

  /** The constraints a path assumes: the sides of its branches that are neither literal nor
      forced, in order. */
  function Assumed(p: Program, root: Node, path: seq<Edge>): seq<Constraint>
    requires WellFormed(p) && InProgram(p, root)
  {
    if path == [] then []
    else
      var before, e := NodeAt(p, root, path[..|path| - 1]), path[|path| - 1];
      Assumed(p, root, path[..|path| - 1]) + (if before.Some? then AssumedAt(p, before.value, e) else [])
  }

  function AssumedAt(p: Program, n: Node, e: Edge): seq<Constraint>
    requires InProgram(p, n)
  {
    var split, after := NodeSegment(p, n).split, Executed(p, n);
    if split.Some? && split.value.Branch? && e.Taken? then
      var tested := Lookup(after.state, Reg(split.value.cond));
      if IsConstant(tested) || ForcedExit(after) then [] else [Constraint(tested, e.way)]
    else []
  }

  lemma ChildShows(p: Program, n: Node, e: Edge)
    requires WellFormed(p) && InProgram(p, n) && ChildAlong(Children(p, n), e).Some?
    ensures ChildAlong(Children(p, n), e).value.state.conditions == n.state.conditions + AssumedAt(p, n, e)
  {
    SegmentFacts(p.blocks[n.block].instrs, n.ip, n.state);
    ChildAlongIsChild(Children(p, n), e);
  }

  /** The conditions shown for a node are those its path assumes, each once and in order,
      although a return repeats constraints. */
  lemma {:induction false} PathShows(p: Program, f: FunctionId, path: seq<Edge>)
    requires WellFormed(p) && f < |p.functions| && NodeAt(p, Root(p, f), path).Some?
    ensures NodeAt(p, Root(p, f), path).value.state.conditions == Assumed(p, Root(p, f), path)
  {
    hide Children, AssumedAt;
    if path != [] {
      var init, e := path[..|path| - 1], path[|path| - 1];
      PathShows(p, f, init);
      ChildShows(p, NodeAt(p, Root(p, f), init).value, e);
    }
  }

  /** The node shows what constrains it. */
  ghost predicate Shown(n: Node) {
    forall c :: c in n.state.conditions <==> c in n.state.constraints
  }

  lemma ChildrenShow(p: Program, n: Node, i: nat)
    requires WellFormed(p) && InProgram(p, n) && Nested(n) && Shown(n) && i < |Children(p, n)|
    ensures Shown(Children(p, n)[i].node)
  {
    hide RunSegment, BindParams, Bind, Lookup;
    var after := Executed(p, n);
    assert after.state.conditions == n.state.conditions && after.state.constraints == n.state.constraints;
  }

  lemma StepShows(p: Program, solve: Solver, x: Exploration, id: nat, i: nat)
    requires WellFormed(p) && Pending(x, id) && InProgram(p, x.nodes[id].node) && Nested(x.nodes[id].node) && Shown(x.nodes[id].node)
    requires i < |ExecuteNode(p, solve, x, id).nodes| && (i < |x.nodes| ==> Shown(x.nodes[i].node))
    ensures Shown(ExecuteNode(p, solve, x, id).nodes[i].node)
  {
    hide Shown, Children, Nested, NodeSegment, Executed, ChildFeasible, Marked;
    ExecutedShows(p, x.nodes[id].node);
    if i >= |x.nodes| {
      ChildrenShow(p, x.nodes[id].node, i - |x.nodes|);
    }
  }

  /** In every reachable tree a node's shown conditions are exactly its constraints. */
  lemma {:induction false} ExploredShow(p: Program, solve: Solver, f: FunctionId, order: seq<nat>, i: nat)
    requires WellFormed(p) && f < |p.functions| && i < |Explore(p, solve, f, order).nodes|
    ensures Shown(Explore(p, solve, f, order).nodes[i].node)
  {
    hide Shown, ExecuteNode, Nested;
    if order == [] {
      RootShows(p, f);
    } else {
      var init, id := order[..|order| - 1], order[|order| - 1];
      var x := Explore(p, solve, f, init);
      if i < |x.nodes| {
        ExploredShow(p, solve, f, init, i);
      }
      if Pending(x, id) {
        ExecuteKeepsValid(p, solve, x, id);
        assert NodeValid(p, x, id);
        ExploredShow(p, solve, f, init, id);
        StepShows(p, solve, x, id, i);
      }
    }
  }

  lemma ExecutedShows(p: Program, n: Node)
    requires InProgram(p, n) && Shown(n)
    ensures Shown(Executed(p, n))
  {
  }

  lemma RootShows(p: Program, f: FunctionId)
    requires f < |p.functions|
    ensures Shown(Root(p, f))
  {
  }

  // ----- The loop counter -----

  /** The headers jumped back to on a path since its last call or return. */
  function JumpsBack(p: Program, root: Node, path: seq<Edge>): seq<BlockId>
    requires WellFormed(p) && InProgram(p, root)
  {
    if path == [] then []
    else
      var init := path[..|path| - 1];
      var before, after := NodeAt(p, root, init), NodeAt(p, root, path);
      if path[|path| - 1].Enter? || path[|path| - 1].Leave? then []
      else if path[|path| - 1].Goto? && before.Some? && after.Some?
              && p.blocks[after.value.block].line < p.blocks[before.value.block].line
      then JumpsBack(p, root, init) + [after.value.block]
      else JumpsBack(p, root, init)
  }

  lemma ChildCounts(p: Program, n: Node, e: Edge)
    requires WellFormed(p) && InProgram(p, n) && ChildAlong(Children(p, n), e).Some?
    ensures InProgram(p, ChildAlong(Children(p, n), e).value)
    ensures var c := ChildAlong(Children(p, n), e).value;
            if e.Enter? || e.Leave? then c.loop == NO_LOOP
            else if e.Goto? && p.blocks[c.block].line < p.blocks[n.block].line
            then c.loop == LoopInfo(Some(c.block), n.loop.executions + 1)
            else c.loop == n.loop
  {
    hide CallState, ReturnState, BranchState;
    SegmentFacts(p.blocks[n.block].instrs, n.ip, n.state);
    ChildAlongIsChild(Children(p, n), e);
  }

  /** A node's loop counter is the number of jumps back since the last call or return, and
      its header the last one jumped to. */
  lemma {:induction false} PathCounts(p: Program, f: FunctionId, path: seq<Edge>)
    requires WellFormed(p) && f < |p.functions| && NodeAt(p, Root(p, f), path).Some?
    ensures var backs := JumpsBack(p, Root(p, f), path);
            NodeAt(p, Root(p, f), path).value.loop == LoopInfo(if backs == [] then None else Some(backs[|backs| - 1]), |backs|)
  {
    hide Children;
    if path != [] {
      var init, e := path[..|path| - 1], path[|path| - 1];
      PathCounts(p, f, init);
      ChildCounts(p, NodeAt(p, Root(p, f), init).value, e);
    }
  }
}
