/** The mutable program state of a symbolic path. */
module ProgramStates {
  import opened Wrappers
  import opened Program
  import opened ExpressionTree
  import opened Symbolic

  class ProgramState {
    var env: map<Value, Tree>
    var userVars: map<string, Value>
    var llvmVars: map<Value, string>
    var stores: map<Value, Value>
    var constraints: seq<Constraint>
    var conditions: seq<Constraint>

    function Abs(): State
      reads this
    {
      State(env, userVars, llvmVars, stores, constraints, conditions)
    }

    constructor ()
      ensures Abs() == EMPTY_STATE
    {
      env, userVars, llvmVars, stores, constraints, conditions := map[], map[], map[], map[], [], [];
    }

    /** The state a function starts in, given the trees of its arguments. */
    constructor FromParams(params: seq<nat>, args: seq<Option<Tree>>)
      ensures Abs() == EMPTY_STATE.(env := BindParams(params, args))
    {
      env, userVars, llvmVars, stores, constraints, conditions := map[], map[], map[], map[], [], [];
      new;
      var i := 0;
      for k := 0 to |params|
        invariant i == if k < |args| then k else |args|
        invariant Abs() == EMPTY_STATE.(env := BindParams(params[..k], args))
      {
        assert params[..k + 1][..k] == params[..k];
        if i >= |args| {
          Add(Reg(params[k]), Some(Leaf(Some(Reg(params[k])))));
        } else {
          Add(Reg(params[k]), args[i]);
          i := i + 1;
        }
      }
      assert params[..|params|] == params;
    }

    constructor CopyOf(p: ProgramState)
      ensures Abs() == p.Abs()
    {
      env, userVars, llvmVars, stores, constraints, conditions := map[], map[], map[], map[], [], [];
      new;
      Copy(p, this, true);
      CopyIntoEmpty(p.Abs());
    }

    /** Merges one state into another: values and user variables only on request, names
        and stores always, constraints appended, the shown condition replaced. */
    static method Copy(from: ProgramState, to: ProgramState, copyMap: bool)
      requires from != to
      modifies to
      ensures to.Abs() == CopyInto(from.Abs(), old(to.Abs()), copyMap)
    {
      if copyMap {
        to.env := Merged(from.env, to.env);
        to.userVars := Merged(from.userVars, to.userVars);
      }
      to.llvmVars := Merged(from.llvmVars, to.llvmVars);
      to.stores := Merged(from.stores, to.stores);
      to.constraints := Appended(from.constraints, to.constraints);
      to.conditions := from.conditions;
    }

    /** Copies a map entry by entry over another. */
    static method Merged<K, V>(from: map<K, V>, to: map<K, V>) returns (merged: map<K, V>)
      ensures merged == to + from
    {
      merged := to;
      var keys := from.Keys;
      while keys != {}
        invariant keys <= from.Keys
        invariant merged == to + (map k | k in from.Keys - keys :: from[k])
        decreases keys
      {
        var k :| k in keys;
        merged := merged[k := from[k]];
        keys := keys - {k};
      }
    }

    /** Copies a list entry by entry behind another. */
    static method Appended<T>(from: seq<T>, to: seq<T>) returns (all: seq<T>)
      ensures all == to + from
    {
      all := to;
      for i := 0 to |from|
        invariant all == to + from[..i]
      {
        all := all + [from[i]];
      }
    }

    /** Binds a value; an absent tree makes later lookups find nothing. */
    method Add(v: Value, t: Option<Tree>)
      modifies this`env
      ensures env == Bind(old(env), v, t)
    {
      env := if t.Some? then env[v := t.value] else env - {v};
    }

    method AddUserVar(name: string, v: Value)
      modifies this`userVars, this`llvmVars
      ensures userVars == old(userVars)[name := v] && llvmVars == old(llvmVars)[v := name]
    {
      userVars := userVars[name := v];
      llvmVars := llvmVars[v := name];
    }

    /** Remembers the address a value was last stored to. */
    method AddStore(v: Value, address: Value)
      modifies this`stores
      ensures stores == old(stores)[v := address]
    {
      stores := stores[v := address];
    }

    method AddCondition(c: Constraint)
      modifies this`conditions
      ensures conditions == old(conditions) + [c]
    {
      conditions := conditions + [c];
    }

    method Lookup(v: Value) returns (t: Option<Tree>)
      ensures t == Get(Abs(), v)
    {
      t := if v in env then Some(env[v]) else None;
    }
  }
}
