/**
  * Binding an untyped data map to a constructor's parameters (createEntity,
  * aptMaterialController.php:661-698). Reflection is replaced by an explicit,
  * ordered list of parameter descriptors.
  */
module ConstructorBinding {
  import opened Wrappers
  import opened Api

  /** A constructor parameter: its name and, when it has one, its default value. */
  datatype Param = Param(name: string, default: Option<Value>)

  /**
    * The outcome of the binding loop: the positional arguments and what is left
    * of the by-reference data map, or the first parameter that could not be bound.
    */
  datatype Binding =
    | Bound(args: seq<Value>, rest: DataMap)
    | MissingParam(name: string)

  /** PHP forbids two parameters of one signature to share a name. */
  ghost predicate DistinctNames(params: seq<Param>) {
    forall i, j :: 0 <= i < j < |params| ==> params[i].name != params[j].name
  }

  function Names(params: seq<Param>): set<string> {
    set p | p in params :: p.name
  }

  /**
    * What one parameter is bound to when the map is `data`: its value when the
    * key exists (`array_key_exists`, so a null value counts), else its default.
    */
  function BoundValue(data: DataMap, p: Param): Option<Value> {
    if p.name in data then Some(data[p.name]) else p.default
  }

  /**
    * The binding loop, one parameter at a time: `args` holds what was already
    * bound, `data` what is left of the map.
    */
  function BindFrom(data: DataMap, args: seq<Value>, params: seq<Param>): Binding
    decreases |params|
  {
    if params == [] then Bound(args, data)
    else
      var p := params[0];
      if p.name in data then BindFrom(data - {p.name}, args + [data[p.name]], params[1..])
      else if p.default.Some? then BindFrom(data, args + [p.default.value], params[1..])
      else MissingParam(p.name)
  }

  /** The binding of a whole parameter list against a fresh data map. */
  function Bind(data: DataMap, params: seq<Param>): Binding {
    BindFrom(data, [], params)
  }

  /** The loop of createEntity (lines 667-686), proved against Bind. */
  method BindParameters(data: DataMap, params: seq<Param>) returns (b: Binding)
    ensures b == Bind(data, params)
  {
    var rest := data;
    var args: seq<Value> := [];
    for i := 0 to |params|
      invariant BindFrom(rest, args, params[i..]) == Bind(data, params)
    {
      var p := params[i];
      assert params[i..][0] == p && params[i..][1..] == params[i + 1..];
      if p.name in rest {
        args := args + [rest[p.name]];
        rest := rest - {p.name};
      } else if p.default.Some? {
        args := args + [p.default.value];
      } else {
        return MissingParam(p.name);
      }
    }
    assert params[|params|..] == [];
    return Bound(args, rest);
  }

  /** Facts about the tail of a parameter list with distinct names. */
  lemma TailOfDistinct(params: seq<Param>)
    requires DistinctNames(params) && params != []
    ensures DistinctNames(params[1..])
    ensures Names(params) == {params[0].name} + Names(params[1..])
    ensures params[0].name !in Names(params[1..])
    ensures forall i :: 0 <= i < |params[1..]| ==> params[1..][i].name != params[0].name
  {
  }

  /** Consuming a parameter's key does not change what the later parameters see. */
  lemma BoundValueAfterConsume(data: DataMap, params: seq<Param>)
    requires DistinctNames(params) && params != []
    ensures forall i :: 0 <= i < |params| - 1 ==>
        BoundValue(data - {params[0].name}, params[1..][i]) == BoundValue(data, params[i + 1])
  {
  }

  /** Binding succeeds iff every parameter has a bound value. */
  lemma {:induction false} BindFromSucceedsIff(data: DataMap, acc: seq<Value>, params: seq<Param>)
    requires DistinctNames(params)
    ensures BindFrom(data, acc, params).Bound?
        <==> forall i :: 0 <= i < |params| ==> BoundValue(data, params[i]).Some?
    decreases |params|
  {
    if params != [] {
      var p, tail := params[0], params[1..];
      if p.name in data || p.default.Some? {
        TailOfDistinct(params);
        BoundValueAfterConsume(data, params);
        var data' := if p.name in data then data - {p.name} else data;
        BindFromSucceedsIff(data', acc + [BoundValue(data, p).value], tail);
        assert forall i :: 0 <= i < |tail| ==> BoundValue(data', tail[i]) == BoundValue(data, params[i + 1]);
        if !BindFrom(data, acc, params).Bound? {
          var i :| 0 <= i < |tail| && BoundValue(data', tail[i]).None?;
          assert BoundValue(data, params[i + 1]).None?;
        }
      } else {
        assert BoundValue(data, params[0]).None?;
      }
    }
  }

  /**
    * On success: one argument per parameter, appended after `acc` in
    * declaration order, and exactly the parameters' keys removed from the map.
    */
  lemma {:induction false} BindFromBound(data: DataMap, acc: seq<Value>, params: seq<Param>)
    requires DistinctNames(params)
    requires BindFrom(data, acc, params).Bound?
    ensures |BindFrom(data, acc, params).args| == |acc| + |params|
    ensures BindFrom(data, acc, params).args[..|acc|] == acc
    ensures forall i :: 0 <= i < |params| ==>
        BoundValue(data, params[i]) == Some(BindFrom(data, acc, params).args[|acc| + i])
    ensures BindFrom(data, acc, params).rest == data - Names(params)
    decreases |params|
  {
    if params == [] {
      assert Names(params) == {};
    } else {
      var p, tail := params[0], params[1..];
      TailOfDistinct(params);
      BoundValueAfterConsume(data, params);
      var data', acc' := if p.name in data then data - {p.name} else data, acc + [BoundValue(data, p).value];
      BindFromBound(data', acc', tail);
      var b := BindFrom(data', acc', tail);
      assert b.args[..|acc'|] == acc';
      assert b.args[..|acc|] == acc'[..|acc|];
      assert b.args[|acc|] == acc'[|acc|];
      forall i | 0 <= i < |params| ensures BoundValue(data, params[i]) == Some(b.args[|acc| + i]) {
        if i > 0 {
          assert BoundValue(data', tail[i - 1]) == Some(b.args[|acc'| + (i - 1)]);
        }
      }
    }
  }

  /**
    * On failure the reported parameter is the first one with neither a key in
    * the map nor a default.
    */
  lemma {:induction false} BindFromMissing(data: DataMap, acc: seq<Value>, params: seq<Param>)
    requires DistinctNames(params)
    requires BindFrom(data, acc, params).MissingParam?
    ensures exists i :: (0 <= i < |params|
        && BindFrom(data, acc, params).name == params[i].name
        && BoundValue(data, params[i]).None?
        && forall j :: 0 <= j < i ==> BoundValue(data, params[j]).Some?)
    decreases |params|
  {
    var p, tail := params[0], params[1..];
    if p.name !in data && p.default.None? {
      assert BoundValue(data, params[0]).None?;
    } else {
      TailOfDistinct(params);
      BoundValueAfterConsume(data, params);
      var data' := if p.name in data then data - {p.name} else data;
      var acc' := acc + [BoundValue(data, p).value];
      BindFromMissing(data', acc', tail);
      var i :| 0 <= i < |tail| && BindFrom(data', acc', tail).name == tail[i].name
               && BoundValue(data', tail[i]).None?
               && forall j :: 0 <= j < i ==> BoundValue(data', tail[j]).Some?;
      assert params[i + 1] == tail[i];
      forall j | 0 <= j < i + 1 ensures BoundValue(data, params[j]).Some? {
        if j > 0 { assert BoundValue(data', tail[j - 1]).Some?; }
      }
    }
  }

  /**
    * Binding succeeds exactly when every parameter is either a key of the map
    * (whatever its value, null included) or has a default.
    */
  lemma BindSucceedsIff(data: DataMap, params: seq<Param>)
    requires DistinctNames(params)
    ensures Bind(data, params).Bound?
        <==> forall i :: 0 <= i < |params| ==> params[i].name in data || params[i].default.Some?
  {
    BindFromSucceedsIff(data, [], params);
  }

  /**
    * On success, exactly one argument per parameter in declaration order: the
    * map's value when the key exists, else the parameter's default.
    */
  lemma BindOneArgumentPerParameter(data: DataMap, params: seq<Param>)
    requires DistinctNames(params)
    requires Bind(data, params).Bound?
    ensures |Bind(data, params).args| == |params|
    ensures forall i :: 0 <= i < |params| && params[i].name in data ==>
        Bind(data, params).args[i] == data[params[i].name]
    ensures forall i :: 0 <= i < |params| && params[i].name !in data ==>
        params[i].default == Some(Bind(data, params).args[i])
  {
    BindFromBound(data, [], params);
    var b := Bind(data, params);
    forall i | 0 <= i < |params| ensures BoundValue(data, params[i]) == Some(b.args[i]) {
      assert BoundValue(data, params[i]) == Some(b.args[0 + i]);
    }
  }

  /**
    * On success the consumed keys, and only those, leave the map: a key that
    * names a parameter is removed, every other key keeps its value for the
    * setter pass.
    */
  lemma BindConsumesExactlyParameterKeys(data: DataMap, params: seq<Param>)
    requires DistinctNames(params)
    requires Bind(data, params).Bound?
    ensures Bind(data, params).rest.Keys == data.Keys - Names(params)
    ensures forall k :: k in data && k !in Names(params) ==> Bind(data, params).rest[k] == data[k]
  {
    BindFromBound(data, [], params);
  }

  /**
    * On failure the reported parameter is the first, in declaration order, that
    * is neither a key of the map nor has a default.
    */
  lemma BindReportsFirstMissing(data: DataMap, params: seq<Param>)
    requires DistinctNames(params)
    requires Bind(data, params).MissingParam?
    ensures exists i :: (0 <= i < |params|
        && params[i].name == Bind(data, params).name
        && params[i].name !in data && params[i].default.None?
        && forall j :: 0 <= j < i ==> params[j].name in data || params[j].default.Some?)
  {
    BindFromMissing(data, [], params);
    var i :| 0 <= i < |params| && Bind(data, params).name == params[i].name
             && BoundValue(data, params[i]).None?
             && forall j :: 0 <= j < i ==> BoundValue(data, params[j]).Some?;
    assert forall j :: 0 <= j < i ==> params[j].name in data || params[j].default.Some?;
  }
}
