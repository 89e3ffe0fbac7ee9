/**
  * Reference pre-processing (entityCreateHelper, aptMaterialController.php:643-659):
  * fields of the request data that carry the external id of another entity are
  * replaced, in place, by the entity itself, possibly under a new name.
  */
module ReferenceResolution {
  import opened Wrappers
  import opened Api

  /**
    * The rule for one field. `NonArray` is a rule that is not a PHP array (it is
    * skipped); `ArrayRule` carries the `entityType` and `newName` entries, `None`
    * when absent or null.
    */
  datatype Rule = NonArray | ArrayRule(entityType: Option<string>, newName: Option<string>)

  /** One entry of the rule table, keyed by field name. */
  datatype FieldRule = FieldRule(field: string, rule: Rule)

  /**
    * The repositories' `byUuid`, as a partial map from (abstract type name,
    * external id) to the entity found.
    */
  type Repository = map<(string, Value), EntityId>

  /**
    * The helper's outcome: the rewritten data map and the map of resolved
    * entities it returns, or the field whose id the repository did not resolve.
    */
  datatype Resolution =
    | Resolved(data: DataMap, ret: DataMap)
    | Unresolved(field: string, entityType: string)

  /** `isset($data[$field])`: the key exists and its value is not null. */
  predicate IsSet(data: DataMap, field: string) {
    field in data && data[field] != Null
  }

  /** The helper acts on a rule that is an array with an entityType, whose field is set. */
  predicate Applies(fr: FieldRule, data: DataMap) {
    fr.rule.ArrayRule? && fr.rule.entityType.Some? && IsSet(data, fr.field)
  }

  /** The key under which a rule stores the resolved entity: newName, else the field. */
  function Target(fr: FieldRule): string {
    if fr.rule.ArrayRule? then fr.rule.newName.GetOr(fr.field) else fr.field
  }

  /**
    * `unset($data[$field]); $data[$newName] = $val;` — the original key is gone
    * unless it is the new name, the new name holds the entity, every other key
    * is untouched.
    */
  function Rename(data: DataMap, field: string, newName: string, val: Value): (d: DataMap)
    ensures newName in d && d[newName] == val
    ensures field != newName ==> field !in d
    ensures forall k :: k != field && k != newName ==> (k in d <==> k in data)
    ensures forall k :: k in data && k != field && k != newName ==> d[k] == data[k]
  {
    (data - {field})[newName := val]
  }

  /** The helper's loop over the remaining rules, with `ret` the map built so far. */
  function ResolveFrom(data: DataMap, ret: DataMap, rules: seq<FieldRule>, repo: Repository): Resolution
    decreases |rules|
  {
    if rules == [] then Resolved(data, ret)
    else
      var fr := rules[0];
      if !Applies(fr, data) then ResolveFrom(data, ret, rules[1..], repo)
      else
        var key := (fr.rule.entityType.value, data[fr.field]);
        if key !in repo then Unresolved(fr.field, fr.rule.entityType.value)
        else
          var val := Ref(repo[key]);
          ResolveFrom(Rename(data, fr.field, Target(fr), val), ret[Target(fr) := val], rules[1..], repo)
  }

  /** The whole helper: rules in table order, starting from an empty result map. */
  function Resolve(data: DataMap, rules: seq<FieldRule>, repo: Repository): Resolution {
    ResolveFrom(data, map[], rules, repo)
  }

  /**
    * entityCreateHelper's loop, proved against Resolve. The by-reference
    * `$data` is returned as the `data` of the outcome.
    */
  method EntityCreateHelper(data: DataMap, rules: seq<FieldRule>, repo: Repository) returns (r: Resolution)
    ensures r == Resolve(data, rules, repo)
  {
    var d := data;
    var ret: DataMap := map[];
    for i := 0 to |rules|
      invariant ResolveFrom(d, ret, rules[i..], repo) == Resolve(data, rules, repo)
    {
      var fr := rules[i];
      assert rules[i..][0] == fr && rules[i..][1..] == rules[i + 1..];
      if fr.rule.ArrayRule? && IsSet(d, fr.field) && fr.rule.entityType.Some? {
        var fieldType := fr.rule.entityType.value;
        var newName := if fr.rule.newName.Some? then fr.rule.newName.value else fr.field;
        if (fieldType, d[fr.field]) !in repo {
          return Unresolved(fr.field, fieldType);
        }
        var val := Ref(repo[(fieldType, d[fr.field])]);
        ret := ret[newName := val];
        d := d - {fr.field};
        d := d[newName := val];
      }
    }
    assert rules[|rules|..] == [];
    return Resolved(d, ret);
  }

  /** The names a rule table can write: the target of every rule. */
  function Targets(rules: seq<FieldRule>): set<string> {
    set fr | fr in rules :: Target(fr)
  }

  /** The field names of a rule table. */
  function Fields(rules: seq<FieldRule>): set<string> {
    set fr | fr in rules :: fr.field
  }

  /**
    * A key that is neither a rule's field nor a rule's target keeps its
    * presence and value in the data, and the helper never returns it.
    */
  lemma {:induction false} ResolveFromFrame(data: DataMap, ret: DataMap, rules: seq<FieldRule>, repo: Repository, k: string)
    requires k !in Fields(rules) && k !in Targets(rules)
    requires ResolveFrom(data, ret, rules, repo).Resolved?
    ensures var r := ResolveFrom(data, ret, rules, repo);
      && (k in r.data <==> k in data)
      && (k in data ==> r.data[k] == data[k])
      && (k in r.ret <==> k in ret)
      && (k in ret ==> r.ret[k] == ret[k])
    decreases |rules|
  {
    if rules != [] {
      var fr := rules[0];
      assert fr in rules;
      assert Fields(rules[1..]) <= Fields(rules) && Targets(rules[1..]) <= Targets(rules) by {
        forall g | g in rules[1..] ensures g in rules { }
      }
      if !Applies(fr, data) {
        ResolveFromFrame(data, ret, rules[1..], repo, k);
      } else {
        var val := Ref(repo[(fr.rule.entityType.value, data[fr.field])]);
        ResolveFromFrame(Rename(data, fr.field, Target(fr), val), ret[Target(fr) := val], rules[1..], repo, k);
      }
    }
  }

  /** The frame of the whole helper: untouched keys stay, and are not returned. */
  lemma ResolveLeavesOtherKeys(data: DataMap, rules: seq<FieldRule>, repo: Repository, k: string)
    requires k !in Fields(rules) && k !in Targets(rules)
    requires Resolve(data, rules, repo).Resolved?
    ensures k in Resolve(data, rules, repo).data <==> k in data
    ensures k in data ==> Resolve(data, rules, repo).data[k] == data[k]
    ensures k !in Resolve(data, rules, repo).ret
  {
    ResolveFromFrame(data, map[], rules, repo, k);
  }

  /** Every key the helper returns is the target of one of its rules. */
  lemma {:induction false} ResolveFromRetKeys(data: DataMap, ret: DataMap, rules: seq<FieldRule>, repo: Repository)
    requires ResolveFrom(data, ret, rules, repo).Resolved?
    ensures ResolveFrom(data, ret, rules, repo).ret.Keys <= ret.Keys + Targets(rules)
    decreases |rules|
  {
    if rules != [] {
      var fr := rules[0];
      assert fr in rules;
      assert Targets(rules[1..]) <= Targets(rules) by {
        forall g | g in rules[1..] ensures g in rules { }
      }
      if !Applies(fr, data) {
        ResolveFromRetKeys(data, ret, rules[1..], repo);
      } else {
        var val := Ref(repo[(fr.rule.entityType.value, data[fr.field])]);
        ResolveFromRetKeys(Rename(data, fr.field, Target(fr), val), ret[Target(fr) := val], rules[1..], repo);
      }
    }
  }

  /**
    * When no rule applies to the data (every rule is no array, has no
    * entityType, or its field is absent or null), the data is left untouched
    * and nothing is returned.
    */
  lemma {:induction false} ResolveSkipsUnsetFields(data: DataMap, ret: DataMap, rules: seq<FieldRule>, repo: Repository)
    requires forall i :: 0 <= i < |rules| ==> !Applies(rules[i], data)
    ensures ResolveFrom(data, ret, rules, repo) == Resolved(data, ret)
    decreases |rules|
  {
    if rules != [] {
      assert !Applies(rules[0], data);
      assert forall i :: 0 <= i < |rules[1..]| ==> rules[1..][i] == rules[i + 1];
      ResolveSkipsUnsetFields(data, ret, rules[1..], repo);
    }
  }

  /**
    * No rule reads a field that an earlier rule wrote: `rules[j].field` is not
    * the target of any `rules[i]` with i < j.
    */
  ghost predicate NoChaining(rules: seq<FieldRule>) {
    forall i, j :: 0 <= i < j < |rules| ==> rules[j].field != Target(rules[i])
  }

  /**
    * Without chained rules, every resolved entity the helper returns is also in
    * the rewritten data under the same key, so the setter pass sees it.
    */
  lemma {:induction false} ResolveFromRetInData(data: DataMap, ret: DataMap, rules: seq<FieldRule>, repo: Repository, written: set<string>)
    requires forall k :: k in ret ==> k in data && data[k] == ret[k]
    requires ret.Keys <= written
    requires forall j :: 0 <= j < |rules| ==> rules[j].field !in written
    requires NoChaining(rules)
    requires ResolveFrom(data, ret, rules, repo).Resolved?
    ensures var r := ResolveFrom(data, ret, rules, repo);
      forall k :: k in r.ret ==> k in r.data && r.data[k] == r.ret[k]
    decreases |rules|
  {
    if rules != [] {
      var fr, tail := rules[0], rules[1..];
      assert NoChaining(tail) by {
        forall i, j | 0 <= i < j < |tail| ensures tail[j].field != Target(tail[i]) {
          assert tail[i] == rules[i + 1] && tail[j] == rules[j + 1];
        }
      }
      var written' := written + {Target(fr)};
      assert forall j :: 0 <= j < |tail| ==> tail[j].field !in written' by {
        forall j | 0 <= j < |tail| ensures tail[j].field !in written' {
          assert tail[j] == rules[j + 1];
        }
      }
      if !Applies(fr, data) {
        ResolveFromRetInData(data, ret, tail, repo, written');
      } else {
        var val := Ref(repo[(fr.rule.entityType.value, data[fr.field])]);
        assert fr.field !in ret;
        ResolveFromRetInData(Rename(data, fr.field, Target(fr), val), ret[Target(fr) := val], tail, repo, written');
      }
    }
  }

  /** The helper's returned map agrees with its rewritten data, for unchained rules. */
  lemma ResolveRetInData(data: DataMap, rules: seq<FieldRule>, repo: Repository)
    requires NoChaining(rules)
    requires Resolve(data, rules, repo).Resolved?
    ensures forall k :: k in Resolve(data, rules, repo).ret ==>
        k in Resolve(data, rules, repo).data && Resolve(data, rules, repo).data[k] == Resolve(data, rules, repo).ret[k]
  {
    ResolveFromRetInData(data, map[], rules, repo, {});
  }

  /** PHP array keys are unique, so a rule table names each field once. */
  ghost predicate DistinctFields(rules: seq<FieldRule>) {
    forall i, j :: 0 <= i < j < |rules| ==> rules[i].field != rules[j].field
  }

  /** No two rules store their entity under the same name. */
  ghost predicate DistinctTargets(rules: seq<FieldRule>) {
    forall i, j :: 0 <= i < j < |rules| ==> Target(rules[i]) != Target(rules[j])
  }

  /** A rule that applies to the data but whose id the repository does not know. */
  predicate Misses(fr: FieldRule, data: DataMap, repo: Repository) {
    Applies(fr, data) && (fr.rule.entityType.value, data[fr.field]) !in repo
  }

  /** The data once one rule that does not miss has been processed. */
  function AfterRule(data: DataMap, fr: FieldRule, repo: Repository): DataMap
    requires !Misses(fr, data, repo)
  {
    if Applies(fr, data) then Rename(data, fr.field, Target(fr), Ref(repo[(fr.rule.entityType.value, data[fr.field])]))
    else data
  }

  /** The returned map once one rule that does not miss has been processed. */
  function RetAfterRule(data: DataMap, ret: DataMap, fr: FieldRule, repo: Repository): DataMap
    requires !Misses(fr, data, repo)
  {
    if Applies(fr, data) then ret[Target(fr) := Ref(repo[(fr.rule.entityType.value, data[fr.field])])]
    else ret
  }

  /** The table conditions carry over to the rules after the first. */
  lemma TailOfTable(rules: seq<FieldRule>)
    requires rules != []
    ensures DistinctFields(rules) ==> DistinctFields(rules[1..])
    ensures DistinctTargets(rules) ==> DistinctTargets(rules[1..])
    ensures NoChaining(rules) ==> NoChaining(rules[1..])
    ensures Targets(rules[1..]) <= Targets(rules) && Fields(rules[1..]) <= Fields(rules)
    ensures forall k :: 0 <= k < |rules[1..]| ==> rules[1..][k] == rules[k + 1]
  {
    forall g | g in rules[1..] ensures g in rules { }
  }

  /**
    * Processing the first rule of a table with distinct fields and no chaining
    * does not change what any later rule sees of its own field.
    */
  lemma FirstRuleKeepsLaterFields(data: DataMap, rules: seq<FieldRule>, repo: Repository)
    requires rules != [] && DistinctFields(rules) && NoChaining(rules)
    requires !Misses(rules[0], data, repo)
    ensures forall k :: 1 <= k < |rules| ==>
      && (rules[k].field in AfterRule(data, rules[0], repo) <==> rules[k].field in data)
      && (rules[k].field in data ==> AfterRule(data, rules[0], repo)[rules[k].field] == data[rules[k].field])
      && (Applies(rules[k], AfterRule(data, rules[0], repo)) <==> Applies(rules[k], data))
      && (Misses(rules[k], AfterRule(data, rules[0], repo), repo) <==> Misses(rules[k], data, repo))
  {
    forall k | 1 <= k < |rules|
      ensures rules[k].field != rules[0].field && rules[k].field != Target(rules[0])
    {
    }
  }

  /**
    * For a table with distinct fields and no chaining, the helper fails iff
    * some rule applies to the data and its id is unknown to the repository;
    * the error names the first such rule's field and entity type.
    */
  lemma {:induction false} ResolveFromFailsIffMiss(data: DataMap, ret: DataMap, rules: seq<FieldRule>, repo: Repository)
    requires DistinctFields(rules) && NoChaining(rules)
    ensures ResolveFrom(data, ret, rules, repo).Unresolved?
        <==> exists i :: 0 <= i < |rules| && Misses(rules[i], data, repo)
    ensures ResolveFrom(data, ret, rules, repo).Unresolved? ==>
        exists i :: (0 <= i < |rules| && Misses(rules[i], data, repo)
          && rules[i].field == ResolveFrom(data, ret, rules, repo).field
          && rules[i].rule.entityType == Some(ResolveFrom(data, ret, rules, repo).entityType)
          && forall j :: 0 <= j < i ==> !Misses(rules[j], data, repo))
    decreases |rules|
  {
    if rules != [] {
      var fr, tail := rules[0], rules[1..];
      if Misses(fr, data, repo) {
        assert Misses(rules[0], data, repo);
      } else {
        var d, t := AfterRule(data, fr, repo), RetAfterRule(data, ret, fr, repo);
        assert ResolveFrom(data, ret, rules, repo) == ResolveFrom(d, t, tail, repo);
        TailOfTable(rules);
        FirstRuleKeepsLaterFields(data, rules, repo);
        ResolveFromFailsIffMiss(d, t, tail, repo);
        if ResolveFrom(d, t, tail, repo).Unresolved? {
          var i :| 0 <= i < |tail| && Misses(tail[i], d, repo)
                   && tail[i].field == ResolveFrom(d, t, tail, repo).field
                   && tail[i].rule.entityType == Some(ResolveFrom(d, t, tail, repo).entityType)
                   && forall j :: 0 <= j < i ==> !Misses(tail[j], d, repo);
          assert Misses(rules[i + 1], data, repo);
          forall j | 0 <= j < i + 1 ensures !Misses(rules[j], data, repo) {
            if j > 0 { assert !Misses(tail[j - 1], d, repo); }
          }
        } else {
          forall i | 0 <= i < |rules| ensures !Misses(rules[i], data, repo) {
            if i > 0 { assert !Misses(tail[i - 1], d, repo); }
          }
        }
      }
    }
  }

  /** The failure condition of the whole helper, for a table with distinct fields and no chaining. */
  lemma ResolveFailsIffMiss(data: DataMap, rules: seq<FieldRule>, repo: Repository)
    requires DistinctFields(rules) && NoChaining(rules)
    ensures Resolve(data, rules, repo).Unresolved?
        <==> exists i :: 0 <= i < |rules| && Misses(rules[i], data, repo)
    ensures Resolve(data, rules, repo).Unresolved? ==>
        exists i :: (0 <= i < |rules| && Misses(rules[i], data, repo)
          && rules[i].field == Resolve(data, rules, repo).field
          && rules[i].rule.entityType == Some(Resolve(data, rules, repo).entityType)
          && forall j :: 0 <= j < i ==> !Misses(rules[j], data, repo))
  {
    ResolveFromFailsIffMiss(data, map[], rules, repo);
  }

  /** Key `k` has a different presence or value in `b` than in `a`. */
  ghost predicate Changed(a: DataMap, b: DataMap, k: string) {
    (k in a) != (k in b) || (k in a && k in b && a[k] != b[k])
  }

  /** Key `k` is the field or the target of a rule that applies to `data`. */
  ghost predicate TouchedByApplied(rules: seq<FieldRule>, data: DataMap, k: string) {
    exists i :: 0 <= i < |rules| && Applies(rules[i], data) && (k == rules[i].field || k == Target(rules[i]))
  }

  /** Key `k` is the target of a rule that applies to `data`. */
  ghost predicate WrittenByApplied(rules: seq<FieldRule>, data: DataMap, k: string) {
    exists i :: 0 <= i < |rules| && Applies(rules[i], data) && k == Target(rules[i])
  }

  /**
    * For a table with distinct fields and no chaining, a rule that does not
    * apply writes nothing, whatever the other rules do: every key whose
    * presence or value differs in the rewritten data is the field or the
    * target of an applying rule, and every key the returned map gains or
    * changes is the target of an applying rule. An absent or null field of a
    * skipped rule therefore keeps its state unless an applying rule writes it.
    */
  lemma {:induction false} ResolveFromWritesOnlyApplied(data: DataMap, ret: DataMap, rules: seq<FieldRule>, repo: Repository)
    requires DistinctFields(rules) && NoChaining(rules)
    requires ResolveFrom(data, ret, rules, repo).Resolved?
    ensures forall k :: Changed(data, ResolveFrom(data, ret, rules, repo).data, k) ==> TouchedByApplied(rules, data, k)
    ensures forall k :: Changed(ret, ResolveFrom(data, ret, rules, repo).ret, k) ==> WrittenByApplied(rules, data, k)
    decreases |rules|
  {
    if rules != [] {
      var fr, tail := rules[0], rules[1..];
      TailOfTable(rules);
      if Misses(fr, data, repo) {
        assert false;
      }
      var d, t := AfterRule(data, fr, repo), RetAfterRule(data, ret, fr, repo);
      assert ResolveFrom(data, ret, rules, repo) == ResolveFrom(d, t, tail, repo);
      var r := ResolveFrom(d, t, tail, repo);
      FirstRuleKeepsLaterFields(data, rules, repo);
      ResolveFromWritesOnlyApplied(d, t, tail, repo);
      forall k | Changed(data, r.data, k) ensures TouchedByApplied(rules, data, k) {
        if Changed(d, r.data, k) {
          var i :| 0 <= i < |tail| && Applies(tail[i], d) && (k == tail[i].field || k == Target(tail[i]));
          assert Applies(rules[i + 1], data);
        } else {
          assert Changed(data, d, k);
          assert Applies(rules[0], data) && (k == rules[0].field || k == Target(rules[0]));
        }
      }
      forall k | Changed(ret, r.ret, k) ensures WrittenByApplied(rules, data, k) {
        if Changed(t, r.ret, k) {
          var i :| 0 <= i < |tail| && Applies(tail[i], d) && k == Target(tail[i]);
          assert Applies(rules[i + 1], data);
        } else {
          assert Changed(ret, t, k);
          assert Applies(rules[0], data) && k == Target(rules[0]);
        }
      }
    }
  }

  /** The helper's writes, from an empty result map: only applying rules leave a trace. */
  lemma ResolveWritesOnlyApplied(data: DataMap, rules: seq<FieldRule>, repo: Repository)
    requires DistinctFields(rules) && NoChaining(rules)
    requires Resolve(data, rules, repo).Resolved?
    ensures forall k :: Changed(data, Resolve(data, rules, repo).data, k) ==> TouchedByApplied(rules, data, k)
    ensures forall k :: k in Resolve(data, rules, repo).ret ==> WrittenByApplied(rules, data, k)
  {
    ResolveFromWritesOnlyApplied(data, map[], rules, repo);
    forall k | k in Resolve(data, rules, repo).ret ensures WrittenByApplied(rules, data, k) {
      assert Changed(map[], Resolve(data, rules, repo).ret, k);
    }
  }

  /**
    * A key that no applying rule writes is not written by the later rules
    * either, once the first rule has been processed.
    */
  lemma NotWrittenByTail(data: DataMap, rules: seq<FieldRule>, repo: Repository, k: string)
    requires rules != [] && DistinctFields(rules) && NoChaining(rules)
    requires !Misses(rules[0], data, repo)
    requires !WrittenByApplied(rules, data, k)
    ensures !WrittenByApplied(rules[1..], AfterRule(data, rules[0], repo), k)
  {
    FirstRuleKeepsLaterFields(data, rules, repo);
    TailOfTable(rules);
  }

  /**
    * For a table with distinct fields and no chaining, a key absent from the
    * data stays absent unless a rule that applies stores its entity under it.
    */
  lemma {:induction false} ResolveFromKeepsAbsentUnlessApplied(data: DataMap, ret: DataMap, rules: seq<FieldRule>,
                                                               repo: Repository, k: string)
    requires DistinctFields(rules) && NoChaining(rules)
    requires ResolveFrom(data, ret, rules, repo).Resolved?
    requires k !in data && !WrittenByApplied(rules, data, k)
    ensures k !in ResolveFrom(data, ret, rules, repo).data
    decreases |rules|
  {
    if rules != [] {
      var fr := rules[0];
      TailOfTable(rules);
      if Misses(fr, data, repo) {
        assert false;
      }
      if Applies(fr, data) {
        assert k != Target(rules[0]);
      }
      NotWrittenByTail(data, rules, repo, k);
      ResolveFromKeepsAbsentUnlessApplied(AfterRule(data, fr, repo), RetAfterRule(data, ret, fr, repo), rules[1..], repo, k);
    }
  }

  /** A key no rule writes and absent from the data stays absent. */
  lemma {:induction false} ResolveFromKeepsAbsent(data: DataMap, ret: DataMap, rules: seq<FieldRule>, repo: Repository, k: string)
    requires k !in Targets(rules) && k !in data
    requires ResolveFrom(data, ret, rules, repo).Resolved?
    ensures k !in ResolveFrom(data, ret, rules, repo).data
    decreases |rules|
  {
    if rules != [] {
      var fr := rules[0];
      assert fr in rules;
      TailOfTable(rules);
      ResolveFromKeepsAbsent(AfterRule(data, fr, repo), RetAfterRule(data, ret, fr, repo), rules[1..], repo, k);
    }
  }

  /**
    * For a table with distinct fields, distinct targets and no chaining that
    * the helper resolves: each rule that applies to the data had its id found
    * by the repository, and the entity found is stored under the rule's new
    * name both in the returned map and in the data; the original field is gone
    * from the data unless some rule writes it.
    */
  lemma {:induction false} ResolveFromStoresEntity(data: DataMap, ret: DataMap, rules: seq<FieldRule>, repo: Repository, i: int)
    requires DistinctFields(rules) && DistinctTargets(rules) && NoChaining(rules)
    requires ResolveFrom(data, ret, rules, repo).Resolved?
    requires 0 <= i < |rules| && Applies(rules[i], data)
    ensures (rules[i].rule.entityType.value, data[rules[i].field]) in repo
    ensures var r := ResolveFrom(data, ret, rules, repo);
      var val := Ref(repo[(rules[i].rule.entityType.value, data[rules[i].field])]);
      && Target(rules[i]) in r.ret && r.ret[Target(rules[i])] == val
      && Target(rules[i]) in r.data && r.data[Target(rules[i])] == val
      && (!WrittenByApplied(rules, data, rules[i].field) ==> rules[i].field !in r.data)
    decreases |rules|
  {
    var fr, tail := rules[0], rules[1..];
    TailOfTable(rules);
    if Misses(fr, data, repo) {
      assert false;
    }
    var d, t := AfterRule(data, fr, repo), RetAfterRule(data, ret, fr, repo);
    assert ResolveFrom(data, ret, rules, repo) == ResolveFrom(d, t, tail, repo);
    if i == 0 {
      var target := Target(fr);
      assert target !in Targets(tail) && target !in Fields(tail);
      ResolveFromFrame(d, t, tail, repo, target);
      if !WrittenByApplied(rules, data, fr.field) {
        assert fr.field != target by {
          assert Applies(rules[0], data) && Target(rules[0]) == target;
        }
        FirstRuleKeepsLaterFields(data, rules, repo);
        NotWrittenByTail(data, rules, repo, fr.field);
        ResolveFromKeepsAbsentUnlessApplied(d, t, tail, repo, fr.field);
      }
    } else {
      FirstRuleKeepsLaterFields(data, rules, repo);
      assert tail[i - 1] == rules[i];
      if !WrittenByApplied(rules, data, rules[i].field) {
        NotWrittenByTail(data, rules, repo, rules[i].field);
      }
      ResolveFromStoresEntity(d, t, tail, repo, i - 1);
    }
  }

  /** The helper's main promise, from an empty result map. */
  lemma ResolveStoresEntity(data: DataMap, rules: seq<FieldRule>, repo: Repository, i: int)
    requires DistinctFields(rules) && DistinctTargets(rules) && NoChaining(rules)
    requires Resolve(data, rules, repo).Resolved?
    requires 0 <= i < |rules| && Applies(rules[i], data)
    ensures (rules[i].rule.entityType.value, data[rules[i].field]) in repo
    ensures var r := Resolve(data, rules, repo);
      var val := Ref(repo[(rules[i].rule.entityType.value, data[rules[i].field])]);
      && Target(rules[i]) in r.ret && r.ret[Target(rules[i])] == val
      && Target(rules[i]) in r.data && r.data[Target(rules[i])] == val
      && (!WrittenByApplied(rules, data, rules[i].field) ==> rules[i].field !in r.data)
  {
    ResolveFromStoresEntity(data, map[], rules, repo, i);
  }

  /** Every entity the helper returns is a resolved reference. */
  lemma {:induction false} ResolveFromReturnsRefs(data: DataMap, ret: DataMap, rules: seq<FieldRule>, repo: Repository)
    requires forall k :: k in ret ==> ret[k].Ref?
    requires ResolveFrom(data, ret, rules, repo).Resolved?
    ensures forall k :: k in ResolveFrom(data, ret, rules, repo).ret ==> ResolveFrom(data, ret, rules, repo).ret[k].Ref?
    decreases |rules|
  {
    if rules != [] {
      var fr := rules[0];
      if !Applies(fr, data) {
        ResolveFromReturnsRefs(data, ret, rules[1..], repo);
      } else {
        var val := Ref(repo[(fr.rule.entityType.value, data[fr.field])]);
        ResolveFromReturnsRefs(Rename(data, fr.field, Target(fr), val), ret[Target(fr) := val], rules[1..], repo);
      }
    }
  }

  /**
    * A field that only a skipped rule names as its new name is still removed:
    * with rules `a -> x` and `b -> a`, data `{a: "u1"}` and `b` absent, `a`
    * leaves the data and `x` holds the entity.
    */
  lemma SkippedRuleDoesNotKeepField(e: EntityId)
    ensures var rules := [FieldRule("a", ArrayRule(Some("T"), Some("x"))), FieldRule("b", ArrayRule(Some("T"), Some("a")))];
      var r := Resolve(map["a" := Scalar("u1")], rules, map[("T", Scalar("u1")) := e]);
      r.Resolved? && "a" !in r.data && r.data["x"] == Ref(e) && r.ret == map["x" := Ref(e)]
  {
    var rules := [FieldRule("a", ArrayRule(Some("T"), Some("x"))), FieldRule("b", ArrayRule(Some("T"), Some("a")))];
    var data, repo := map["a" := Scalar("u1")], map[("T", Scalar("u1")) := e];
    var d1 := Rename(data, "a", "x", Ref(e));
    assert !Applies(rules[1], d1);
    assert Resolve(data, rules, repo) == Resolved(d1, map["x" := Ref(e)]);
  }
}
