/** Node configuration takes precedence over group configuration; changes are applied as they come. */
module ConfigWatcher {
  import opened Text

  type ConfigData = map<string, string>

  datatype Update =
    | NodeSet(data: Option<ConfigData>)    // added or modified; None when deleted
    | GroupSet(data: Option<ConfigData>)   // likewise, with the default configuration or None when deleted

  datatype Config = Config(node: Option<ConfigData>, group: Option<ConfigData>)

  /** The configuration in force: the node's if there is one, otherwise the group's. */
  function Effective(c: Config): Option<ConfigData> {
    if c.node.Some? then c.node else c.group
  }

  function Changed(c: Config, u: Update): Config {
    match u
    case NodeSet(data) => c.(node := data)
    case GroupSet(data) => c.(group := data)
  }

  function After(us: seq<Update>): Config {
    if us == [] then Config(None, None) else Changed(After(us[..|us| - 1]), us[|us| - 1])
  }

  /** What the watcher passes to ApplyConfig, in order. */
  function Applied(us: seq<Update>): seq<Option<ConfigData>> {
    if us == [] then []
    else
      var before, u := us[..|us| - 1], us[|us| - 1];
      if u.NodeSet? || After(before).node.None? then Applied(before) + [Effective(After(us))] else Applied(before)
  }

  /** What a watcher would pass that recomputed and applied after every update. */
  function AppliedAlways(us: seq<Update>): seq<Option<ConfigData>> {
    if us == [] then [] else AppliedAlways(us[..|us| - 1]) + [Effective(After(us))]
  }

  /** The list without immediate repetitions. */
  function Destuttered(s: seq<Option<ConfigData>>): (r: seq<Option<ConfigData>>)
    ensures s != [] ==> r != [] && r[|r| - 1] == s[|s| - 1]
    ensures s == [] ==> r == []
  {
    if s == [] then []
    else
      var init := Destuttered(s[..|s| - 1]);
      if |s| > 1 && s[|s| - 2] == s[|s| - 1] then init else init + [s[|s| - 1]]
  }

  lemma {:induction false} DestutterStep(s: seq<Option<ConfigData>>, x: Option<ConfigData>)
    ensures Destuttered(s + [x]) == if s != [] && s[|s| - 1] == x then Destuttered(s) else Destuttered(s) + [x]
  {
    assert (s + [x])[..|s|] == s;
  }

  /** Update i is the last one of the node's configuration. */
  ghost predicate LatestNodeSet(us: seq<Update>, i: nat) {
    i < |us| && us[i].NodeSet? && forall j :: i < j < |us| ==> us[j].GroupSet?
  }

  /** Update i is the last one of the group's configuration. */
  ghost predicate LatestGroupSet(us: seq<Update>, i: nat) {
    i < |us| && us[i].GroupSet? && forall j :: i < j < |us| ==> us[j].NodeSet?
  }

  /** Of each configuration the latest update counts, a deletion too; before the first there is none. */
  lemma {:induction false} LatestCounts(us: seq<Update>)
    ensures forall i: nat :: LatestNodeSet(us, i) ==> After(us).node == us[i].data
    ensures forall i: nat :: LatestGroupSet(us, i) ==> After(us).group == us[i].data
    ensures (forall i :: 0 <= i < |us| ==> us[i].GroupSet?) ==> After(us).node == None
    ensures (forall i :: 0 <= i < |us| ==> us[i].NodeSet?) ==> After(us).group == None
  {
    if us != [] {
      var before := us[..|us| - 1];
      LatestCounts(before);
      forall i: nat | i < |us| - 1
        ensures LatestNodeSet(us, i) ==> LatestNodeSet(before, i)
        ensures LatestGroupSet(us, i) ==> LatestGroupSet(before, i)
      {
      }
    }
  }

  /** The last application is the configuration in force: the node's if there is one, otherwise the group's. */
  lemma {:induction false} LastAppliedIsEffective(us: seq<Update>)
    requires us != []
    ensures Applied(us) != [] && Applied(us)[|Applied(us)| - 1] == Effective(After(us))
    ensures Effective(After(us)) == if After(us).node != None then After(us).node else After(us).group
  {
    var before := us[..|us| - 1];
    if before != [] {
      LastAppliedIsEffective(before);
    }
  }

  /**
   Applying conditionally shows the same configurations in the same order as applying after every update, repetitions
   aside.
   */
  lemma {:induction false} ConditionalRefinesAlways(us: seq<Update>)
    ensures Destuttered(Applied(us)) == Destuttered(AppliedAlways(us))
  {
    if us != [] {
      var before := us[..|us| - 1];
      ConditionalRefinesAlways(before);
      if before != [] {
        LastAppliedIsEffective(before);
        assert AppliedAlways(before)[|AppliedAlways(before)| - 1] == Effective(After(before));
      }
      DestutterStep(AppliedAlways(before), Effective(After(us)));
      if Applied(us) != Applied(before) {
        DestutterStep(Applied(before), Effective(After(us)));
      }
    }
  }

  lemma {:induction false} UpdateStep(us: seq<Update>, u: Update)
    ensures After(us + [u]) == Changed(After(us), u)
    ensures Applied(us + [u])
            == if u.NodeSet? || After(us).node.None? then Applied(us) + [Effective(Changed(After(us), u))]
               else Applied(us)
  {
    assert (us + [u])[..|us|] == us;
  }

  /** A node update always applies; a group update applies, and applies itself, exactly when the node has none. */
  lemma {:induction false} UpdateApplies(us: seq<Update>, data: Option<ConfigData>)
    ensures Applied(us + [NodeSet(data)]) == Applied(us) + [if data != None then data else After(us).group]
    ensures Applied(us + [GroupSet(data)]) == Applied(us) + if After(us).node == None then [data] else []
  {
    UpdateStep(us, NodeSet(data));
    UpdateStep(us, GroupSet(data));
  }

  class Watcher {
    var nodeCfg: Option<ConfigData>
    var groupCfg: Option<ConfigData>
    // the arguments of ApplyConfig so far, and the updates that led to them
    var applied: seq<Option<ConfigData>>
    ghost var updates: seq<Update>

    ghost predicate Valid()
      reads this
    {
      After(updates) == Config(nodeCfg, groupCfg) && applied == Applied(updates)
    }

    constructor ()
      ensures Valid() && updates == [] && applied == [] && nodeCfg == groupCfg == None
    {
      nodeCfg, groupCfg, applied, updates := None, None, [], [];
    }

    method ApplyConfig()
      modifies `applied
      ensures applied == old(applied) + [if nodeCfg != None then nodeCfg else groupCfg]
    {
      var config := groupCfg;
      if nodeCfg.Some? {
        config := nodeCfg;
      }
      applied := applied + [config];
    }

    method SetNodeConfig(data: Option<ConfigData>)
      requires Valid()
      modifies this
      ensures Valid() && updates == old(updates) + [NodeSet(data)]
      ensures nodeCfg == data && groupCfg == old(groupCfg)
      ensures applied == old(applied) + [if data != None then data else groupCfg]
    {
      UpdateStep(updates, NodeSet(data));
      nodeCfg := data;
      ApplyConfig();
      updates := updates + [NodeSet(data)];
    }

    method SetGroupConfig(data: Option<ConfigData>)
      requires Valid()
      modifies this
      ensures Valid() && updates == old(updates) + [GroupSet(data)]
      ensures groupCfg == data && nodeCfg == old(nodeCfg)
      ensures applied == old(applied) + if nodeCfg == None then [data] else []
    {
      UpdateStep(updates, GroupSet(data));
      groupCfg := data;
      if nodeCfg.None? {
        ApplyConfig();
      }
      updates := updates + [GroupSet(data)];
    }

    /** A deleted group configuration is replaced by the default one, if that can be fetched. */
    method GroupDeleted(default: Option<ConfigData>)
      requires Valid()
      modifies this
      ensures Valid() && updates == old(updates) + [GroupSet(default)]
      ensures groupCfg == default && nodeCfg == old(nodeCfg)
      ensures applied == old(applied) + if nodeCfg == None then [default] else []
    {
      SetGroupConfig(default);
    }
  }
}
