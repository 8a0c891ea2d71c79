/**
 The registry of script executors: data_structure/executor_factory/src/script_factory.cpp.
 */
module ScriptFactory {
  import opened Wrappers
  import opened Scripts

  type Registry = map<string, Executor>

  predicate EndsWith(s: string, suffix: string) {
    |suffix| <= |s| && s[|s| - |suffix|..] == suffix
  }

  /** `GetScriptType` (lines 32-40). */
  function GetScriptType(info: ScriptInfo): string {
    if EndsWith(info.path, ".sh") then "shell"
    else if EndsWith(info.path, ".dag") then "dag"
    else "unknown"
  }

  predicate Supported(info: ScriptInfo) {
    EndsWith(info.path, ".sh") || EndsWith(info.path, ".dag")
  }

  function ExecutorOf(info: ScriptInfo): Executor {
    if EndsWith(info.path, ".sh") then Shell(info) else Dag(info)
  }

  /** How many scripts come before the first unsupported one. */
  function SupportedPrefix(scripts: seq<ScriptInfo>): (n: nat)
    ensures n <= |scripts|
    ensures forall i :: 0 <= i < n ==> Supported(scripts[i])
    ensures n < |scripts| ==> !Supported(scripts[n])
  {
    if scripts == [] || !Supported(scripts[0]) then 0 else 1 + SupportedPrefix(scripts[1..])
  }

  /** The registry after registering `scripts` in order. */
  function Registered(registry: Registry, scripts: seq<ScriptInfo>): Registry {
    if scripts == [] then registry
    else
      var last := scripts[|scripts| - 1];
      Registered(registry, scripts[..|scripts| - 1])[last.scriptId := ExecutorOf(last)]
  }

  /** Under each declared id the registry holds the executor of the last script declared with it. */
  lemma {:induction false} LastDeclarationWins(registry: Registry, scripts: seq<ScriptInfo>, i: nat)
    requires i < |scripts| && forall j :: i < j < |scripts| ==> scripts[j].scriptId != scripts[i].scriptId
    ensures scripts[i].scriptId in Registered(registry, scripts)
    ensures Registered(registry, scripts)[scripts[i].scriptId] == ExecutorOf(scripts[i])
  {
    if i < |scripts| - 1 {
      LastDeclarationWins(registry, scripts[..|scripts| - 1], i);
    }
  }

  /** The registered ids are those from before and the declared ones, no others. */
  lemma {:induction false} RegisteredIds(registry: Registry, scripts: seq<ScriptInfo>, id: string)
    ensures id in Registered(registry, scripts) <==>
              id in registry || exists i :: 0 <= i < |scripts| && scripts[i].scriptId == id
    ensures id in Registered(registry, scripts) && Registered(registry, scripts)[id].Shell? && registry == map[] ==>
              Registered(registry, scripts)[id].info.path != ""
  {
    if scripts != [] {
      var n := |scripts| - 1;
      RegisteredIds(registry, scripts[..n], id);
      assert scripts[n].scriptId == id ==> exists i :: 0 <= i < |scripts| && scripts[i].scriptId == id;
      assert forall i :: 0 <= i < n ==> scripts[..n][i] == scripts[i];
    }
  }

  ghost predicate Declares(scripts: seq<ScriptInfo>, id: string) {
    exists i :: 0 <= i < |scripts| && scripts[i].scriptId == id
  }

  lemma EndsInSh(p: string)
    ensures EndsWith(p, ".sh") <==> |p| >= 3 && p[|p| - 3..] == ".sh"
  {
  }

  lemma EndsInDag(p: string)
    ensures EndsWith(p, ".dag") <==> |p| >= 4 && p[|p| - 4..] == ".dag"
  {
  }

  lemma NotBothSuffixes(p: string)
    requires |p| >= 4 && p[|p| - 4..] == ".dag"
    ensures p[|p| - 3..] != ".sh"
  {
    assert p[|p| - 4..][3] == p[|p| - 3..][2];
  }

  /** Which paths are supported and which kind of executor each gets, by the last characters of the path. */
  lemma ExecutorKind(info: ScriptInfo)
    ensures var p := info.path;
      && (Supported(info) <==> (|p| >= 3 && p[|p| - 3..] == ".sh") || (|p| >= 4 && p[|p| - 4..] == ".dag"))
      && (Supported(info) ==> (ExecutorOf(info).Shell? <==> |p| >= 3 && p[|p| - 3..] == ".sh"))
      && (Supported(info) ==> (ExecutorOf(info).Dag? <==> |p| >= 4 && p[|p| - 4..] == ".dag"))
      && ExecutorOf(info).info == info
  {
    var p := info.path;
    EndsInSh(p);
    EndsInDag(p);
    if |p| >= 4 && p[|p| - 4..] == ".dag" {
      NotBothSuffixes(p);
    }
  }

  /** The last script declared under an id, of the right kind, is what the registry holds there. */
  ghost predicate HoldsLastDeclared(registry: Registry, scripts: seq<ScriptInfo>) {
    forall i :: 0 <= i < |scripts| && (forall j :: i < j < |scripts| ==> scripts[j].scriptId != scripts[i].scriptId) ==>
                  Holds(registry, scripts[i])
  }

  ghost predicate Holds(registry: Registry, script: ScriptInfo) {
    var p := script.path;
    && script.scriptId in registry
    && registry[script.scriptId].info == script
    && (registry[script.scriptId].Shell? <==> |p| >= 3 && p[|p| - 3..] == ".sh")
    && (registry[script.scriptId].Dag? <==> |p| >= 4 && p[|p| - 4..] == ".dag")
  }

  lemma RegisteredHolds(registry: Registry, scripts: seq<ScriptInfo>)
    requires forall i :: 0 <= i < |scripts| ==> Supported(scripts[i])
    ensures HoldsLastDeclared(Registered(registry, scripts), scripts)
  {
    forall i | 0 <= i < |scripts| && (forall j :: i < j < |scripts| ==> scripts[j].scriptId != scripts[i].scriptId)
      ensures Holds(Registered(registry, scripts), scripts[i])
    {
      LastDeclarationWins(registry, scripts, i);
      ExecutorKind(scripts[i]);
    }
  }

  /** All paths are supported exactly if each ends in one of the two suffixes. */
  lemma SupportedMeans(scripts: seq<ScriptInfo>)
    ensures (forall i :: 0 <= i < |scripts| ==> Supported(scripts[i])) <==>
            (forall i :: 0 <= i < |scripts| ==>
               var p := scripts[i].path; (|p| >= 3 && p[|p| - 3..] == ".sh") || (|p| >= 4 && p[|p| - 4..] == ".dag"))
  {
    forall i | 0 <= i < |scripts|
      ensures var p := scripts[i].path;
        Supported(scripts[i]) <==> (|p| >= 3 && p[|p| - 3..] == ".sh") || (|p| >= 4 && p[|p| - 4..] == ".dag")
    {
      ExecutorKind(scripts[i]);
    }
  }

  lemma RegisteredNext(registry: Registry, scripts: seq<ScriptInfo>, i: nat)
    requires i < |scripts|
    ensures Registered(registry, scripts[..i + 1]) ==
            Registered(registry, scripts[..i])[scripts[i].scriptId := ExecutorOf(scripts[i])]
  {
    assert scripts[..i + 1][..i] == scripts[..i];
  }

  lemma SupportedWithinPrefix(scripts: seq<ScriptInfo>, i: nat)
    requires i <= SupportedPrefix(scripts) && i < |scripts|
    ensures Supported(scripts[i]) <==> i < SupportedPrefix(scripts)
  {
  }

  /** The choice of an executor by the script's type (lines 10-20). */
  method MakeExecutor(script: ScriptInfo) returns (executor: Option<Executor>)
    ensures executor == if Supported(script) then Some(ExecutorOf(script)) else None
  {
    var scriptType := GetScriptType(script);
    if scriptType == "shell" {
      return Some(Shell(script));
    } else if scriptType == "dag" {
      return Some(Dag(script));
    }
    return None;
  }

  class Factory {
    var scriptExecutors: Registry

    constructor ()
      ensures scriptExecutors == map[]
    {
      scriptExecutors := map[];
    }

    method RegisterOne(script: ScriptInfo) returns (ok: bool)
      modifies this
      ensures ok == Supported(script)
      ensures scriptExecutors ==
              if ok then old(scriptExecutors)[script.scriptId := ExecutorOf(script)] else old(scriptExecutors)
    {
      var executor := MakeExecutor(script);
      if executor.None? {
        return false;
      }
      scriptExecutors := scriptExecutors[script.scriptId := executor.value];
      return true;
    }

    /** The loop of `Init` (lines 8-23), up to the first unsupported script. */
    method RegisterAll(scripts: seq<ScriptInfo>) returns (status: Status)
      modifies this
      ensures status == if SupportedPrefix(scripts) == |scripts| then Ok else InvalidArgument
      ensures scriptExecutors == Registered(old(scriptExecutors), scripts[..SupportedPrefix(scripts)])
    {
      var i := 0;
      while i < |scripts|
        invariant 0 <= i <= SupportedPrefix(scripts)
        invariant scriptExecutors == Registered(old(scriptExecutors), scripts[..i])
      {
        SupportedWithinPrefix(scripts, i);
        RegisteredNext(old(scriptExecutors), scripts, i);
        var ok := RegisterOne(scripts[i]);
        if !ok {
          assert i == SupportedPrefix(scripts);
          return InvalidArgument;
        }
        i := i + 1;
      }
      assert i == SupportedPrefix(scripts);
      return Ok;
    }

    /**
     `Init` (lines 7-25).  It stops at the first unsupported script; what was registered before that
     stays registered.
     */
    method Init(scripts: seq<ScriptInfo>) returns (status: Status)
      modifies this
      ensures status == Ok <==> forall i :: 0 <= i < |scripts| ==>
                var p := scripts[i].path; (|p| >= 3 && p[|p| - 3..] == ".sh") || (|p| >= 4 && p[|p| - 4..] == ".dag")
      ensures status == Ok || status == InvalidArgument
      ensures scriptExecutors == Registered(old(scriptExecutors), scripts[..SupportedPrefix(scripts)])
      ensures HoldsLastDeclared(scriptExecutors, scripts[..SupportedPrefix(scripts)])
      ensures status == Ok ==> HoldsLastDeclared(scriptExecutors, scripts)
    {
      status := RegisterAll(scripts);
      SupportedMeans(scripts);
      RegisteredHolds(old(scriptExecutors), scripts[..SupportedPrefix(scripts)]);
      if status == Ok {
        assert scripts[..|scripts|] == scripts;
      }
    }

    /** `GetScriptExecutor` (lines 27-30). */
    method GetScriptExecutor(scriptId: string) returns (executor: Option<Executor>)
      ensures executor == if scriptId in scriptExecutors then Some(scriptExecutors[scriptId]) else None
    {
      if scriptId in scriptExecutors {
        return Some(scriptExecutors[scriptId]);
      }
      return None;
    }
  }
}
