/** The module manager: a bounded table of modules, and two lookups by REST method that have to agree. */
module ModuleMgr {
  import opened Wrappers

  const MAX_MODULES := 16
  const MAX_API_CMDS := 16

  /** One row of a module's API list; `None` stands for a NULL pointer. */
  datatype Api = Api(apiString: Option<string>, handler: Option<nat>)

  datatype ModuleInfo = ModuleInfo(featureId: int, featureName: string, apis: seq<Api>) {
    predicate Valid() {
      |apis| == MAX_API_CMDS
    }
  }

  datatype Entry = Entry(isInUse: bool, info: ModuleInfo)

  function NoApis(): (apis: seq<Api>)
    ensures |apis| == MAX_API_CMDS && forall i | 0 <= i < MAX_API_CMDS :: apis[i].apiString.None?
  {
    seq(MAX_API_CMDS, _ => Api(None, None))
  }

  /** An entry after `memset`. */
  function EmptyEntry(): Entry {
    Entry(false, ModuleInfo(0, "", NoApis()))
  }

  datatype Status = Success | Duplicate | TableFull

  // ---------------------------------------------------------------- the table as a list of modules

  /** The table that holds exactly the modules `ms`, in front. */
  function Packed(ms: seq<ModuleInfo>): (table: seq<Entry>)
    requires |ms| <= MAX_MODULES
    ensures |table| == MAX_MODULES
    ensures forall i | 0 <= i < MAX_MODULES :: table[i] == if i < |ms| then Entry(true, ms[i]) else EmptyEntry()
  {
    seq(MAX_MODULES, i requires 0 <= i < MAX_MODULES => if i < |ms| then Entry(true, ms[i]) else EmptyEntry())
  }

  predicate Distinct(ms: seq<ModuleInfo>) {
    forall i, j | 0 <= i < j < |ms| :: ms[i].featureId != ms[j].featureId
  }

  predicate Knows(ms: seq<ModuleInfo>, featureId: int) {
    exists i :: 0 <= i < |ms| && ms[i].featureId == featureId
  }

  /**
   The registration is refused as a duplicate. Feature 0 is refused as long as two or more entries are free,
   because a free entry's cleared identifier is 0.
   */
  predicate IsDuplicate(ms: seq<ModuleInfo>, featureId: int) {
    Knows(ms, featureId) || (featureId == 0 && |ms| + 2 <= MAX_MODULES)
  }

  function RegisterStatus(ms: seq<ModuleInfo>, info: ModuleInfo): Status {
    if IsDuplicate(ms, info.featureId) then Duplicate else if |ms| >= MAX_MODULES then TableFull else Success
  }

  function Registered(ms: seq<ModuleInfo>, info: ModuleInfo): seq<ModuleInfo> {
    if RegisterStatus(ms, info) == Success then ms + [info] else ms
  }

  /** The first row at or after `k` for `apiString`. */
  function RowOf(apis: seq<Api>, apiString: string, k: nat): (r: Option<nat>)
    requires k <= |apis|
    ensures r.Some? ==> k <= r.value < |apis| && apis[r.value].apiString == Some(apiString)
    ensures r.Some? ==> forall i | k <= i < r.value :: apis[i].apiString != Some(apiString)
    ensures r.None? <==> forall i | k <= i < |apis| :: apis[i].apiString != Some(apiString)
    decreases |apis| - k
  {
    if k == |apis| then None
    else if apis[k].apiString == Some(apiString) then Some(k)
    else RowOf(apis, apiString, k + 1)
  }

  /** The first module at or after `i` that has a row for `apiString`. */
  function ModuleOf(ms: seq<ModuleInfo>, apiString: string, i: nat): (r: Option<nat>)
    requires i <= |ms|
    ensures r.Some? ==> i <= r.value < |ms| && RowOf(ms[r.value].apis, apiString, 0).Some?
    ensures r.Some? ==> forall j | i <= j < r.value :: RowOf(ms[j].apis, apiString, 0).None?
    ensures r.None? ==> forall j | i <= j < |ms| :: RowOf(ms[j].apis, apiString, 0).None?
    decreases |ms| - i
  {
    if i == |ms| then None
    else if RowOf(ms[i].apis, apiString, 0).Some? then Some(i)
    else ModuleOf(ms, apiString, i + 1)
  }

  /** The feature name that belongs to a REST method. */
  function FeatureOf(ms: seq<ModuleInfo>, apiString: string): Option<string> {
    match ModuleOf(ms, apiString, 0) case None => None case Some(i) => Some(ms[i].featureName)
  }

  /** The handler that serves a REST method. */
  function HandlerOf(ms: seq<ModuleInfo>, apiString: string): Option<nat> {
    match ModuleOf(ms, apiString, 0)
    case None => None
    case Some(i) => ms[i].apis[RowOf(ms[i].apis, apiString, 0).value].handler
  }

  lemma EmptyEntryHasNoRow(apiString: string)
    ensures RowOf(EmptyEntry().info.apis, apiString, 0) == None
  {
  }

  class ModuleManager {
    const moduleData: array<Entry>
    ghost var modules: seq<ModuleInfo>

    /** Used entries form a prefix, free ones are cleared, and feature identifiers are different. */
    ghost predicate Valid()
      reads this, moduleData
    {
      && |modules| <= MAX_MODULES
      && moduleData[..] == Packed(modules)
      && Distinct(modules)
      && forall i | 0 <= i < |modules| :: modules[i].Valid()
    }

    /** `modulemgr_init`. */
    constructor ()
      ensures Valid() && fresh(moduleData) && modules == []
      ensures moduleData.Length == 16 && forall i | 0 <= i < 16 :: |moduleData[i].info.apis| == 16
    {
      moduleData := new Entry[MAX_MODULES](_ => EmptyEntry());
      modules := [];
      new;
      assert moduleData[..] == Packed([]);
    }

    /** `modulemgr_register`. */
    method Register(featureInfo: ModuleInfo) returns (rv: Status)
      requires Valid() && featureInfo.Valid()
      modifies moduleData, this`modules
      ensures Valid()
      ensures rv == RegisterStatus(old(modules), featureInfo)
      ensures modules == Registered(old(modules), featureInfo)
    {
      var moduleIndex := 0;
      var freeEntryIndex := 0;
      var freeEntryFound, entryAlreadyPresent := false, false;
      ghost var n := |modules|;
      assert forall i | 0 <= i < MAX_MODULES :: moduleData[i] == moduleData[..][i];
      while moduleIndex < MAX_MODULES
        invariant 0 <= moduleIndex <= MAX_MODULES && !entryAlreadyPresent
        invariant freeEntryFound <==> moduleIndex > n
        invariant freeEntryFound ==> freeEntryIndex == n
        invariant forall i | 0 <= i < moduleIndex && i < n :: modules[i].featureId != featureInfo.featureId
        invariant moduleIndex > n + 1 ==> featureInfo.featureId != 0
      {
        if !moduleData[moduleIndex].isInUse && !freeEntryFound {
          freeEntryFound := true;
          freeEntryIndex := moduleIndex;
        } else if moduleData[moduleIndex].info.featureId == featureInfo.featureId {
          entryAlreadyPresent := true;
          break;
        }
        moduleIndex := moduleIndex + 1;
      }
      assert entryAlreadyPresent <==> IsDuplicate(modules, featureInfo.featureId);
      if entryAlreadyPresent {
        rv := Duplicate;
      } else if moduleIndex == MAX_MODULES && !freeEntryFound {
        rv := TableFull;
      } else {
        moduleData[freeEntryIndex] := Entry(true, featureInfo);
        modules := modules + [featureInfo];
        assert moduleData[..] == Packed(modules);
        rv := Success;
      }
    }

    /** The loops of `modulemgr_rest_api_handler_get`. */
    method HandlerGet(apiString: string) returns (success: bool, handler: Option<nat>)
      requires Valid()
      ensures success <==> HandlerOf(modules, apiString).Some?
      ensures success ==> handler == HandlerOf(modules, apiString)
    {
      success, handler := true, None;
      var entryFound := false;
      assert forall i | 0 <= i < MAX_MODULES :: moduleData[i] == moduleData[..][i];
      EmptyEntryHasNoRow(apiString);
      ghost var first := ModuleOf(modules, apiString, 0);
      for moduleIndex := 0 to MAX_MODULES
        invariant !entryFound && handler.None?
        invariant success <==> first.None? || moduleIndex <= first.value
        invariant !success ==> HandlerOf(modules, apiString).None?
      {
        var list := moduleData[moduleIndex].info.apis;
        ghost var row := RowOf(list, apiString, 0);
        var api := 0;
        while api < MAX_API_CMDS
          invariant 0 <= api <= MAX_API_CMDS && !entryFound && handler.None?
          invariant RowOf(list, apiString, api) == row
          invariant success <==> first.None? || moduleIndex <= first.value
          invariant !success ==> HandlerOf(modules, apiString).None?
        {
          if list[api].apiString.Some? {
            if list[api].apiString.value == apiString {
              assert row == Some(api);
              if list[api].handler.Some? {
                entryFound := true;
                handler := list[api].handler;
              } else {
                success := false;
              }
              break;
            }
          }
          api := api + 1;
        }
        if entryFound {
          break;
        }
      }
      if !entryFound {
        success := false;
      }
    }

    /** `modulemgr_rest_api_feature_name_get`. */
    method FeatureNameGet(apiString: string) returns (success: bool, featureName: string)
      requires Valid()
      ensures success <==> FeatureOf(modules, apiString).Some?
      ensures success ==> featureName == FeatureOf(modules, apiString).value
    {
      success, featureName := true, "";
      var entryFound := false;
      assert forall i | 0 <= i < MAX_MODULES :: moduleData[i] == moduleData[..][i];
      EmptyEntryHasNoRow(apiString);
      ghost var first := ModuleOf(modules, apiString, 0);
      for moduleIndex := 0 to MAX_MODULES
        invariant !entryFound
        invariant first.None? || moduleIndex <= first.value
      {
        var list := moduleData[moduleIndex].info.apis;
        ghost var row := RowOf(list, apiString, 0);
        var api := 0;
        while api < MAX_API_CMDS
          invariant 0 <= api <= MAX_API_CMDS && !entryFound
          invariant RowOf(list, apiString, api) == row
        {
          if list[api].apiString.Some? {
            if list[api].apiString.value == apiString {
              entryFound := true;
              featureName := moduleData[moduleIndex].info.featureName;
              break;
            }
          }
          api := api + 1;
        }
        if entryFound {
          break;
        }
      }
      if !entryFound {
        success := false;
      }
    }
  }

  // ---------------------------------------------------------------- any sequence of registrations

  function RegisteredAll(ms: seq<ModuleInfo>, infos: seq<ModuleInfo>): seq<ModuleInfo> {
    if infos == [] then ms else Registered(RegisteredAll(ms, infos[..|infos| - 1]), infos[|infos| - 1])
  }

  /** Identifiers stay different, the table never overflows, and no earlier entry is changed. */
  lemma {:induction false} RegistrationsKeepTable(ms: seq<ModuleInfo>, infos: seq<ModuleInfo>)
    requires Distinct(ms) && |ms| <= MAX_MODULES
    ensures var end := RegisteredAll(ms, infos); Distinct(end) && |end| <= MAX_MODULES && ms <= end
  {
    if infos != [] {
      RegistrationsKeepTable(ms, infos[..|infos| - 1]);
      var mid, info := RegisteredAll(ms, infos[..|infos| - 1]), infos[|infos| - 1];
      if RegisterStatus(mid, info) == Success {
        assert !Knows(mid, info.featureId);
        assert Distinct(mid + [info]);
      }
    }
  }

  /** For a nonzero identifier: refused as a duplicate exactly if known, for want of room exactly if 16 others are. */
  lemma RegisterStatusMeans(ms: seq<ModuleInfo>, info: ModuleInfo)
    requires |ms| <= MAX_MODULES && info.featureId != 0
    ensures RegisterStatus(ms, info) == Duplicate <==> Knows(ms, info.featureId)
    ensures RegisterStatus(ms, info) == TableFull <==> !Knows(ms, info.featureId) && |ms| == 16
    ensures Registered(ms, info) == if !Knows(ms, info.featureId) && |ms| < 16 then ms + [info] else ms
  {
  }

  /** Identifier 0 is special: it is accepted exactly when a single entry is left and no module has it. */
  lemma ZeroIdAcceptedIff(ms: seq<ModuleInfo>, info: ModuleInfo)
    requires |ms| <= MAX_MODULES && info.featureId == 0
    ensures RegisterStatus(ms, info) == Success <==> |ms| == 15 && !Knows(ms, 0)
    ensures RegisterStatus(ms, info) == TableFull <==> |ms| == 16 && !Knows(ms, 0)
    ensures Registered(ms, info) == if |ms| == 15 && !Knows(ms, 0) then ms + [info] else ms
  {
  }

  lemma {:induction false} ModuleOfIsFound(ms: seq<ModuleInfo>, more: seq<ModuleInfo>, apiString: string, i: nat)
    requires i <= |ms| && ModuleOf(ms, apiString, i).Some?
    ensures ModuleOf(ms + more, apiString, i) == ModuleOf(ms, apiString, i)
    decreases |ms| - i
  {
    assert (ms + more)[i] == ms[i];
    if RowOf(ms[i].apis, apiString, 0).None? {
      ModuleOfIsFound(ms, more, apiString, i + 1);
    }
  }

  /** A method that is served goes on being served by the same module, whatever is registered later. */
  lemma LookupsAreStable(ms: seq<ModuleInfo>, infos: seq<ModuleInfo>, apiString: string)
    requires Distinct(ms) && |ms| <= MAX_MODULES && ModuleOf(ms, apiString, 0).Some?
    ensures ModuleOf(RegisteredAll(ms, infos), apiString, 0) == ModuleOf(ms, apiString, 0)
    ensures HandlerOf(RegisteredAll(ms, infos), apiString) == HandlerOf(ms, apiString)
    ensures FeatureOf(RegisteredAll(ms, infos), apiString) == FeatureOf(ms, apiString)
  {
    RegistrationsKeepTable(ms, infos);
    var end := RegisteredAll(ms, infos);
    var more := end[|ms|..];
    assert end == ms + more;
    ModuleOfIsFound(ms, more, apiString, 0);
  }

  /** No row has a name without a handler. */
  predicate HandlersPresent(ms: seq<ModuleInfo>) {
    forall i, k | 0 <= i < |ms| && 0 <= k < |ms[i].apis| && ms[i].apis[k].apiString.Some? :: ms[i].apis[k].handler.Some?
  }

  /**
   The handler lookup never serves a method from another module than the feature-name lookup names, and if no
   named row lacks a handler the two succeed together.
   */
  lemma LookupsAgree(ms: seq<ModuleInfo>, apiString: string)
    ensures HandlerOf(ms, apiString).Some? ==> FeatureOf(ms, apiString).Some?
    ensures HandlersPresent(ms) ==> (HandlerOf(ms, apiString).Some? <==> FeatureOf(ms, apiString).Some?)
    ensures HandlerOf(ms, apiString).Some? ==>
              exists i, k ::
                && 0 <= i < |ms| && 0 <= k < |ms[i].apis|
                && ms[i].apis[k] == Api(Some(apiString), HandlerOf(ms, apiString))
                && FeatureOf(ms, apiString) == Some(ms[i].featureName)
  {
    var m := ModuleOf(ms, apiString, 0);
    if m.Some? {
      var k := RowOf(ms[m.value].apis, apiString, 0).value;
      assert ms[m.value].apis[k] == Api(Some(apiString), HandlerOf(ms, apiString));
    }
  }

  /**
   The lookups disagree exactly when the first row of the first module that names the method has no handler; and
   then no module, registered before or after, can serve the method.
   */
  lemma NullHandlerHidesIff(ms: seq<ModuleInfo>, apiString: string)
    ensures HandlerOf(ms, apiString).None? && FeatureOf(ms, apiString).Some?
       <==> exists i, k :: FirstRow(ms, apiString, i, k) && ms[i].apis[k].handler.None?
  {
    var m := ModuleOf(ms, apiString, 0);
    if m.Some? {
      assert FirstRow(ms, apiString, m.value, RowOf(ms[m.value].apis, apiString, 0).value);
    }
    if i, k :| FirstRow(ms, apiString, i, k) && ms[i].apis[k].handler.None? {
      assert m == Some(i) && RowOf(ms[i].apis, apiString, 0) == Some(k);
    }
  }

  /** Row `k` of module `i` is the first of the table that names the method. */
  predicate FirstRow(ms: seq<ModuleInfo>, apiString: string, i: int, k: int) {
    && 0 <= i < |ms| && 0 <= k < |ms[i].apis| && ms[i].apis[k].apiString == Some(apiString)
    && (forall l | 0 <= l < k :: ms[i].apis[l].apiString != Some(apiString))
    && (forall j, l | 0 <= j < i && 0 <= l < |ms[j].apis| :: ms[j].apis[l].apiString != Some(apiString))
  }

  /** The lookups answer with handler and feature name of the first row of the table that names the method. */
  lemma LookupsAreFirst(ms: seq<ModuleInfo>, apiString: string, i: int, k: int)
    requires FirstRow(ms, apiString, i, k)
    ensures HandlerOf(ms, apiString) == ms[i].apis[k].handler
    ensures FeatureOf(ms, apiString) == Some(ms[i].featureName)
  {
    assert ModuleOf(ms, apiString, 0) == Some(i) && RowOf(ms[i].apis, apiString, 0) == Some(k);
  }

  /** A method that no row names is not found. */
  lemma UnnamedIsNotFound(ms: seq<ModuleInfo>, apiString: string)
    requires forall i, k | 0 <= i < |ms| && 0 <= k < |ms[i].apis| :: ms[i].apis[k].apiString != Some(apiString)
    ensures HandlerOf(ms, apiString).None? && FeatureOf(ms, apiString).None?
  {
  }

  /** Such a table: one module whose only row names the method without a handler, and any modules after it. */
  lemma NullHandlerOccurs(featureId: int, featureName: string, apiString: string, more: seq<ModuleInfo>)
    ensures (var ms := [ModuleInfo(featureId, featureName, [Api(Some(apiString), None)])] + more;
             HandlerOf(ms, apiString).None? && FeatureOf(ms, apiString) == Some(featureName))
  {
    var first := [ModuleInfo(featureId, featureName, [Api(Some(apiString), None)])];
    assert FirstRow(first, apiString, 0, 0);
    NullHandlerHidesIff(first, apiString);
    NullHandlerHidesLater(first, more, apiString);
  }

  lemma NullHandlerHidesLater(ms: seq<ModuleInfo>, more: seq<ModuleInfo>, apiString: string)
    requires HandlerOf(ms, apiString).None? && FeatureOf(ms, apiString).Some?
    ensures HandlerOf(ms + more, apiString).None? && FeatureOf(ms + more, apiString) == FeatureOf(ms, apiString)
  {
    ModuleOfIsFound(ms, more, apiString, 0);
  }
}
