/** The south-bound redirector: registration of plug-ins, and the search for the feature that serves an ASIC best. */
module SbRedirect {
  import opened Wrappers

  const MAX_SB_PLUGINS := 8
  const SBPLUGIN_MAX_FEATURES := 17
  const MAX_ASICS_ON_A_PLATFORM := 1
  const FEATURE_SYSTEM := 1

  /** A set of silicon types, one bit each. */
  type AsicMask = bv32

  const ASIC_TYPE_ALL: AsicMask := 0xFFFF

  /** A feature of a plug-in; `address` tells structures with equal contents apart. */
  datatype Feature = Feature(address: nat, featureId: int, supportedAsicMask: AsicMask, numSupportedAsics: nat)

  datatype Plugin = Plugin(numSupportedFeatures: nat, featureList: seq<Option<Feature>>) {
    /** The list is an array of a fixed size. */
    predicate Sized() {
      |featureList| == SBPLUGIN_MAX_FEATURES
    }
  }

  datatype Entry = Entry(isInUse: bool, sbPlugin: Plugin)

  function EmptyEntry(): Entry {
    Entry(false, Plugin(0, seq(SBPLUGIN_MAX_FEATURES, _ => None)))
  }

  datatype Status = Success | Failure | TableFull

  // ---------------------------------------------------------------- what the search finds

  /** Every bit that is asked for is set in the mask. */
  predicate Covers(mask: AsicMask, asic: AsicMask) {
    mask & asic == asic
  }

  predicate Supports(f: Feature, asic: AsicMask) {
    Covers(f.supportedAsicMask, asic)
  }

  predicate IsAll(f: Feature, featureId: int) {
    f.featureId == featureId && f.supportedAsicMask == ASIC_TYPE_ALL
  }

  /** An entry for all silicon stands before position `k`. */
  predicate AllBefore(fs: seq<Feature>, featureId: int, k: nat)
    requires k <= |fs|
  {
    exists j :: 0 <= j < k && IsAll(fs[j], featureId)
  }

  /**
   Position `k` ends the search: it supports the silicon and is not the first entry for all silicon. A second
   entry for all silicon ends it like a specific one.
   */
  predicate Decides(fs: seq<Feature>, asic: AsicMask, featureId: int, k: nat)
    requires k < |fs|
  {
    && fs[k].featureId == featureId
    && Supports(fs[k], asic)
    && (fs[k].supportedAsicMask == ASIC_TYPE_ALL ==> AllBefore(fs, featureId, k))
  }

  predicate Undecided(fs: seq<Feature>, asic: AsicMask, featureId: int) {
    forall k | 0 <= k < |fs| :: !Decides(fs, asic, featureId, k)
  }

  /** What the search finds among the features `fs`, in scan order. */
  ghost predicate IsBest(fs: seq<Feature>, asic: AsicMask, featureId: int, best: Option<Feature>) {
    match best
    case Some(f) =>
      || (exists k :: 0 <= k < |fs| && fs[k] == f
                      && Decides(fs, asic, featureId, k) && Undecided(fs[..k], asic, featureId))
      || (Undecided(fs, asic, featureId) && IsFirstAll(fs, featureId, f))
    case None => Undecided(fs, asic, featureId) && !AllBefore(fs, featureId, |fs|)
  }

  ghost predicate IsFirstAll(fs: seq<Feature>, featureId: int, f: Feature) {
    exists k :: 0 <= k < |fs| && fs[k] == f && IsAll(f, featureId) && !AllBefore(fs, featureId, k)
  }

  /** The features of a plug-in that are not NULL. */
  function FeaturesOf(p: Plugin): seq<Feature>
    requires p.Sized()
  {
    Kept(if p.numSupportedFeatures <= SBPLUGIN_MAX_FEATURES then p.featureList[..p.numSupportedFeatures]
         else p.featureList)
  }

  /** The features of plug-ins, in scan order. */
  function Scan(ps: seq<Plugin>): seq<Feature>
    requires forall i | 0 <= i < |ps| :: ps[i].Sized()
  {
    if ps == [] then [] else Scan(ps[..|ps| - 1]) + FeaturesOf(ps[|ps| - 1])
  }

  // ---------------------------------------------------------------- registration

  /** What `sb_plugin_validate` asks of a plug-in. */
  predicate Acceptable(p: Plugin)
    requires p.Sized()
  {
    && p.numSupportedFeatures <= SBPLUGIN_MAX_FEATURES
    && forall i | 0 <= i < p.numSupportedFeatures ::
         p.featureList[i].Some? && p.featureList[i].value.featureId == FEATURE_SYSTEM ==>
           p.featureList[i].value.numSupportedAsics <= MAX_ASICS_ON_A_PLATFORM
  }

  method Validate(sbPlugin: Plugin) returns (status: Status)
    requires sbPlugin.Sized()
    ensures status == if Acceptable(sbPlugin) then Success else Failure
  {
    if sbPlugin.numSupportedFeatures > SBPLUGIN_MAX_FEATURES {
      return Failure;
    }
    for i := 0 to sbPlugin.numSupportedFeatures
      invariant forall k | 0 <= k < i ::
                  sbPlugin.featureList[k].Some? && sbPlugin.featureList[k].value.featureId == FEATURE_SYSTEM ==>
                    sbPlugin.featureList[k].value.numSupportedAsics <= MAX_ASICS_ON_A_PLATFORM
    {
      if sbPlugin.featureList[i].None? {
        continue;
      }
      var feature := sbPlugin.featureList[i].value;
      if feature.featureId == FEATURE_SYSTEM {
        if feature.numSupportedAsics > MAX_ASICS_ON_A_PLATFORM {
          return Failure;
        }
      }
    }
    return Success;
  }

  class Redirector {
    const pluginList: array<Entry>
    ghost var plugins: seq<Plugin>

    /** The registered plug-ins stand in front, in the order of their registration, and were acceptable. */
    ghost predicate Valid()
      reads this, pluginList
    {
      && pluginList.Length == MAX_SB_PLUGINS
      && |plugins| <= MAX_SB_PLUGINS
      && (forall i | 0 <= i < |plugins| :: plugins[i].Sized() && Acceptable(plugins[i]))
      && (forall i | 0 <= i < MAX_SB_PLUGINS ::
            pluginList[i] == if i < |plugins| then Entry(true, plugins[i]) else EmptyEntry())
    }

    /** `sb_redirector_init`. */
    constructor ()
      ensures Valid() && fresh(pluginList) && plugins == []
    {
      pluginList := new Entry[MAX_SB_PLUGINS](_ => EmptyEntry());
      plugins := [];
    }

    /** `sb_plugin_register`. */
    method Register(sbPlugin: Plugin) returns (rv: Status)
      requires Valid() && sbPlugin.Sized()
      modifies pluginList, this`plugins
      ensures Valid()
      ensures rv == (if !Acceptable(sbPlugin) then Failure
                     else if |old(plugins)| == MAX_SB_PLUGINS then TableFull
                     else Success)
      ensures plugins == if rv == Success then old(plugins) + [sbPlugin] else old(plugins)
    {
      hide Acceptable;
      rv := Validate(sbPlugin);
      if rv == Failure {
        return;
      }
      var sbPluginIndex := 0;
      while sbPluginIndex < MAX_SB_PLUGINS
        invariant 0 <= sbPluginIndex <= |plugins|
      {
        if !pluginList[sbPluginIndex].isInUse {
          pluginList[sbPluginIndex] := Entry(true, sbPlugin);
          plugins := plugins + [sbPlugin];
          return Success;
        }
        sbPluginIndex := sbPluginIndex + 1;
      }
      rv := TableFull;
    }

    /** `sb_redirect_feature_handle_get`. */
    method FeatureHandleGet(asic: AsicMask, featureId: int) returns (featureOut: Option<Feature>)
      requires Valid()
      ensures IsBest(Scan(plugins), asic, featureId, featureOut)
    {
      hide *;
      PluginsMean();
      featureOut := None;
      var asicEntryFound, allAsicEntryFound := false, false;
      ghost var all := Scan(plugins);
      ghost var seen: seq<Feature> := [];
      NothingSeen(asic, featureId, plugins);
      var p := 0;
      while p < MAX_SB_PLUGINS && !asicEntryFound
        invariant 0 <= p <= MAX_SB_PLUGINS
        invariant asicEntryFound ==> IsBest(all, asic, featureId, featureOut)
        invariant !asicEntryFound ==> seen == Scan(plugins[..if p < |plugins| then p else |plugins|])
        invariant !asicEntryFound ==> Searching(seen, asic, featureId, featureOut, allAsicEntryFound)
      {
        if pluginList[p].isInUse {
          var plugin := pluginList[p].sbPlugin;
          ghost var before := seen;
          ScanSplit(plugins, p);
          NoFeatures(plugin, before);
          var i := 0;
          while i < plugin.numSupportedFeatures && !asicEntryFound
            invariant 0 <= i <= plugin.numSupportedFeatures
            invariant asicEntryFound ==> IsBest(all, asic, featureId, featureOut)
            invariant !asicEntryFound ==> seen == before + Kept(plugin.featureList[..i])
            invariant !asicEntryFound ==> Searching(seen, asic, featureId, featureOut, allAsicEntryFound)
          {
            FeatureNext(plugin, before, i);
            if plugin.featureList[i].None? {
              i := i + 1;
              continue;
            }
            var feature := plugin.featureList[i].value;
            SearchStep(seen, feature, asic, featureId, featureOut, allAsicEntryFound);
            SearchEnds(seen, feature, all, plugins, p, i, asic, featureId);
            if feature.featureId == featureId {
              if feature.supportedAsicMask == ASIC_TYPE_ALL && !allAsicEntryFound {
                featureOut := Some(feature);
                allAsicEntryFound := true;
              } else if Supports(feature, asic) && !asicEntryFound {
                featureOut := Some(feature);
                asicEntryFound := true;
              }
            }
            seen := seen + [feature];
            i := i + 1;
          }
        }
        p := p + 1;
      }
      if !asicEntryFound {
        SearchIsOver(seen, asic, featureId, featureOut, allAsicEntryFound);
        assert plugins[..|plugins|] == plugins;
      }
    }

    lemma PluginsMean()
      requires Valid()
      ensures pluginList.Length == MAX_SB_PLUGINS && |plugins| <= MAX_SB_PLUGINS
      ensures forall i | 0 <= i < |plugins| ::
                plugins[i].Sized() && plugins[i].numSupportedFeatures <= |plugins[i].featureList|
      ensures forall i | 0 <= i < MAX_SB_PLUGINS :: pluginList[i].isInUse <==> i < |plugins|
      ensures forall i | 0 <= i < |plugins| :: pluginList[i].sbPlugin == plugins[i]
    {
    }
  }

  // ---------------------------------------------------------------- what is searched

  /** Where feature `k` of plug-in `i` stands: behind those of the plug-ins before, and those listed before it. */
  function Position(ps: seq<Plugin>, i: nat, k: nat): nat
    requires (forall j | 0 <= j < |ps| :: ps[j].Sized()) && i < |ps| && k < |ps[i].featureList|
  {
    |Scan(ps[..i])| + |Kept(ps[i].featureList[..k])|
  }

  /** A feature that a registered plug-in lists is searched, in the order of registration and of the list. */
  lemma ListedIsScanned(ps: seq<Plugin>, i: nat, k: nat)
    requires forall j | 0 <= j < |ps| :: ps[j].Sized() && ps[j].numSupportedFeatures <= |ps[j].featureList|
    requires i < |ps| && k < ps[i].numSupportedFeatures && ps[i].featureList[k].Some?
    ensures Position(ps, i, k) < |Scan(ps)| && Scan(ps)[Position(ps, i, k)] == ps[i].featureList[k].value
  {
    ScanSplit(ps, i);
    FeatureNext(ps[i], Scan(ps[..i]), k);
    hide Scan, Kept;
    var before, here := Scan(ps[..i]), Kept(ps[i].featureList[..k]);
    var next := before + here + [ps[i].featureList[k].value];
    assert next <= Scan(ps[..i + 1]) <= Scan(ps);
    assert Scan(ps)[|before + here|] == next[|before + here|];
  }

  /** The order is that of the pairs of plug-in and place in its list. */
  lemma PositionsAscend(ps: seq<Plugin>, i: nat, k: nat, j: nat, l: nat)
    requires forall j | 0 <= j < |ps| :: ps[j].Sized() && ps[j].numSupportedFeatures <= |ps[j].featureList|
    requires i < |ps| && k < ps[i].numSupportedFeatures && ps[i].featureList[k].Some?
    requires j < |ps| && l < ps[j].numSupportedFeatures && (i < j || (i == j && k < l))
    ensures Position(ps, i, k) < Position(ps, j, l)
  {
    hide Scan, Kept;
    ScanSplit(ps, i);
    FeatureNext(ps[i], Scan(ps[..i]), k);
    if i < j {
      assert ps[..j][..i + 1] == ps[..i + 1];
      ScanPrefix(ps[..j], i + 1);
    } else {
      KeptPrefix(ps[i].featureList[..l], k + 1);
      assert ps[i].featureList[..l][..k + 1] == ps[i].featureList[..k + 1];
    }
  }

  /** Nothing else is searched. */
  lemma {:induction false} ScannedIsListed(ps: seq<Plugin>, f: Feature)
    requires forall j | 0 <= j < |ps| :: ps[j].Sized() && ps[j].numSupportedFeatures <= |ps[j].featureList|
    requires f in Scan(ps)
    ensures exists i, k ::
              0 <= i < |ps| && 0 <= k < ps[i].numSupportedFeatures && ps[i].featureList[k] == Some(f)
  {
    var n := |ps| - 1;
    if f in Scan(ps[..n]) {
      ScannedIsListed(ps[..n], f);
      var i, k :| 0 <= i < n && 0 <= k < ps[..n][i].numSupportedFeatures && ps[..n][i].featureList[k] == Some(f);
      assert ps[i].featureList[k] == Some(f);
    } else {
      var es := Kept(ps[n].featureList[..ps[n].numSupportedFeatures]);
      var q :| 0 <= q < |es| && es[q] == f;
      KeptIsPresent(ps[n].featureList[..ps[n].numSupportedFeatures], q);
      var k :| 0 <= k < ps[n].numSupportedFeatures && ps[n].featureList[..ps[n].numSupportedFeatures][k] == Some(f);
      assert ps[n].featureList[k] == Some(f);
    }
  }

  /** What is refused, in numbers: more than 17 features, or a system feature with more than one ASIC. */
  lemma AcceptableIff(p: Plugin)
    requires p.Sized()
    ensures |p.featureList| == 17 && MAX_SB_PLUGINS == 8
    ensures Acceptable(p)
       <==> && p.numSupportedFeatures <= 17
            && forall i: nat | i < p.numSupportedFeatures && p.featureList[i].Some? ::
                 p.featureList[i].value.featureId == 1 ==> p.featureList[i].value.numSupportedAsics <= 1
  {
  }

  // ---------------------------------------------------------------- the search, step by step

  /** The state of the search after the features `seen`, none of which has ended it. */
  ghost predicate Searching(seen: seq<Feature>, asic: AsicMask, featureId: int, out: Option<Feature>, allFound: bool) {
    && Undecided(seen, asic, featureId)
    && (allFound <==> AllBefore(seen, featureId, |seen|))
    && (if allFound then out.Some? && IsFirstAll(seen, featureId, out.value) else out.None?)
  }

  lemma NothingSeen(asic: AsicMask, featureId: int, ps: seq<Plugin>)
    requires forall i | 0 <= i < |ps| :: ps[i].Sized()
    ensures Scan(ps[..0]) == [] && Searching([], asic, featureId, None, false)
  {
  }

  lemma NoFeatures(p: Plugin, before: seq<Feature>)
    requires p.Sized()
    ensures before == before + Kept(p.featureList[..0])
  {
  }

  lemma {:induction false} ScanPrefix(ps: seq<Plugin>, n: nat)
    requires n <= |ps| && forall i | 0 <= i < |ps| :: ps[i].Sized()
    ensures Scan(ps[..n]) <= Scan(ps)
    decreases |ps|
  {
    if n < |ps| {
      ScanPrefix(ps[..|ps| - 1], n);
      assert ps[..|ps| - 1][..n] == ps[..n];
    } else {
      assert ps[..n] == ps;
    }
  }

  lemma ScanSplit(ps: seq<Plugin>, p: nat)
    requires p < |ps| && forall i | 0 <= i < |ps| :: ps[i].Sized() && ps[i].numSupportedFeatures <= |ps[i].featureList|
    ensures Scan(ps[..p + 1]) == Scan(ps[..p]) + Kept(ps[p].featureList[..ps[p].numSupportedFeatures])
    ensures Scan(ps[..p + 1]) <= Scan(ps)
  {
    assert ps[..p + 1][..p] == ps[..p];
    ScanPrefix(ps, p + 1);
  }

  lemma FeatureNext(p: Plugin, before: seq<Feature>, i: nat)
    requires p.Sized() && i < p.numSupportedFeatures <= |p.featureList|
    ensures before + Kept(p.featureList[..i + 1])
         == before + Kept(p.featureList[..i]) + (if p.featureList[i].Some? then [p.featureList[i].value] else [])
    ensures Kept(p.featureList[..i + 1]) <= Kept(p.featureList[..p.numSupportedFeatures])
  {
    assert p.featureList[..i + 1] == p.featureList[..i] + [p.featureList[i]];
    KeptSnoc(p.featureList[..i], p.featureList[i]);
    KeptPrefix(p.featureList[..p.numSupportedFeatures], i + 1);
    assert p.featureList[..p.numSupportedFeatures][..i + 1] == p.featureList[..i + 1];
  }

  lemma {:induction false} KeptPrefix<T>(rows: seq<Option<T>>, n: nat)
    requires n <= |rows|
    ensures Kept(rows[..n]) <= Kept(rows)
    decreases |rows|
  {
    if n < |rows| {
      KeptPrefix(rows[..|rows| - 1], n);
      assert rows[..|rows| - 1][..n] == rows[..n];
    } else {
      assert rows[..n] == rows;
    }
  }

  lemma AllBeforePrefix(a: seq<Feature>, b: seq<Feature>, featureId: int, k: nat)
    requires k <= |a|
    ensures AllBefore(a + b, featureId, k) <==> AllBefore(a, featureId, k)
  {
    assert forall j | 0 <= j < k :: (a + b)[j] == a[j];
  }

  lemma DecidesPrefix(a: seq<Feature>, b: seq<Feature>, asic: AsicMask, featureId: int)
    ensures forall k | 0 <= k < |a| :: Decides(a + b, asic, featureId, k) <==> Decides(a, asic, featureId, k)
  {
    forall k | 0 <= k < |a| ensures Decides(a + b, asic, featureId, k) <==> Decides(a, asic, featureId, k) {
      AllBeforePrefix(a, b, featureId, k);
      hide AllBefore;
      assert (a + b)[k] == a[k];
    }
  }

  lemma DecidesNext(seen: seq<Feature>, f: Feature, asic: AsicMask, featureId: int)
    ensures Decides(seen + [f], asic, featureId, |seen|)
       <==>
         && f.featureId == featureId
         && Supports(f, asic)
         && (f.supportedAsicMask == ASIC_TYPE_ALL ==> AllBefore(seen, featureId, |seen|))
  {
    hide Supports;
    assert (seen + [f])[|seen|] == f;
    AllBeforePrefix(seen, [f], featureId, |seen|);
    hide AllBefore;
  }

  lemma UndecidedNext(seen: seq<Feature>, f: Feature, asic: AsicMask, featureId: int)
    ensures Undecided(seen + [f], asic, featureId)
       <==> Undecided(seen, asic, featureId) && !Decides(seen + [f], asic, featureId, |seen|)
  {
    DecidesPrefix(seen, [f], asic, featureId);
    hide Decides;
    var next := seen + [f];
    assert |next| == |seen| + 1;
  }

  lemma AllNext(seen: seq<Feature>, f: Feature, featureId: int, out: Feature)
    ensures AllBefore(seen + [f], featureId, |seen + [f]|)
       <==> AllBefore(seen, featureId, |seen|) || IsAll(f, featureId)
    ensures IsFirstAll(seen, featureId, out) ==> IsFirstAll(seen + [f], featureId, out)
    ensures IsAll(f, featureId) && !AllBefore(seen, featureId, |seen|) ==> IsFirstAll(seen + [f], featureId, f)
  {
    var next := seen + [f];
    assert next[|seen|] == f;
    AllBeforePrefix(seen, [f], featureId, |seen|);
    if IsFirstAll(seen, featureId, out) {
      var k :| 0 <= k < |seen| && seen[k] == out && IsAll(out, featureId) && !AllBefore(seen, featureId, k);
      AllBeforePrefix(seen, [f], featureId, k);
      assert next[k] == out;
    }
  }

  /** What one more feature does to the search. */
  lemma SearchStep(seen: seq<Feature>, f: Feature, asic: AsicMask, featureId: int, out: Option<Feature>, allFound: bool)
    requires Searching(seen, asic, featureId, out, allFound)
    ensures Undecided(seen, asic, featureId)
    ensures Decides(seen + [f], asic, featureId, |seen|)
       <==> f.featureId == featureId && !(f.supportedAsicMask == ASIC_TYPE_ALL && !allFound) && Supports(f, asic)
    ensures (f.featureId == featureId && f.supportedAsicMask == ASIC_TYPE_ALL && !allFound) ==>
              Searching(seen + [f], asic, featureId, Some(f), true)
    ensures (!(f.featureId == featureId && f.supportedAsicMask == ASIC_TYPE_ALL && !allFound)
              && !Decides(seen + [f], asic, featureId, |seen|)) ==>
              Searching(seen + [f], asic, featureId, out, allFound)
  {
    DecidesNext(seen, f, asic, featureId);
    UndecidedNext(seen, f, asic, featureId);
    AllNext(seen, f, featureId, if out.Some? then out.value else f);
    hide Decides, Undecided, AllBefore, IsFirstAll, Supports;
  }

  /** A feature that ends the search is the best of all that are registered. */
  lemma SearchEnds(seen: seq<Feature>, f: Feature, all: seq<Feature>, ps: seq<Plugin>, p: nat, i: nat,
                   asic: AsicMask, featureId: int)
    requires p < |ps| && forall i | 0 <= i < |ps| :: ps[i].Sized() && ps[i].numSupportedFeatures <= |ps[i].featureList|
    requires all == Scan(ps) && i < ps[p].numSupportedFeatures && ps[p].featureList[i] == Some(f)
    requires seen == Scan(ps[..p]) + Kept(ps[p].featureList[..i]) && Undecided(seen, asic, featureId)
    ensures Decides(seen + [f], asic, featureId, |seen|) ==> IsBest(all, asic, featureId, Some(f))
  {
    ScanSplit(ps, p);
    FeatureNext(ps[p], Scan(ps[..p]), i);
    hide Scan, Kept, Undecided, Decides;
    var next := seen + [f];
    assert next <= all;
    var rest := all[|next|..];
    assert all == next + rest;
    DecidesPrefix(next, rest, asic, featureId);
    assert all[..|seen|] == seen && all[|seen|] == f;
  }

  lemma SearchIsOver(seen: seq<Feature>, asic: AsicMask, featureId: int, out: Option<Feature>, allFound: bool)
    requires Searching(seen, asic, featureId, out, allFound)
    ensures IsBest(seen, asic, featureId, out)
  {
  }

  // ---------------------------------------------------------------- what the best match means

  /** For a set of silicon types within 16 bits, an entry for all silicon supports it. */
  lemma AllSupports(f: Feature, asic: AsicMask)
    requires f.supportedAsicMask == ASIC_TYPE_ALL
    ensures Supports(f, asic) <==> asic <= ASIC_TYPE_ALL
    ensures asic <= ASIC_TYPE_ALL <==> asic & !0xFFFF == 0
  {
  }

  /**
   What is returned is registered and has the requested identifier. It supports every requested silicon type,
   unless it is an entry for all silicon and the request has bits beyond the sixteen of `ASIC_TYPE_ALL`.
   */
  lemma BestIsSuitable(fs: seq<Feature>, asic: AsicMask, featureId: int, f: Feature)
    requires IsBest(fs, asic, featureId, Some(f))
    ensures f in fs && f.featureId == featureId
    ensures Supports(f, asic) <==> (f.supportedAsicMask == ASIC_TYPE_ALL ==> asic <= ASIC_TYPE_ALL)
  {
    if f.supportedAsicMask == ASIC_TYPE_ALL {
      AllSupports(f, asic);
    }
    hide Supports;
  }

  /** Nothing is returned only when nothing suitable is registered. */
  lemma NoneOnlyWhenNone(fs: seq<Feature>, asic: AsicMask, featureId: int, k: nat)
    requires IsBest(fs, asic, featureId, None) && k < |fs| && fs[k].featureId == featureId
    ensures !Supports(fs[k], asic)
  {
    assert !Decides(fs, asic, featureId, k);
  }

  /** A specific entry that supports the silicon. */
  predicate IsSpecific(f: Feature, asic: AsicMask, featureId: int) {
    f.featureId == featureId && Supports(f, asic) && f.supportedAsicMask != ASIC_TYPE_ALL
  }

  /** Two entries for all silicon stand before position `k`. */
  predicate TwoAllBefore(fs: seq<Feature>, featureId: int, k: nat)
    requires k <= |fs|
  {
    exists i, j :: 0 <= i < j < k && IsAll(fs[i], featureId) && IsAll(fs[j], featureId)
  }

  /**
   The first specific supporter is found exactly unless two entries for all silicon stand before it and the
   request is within their sixteen bits: the second of them then ends the search.
   */
  lemma FirstSpecificWinsIff(fs: seq<Feature>, asic: AsicMask, featureId: int, k: nat, best: Option<Feature>)
    requires IsBest(fs, asic, featureId, best)
    requires k < |fs| && IsSpecific(fs[k], asic, featureId)
    requires forall j | 0 <= j < k :: !IsSpecific(fs[j], asic, featureId)
    ensures best == Some(fs[k]) <==> !(asic <= ASIC_TYPE_ALL && TwoAllBefore(fs, featureId, k))
  {
    assert Decides(fs, asic, featureId, k);
    DecidedIsFirst(fs, asic, featureId, best);
    var b :| 0 <= b < |fs| && fs[b] == best.value && FirstDecides(fs, asic, featureId, b);
    forall j | 0 <= j < k
      ensures Decides(fs, asic, featureId, j)
         <==> IsAll(fs[j], featureId) && AllBefore(fs, featureId, j) && asic <= ASIC_TYPE_ALL
    {
      if fs[j].supportedAsicMask == ASIC_TYPE_ALL {
        AllSupports(fs[j], asic);
      }
    }
    hide Decides, Supports;
    assert b <= k;
    if asic <= ASIC_TYPE_ALL && TwoAllBefore(fs, featureId, k) {
      var i, j :| 0 <= i < j < k && IsAll(fs[i], featureId) && IsAll(fs[j], featureId);
      assert AllBefore(fs, featureId, j);
      assert b < k && best.value.supportedAsicMask == ASIC_TYPE_ALL;
    }
  }

  /** An entry supports a request exactly if none of the bits that are asked for is missing in its mask. */
  lemma SupportsIff(f: Feature, asic: AsicMask)
    ensures Supports(f, asic) <==> Missing(f.supportedAsicMask, asic) == 0
  {
    hide Covers, Missing;
    if Supports(f, asic) {
      NothingMissing(f.supportedAsicMask, asic);
    }
    if Missing(f.supportedAsicMask, asic) == 0 {
      AllPresent(f.supportedAsicMask, asic);
    }
  }

  /** The bits of a request that a mask lacks. */
  function Missing(mask: AsicMask, asic: AsicMask): AsicMask {
    asic & !mask
  }

  lemma NothingMissing(mask: AsicMask, asic: AsicMask)
    requires Covers(mask, asic)
    ensures Missing(mask, asic) == 0
  {
  }

  lemma AllPresent(mask: AsicMask, asic: AsicMask)
    requires Missing(mask, asic) == 0
    ensures Covers(mask, asic)
  {
  }

  /** The first entry for all silicon at `i`, and the second at `j`. */
  predicate FirstTwoAll(fs: seq<Feature>, featureId: int, i: nat, j: nat) {
    && i < j < |fs| && IsAll(fs[i], featureId) && IsAll(fs[j], featureId)
    && forall l | 0 <= l < j && l != i :: !IsAll(fs[l], featureId)
  }

  /** The entry at `k` is the first specific supporter, if `k` is below the length, or there is none. */
  predicate FirstSpecific(fs: seq<Feature>, asic: AsicMask, featureId: int, k: nat) {
    && k <= |fs| && (k < |fs| ==> IsSpecific(fs[k], asic, featureId))
    && forall l | 0 <= l < k :: !IsSpecific(fs[l], asic, featureId)
  }

  /**
   The second entry for all silicon is found exactly if the request is within their sixteen bits and no specific
   supporter stands before it.
   */
  lemma SecondAllWins(fs: seq<Feature>, asic: AsicMask, featureId: int, i: nat, j: nat, k: nat, best: Option<Feature>)
    requires IsBest(fs, asic, featureId, best) && FirstTwoAll(fs, featureId, i, j)
    requires FirstSpecific(fs, asic, featureId, k) && asic & !0xFFFF == 0 && j < k
    ensures best == Some(fs[j])
  {
    AllSupports(fs[j], asic);
    hide Supports;
    assert AllBefore(fs, featureId, j) && Decides(fs, asic, featureId, j);
    forall l | 0 <= l < j ensures !Decides(fs, asic, featureId, l) {
      assert l == i || !IsAll(fs[l], featureId);
    }
    DecidedIsFirst(fs, asic, featureId, best);
  }

  /** The first entry for all silicon at `i` is found if nothing ends the search, whatever silicon is asked for. */
  lemma FirstAllIsFallback(fs: seq<Feature>, asic: AsicMask, featureId: int, i: nat, best: Option<Feature>)
    requires IsBest(fs, asic, featureId, best) && i < |fs| && IsAll(fs[i], featureId)
    requires forall l | 0 <= l < i :: !IsAll(fs[l], featureId)
    requires FirstSpecific(fs, asic, featureId, |fs|)
    requires asic & !0xFFFF == 0 ==> forall l | i < l < |fs| :: !IsAll(fs[l], featureId)
    ensures best == Some(fs[i])
  {
    forall l | 0 <= l < |fs| ensures !Decides(fs, asic, featureId, l) {
      if fs[l].supportedAsicMask == ASIC_TYPE_ALL {
        AllSupports(fs[l], asic);
      }
    }
    hide Decides, Supports;
    assert AllBefore(fs, featureId, |fs|);
    var k :| 0 <= k < |fs| && fs[k] == best.value && IsAll(best.value, featureId) && !AllBefore(fs, featureId, k);
    assert k == i;
  }

  /** Nothing is found exactly if there is neither an entry for all silicon nor a specific supporter. */
  lemma NothingIsFoundIff(fs: seq<Feature>, asic: AsicMask, featureId: int, best: Option<Feature>)
    requires IsBest(fs, asic, featureId, best)
    ensures best.None?
       <==> FirstSpecific(fs, asic, featureId, |fs|) && forall l | 0 <= l < |fs| :: !IsAll(fs[l], featureId)
  {
    hide Supports;
    if best.None? {
      forall l | 0 <= l < |fs| ensures !IsSpecific(fs[l], asic, featureId) && !IsAll(fs[l], featureId) {
        assert !Decides(fs, asic, featureId, l);
      }
    }
  }

  /** At most one entry for all silicon with this identifier. */
  predicate SingleAll(fs: seq<Feature>, featureId: int) {
    forall j, k | 0 <= j < k < |fs| :: !(IsAll(fs[j], featureId) && IsAll(fs[k], featureId))
  }

  /** With a single entry for all silicon, the first specific supporter wins, wherever that entry stands. */
  lemma FirstSpecificWins(fs: seq<Feature>, asic: AsicMask, featureId: int, k: nat, best: Option<Feature>)
    requires IsBest(fs, asic, featureId, best) && SingleAll(fs, featureId)
    requires k < |fs| && IsSpecific(fs[k], asic, featureId)
    requires forall j | 0 <= j < k :: !IsSpecific(fs[j], asic, featureId)
    ensures best == Some(fs[k])
  {
    FirstSpecificWinsIff(fs, asic, featureId, k, best);
  }

  /** With two of them, the second one beats a specific entry that comes later. */
  lemma SecondAllBeatsSpecific(asic: AsicMask, a: Feature, b: Feature, specific: Feature, best: Option<Feature>)
    requires IsAll(a, specific.featureId) && IsAll(b, specific.featureId) && asic <= ASIC_TYPE_ALL
    requires IsSpecific(specific, asic, specific.featureId) && a != b
    requires IsBest([a, b, specific], asic, specific.featureId, best)
    ensures best == Some(b)
  {
    var fs, id := [a, b, specific], specific.featureId;
    AllSupports(b, asic);
    assert IsAll(fs[0], id);
    assert Decides(fs, asic, id, 1) && !Decides(fs, asic, id, 0);
    DecidedIsFirst(fs, asic, id, best);
  }

  /** The search has one possible result. */
  lemma BestIsUnique(fs: seq<Feature>, asic: AsicMask, featureId: int, f: Option<Feature>, g: Option<Feature>)
    requires IsBest(fs, asic, featureId, f) && IsBest(fs, asic, featureId, g)
    ensures f == g
  {
    if k :| 0 <= k < |fs| && Decides(fs, asic, featureId, k) {
      DecidedIsFirst(fs, asic, featureId, f);
      DecidedIsFirst(fs, asic, featureId, g);
      var i :| 0 <= i < |fs| && fs[i] == f.value && FirstDecides(fs, asic, featureId, i);
      var j :| 0 <= j < |fs| && fs[j] == g.value && FirstDecides(fs, asic, featureId, j);
      assert i == j;
    } else if f.Some? && g.Some? {
      hide Decides;
      var i :| 0 <= i < |fs| && fs[i] == f.value && IsAll(f.value, featureId) && !AllBefore(fs, featureId, i);
      var j :| 0 <= j < |fs| && fs[j] == g.value && IsAll(g.value, featureId) && !AllBefore(fs, featureId, j);
      assert i == j;
    }
  }

  ghost predicate FirstDecides(fs: seq<Feature>, asic: AsicMask, featureId: int, k: nat)
    requires k < |fs|
  {
    Decides(fs, asic, featureId, k) && forall j | 0 <= j < k :: !Decides(fs, asic, featureId, j)
  }

  lemma DecidedIsFirst(fs: seq<Feature>, asic: AsicMask, featureId: int, f: Option<Feature>)
    requires IsBest(fs, asic, featureId, f) && !Undecided(fs, asic, featureId)
    ensures f.Some? && exists k :: 0 <= k < |fs| && fs[k] == f.value && FirstDecides(fs, asic, featureId, k)
  {
    var k :| 0 <= k < |fs| && fs[k] == f.value
             && Decides(fs, asic, featureId, k) && Undecided(fs[..k], asic, featureId);
    assert fs == fs[..k] + fs[k..];
    DecidesPrefix(fs[..k], fs[k..], asic, featureId);
    hide Decides;
    assert FirstDecides(fs, asic, featureId, k);
  }
}
