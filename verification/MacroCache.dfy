/**
 The cached macro definitions (cmd/showmesh-fpp-plugin/cache.go).
 */
module MacroCaches {
  import opened Sequences
  import opened Files
  import opened FailureBuffers

  datatype DefinitionStep = DefinitionStep(id: string, fallbackClass: string, fallbackReason: string)

  /** The part of a show.macro object that this program reads. */
  datatype Definition = Definition(caption: string, steps: seq<DefinitionStep>)

  /** The answer to a GET of a macro's definition: its current revision and content. */
  datatype MacroConfig = MacroConfig(revision: int, payload: Definition)

  datatype CachedStep = CachedStep(stepId: string, localFallbackClass: string, localFallbackReason: string)

  datatype CacheEntry = CacheEntry(caption: string, macroRevision: int, cachedAt: Time, steps: seq<CachedStep>)

  datatype MacroCache = MacroCache(macros: map<string, CacheEntry>)

  /** An absent cache is empty; an unreadable one is started afresh by whoever writes next. */
  function Loaded(file: File<MacroCache>): MacroCache {
    if file.Holds? then file.value else MacroCache(map[])
  }

  function CachedRevisionFor(file: File<MacroCache>, macroId: string): Option<int> {
    if file.Holds? && macroId in file.value.macros then Some(file.value.macros[macroId].macroRevision) else None
  }

  /** The entry says what `d` says. */
  predicate Mirrors(e: CacheEntry, d: Definition) {
    && e.caption == d.caption
    && |e.steps| == |d.steps|
    && forall i :: 0 <= i < |d.steps| ==>
         e.steps[i] == CachedStep(d.steps[i].id, d.steps[i].fallbackClass, d.steps[i].fallbackReason)
  }

  function EntrySteps(d: Definition): (r: seq<CachedStep>)
    ensures |r| == |d.steps|
    ensures forall i :: 0 <= i < |d.steps| ==>
      r[i] == CachedStep(d.steps[i].id, d.steps[i].fallbackClass, d.steps[i].fallbackReason)
  {
    seq(|d.steps|, i requires 0 <= i < |d.steps| =>
      CachedStep(d.steps[i].id, d.steps[i].fallbackClass, d.steps[i].fallbackReason))
  }

  function Updated(file: File<MacroCache>, macroId: string, cfg: MacroConfig, now: Time): MacroCache {
    MacroCache(Loaded(file).macros[macroId :=
      CacheEntry(cfg.payload.caption, cfg.revision, now, EntrySteps(cfg.payload))])
  }

  method UpdateMacroCache(file: File<MacroCache>, macroId: string, cfg: MacroConfig, now: Time)
    returns (c: MacroCache)
    ensures c == Updated(file, macroId, cfg, now)
    ensures macroId in c.macros && Mirrors(c.macros[macroId], cfg.payload)
    ensures c.macros[macroId].macroRevision == cfg.revision && c.macros[macroId].cachedAt == now
    ensures c.macros - {macroId} == if file.Holds? then file.value.macros - {macroId} else map[]
  {
    var macros := if file.Holds? then file.value.macros else map[];
    var steps := [];
    var i := 0;
    while i < |cfg.payload.steps|
      invariant 0 <= i <= |cfg.payload.steps|
      invariant steps == EntrySteps(cfg.payload)[..i]
    {
      var s := cfg.payload.steps[i];
      steps := steps + [CachedStep(s.id, s.fallbackClass, s.fallbackReason)];
      i := i + 1;
    }
    assert steps == EntrySteps(cfg.payload);
    c := MacroCache(macros[macroId := CacheEntry(cfg.payload.caption, cfg.revision, now, steps)]);
  }

  // ---------------------------------------------------------------------------------------------
  // Agreement with the definitions
  // ---------------------------------------------------------------------------------------------

  /** Definitions never change under a revision: what each macro said at each of its revisions. */
  type Definitions = (string, int) -> Definition

  ghost predicate Agrees(file: File<MacroCache>, defs: Definitions) {
    file.Holds? ==> forall m :: m in file.value.macros ==>
      Mirrors(file.value.macros[m], defs(m, file.value.macros[m].macroRevision))
  }

  lemma UpdateAgrees(file: File<MacroCache>, macroId: string, cfg: MacroConfig, now: Time, defs: Definitions)
    requires Agrees(file, defs) && cfg.payload == defs(macroId, cfg.revision)
    ensures Agrees(Holds(Updated(file, macroId, cfg, now)), defs)
    ensures forall m :: m != macroId && file.Holds? && m in file.value.macros ==>
      m in Updated(file, macroId, cfg, now).macros
      && Updated(file, macroId, cfg, now).macros[m] == file.value.macros[m]
  {
  }
}
