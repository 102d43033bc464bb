/**
  The debugger's scopes store: the scope sections of the selected call
  frame, rebuilt from the debugger's actions. The store keeps an immutable
  sequence of sections and replaces it on every relevant action.
 */
module ScopesStore {

  /** The variables of one scope as the debugger expanded them. */
  type ExpansionResult(==)

  datatype ScopeSection = ScopeSection(name: string, scopeVariables: ExpansionResult)

  /** The debugger actions; `OtherDebuggerAction` stands for every action type the store ignores. */
  datatype DebuggerAction =
    | ClearInterface
    | SetSelectedCallframeIndex(index: int)
    | UpdateScopes(scopeVariables: ExpansionResult, scopeName: string)
    | OtherDebuggerAction(actionType: string)

  /** The sections a new store starts with. */
  const InitialScopes: seq<ScopeSection> := []

  predicate IsReset(a: DebuggerAction) {
    a.ClearInterface? || a.SetSelectedCallframeIndex?
  }

  /** Forget every section. */
  function HandleClearInterface(scopes: seq<ScopeSection>): (r: seq<ScopeSection>)
    ensures |r| == 0
  {
    []
  }

  /** Append one section; the earlier ones stay, in order. */
  function HandleUpdateScopes(scopes: seq<ScopeSection>, scopeVariables: ExpansionResult, scopeName: string)
    : (r: seq<ScopeSection>)
    ensures |r| == |scopes| + 1
    ensures r[..|scopes|] == scopes
    ensures r[|scopes|].name == scopeName && r[|scopes|].scopeVariables == scopeVariables
  {
    scopes + [ScopeSection(scopeName, scopeVariables)]
  }

  /** The dispatcher callback: two kinds of action reset, one appends, the rest are ignored. */
  function HandlePayload(scopes: seq<ScopeSection>, payload: DebuggerAction): (r: seq<ScopeSection>)
    ensures IsReset(payload) ==> r == []
    ensures payload.UpdateScopes? ==>
      (|r| == |scopes| + 1 && r[..|scopes|] == scopes
       && r[|scopes|] == ScopeSection(payload.scopeName, payload.scopeVariables))
    ensures payload.OtherDebuggerAction? ==> r == scopes
  {
    match payload
    case ClearInterface => HandleClearInterface(scopes)
    case SetSelectedCallframeIndex(_) => HandleClearInterface(scopes)
    case UpdateScopes(scopeVariables, scopeName) => HandleUpdateScopes(scopes, scopeVariables, scopeName)
    case OtherDebuggerAction(_) => scopes
  }

  /** The store's sections after it has handled `payloads` in dispatch order. */
  function HandleAll(scopes: seq<ScopeSection>, payloads: seq<DebuggerAction>): (r: seq<ScopeSection>)
    decreases |payloads|
  {
    if |payloads| == 0 then scopes else HandleAll(HandlePayload(scopes, payloads[0]), payloads[1..])
  }

  /** The sections the updates among `payloads` carry, in dispatch order. */
  function SectionsOf(payloads: seq<DebuggerAction>): (r: seq<ScopeSection>)
    decreases |payloads|
  {
    if |payloads| == 0 then []
    else
      var first := payloads[0];
      (if first.UpdateScopes? then [ScopeSection(first.scopeName, first.scopeVariables)] else [])
        + SectionsOf(payloads[1..])
  }

  predicate NoReset(payloads: seq<DebuggerAction>) {
    forall i :: 0 <= i < |payloads| ==> !IsReset(payloads[i])
  }

  /** Without a reset, the store keeps what it had and appends the updates' sections in order. */
  lemma {:induction false} HandleAllWithoutReset(scopes: seq<ScopeSection>, payloads: seq<DebuggerAction>)
    requires NoReset(payloads)
    ensures HandleAll(scopes, payloads) == scopes + SectionsOf(payloads)
    decreases |payloads|
  {
    if |payloads| > 0 {
      var next := HandlePayload(scopes, payloads[0]);
      HandleAllWithoutReset(next, payloads[1..]);
      if payloads[0].UpdateScopes? {
        assert next == scopes + [ScopeSection(payloads[0].scopeName, payloads[0].scopeVariables)];
      }
    }
  }

  /**
    Whatever the store held, a reset followed by updates leaves exactly the
    updates' sections, in dispatch order.
   */
  lemma ResetThenUpdates(scopes: seq<ScopeSection>, reset: DebuggerAction, payloads: seq<DebuggerAction>)
    requires IsReset(reset) && NoReset(payloads)
    ensures HandleAll(scopes, [reset] + payloads) == SectionsOf(payloads)
  {
    assert ([reset] + payloads)[1..] == payloads;
    HandleAllWithoutReset([], payloads);
  }

  /** The updates' sections are exactly as many as the updates. */
  lemma {:induction false} SectionsOfUpdatesOnly(payloads: seq<DebuggerAction>)
    requires forall i :: 0 <= i < |payloads| ==> payloads[i].UpdateScopes?
    ensures |SectionsOf(payloads)| == |payloads|
    ensures forall i :: 0 <= i < |payloads| ==>
      SectionsOf(payloads)[i] == ScopeSection(payloads[i].scopeName, payloads[i].scopeVariables)
    decreases |payloads|
  {
    if |payloads| > 0 {
      SectionsOfUpdatesOnly(payloads[1..]);
    }
  }

  /**
    A new store, or one just reset, that receives n updates holds exactly n
    sections, the i-th being the i-th update's name and variables.
   */
  lemma UpdatesFromEmpty(payloads: seq<DebuggerAction>)
    requires forall i :: 0 <= i < |payloads| ==> payloads[i].UpdateScopes?
    ensures |HandleAll(InitialScopes, payloads)| == |payloads|
    ensures forall i :: 0 <= i < |payloads| ==>
      HandleAll(InitialScopes, payloads)[i] == ScopeSection(payloads[i].scopeName, payloads[i].scopeVariables)
  {
    HandleAllWithoutReset(InitialScopes, payloads);
    assert InitialScopes + SectionsOf(payloads) == SectionsOf(payloads);
    SectionsOfUpdatesOnly(payloads);
  }
}
