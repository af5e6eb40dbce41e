/** The form state of the endpoint options page and the user actions that
    change it: typing in the "Add endpoint" input, pressing Add, and the
    per-row "set default" and "delete" actions.

    Saving the list to preferences and reading it back is modelled as the
    displayed list becoming the saved list. Whether a string parses as a URL
    is not modelled; it is the parameter `isUrl`. */
module OptionsPage {
  import opened Sanitization
  import opened Endpoints

  /** Validation state of the text input. */
  datatype Status = Default | Success | Error

  datatype Form = Form(endpoints: seq<Endpoint>, newUrl: string, status: Status)

  /** The state on first render, before the stored list arrives. */
  function Initial(): Form {
    Form([], "", Default)
  }

  /** Validation of the typed text: empty text is neutral, text that parses
      as a URL is accepted, anything else is an error. */
  function StatusOf(text: string, isUrl: string -> bool): (st: Status)
    ensures st == Default <==> text == ""
    ensures st == Success <==> text != "" && isUrl(text)
    ensures st == Error <==> text != "" && !isUrl(text)
  {
    if text == "" then Default
    else if isUrl(text) then Success
    else Error
  }

  /** The status shown matches the text in the input. */
  predicate StatusConsistent(f: Form, isUrl: string -> bool) {
    f.status == StatusOf(f.newUrl, isUrl)
  }

  /** `handleNewEndpointUrlChange`: the input holds exactly the typed text and
      the status is recomputed from it; the list is untouched. */
  function ChangeInput(f: Form, text: string, isUrl: string -> bool): (f': Form)
    ensures f'.newUrl == text
    ensures f'.endpoints == f.endpoints
    ensures StatusConsistent(f', isUrl)
  {
    f.(newUrl := text, status := StatusOf(text, isUrl))
  }

  /** The Add button is enabled unless the input is empty or in error. */
  predicate AddEnabled(f: Form) {
    !(|f.newUrl| == 0 || f.status == Error)
  }

  /** In a state whose status matches its text, Add is enabled exactly when
      the status is `Success`, i.e. when the text is a non-empty URL. */
  lemma AddEnabledIffSuccess(f: Form, isUrl: string -> bool)
    requires StatusConsistent(f, isUrl)
    ensures AddEnabled(f) <==> f.status == Success
    ensures AddEnabled(f) <==> f.newUrl != "" && isUrl(f.newUrl)
  {
  }

  /** `addNewEndpoint`: the sanitised text is appended as a new inactive,
      non-readonly entry, and the input returns to its initial state. */
  function AddEndpoint(f: Form): (f': Form)
    ensures |f'.endpoints| == |f.endpoints| + 1
    ensures f'.endpoints[..|f.endpoints|] == f.endpoints
    ensures var e := f'.endpoints[|f.endpoints|];
            && IsStrippedOf(e.url, f.newUrl)
            && !e.active && !e.readonly
            && e.id !in Ids(f.endpoints)
    ensures f'.newUrl == Initial().newUrl && f'.status == Initial().status
  {
    Form(AppendNew(f.endpoints, SanitizeEndpoint(f.newUrl)), "", Default)
  }

  /** Pressing Add: a disabled button does nothing, an enabled one adds. */
  function ClickAdd(f: Form): (f': Form)
    ensures f' == f <==> !AddEnabled(f)
    ensures AddEnabled(f) ==> f' == AddEndpoint(f)
  {
    if AddEnabled(f) then AddEndpoint(f) else f
  }

  /** The per-row "set default" action: only the list changes. */
  function ClickSetDefault(f: Form, target: Endpoint): (f': Form)
    ensures f'.newUrl == f.newUrl && f'.status == f.status
    ensures f'.endpoints == SetDefault(f.endpoints, target)
    ensures |f'.endpoints| == |f.endpoints|
    ensures ActiveIndices(f'.endpoints) == Occurrences(f.endpoints, target)
  {
    SetDefaultActiveAreOccurrences(f.endpoints, target);
    f.(endpoints := SetDefault(f.endpoints, target))
  }

  /** The per-row "delete" action: only the list changes. */
  function ClickDelete(f: Form, target: Endpoint): (f': Form)
    ensures f'.newUrl == f.newUrl && f'.status == f.status
    ensures f'.endpoints == Delete(f.endpoints, target)
    ensures forall e :: e in f'.endpoints <==> e in f.endpoints && !SameObject(e, target)
  {
    f.(endpoints := Delete(f.endpoints, target))
  }

  /** The user actions the page reacts to. */
  datatype Action =
    | Type(text: string)
    | PressAdd
    | PressSetDefault(target: Endpoint)
    | PressDelete(target: Endpoint)

  /** How the page routes each user event to its handler: typing goes to
      `handleNewEndpointUrlChange`, the Add button to `addNewEndpoint` (only
      while enabled), the row actions to `setDefault` and `deleteEndpoint`. */
  function Step(f: Form, a: Action, isUrl: string -> bool): (f': Form)
    ensures a.Type? ==> f'.newUrl == a.text && f'.endpoints == f.endpoints
                        && StatusConsistent(f', isUrl)
    ensures a.PressAdd? ==> (f' == f <==> !AddEnabled(f))
    ensures a.PressAdd? ==> f' == ClickAdd(f)
    ensures a.PressSetDefault? ==>
              f'.newUrl == f.newUrl && f'.status == f.status
              && f'.endpoints == SetDefault(f.endpoints, a.target)
    ensures a.PressDelete? ==>
              f'.newUrl == f.newUrl && f'.status == f.status
              && f'.endpoints == Delete(f.endpoints, a.target)
  {
    match a
    case Type(text) => ChangeInput(f, text, isUrl)
    case PressAdd => ClickAdd(f)
    case PressSetDefault(target) => ClickSetDefault(f, target)
    case PressDelete(target) => ClickDelete(f, target)
  }

  function Run(f: Form, actions: seq<Action>, isUrl: string -> bool): Form
    decreases |actions|
  {
    if |actions| == 0 then f
    else Run(Step(f, actions[0], isUrl), actions[1..], isUrl)
  }

  /** What holds of every state the page can be in: the status matches the
      text, the entries are distinct objects, at most one is the default, and
      no stored url ends in '/'. */
  ghost predicate Invariant(f: Form, isUrl: string -> bool) {
    && StatusConsistent(f, isUrl)
    && WellFormed(f.endpoints)
    && forall i :: 0 <= i < |f.endpoints| ==> !EndsWithSlash(f.endpoints[i].url)
  }

  lemma InitialInvariant(isUrl: string -> bool)
    ensures Invariant(Initial(), isUrl)
  {
  }

  /** Every action keeps the invariant. */
  lemma StepKeepsInvariant(f: Form, a: Action, isUrl: string -> bool)
    requires Invariant(f, isUrl)
    ensures Invariant(Step(f, a, isUrl), isUrl)
  {
    match a
    case Type(text) =>
    case PressAdd =>
      if AddEnabled(f) {
        AppendNewKeepsWellFormed(f.endpoints, SanitizeEndpoint(f.newUrl));
      }
    case PressSetDefault(target) =>
      SetDefaultMakesWellFormed(f.endpoints, target);
    case PressDelete(target) =>
      DeleteKeepsWellFormed(f.endpoints, target);
      var r := Delete(f.endpoints, target);
      forall i | 0 <= i < |r|
        ensures !EndsWithSlash(r[i].url)
      {
        assert r[i] in f.endpoints;
      }
  }

  /** Every sequence of actions from a state satisfying the invariant keeps
      it. */
  lemma {:induction false} RunKeepsInvariant(f: Form, actions: seq<Action>, isUrl: string -> bool)
    requires Invariant(f, isUrl)
    ensures Invariant(Run(f, actions, isUrl), isUrl)
    decreases |actions|
  {
    if |actions| > 0 {
      StepKeepsInvariant(f, actions[0], isUrl);
      RunKeepsInvariant(Step(f, actions[0], isUrl), actions[1..], isUrl);
    }
  }

  /** Every state reachable from the initial one satisfies the invariant. */
  lemma ReachableInvariant(actions: seq<Action>, isUrl: string -> bool)
    ensures Invariant(Run(Initial(), actions, isUrl), isUrl)
  {
    InitialInvariant(isUrl);
    RunKeepsInvariant(Initial(), actions, isUrl);
  }

  /** Starting from one stored entry and typing "https://b.com//", Add stores
      "https://b.com" as a new inactive entry after the existing one. */
  lemma AddScenario(isUrl: string -> bool)
    requires isUrl("https://b.com//")
    ensures var a := Endpoint(0, "https://a.com", true, false);
            var f := Step(Form([a], "", Default), Type("https://b.com//"), isUrl);
            Step(f, PressAdd, isUrl).endpoints
              == [a, Endpoint(1, "https://b.com", false, false)]
  {
    assert SanitizeEndpoint("https://b.com//") == "https://b.com" by {
      assert "https://b.com//"[..14] == "https://b.com/";
      assert "https://b.com/"[..13] == "https://b.com";
    }
  }

  /** With two entries, the first the default, setting the second as default
      deactivates the first and activates the second. */
  lemma SetDefaultScenario(isUrl: string -> bool)
    ensures var a := Endpoint(0, "https://a.com", true, false);
            var b := Endpoint(1, "https://b.com", false, false);
            Step(Form([a, b], "", Default), PressSetDefault(b), isUrl).endpoints
              == [a.(active := false), b.(active := true)]
  {
  }
}
