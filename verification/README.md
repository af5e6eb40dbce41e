# Endpoint options page — Dafny model

A model of the logic inside the options page of the "Try in Dev Spaces"
browser extension (`src/options/App.tsx`). The page keeps an ordered list of
Dev Spaces endpoints `{url, active, readonly}` and a text input for a new
endpoint URL. The model covers:

- trailing-slash sanitisation of a typed URL (`sanitizeEndpoint`), as a
  recursive definition, a loop written like the source's, and a
  characterisation proved equal to both (`sanitization.dfy`, module
  `Sanitization`);
- the endpoint list and its three mutations — append a new entry,
  `setDefault` and `deleteEndpoint` (`endpoints.dfy`, module `Endpoints`).
  The page compares entries with JavaScript reference equality, so every
  entry carries an explicit object identity `id`. Two entries are the same
  object exactly when their ids are equal;
- the form state `{endpoints, newUrl, status}`: the three-valued input status
  (`default` / `success` / `error`), the Add button's enabling rule, the
  user actions as pure transitions, and an invariant kept by every sequence of
  actions from the initial state (`options_page.dfy`, module `OptionsPage`).

Whether a string parses as a URL (`isUrl`, which defers to the platform `URL`
constructor) is a parameter `isUrl: string -> bool` of the operations that
need it.

Two consequences of the code that a quick reading of the page could miss:

- Deleting removes every position holding the chosen object, not one. The
  length drops by exactly one only when that object occurs once.
  `Endpoints.DeletePresent` proves this when the object occurs only at the
  deleted position. When the
  object is absent, the list is unchanged (`Endpoints.DeleteAbsent`).
- `setDefault` with an object that is not in the list leaves no entry active
  (`Endpoints.SetDefaultAbsent`).

## Model

| member | source | states |
|---|---|---|
| Sanitization.SanitizeEndpoint | src/options/App.tsx:87-93 | the result is a prefix of the input, the rest of the input is only '/' characters, and the result does not end in '/' (the empty string does not end in '/', as `charAt(-1)` is "") |
| Sanitization.SanitizeEndpointLoop | src/options/App.tsx:87-93 | the source's while loop, which drops the last character while it is '/', computes exactly the stripped form, and agrees with `SanitizeEndpoint` |
| Sanitization.StrippedUnique | src/options/App.tsx:87-93 | a string has at most one stripped form: cutting off exactly the whole trailing run of '/' determines the result |
| Sanitization.SanitizeCharacterised | src/options/App.tsx:87-93 | a string is the sanitised form of `s` if and only if it is `s` with its whole trailing run of '/' removed |
| Sanitization.SanitizeFixedPoints | src/options/App.tsx:87-93 | sanitising returns its input unchanged if and only if the input does not end in '/' |
| Sanitization.SanitizeIdempotent | src/options/App.tsx:87-93 | sanitising twice gives the same result as sanitising once |
| Sanitization.SanitizeEmptyIff | src/options/App.tsx:87-93 | the result is empty if and only if the input consists only of '/' characters |
| Sanitization.SanitizeIgnoresTrailingSlashes | src/options/App.tsx:87-93 | appending any run of '/' to an input does not change its sanitised form |
| Endpoints.FreshId | src/options/App.tsx:76-80 | the object literal appended by `concat` is a new object, distinct from every object already in the list |
| Endpoints.AppendNew | src/options/App.tsx:76-80 | the list grows by one, the old entries are unchanged in place, and the last entry is a new object with the given url, `active` false and `readonly` false |
| Endpoints.SetDefault | src/options/App.tsx:95-99 | same length and order; every entry keeps its identity, url and readonly flag; an entry is active exactly when it is the chosen object |
| Endpoints.SetDefaultActiveAreOccurrences | src/options/App.tsx:95-99 | after `setDefault`, the active positions are exactly the positions holding the chosen object |
| Endpoints.SetDefaultPresent | src/options/App.tsx:95-99 | when the chosen object occurs only at position k, position k is the only active entry afterwards |
| Endpoints.UniqueOccurrence | src/options/App.tsx:95-105 | in a list of distinct objects, the reference comparison `e == endpoint` matches only the chosen position, so the single-occurrence facts about `setDefault` and `deleteEndpoint` apply |
| Endpoints.SetDefaultAbsent | src/options/App.tsx:95-99 | choosing an object that is not in the list leaves no entry active |
| Endpoints.SetDefaultIdempotent | src/options/App.tsx:95-99 | choosing the same default twice gives the same list as choosing it once |
| Endpoints.SetDefaultMakesWellFormed | src/options/App.tsx:95-99 | with distinct objects, the result has at most one active entry, whatever was active before |
| Endpoints.Delete | src/options/App.tsx:104-105 | an entry is in the result if and only if it is in the input and is not the chosen object; the result is no longer than the input |
| Endpoints.DeleteAppend | src/options/App.tsx:104-105 | filtering a concatenation filters each part, so the surviving entries keep their relative order |
| Endpoints.DeleteAbsent | src/options/App.tsx:104-105 | deleting an object that is not in the list leaves the list unchanged |
| Endpoints.DeletePresent | src/options/App.tsx:104-105 | when the chosen object occurs only at position k, deleting it yields the list without position k, one shorter |
| Endpoints.DeleteKeepsWellFormed | src/options/App.tsx:104-105 | deleting from a list of distinct objects with at most one active entry keeps both properties |
| Endpoints.AppendNewKeepsWellFormed | src/options/App.tsx:74-80 | appending the new inactive object keeps the objects distinct and at most one entry active |
| OptionsPage.StatusOf | src/options/App.tsx:56-62 | status is `Default` iff the text is empty, `Success` iff it is non-empty and parses as a URL, `Error` iff it is non-empty and does not parse |
| OptionsPage.ChangeInput | src/options/App.tsx:51-63 | the input holds exactly the typed text, the status matches that text, and the list is untouched |
| OptionsPage.AddEnabledIffSuccess | src/options/App.tsx:167-170 | when the status matches the text, the Add button (`AddEnabled`, the negation of its `isDisabled` condition) is enabled iff the status is `Success`, i.e. iff the text is non-empty and parses as a URL |
| OptionsPage.AddEndpoint | src/options/App.tsx:74-85 | one more entry, the old entries unchanged, the new last entry a new object whose url is the typed text with trailing slashes stripped, inactive and not readonly; input and status return to their initial values |
| OptionsPage.ClickAdd | src/options/App.tsx:164-170 | pressing Add changes the state if and only if the button is enabled (`AddEnabled`: input non-empty and status not `error`), and then it performs `addNewEndpoint` |
| OptionsPage.ClickSetDefault | src/options/App.tsx:95-102 | the "set default" action leaves the input and its status alone and the shown list becomes `SetDefault` of the old one (so every entry keeps its place, identity, url and readonly flag), with the active entries exactly the positions of the chosen object |
| OptionsPage.ClickDelete | src/options/App.tsx:104-108 | the "delete" action leaves the input and its status alone and the shown list becomes `Delete` of the old one (the `filter`, keeping order); an entry is shown afterwards iff it was shown before and is not the chosen object |
| OptionsPage.InitialInvariant | src/options/App.tsx:35-40 | the initial state `Initial` (the `useState` values: empty list, empty input, `default` status) satisfies the page invariant |
| OptionsPage.Step | src/options/App.tsx:113-166 | how each user event reaches its handler: typing sets the text and a matching status and leaves the list alone; Add performs `ClickAdd` (and so changes the state iff it is enabled); the row actions change only the list, to `SetDefault` / `Delete` of it |
| OptionsPage.StepKeepsInvariant | src/options/App.tsx:51-108 | every user action routed by `Step` keeps the page invariant: status matches text, distinct objects, at most one active entry, no stored url ending in '/' |
| OptionsPage.RunKeepsInvariant | src/options/App.tsx:51-108 | every sequence of user actions from a state satisfying the page invariant keeps it |
| OptionsPage.ReachableInvariant | src/options/App.tsx:35-108 | every state reached from the initial `useState` values by any sequence of user actions satisfies the page invariant |
| OptionsPage.AddScenario | src/options/App.tsx:74-93 | with `[a.com (active)]` stored, typing "https://b.com//" and pressing Add stores `[a.com (active), b.com (inactive, not readonly)]` |
| OptionsPage.SetDefaultScenario | src/options/App.tsx:95-99 | with two entries, the first active, setting the second as default makes the first inactive and the second active |

## Left out

- Saving to and reading from preferences (`getEndpoints`, `saveEndpoints`, src/options/App.tsx:42-49, 81-82, 100-101, 106-107): asynchronous I/O against a module that is not part of this model. A mutation is modelled as the shown list becoming the saved list. Re-reading yields fresh objects in the source; the model keeps the saved identities instead.
- The initial fetch on mount and its `console.error` on failure (src/options/App.tsx:42-44): I/O and logging. The model's initial list is the empty list the page starts with.
- `isUrl` (src/options/App.tsx:65-72): it defers to the platform URL parser. It is the parameter `isUrl` instead of a URL grammar.
- Lost updates between overlapping asynchronous mutations, and rejected promises inside the mutations: concurrency and error propagation outside a sequential model.
- The in-place mutation of the shared entry objects in `setDefault` (src/options/App.tsx:96-99 copies the array but not the entries): modelled as a pure map over the list, which is the observable result.
- Rendering, the PatternFly components and the helper text (src/options/App.tsx:110-178): UI only. The model takes two things from these lines: the Add button's `isDisabled` condition, and the wiring of the four handlers to their events (`onClickSetDefault` and `onClickDelete` at lines 113-114, `onChange` at line 157, `onClick` at line 166), which `OptionsPage.Step` models.
- Identities of deleted entries: `Endpoints.FreshId` is fresh only with respect to the current list, so a new entry may reuse the id of an entry deleted earlier. A stale reference to a deleted object can then match the new entry, where in the source it would match nothing. Stale references across deletions are therefore not modelled.
- Protection of `readonly` entries: the page does not enforce it, so the model does not either.
