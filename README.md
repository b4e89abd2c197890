# miniltconnect background page, modelled in Dafny

miniltconnect is a Chrome extension. It connects one browser tab at a time
to a LightTable bridge on `http://localhost:<port>`. Its background page
keeps three things: the configuration (the port and the set of hostnames
for which auto-connect is enabled), a single connection slot
(`lastActiveTabId`), and a set of tab listeners. On every navigation,
reload, load completion or tab activation, the listeners decide whether to
inject a connect script, a disconnect script, or nothing. The page updates
the slot only later, in the completion callback of each injection, apart
from a reload of the slot's tab, which clears the slot at once
(`background.js:186-189`).

The project models that page:

- `options.dfy`, `chars.dfy`: `Option`, and the character classes `\s`,
  `\w` and decimal digit.
- `url.dfy` (module `Url`): `getHostname`, built the way the code builds
  it, from `String.prototype.split`. A URL without `//` makes the code
  throw; the model returns `None`.
- `template.dfy` (module `Template`): `sub`, the `{{ name }}` substitution,
  as a scan over the text that follows the global regular expression.
- `numbers.dfy` (module `Numbers`): `parseInt(text, 10)` and the decimal
  rendering of an integer.
- `background_model.dfy` (module `BackgroundModel`): the whole page as a
  value `State`. It holds the port, the hostnames, the slot, the trace of
  requested injections, the pending completions and the log of storage
  writes. There is one function per operation and listener, plus `Step`
  and `Run` over a sequence of events. A completion is an event of its
  own, so any pending completion can run at any later point, in any order,
  or never.
- `background_props.dfy` (module `BackgroundProps`): the properties of the
  page, proved about those functions, and the invariant `Valid`.
- `background_page.dfy` (module `BackgroundPage`): class `Background` has
  the page's variables as fields and its functions as methods that update
  them in place. Each method ensures that the new state is the matching
  `BackgroundModel` function of the old state, and that `Valid` still
  holds.

Where the intended behaviour of the page and the code differ, the model
follows the code:

- `setPort` is meant to reconnect the connected tab on the new port, by
  re-injecting the connect script for that port. The code calls `connectToTab` with
  the slot's own tab (`background.js:53-54`), and the guard at
  `background.js:166` turns that call into a no-op. See "## Findings".
- Two `connectToTab(t)` calls in a row are meant to inject one connect.
  That holds only once the first connect's completion has run
  (`ConnectTwiceAfterCompletion`). Before that, the slot still holds what
  it held before (nothing, or the old tab), so the second call injects
  again (`ConnectTwiceBeforeCompletion`, `SwitchTwiceBeforeCompletion`).
- A switch from one tab to another is meant to clear the slot and then
  set it. The code sets and clears the slot for a switch only in the
  completion callbacks (`background.js:151-157`); only a reload of the
  slot's tab clears it directly (`background.js:186-189`). If completions are late, two connect
  injections can be outstanding, and the first tab never gets a
  disconnect (`ConnectTwiceBeforeCompletion`).
- The truthiness tests at `background.js:53` and `background.js:167` treat
  tab id `0` as an empty slot (`BackgroundModel.Truthy`).

## Model

| member | source | states |
|---|---|---|
| Url.IndexOf | background.js:109 | the result is the first index at which the separator occurs, and `None` exactly when it occurs nowhere |
| Url.GetHostnameSpec | background.js:108-110 | `getHostname(url)` is undefined (throws) exactly when `url` has no `//`; otherwise it is the text right after the first `//`, contains no `/`, and ends at the next `/` or at the end of the URL |
| Url.HostnameOfBuiltUrl | background.js:108-110 | for a URL made of a slash-free scheme, `//`, a slash-free host and an empty or `/`-led path, `getHostname` gives back exactly the host |
| Url.GetHostnameOf | background.js:108-110 | conversely, the slash-free text after the first `//`, up to the next `/` or the end of the URL, is the hostname |
| Url.SplitJoin | background.js:109 | joining the pieces of `split` with the separator gives back the text, and no piece contains the separator |
| Template.MatchAtSound | background.js:120 | every match at the start of the text is a placeholder: `{{`, white space, a non-empty run of `\w` characters as its name, white space and `}}`; with `HoleMatchAt`, the regular expression matches exactly the well-formed placeholders |
| Template.HoleMatchAt | background.js:120 | `{{`, white space, a non-empty word, white space and `}}` is matched as one placeholder, with that word as its name and its whole length |
| Template.SubText | background.js:119-123 | text in which no `{{` can start is copied to the output unchanged, and the substitution continues after it |
| Template.SubNoMatch | background.js:119-123 | text at none of whose positions the regular expression matches is copied to the output unchanged, whatever text follows it, and the substitution continues after it |
| Template.SubPlain | background.js:119-123 | a template at none of whose positions the regular expression matches comes back unchanged, whatever `{` or `}` it holds |
| Template.SubEmptyName | background.js:119-123 | `{{}}` has no name and is left as it is |
| Template.SubBadName | background.js:119-123 | `{{ a-b }}` has a name with a non-`\w` character and is left as it is |
| Template.SubTripleBrace | background.js:119-123 | in `{{{x}}}` the match starts at the second `{`: the first `{` is kept and `{{x}}` is replaced, giving `{V}` for `x` = `V` |
| Template.SubRenderMatched | background.js:119-123 | for any template whose only matches of the regular expression are its placeholders (literal text may hold `{{` that start no placeholder, such as `{{}}` or a `{` just before a placeholder), substitution replaces each placeholder by its value, or by `""` when the key is absent, and alters no other text; inserted values are never scanned again |
| Template.WellFormedMatchesOnlyHoles | background.js:120 | a template of well-formed placeholders and literal text in which every `{` is followed by a character other than `{` has its placeholders as its only matches |
| Template.SubRender | background.js:119-123 | the corollary for such templates: each placeholder is replaced by its value, and no other text is altered |
| Numbers.ParseIntOfDecimal | background.js:49 | `parseInt` reads back the decimal text of any integer, whatever non-digit text follows it |
| Numbers.ParseIntOf | background.js:49 | white space, then `""`, `+` or `-`, then a non-empty run of digits, then text that does not start with a digit, reads as the digits' value with that sign |
| Numbers.ParseIntSomeIff | background.js:49-50 | `parseInt` gives a number exactly when the text reads that way; otherwise it gives NaN |
| Numbers.ParseIntNoneIff | background.js:49-50 | `parseInt` gives NaN exactly when, after the leading white space and an optional sign, the text is empty or starts with a non-digit |
| Numbers.TrimStartSplit | background.js:49 | the leading white space that is skipped is all `\s`, and what is kept does not start with `\s` |
| Numbers.ParseIntSignedExample | background.js:49 | `" +042x"` reads as 42 |
| Numbers.ParseIntNaNExample | background.js:49-50 | `"abc5"` is NaN: a digit after other text is not read |
| Numbers.ParseIntNoDigits | background.js:49-50 | a corollary: text without any digit parses to NaN |
| Numbers.DigitsValueOfDecimal | background.js:49 | the digits of a natural number's decimal text have that number as their value |
| BackgroundProps.AddHostnameSpec | background.js:73-78 | after `addHostname(h)`, `h` is enabled and every other hostname is as before; a storage write of the new set happens exactly when `h` was not enabled; slot, trace and port do not change |
| BackgroundProps.RemoveHostnameSpec | background.js:85-90 | after `removeHostname(h)`, `h` is disabled and every other hostname is as before; a storage write happens exactly when `h` was enabled; slot, trace and port do not change |
| BackgroundProps.EnabledIffLastAdded | background.js:73-100 | from start-up, after any sequence of events, `isHostnameEnabled(h)` is true exactly when the last add or remove of `h` was an add; a hostname never added is disabled |
| BackgroundProps.SetPortNaN | background.js:48-50 | input that `parseInt` maps to NaN changes nothing: no port, no write, no injection |
| BackgroundProps.SetPortNeverReconnects | background.js:48-57 | a numeric input stores the parsed port (`getPort` returns it) and writes it once; the slot, the trace and the pending completions are unchanged, because of the guard in `connectToTab` |
| BackgroundProps.SetPortOfDecimal | background.js:48-51 | decimal text typed into the port field, followed by non-digits, stores exactly that number |
| BackgroundProps.SetPortReconnectInjects | background.js:53-54 | with the intended reconnect, a connected tab gets one connect injection for the new port, and after its completion the slot still holds that tab |
| BackgroundProps.HostLiteralNamesPort | background.js:151 | the host literal rendered into the scripts is `"http://localhost:` followed by text that `parseInt` reads back as the port |
| BackgroundProps.ScriptFillsHost | background.js:150-151 | for any template whose only matches are its placeholders, the script of an injection is the template with every `{{ host }}` replaced by the quoted localhost URL of the port recorded in the injection, and every other placeholder by `""` |
| BackgroundProps.ConnectToTabSpec | background.js:165-172 | `connectToTab(t)` injects nothing when the slot holds `t`; otherwise it injects a disconnect of the slot's tab when the slot is truthy, then a connect of `t`, both for the current port; it leaves the slot and the configuration unchanged |
| BackgroundProps.ConnectTwiceAfterCompletion | background.js:151-172 | once the connect completion of `connectToTab(t)` has run, the slot is `t` and a second `connectToTab(t)` changes nothing, so the two calls inject a single connect |
| BackgroundProps.SwitchTwiceBeforeCompletion | background.js:165-172 | while a switch from the connected tab `u` to `t` has not completed, a second `connectToTab(t)` injects `Disconnect(u)` and `Connect(t)` again |
| BackgroundProps.ConnectTwiceBeforeCompletion | background.js:151-172 | before any completion runs, connecting `a` and then `b` from an empty slot, including the same tab twice, injects two connects and no disconnect of `a`; the slot ends with whichever completion ran last |
| BackgroundProps.SwitchSettlesInEitherOrder | background.js:146-172 | switching from connected tab `u` to `t` injects exactly `Disconnect(u)` then `Connect(t)`; whichever order the two completions run in, the slot ends with `t` and no completion is left over |
| BackgroundProps.CompletionKeepsNewerSlot | background.js:151-157 | every completion changes neither the trace, the configuration nor the write log, and consumes exactly its own pending entry; a connect completion puts its tab in the slot; a disconnect completion never clears a slot that holds another tab |
| BackgroundProps.ActivatedEnabledConnects | background.js:203-209 | activating a tab whose hostname is enabled is `connectToTab` of that tab; from an empty slot that is exactly one connect, and its completion fills the slot |
| BackgroundProps.ActivatedDisabledIgnored | background.js:203-209 | activating a tab whose URL has no `//` or whose hostname is disabled changes nothing |
| BackgroundProps.LoadingClearsSlot | background.js:184-189 | status `loading` on the slot's tab empties the slot with no injection; on another tab it changes nothing |
| BackgroundProps.NavigateAwayDisconnects | background.js:176-183 | a URL change to a disabled hostname on the slot's tab injects exactly one disconnect, whose completion empties the slot; on any other tab it changes nothing |
| BackgroundProps.NavigateEnabledConnects | background.js:176-180 | a URL change to an enabled hostname is `connectToTab` of that tab |
| BackgroundProps.UnparsableUrlIgnored | background.js:176-178 | a URL change to a URL without `//` changes nothing, whether or not a status change comes with it |
| BackgroundProps.CompleteConnectsActiveTab | background.js:190-196 | status `complete` connects the active tab of the focused window when its hostname is enabled |
| BackgroundProps.CompleteIgnored | background.js:190-196 | status `complete` changes nothing when the query answer is empty, its first tab is not active, its URL has no `//` or its hostname is not enabled |
| BackgroundProps.ConnectedScenario | background.js:73-172 | from start-up, enabling a host, connecting tab 5 and running its completion leaves tab 5 in the slot with one connect injected and one storage write |
| BackgroundProps.SwitchScenario | background.js:165-209 | from start-up: enable a host, connect tab 5, activate tab 7 of the host, and run the completions in reverse order; the trace is connect 5, disconnect 5, connect 7, and the slot is 7 |
| BackgroundProps.SetPortValid | background.js:48-57 | `setPort` keeps `Valid` |
| BackgroundProps.OnUpdatedValid | background.js:175-199 | the `onUpdated` listener keeps `Valid` |
| BackgroundProps.StepValid | background.js:48-209 | every API call, listener and completion keeps `Valid`: pending completions belong to requested injections, and the slot holds only a tab for which a connect was requested |
| BackgroundProps.RunValid | background.js:1-209 | `Valid` holds from start-up after any sequence of events |
| BackgroundPage.Background.constructor | background.js:2-6 | the page starts with no port, no hostnames, an empty slot, and no injections or writes |
| BackgroundPage.Background.GetPort | background.js:64-66 | returns the cached port of the current state |
| BackgroundPage.Background.IsHostnameEnabled | background.js:98-100 | true exactly when the hostname is in the cached set |
| BackgroundPage.Background.AddHostname | background.js:73-78 | updates the hostname set in place as `AddHostname` says, keeping `Valid` |
| BackgroundPage.Background.RemoveHostname | background.js:85-90 | updates the hostname set in place as `RemoveHostname` says, keeping `Valid` |
| BackgroundPage.Background.SetPort | background.js:48-57 | updates port, write log and (through `ConnectToTab`) trace as `SetPort` says, keeping `Valid` |
| BackgroundPage.Background.ToggleTabConnection | background.js:146-158 | appends the injection to the trace and its completion to the pending queue, keeping `Valid` |
| BackgroundPage.Background.ConnectToTab | background.js:165-172 | changes the state as `ConnectToTab` says, keeping `Valid` |
| BackgroundPage.Background.Complete | background.js:151-157 | runs one pending completion as `Complete` says, keeping `Valid` |
| BackgroundPage.Background.ConnectIfEnabled | background.js:193-194 | connects the tab when its URL's hostname is enabled; an unparsable URL changes nothing |
| BackgroundPage.Background.OnUpdated | background.js:175-199 | runs the `onUpdated` listener as `OnUpdated` says, keeping `Valid` |
| BackgroundPage.Background.OnActivated | background.js:203-209 | runs the `onActivated` listener as `OnActivated` says, keeping `Valid` |

## Findings

| source | as written | input that shows it | evidently intended | confidence | as-written member | corrected member |
|---|---|---|---|---|---|---|
| background.js:53-54 | `setPort` reconnects by calling `connectToTab(lastActiveTabId)`, which the guard at line 166 turns into a no-op | slot holds tab 5, `setPort("8000")`: port becomes 8000, no script is injected | re-inject the connect script into tab 5 for port 8000, with the slot staying 5 | high, not executed | BackgroundProps.SetPortNeverReconnects | BackgroundProps.SetPortReconnectInjects |

The corrected behaviour is `BackgroundModel.SetPortReconnect`. The class
`Background`, `Step` and `Run` keep the as-written `setPort`, so that they
describe the page as it runs.

## Left out

- Extension storage (`chrome.storage.local.set` at `background.js:52`, `76`
  and `88`) is only a log of writes, a ghost field in the class. The
  start-up load that replaces the whole configuration (`background.js:212-214`)
  is not modelled. The model starts from an empty configuration. In the
  code, that load sets `config` to the stored object. On a fresh install,
  or when only `port` is stored, `config.hostnames` is then undefined.
  `addHostname`, `removeHostname` and `isHostnameEnabled` then throw a
  TypeError (`background.js:74`, `86`, `99`), so no hostname can be
  enabled. The model does not capture that failure.
- `executeScriptInPageContext` (`background.js:134-138`) wraps the script in
  `SCRIPT_EXECUTION_TEMPLATE` with `JSON.stringify`. That wrapping is not
  modelled. An injection records the tab, the kind of script and the port
  it was rendered for. `BackgroundModel.Script` gives the inner script text
  for a given template.
- The texts of `LT_WS_CONNECT`, `LT_WS_DISCONNECT` and
  `SCRIPT_EXECUTION_TEMPLATE` (`background.js:9-41`) are page-side code.
  The core never interprets them, so they are not part of this model.
  `ScriptFillsHost` is stated for a template given as pieces whose only
  matches of the regular expression are its placeholders. That every
  string can be cut into such pieces is not stated as a lemma.
- The callbacks of `chrome.tabs.query` and `chrome.tabs.get` run later in
  the browser. The model runs each one when its listener is invoked, and
  the answer is a parameter. A failed lookup (`None`, or an empty answer)
  throws in the code and changes nothing in the model. Only injection
  completions are deferred, through the pending queue.
- Whether a failed injection calls its completion (with
  `chrome.runtime.lastError` set) or never calls it is left open. The
  model allows both: a pending completion may run, and then updates the
  slot as for a successful injection (`background.js:152-156`), or may
  never run. Nothing else of the
  browser's scheduling is modelled.
- JavaScript property lookup also finds inherited keys: `config.hostnames`
  and the context object of `sub` answer for names such as `constructor`.
  The model uses a set and a map that hold only the keys that were added.
- Numbers: `ParseInt` returns unbounded integers. JavaScript numbers lose
  precision above 2^53, and JavaScript prints integers of 10^21 and above
  in exponent form. Neither limit is modelled.
- `sub` context values are strings, as in every call the page makes. So
  "falsy" means only the empty string.
- `popup.js` is not part of this model. It only forwards form events to
  the page's API, and the events of `Step` cover those calls.
