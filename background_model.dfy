/** The background page as a state machine over values: the cached
    configuration (port and enabled hostnames), the single connection slot
    `lastActiveTabId`, the trace of scripts injected into tabs, the
    completions of those injections that have not run yet, and the log of
    writes to extension storage. One function per operation of the page;
    the class in BackgroundPage is proved to follow these functions. */
module BackgroundModel {
  import opened Options
  import opened Url
  import opened Numbers
  import opened Template

  /** One `chrome.tabs.executeScript` request: the connect or disconnect
      script, rendered for the port `getPort()` returned when it was asked
      for, injected into `tab`. */
  datatype Injection = Connect(tab: int, port: Option<int>) | Disconnect(tab: int, port: Option<int>)

  /** One `chrome.storage.local.set` call. */
  datatype Write = PortWrite(port: int) | HostnamesWrite(hostnames: set<string>)

  datatype State = State(
    port: Option<int>,          // config.port, null until set
    hostnames: set<string>,     // keys of config.hostnames
    slot: Option<int>,          // lastActiveTabId
    trace: seq<Injection>,      // every injection requested, oldest first
    pending: seq<Injection>,    // injections whose completion has not run yet
    writes: seq<Write>)         // storage writes, oldest first

  /** The `changeInfo` of `chrome.tabs.onUpdated`: which properties changed. */
  datatype ChangeInfo = ChangeInfo(url: Option<string>, status: Option<string>)

  /** The fields of a `chrome.tabs.Tab` the page reads. */
  datatype Tab = Tab(id: int, url: string, active: bool)

  /** Everything that can happen to the page: a call of its public API, a
      browser event (with the answer of the tab lookup it makes), or the
      completion of the `i`-th pending injection. */
  datatype Event =
    | SetPortCall(raw: string)
    | AddHostnameCall(hostname: string)
    | RemoveHostnameCall(hostname: string)
    | ConnectCall(tab: int)
    | ToggleCall(tab: int, enable: bool)
    | Updated(tab: int, change: ChangeInfo, activeTabs: seq<Tab>)
    | Activated(lookedUp: Option<Tab>)
    | Completed(index: nat)

  const Initial: State := State(None, {}, None, [], [], [])

  /** JavaScript truthiness of the slot: `null` and tab id `0` are falsy. */
  predicate Truthy(slot: Option<int>) {
    slot.Some? && slot.value != 0
  }

  // ---------------------------------------------------------------------
  // Hostname policy and port registry

  function IsHostnameEnabled(s: State, hostname: string): bool {
    hostname in s.hostnames
  }

  function GetPort(s: State): Option<int> {
    s.port
  }

  function AddHostname(s: State, hostname: string): State {
    if hostname in s.hostnames then s
    else
      var hs := s.hostnames + {hostname};
      s.(hostnames := hs, writes := s.writes + [HostnamesWrite(hs)])
  }

  function RemoveHostname(s: State, hostname: string): State {
    if hostname !in s.hostnames then s
    else
      var hs := s.hostnames - {hostname};
      s.(hostnames := hs, writes := s.writes + [HostnamesWrite(hs)])
  }

  /** `setPort(raw)` as written: the reconnect goes through `connectToTab`
      with the slot's own tab. */
  function SetPort(s: State, raw: string): State {
    match ParseInt(raw)
    case None => s
    case Some(v) =>
      var s1 := s.(port := Some(v), writes := s.writes + [PortWrite(v)]);
      if Truthy(s1.slot) then ConnectToTab(s1, s1.slot.value) else s1
  }

  /** `setPort(raw)` as evidently intended: re-inject the connect script
      into the connected tab so that it connects on the new port. */
  function SetPortReconnect(s: State, raw: string): State {
    match ParseInt(raw)
    case None => s
    case Some(v) =>
      var s1 := s.(port := Some(v), writes := s.writes + [PortWrite(v)]);
      if Truthy(s1.slot) then ToggleTabConnection(s1, s1.slot.value, true) else s1
  }

  // ---------------------------------------------------------------------
  // Connection slot

  /** `toggleTabConnection(tab, enable)`: request the injection; its
      completion callback waits in `pending`. */
  function ToggleTabConnection(s: State, tab: int, enable: bool): State {
    var inj := if enable then Connect(tab, s.port) else Disconnect(tab, s.port);
    s.(trace := s.trace + [inj], pending := s.pending + [inj])
  }

  /** `connectToTab(tab)`. */
  function ConnectToTab(s: State, tab: int): State {
    if s.slot == Some(tab) then s
    else
      var s1 := if Truthy(s.slot) then ToggleTabConnection(s, s.slot.value, false) else s;
      ToggleTabConnection(s1, tab, true)
  }

  /** The completion callback of the `i`-th pending injection runs: a
      connect takes the slot, a disconnect frees it only if it still holds
      the disconnected tab. */
  function Complete(s: State, i: nat): State
    requires i < |s.pending|
  {
    var inj := s.pending[i];
    var slot :=
      if inj.Connect? then Some(inj.tab)
      else if s.slot == Some(inj.tab) then None
      else s.slot;
    s.(slot := slot, pending := s.pending[..i] + s.pending[i + 1..])
  }

  /** Connect to `tab` if its URL has an enabled hostname; an URL without
      `//` makes `getHostname` throw, which leaves everything unchanged. */
  function ConnectIfEnabled(s: State, tab: int, url: string): State {
    match GetHostname(url)
    case None => s
    case Some(h) => if IsHostnameEnabled(s, h) then ConnectToTab(s, tab) else s
  }

  /** The `chrome.tabs.query` callback of a `complete` update: `tabs[0]`
      of an empty answer throws. */
  function OnActiveTabs(s: State, tabs: seq<Tab>): State {
    if tabs == [] || !tabs[0].active then s
    else ConnectIfEnabled(s, tabs[0].id, tabs[0].url)
  }

  /** The `chrome.tabs.onUpdated` listener, with the answer of its query. */
  function OnUpdated(s: State, tab: int, change: ChangeInfo, activeTabs: seq<Tab>): State {
    if change.url.Some? then
      match GetHostname(change.url.value)
      case None => s
      case Some(h) =>
        if IsHostnameEnabled(s, h) then ConnectToTab(s, tab)
        else if s.slot == Some(tab) then ToggleTabConnection(s, tab, false)
        else s
    else if change.status.Some? then
      if change.status.value == "loading" then
        if s.slot == Some(tab) then s.(slot := None) else s
      else if change.status.value == "complete" then OnActiveTabs(s, activeTabs)
      else s
    else s
  }

  /** The `chrome.tabs.onActivated` listener, with the answer of its
      `chrome.tabs.get` (`None` when the lookup failed and `tab.url` throws). */
  function OnActivated(s: State, lookedUp: Option<Tab>): State {
    match lookedUp
    case None => s
    case Some(t) => ConnectIfEnabled(s, t.id, t.url)
  }

  function Step(s: State, e: Event): State {
    match e
    case SetPortCall(raw) => SetPort(s, raw)
    case AddHostnameCall(h) => AddHostname(s, h)
    case RemoveHostnameCall(h) => RemoveHostname(s, h)
    case ConnectCall(tab) => ConnectToTab(s, tab)
    case ToggleCall(tab, enable) => ToggleTabConnection(s, tab, enable)
    case Updated(tab, change, activeTabs) => OnUpdated(s, tab, change, activeTabs)
    case Activated(lookedUp) => OnActivated(s, lookedUp)
    case Completed(i) => if i < |s.pending| then Complete(s, i) else s
  }

  /** The state after the events `es`, oldest first. */
  function Run(s: State, es: seq<Event>): State {
    if es == [] then s else Step(Run(s, es[..|es| - 1]), es[|es| - 1])
  }

  // ---------------------------------------------------------------------
  // Rendered scripts

  /** `JSON.stringify('http://localhost:' + getPort())`: the text has no
      character that needs escaping, so it is only quoted. */
  function HostLiteral(port: Option<int>): string {
    "\"http://localhost:" + (match port case None => "null" case Some(v) => IntToDecimal(v)) + "\""
  }

  /** `sub(template, {host: ...})` for an injection. */
  function Script(template: string, inj: Injection): string {
    Sub(template, map["host" := HostLiteral(inj.port)])
  }

  // ---------------------------------------------------------------------
  // Invariant

  /** The tabs some connect injection of `trace` targets. */
  function ConnectTargets(trace: seq<Injection>): set<int> {
    if trace == [] then {}
    else
      var last := trace[|trace| - 1];
      ConnectTargets(trace[..|trace| - 1]) + (if last.Connect? then {last.tab} else {})
  }

  /** Every pending completion belongs to an injection that was requested,
      and the slot only ever holds a tab a connect was requested for. */
  predicate Valid(s: State) {
    multiset(s.pending) <= multiset(s.trace) &&
    (s.slot.Some? ==> s.slot.value in ConnectTargets(s.trace))
  }
}
