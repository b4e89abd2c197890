/** What the background page guarantees, proved about BackgroundModel. */
module BackgroundProps {
  import opened Options
  import opened Url
  import opened Numbers
  import opened Template
  import opened BackgroundModel

  // ---------------------------------------------------------------------
  // Hostname policy

  /** Adding enables the hostname, touches no other hostname and writes to
      storage exactly when the hostname was not yet enabled. */
  lemma AddHostnameSpec(s: State, h: string)
    ensures var r := AddHostname(s, h);
      IsHostnameEnabled(r, h) &&
      (forall g :: g != h ==> IsHostnameEnabled(r, g) == IsHostnameEnabled(s, g)) &&
      (if IsHostnameEnabled(s, h) then r.writes == s.writes
       else r.writes == s.writes + [HostnamesWrite(s.hostnames + {h})]) &&
      r.slot == s.slot && r.trace == s.trace && r.pending == s.pending && r.port == s.port
  {
  }

  /** Removing disables the hostname, touches no other hostname and writes
      to storage exactly when the hostname was enabled. */
  lemma RemoveHostnameSpec(s: State, h: string)
    ensures var r := RemoveHostname(s, h);
      !IsHostnameEnabled(r, h) &&
      (forall g :: g != h ==> IsHostnameEnabled(r, g) == IsHostnameEnabled(s, g)) &&
      (if IsHostnameEnabled(s, h) then r.writes == s.writes + [HostnamesWrite(s.hostnames - {h})]
       else r.writes == s.writes) &&
      r.slot == s.slot && r.trace == s.trace && r.pending == s.pending && r.port == s.port
  {
  }

  /** The last add or remove of `h` among `es`: `Some(true)` for an add. */
  function LastPolicyCall(es: seq<Event>, h: string): Option<bool> {
    if es == [] then None
    else
      match es[|es| - 1]
      case AddHostnameCall(g) =>
        if g == h then Some(true) else LastPolicyCall(es[..|es| - 1], h)
      case RemoveHostnameCall(g) =>
        if g == h then Some(false) else LastPolicyCall(es[..|es| - 1], h)
      case _ => LastPolicyCall(es[..|es| - 1], h)
  }

  /** From the initial configuration, a hostname is enabled exactly when
      the last add or remove of it was an add; in particular a hostname
      never added is disabled, whatever else happened. */
  lemma {:induction false} EnabledIffLastAdded(es: seq<Event>, h: string)
    ensures IsHostnameEnabled(Run(Initial, es), h) <==> LastPolicyCall(es, h) == Some(true)
  {
    if es != [] {
      var prefix := es[..|es| - 1];
      EnabledIffLastAdded(prefix, h);
      var s := Run(Initial, prefix);
      match es[|es| - 1]
      case SetPortCall(raw) => SetPortKeepsHostnames(s, raw);
      case ConnectCall(tab) =>
      case ToggleCall(tab, enable) =>
      case Updated(tab, change, tabs) => OnUpdatedKeepsConfig(s, tab, change, tabs);
      case Activated(t) => OnActivatedKeepsConfig(s, t);
      case Completed(i) =>
      case AddHostnameCall(g) =>
      case RemoveHostnameCall(g) =>
    }
  }

  lemma SetPortKeepsHostnames(s: State, raw: string)
    ensures SetPort(s, raw).hostnames == s.hostnames
  {
  }

  lemma OnUpdatedKeepsConfig(s: State, tab: int, change: ChangeInfo, tabs: seq<Tab>)
    ensures var r := OnUpdated(s, tab, change, tabs);
      r.hostnames == s.hostnames && r.port == s.port && r.writes == s.writes
  {
  }

  lemma OnActivatedKeepsConfig(s: State, t: Option<Tab>)
    ensures var r := OnActivated(s, t);
      r.hostnames == s.hostnames && r.port == s.port && r.writes == s.writes
  {
  }

  // ---------------------------------------------------------------------
  // Port registry

  /** Input that `parseInt` maps to NaN changes nothing: no port, no
      storage write, no injection. */
  lemma SetPortNaN(s: State, raw: string)
    requires ParseInt(raw).None?
    ensures SetPort(s, raw) == s
  {
  }

  /** A number stores the parsed port and writes it once; because
      `connectToTab` of the slot's own tab does nothing, no script is
      injected and the slot is kept (the as-written behaviour). */
  lemma SetPortNeverReconnects(s: State, raw: string)
    requires ParseInt(raw).Some?
    ensures var r := SetPort(s, raw);
      GetPort(r) == ParseInt(raw) && r.writes == s.writes + [PortWrite(ParseInt(raw).value)] &&
      r.slot == s.slot && r.trace == s.trace && r.pending == s.pending && r.hostnames == s.hostnames
  {
  }

  /** Decimal text typed into the port field, followed by anything that is
      not a digit, stores exactly that number. */
  lemma SetPortOfDecimal(s: State, port: int, junk: string)
    requires junk == [] || !Chars.IsDigit(junk[0])
    ensures GetPort(SetPort(s, IntToDecimal(port) + junk)) == Some(port)
  {
    ParseIntOfDecimal(port, junk);
  }

  /** With the reconnect that `setPort` intends, a connected tab gets one
      connect injection rendered for the new port, and once it completes the
      slot still holds that tab. */
  lemma SetPortReconnectInjects(s: State, raw: string)
    requires ParseInt(raw).Some? && Truthy(s.slot)
    ensures var r := SetPortReconnect(s, raw);
      var inj := Connect(s.slot.value, ParseInt(raw));
      GetPort(r) == ParseInt(raw) &&
      r.trace == s.trace + [inj] && r.pending == s.pending + [inj] &&
      Complete(r, |s.pending|).slot == s.slot
  {
  }

  /** The connect script names the port: after `"http://localhost:` the
      host literal reads back, through `parseInt`, as the port. */
  lemma HostLiteralNamesPort(port: int)
    ensures var prefix := "\"http://localhost:";
      var lit := HostLiteral(Some(port));
      |prefix| < |lit| && lit[..|prefix|] == prefix &&
      ParseInt(lit[|prefix|..]) == Some(port)
  {
    var prefix := "\"http://localhost:";
    var lit := HostLiteral(Some(port));
    assert lit == prefix + (IntToDecimal(port) + "\"");
    assert lit[|prefix|..] == IntToDecimal(port) + "\"";
    ParseIntOfDecimal(port, "\"");
  }

  /** The script of an injection is its template with every `{{ host }}`
      replaced by the quoted URL of the port, and nothing else altered. */
  lemma ScriptFillsHost(ps: seq<Piece>, inj: Injection)
    requires MatchesOnlyHoles(ps)
    ensures Script(Render(ps), inj) == Fill(ps, map["host" := HostLiteral(inj.port)])
  {
    SubRenderMatched(ps, map["host" := HostLiteral(inj.port)]);
  }

  // ---------------------------------------------------------------------
  // Connection slot

  /** `connectToTab(t)`: nothing when the slot holds `t`; otherwise a
      disconnect of the slot's tab when the slot is truthy, then a connect
      of `t`, each rendered for the current port. The slot itself is only
      changed later, by the completions. */
  lemma ConnectToTabSpec(s: State, t: int)
    ensures var r := ConnectToTab(s, t);
      var added :=
        if s.slot == Some(t) then []
        else if Truthy(s.slot) then [Disconnect(s.slot.value, s.port), Connect(t, s.port)]
        else [Connect(t, s.port)];
      r.trace == s.trace + added && r.pending == s.pending + added &&
      r.slot == s.slot && r.port == s.port && r.hostnames == s.hostnames && r.writes == s.writes
  {
  }

  /** Once the connect completion of `connectToTab(t)` has run, a second
      `connectToTab(t)` injects nothing: the two calls together inject a
      single connect. */
  lemma ConnectTwiceAfterCompletion(s: State, t: int)
    requires s.slot != Some(t)
    ensures var s1 := ConnectToTab(s, t);
      var s2 := Complete(s1, |s1.pending| - 1);
      s2.slot == Some(t) && ConnectToTab(s2, t) == s2 &&
      s2.trace == s.trace + (if Truthy(s.slot) then [Disconnect(s.slot.value, s.port)] else []) + [Connect(t, s.port)]
  {
    ConnectToTabSpec(s, t);
  }

  /** Before any completion has run, a second `connectToTab` is not
      suppressed: from an empty slot, connecting `a` and then `b` injects
      two connects and no disconnect of `a`, even when `b` is `a` itself;
      when both completions run the slot holds whichever completed last,
      and `a` was never told to disconnect. */
  lemma ConnectTwiceBeforeCompletion(s: State, a: int, b: int)
    requires s.slot == None
    ensures var s2 := ConnectToTab(ConnectToTab(s, a), b);
      var n := |s.pending|;
      s2.trace == s.trace + [Connect(a, s.port), Connect(b, s.port)] &&
      Complete(Complete(s2, n), n).slot == Some(b) &&
      Complete(Complete(s2, n + 1), n).slot == Some(a)
  {
    ConnectToTabSpec(s, a);
    ConnectToTabSpec(ConnectToTab(s, a), b);
  }

  /** While a switch from `u` to `t` has not completed, the slot still
      holds `u`, so a second `connectToTab(t)` injects the disconnect of
      `u` and the connect of `t` again. */
  lemma SwitchTwiceBeforeCompletion(s: State, t: int)
    requires Truthy(s.slot) && s.slot != Some(t)
    ensures var u := s.slot.value;
      ConnectToTab(ConnectToTab(s, t), t).trace ==
        s.trace + [Disconnect(u, s.port), Connect(t, s.port), Disconnect(u, s.port), Connect(t, s.port)]
  {
    ConnectToTabSpec(s, t);
    ConnectToTabSpec(ConnectToTab(s, t), t);
  }

  /** Switching from a connected tab `u` to `t` injects exactly
      `Disconnect(u)` then `Connect(t)`; whichever order their completions
      run in, the slot ends with `t`, because the late disconnect does not
      clear a slot that no longer holds `u`. */
  lemma SwitchSettlesInEitherOrder(s: State, t: int)
    requires Truthy(s.slot) && s.slot.value != t
    ensures var u := s.slot.value;
      var r := ConnectToTab(s, t);
      var n := |s.pending|;
      r.trace == s.trace + [Disconnect(u, s.port), Connect(t, s.port)] &&
      Complete(Complete(r, n), n).slot == Some(t) &&
      Complete(Complete(r, n + 1), n).slot == Some(t) &&
      Complete(Complete(r, n), n).pending == s.pending &&
      Complete(Complete(r, n + 1), n).pending == s.pending
  {
    var r := ConnectToTab(s, t);
    var n := |s.pending|;
    ConnectToTabSpec(s, t);
    assert r.pending[..n] == s.pending;
    var d := Complete(r, n);
    assert d.pending == s.pending + [Connect(t, s.port)];
    assert d.pending[..n] == s.pending;
    var c := Complete(r, n + 1);
    assert c.pending == s.pending + [Disconnect(s.slot.value, s.port)];
    assert c.pending[..n] == s.pending;
  }

  /** A completion changes neither the trace nor the configuration nor the
      write log and consumes exactly its own pending entry; a connect
      completion fills the slot with its tab, and a disconnect completion
      never clears a slot that holds another tab. */
  lemma CompletionKeepsNewerSlot(s: State, i: nat)
    requires i < |s.pending|
    ensures var r := Complete(s, i);
      r.trace == s.trace && r.hostnames == s.hostnames && r.port == s.port && r.writes == s.writes &&
      multiset(r.pending) + multiset{s.pending[i]} == multiset(s.pending)
    ensures var r := Complete(s, i);
      s.pending[i].Connect? ==> r.slot == Some(s.pending[i].tab)
    ensures var r := Complete(s, i);
      s.pending[i].Disconnect? && s.slot != Some(s.pending[i].tab) ==> r.slot == s.slot
  {
    assert s.pending == s.pending[..i] + [s.pending[i]] + s.pending[i + 1..];
  }

  // ---------------------------------------------------------------------
  // Tab events

  /** Activating a tab whose hostname is enabled connects it; from an empty
      slot that is exactly one connect, and its completion fills the slot. */
  lemma ActivatedEnabledConnects(s: State, t: Tab, h: string)
    requires GetHostname(t.url) == Some(h) && IsHostnameEnabled(s, h)
    ensures OnActivated(s, Some(t)) == ConnectToTab(s, t.id)
    ensures s.slot == None ==>
      var r := OnActivated(s, Some(t));
      r.trace == s.trace + [Connect(t.id, s.port)] &&
      Complete(r, |s.pending|).slot == Some(t.id)
  {
    ConnectToTabSpec(s, t.id);
  }

  /** Activating a tab whose URL has no `//`, or whose hostname is not
      enabled, changes nothing. */
  lemma ActivatedDisabledIgnored(s: State, t: Tab)
    requires GetHostname(t.url).None? || !IsHostnameEnabled(s, GetHostname(t.url).value)
    ensures OnActivated(s, Some(t)) == s
  {
  }

  /** A reload (status `loading`) of the connected tab empties the slot
      without any injection; of another tab it changes nothing. */
  lemma LoadingClearsSlot(s: State, tab: int, tabs: seq<Tab>)
    ensures var r := OnUpdated(s, tab, ChangeInfo(None, Some("loading")), tabs);
      r.trace == s.trace && r.pending == s.pending &&
      r.slot == (if s.slot == Some(tab) then None else s.slot)
  {
  }

  /** A navigation to a URL whose hostname is not enabled disconnects the
      tab with exactly one injection if the slot holds it, and its
      completion empties the slot; on any other tab it changes nothing. */
  lemma NavigateAwayDisconnects(s: State, tab: int, url: string, tabs: seq<Tab>)
    requires GetHostname(url).Some? && !IsHostnameEnabled(s, GetHostname(url).value)
    ensures var r := OnUpdated(s, tab, ChangeInfo(Some(url), None), tabs);
      if s.slot == Some(tab) then
        r.trace == s.trace + [Disconnect(tab, s.port)] && r.slot == s.slot &&
        Complete(r, |s.pending|).slot == None
      else r == s
  {
  }

  /** A navigation to a URL whose hostname is enabled connects the tab. */
  lemma NavigateEnabledConnects(s: State, tab: int, url: string, tabs: seq<Tab>)
    requires GetHostname(url).Some? && IsHostnameEnabled(s, GetHostname(url).value)
    ensures OnUpdated(s, tab, ChangeInfo(Some(url), None), tabs) == ConnectToTab(s, tab)
  {
  }

  /** A URL change is handled before a status change reported with it, and
      an URL without `//` (where `getHostname` throws) changes nothing. */
  lemma UnparsableUrlIgnored(s: State, tab: int, url: string, status: Option<string>, tabs: seq<Tab>)
    requires GetHostname(url).None?
    ensures OnUpdated(s, tab, ChangeInfo(Some(url), status), tabs) == s
  {
  }

  /** A finished load connects the active tab of the focused window if its
      hostname is enabled. */
  lemma CompleteConnectsActiveTab(s: State, tab: int, t: Tab, rest: seq<Tab>, h: string)
    requires t.active && GetHostname(t.url) == Some(h) && IsHostnameEnabled(s, h)
    ensures OnUpdated(s, tab, ChangeInfo(None, Some("complete")), [t] + rest) == ConnectToTab(s, t.id)
  {
    assert ([t] + rest)[0] == t;
  }

  /** A finished load changes nothing when the query answer is empty, its
      first tab is not active, its URL has no `//`, or its hostname is not
      enabled. */
  lemma CompleteIgnored(s: State, tab: int, tabs: seq<Tab>)
    requires tabs == [] || !tabs[0].active || GetHostname(tabs[0].url).None? ||
      !IsHostnameEnabled(s, GetHostname(tabs[0].url).value)
    ensures OnUpdated(s, tab, ChangeInfo(None, Some("complete")), tabs) == s
  {
  }

  /** Running one more event is one more step. */
  lemma RunSnoc(s: State, es: seq<Event>, e: Event)
    ensures Run(s, es + [e]) == Step(Run(s, es), e)
  {
    assert (es + [e])[..|es|] == es;
  }

  /** From start-up: enable a host, connect tab 5 and let it complete. */
  lemma ConnectedScenario(h: string)
    ensures Run(Initial, [AddHostnameCall(h), ConnectCall(5), Completed(0)]) ==
      State(None, {h}, Some(5), [Connect(5, None)], [], [HostnamesWrite({h})])
  {
    var s0 := State(None, {h}, None, [], [], [HostnamesWrite({h})]);
    RunSnoc(Initial, [], AddHostnameCall(h));
    assert [] + [AddHostnameCall(h)] == [AddHostnameCall(h)];
    assert {} + {h} == {h};
    assert Run(Initial, [AddHostnameCall(h)]) == s0;
    RunSnoc(Initial, [AddHostnameCall(h)], ConnectCall(5));
    assert [AddHostnameCall(h)] + [ConnectCall(5)] == [AddHostnameCall(h), ConnectCall(5)];
    var s1 := ConnectToTab(s0, 5);
    assert s1 == s0.(trace := [Connect(5, None)], pending := [Connect(5, None)]);
    RunSnoc(Initial, [AddHostnameCall(h), ConnectCall(5)], Completed(0));
    assert [AddHostnameCall(h), ConnectCall(5)] + [Completed(0)] == [AddHostnameCall(h), ConnectCall(5), Completed(0)];
    assert s1.pending[..0] + s1.pending[1..] == [];
  }

  /** Continuing from there: activate tab 7 of that host and let the two
      completions run in reverse order. The page disconnects 5, connects 7,
      and the slot ends with 7. */
  lemma SwitchScenario(h: string, url7: string)
    requires GetHostname(url7) == Some(h)
    ensures var r := Run(Initial, [AddHostnameCall(h), ConnectCall(5), Completed(0),
                                   Activated(Some(Tab(7, url7, true))), Completed(1), Completed(0)]);
      r.trace == [Connect(5, None), Disconnect(5, None), Connect(7, None)] &&
      r.slot == Some(7) && r.pending == []
  {
    var e3 := [AddHostnameCall(h), ConnectCall(5), Completed(0)];
    var act := Activated(Some(Tab(7, url7, true)));
    var s2 := Run(Initial, e3);
    ConnectedScenario(h);
    RunSnoc(Initial, e3, act);
    ActivatedEnabledConnects(s2, Tab(7, url7, true), h);
    SwitchSettlesInEitherOrder(s2, 7);
    RunSnoc(Initial, e3 + [act], Completed(1));
    RunSnoc(Initial, e3 + [act] + [Completed(1)], Completed(0));
    assert e3 + [act] + [Completed(1)] + [Completed(0)] ==
      [AddHostnameCall(h), ConnectCall(5), Completed(0), act, Completed(1), Completed(0)];
  }

  // ---------------------------------------------------------------------
  // Invariant

  /** A requested connect makes its tab a connect target. */
  lemma {:induction false} ConnectTargetsHas(trace: seq<Injection>, k: nat)
    requires k < |trace| && trace[k].Connect?
    ensures trace[k].tab in ConnectTargets(trace)
  {
    if k < |trace| - 1 {
      ConnectTargetsHas(trace[..|trace| - 1], k);
    }
  }

  /** Requesting more injections never loses a connect target. */
  lemma {:induction false} ConnectTargetsAppend(trace: seq<Injection>, more: seq<Injection>)
    ensures ConnectTargets(trace) <= ConnectTargets(trace + more)
    decreases |more|
  {
    if more == [] {
      assert trace + more == trace;
    } else {
      var m := more[..|more| - 1];
      ConnectTargetsAppend(trace, m);
      var all := trace + more;
      assert all[..|all| - 1] == trace + m;
      assert ConnectTargets(trace + m) <= ConnectTargets(all);
    }
  }

  lemma ToggleValid(s: State, tab: int, enable: bool)
    requires Valid(s)
    ensures Valid(ToggleTabConnection(s, tab, enable))
  {
    var inj := if enable then Connect(tab, s.port) else Disconnect(tab, s.port);
    ConnectTargetsAppend(s.trace, [inj]);
  }

  lemma ConnectToTabValid(s: State, tab: int)
    requires Valid(s)
    ensures Valid(ConnectToTab(s, tab))
  {
    if s.slot != Some(tab) {
      if Truthy(s.slot) {
        ToggleValid(s, s.slot.value, false);
        ToggleValid(ToggleTabConnection(s, s.slot.value, false), tab, true);
      } else {
        ToggleValid(s, tab, true);
      }
    }
  }

  lemma CompleteValid(s: State, i: nat)
    requires Valid(s) && i < |s.pending|
    ensures Valid(Complete(s, i))
  {
    var inj := s.pending[i];
    assert s.pending == s.pending[..i] + [inj] + s.pending[i + 1..];
    assert inj in multiset(s.trace);
    var k :| 0 <= k < |s.trace| && s.trace[k] == inj;
    if inj.Connect? {
      ConnectTargetsHas(s.trace, k);
    }
  }

  lemma SetPortValid(s: State, raw: string)
    requires Valid(s)
    ensures Valid(SetPort(s, raw))
  {
    if ParseInt(raw).Some? && Truthy(s.slot) {
      var v := ParseInt(raw).value;
      ConnectToTabValid(s.(port := Some(v), writes := s.writes + [PortWrite(v)]), s.slot.value);
    }
  }

  lemma ConnectIfEnabledValid(s: State, tab: int, url: string)
    requires Valid(s)
    ensures Valid(ConnectIfEnabled(s, tab, url))
  {
    ConnectToTabValid(s, tab);
  }

  lemma OnUpdatedValid(s: State, tab: int, change: ChangeInfo, tabs: seq<Tab>)
    requires Valid(s)
    ensures Valid(OnUpdated(s, tab, change, tabs))
  {
    if change.url.Some? {
      ConnectToTabValid(s, tab);
      ToggleValid(s, tab, false);
    } else if tabs != [] {
      ConnectIfEnabledValid(s, tabs[0].id, tabs[0].url);
    }
  }

  /** Every event keeps the invariant. */
  lemma StepValid(s: State, e: Event)
    requires Valid(s)
    ensures Valid(Step(s, e))
  {
    match e
    case SetPortCall(raw) => SetPortValid(s, raw);
    case AddHostnameCall(h) =>
    case RemoveHostnameCall(h) =>
    case ConnectCall(tab) => ConnectToTabValid(s, tab);
    case ToggleCall(tab, enable) => ToggleValid(s, tab, enable);
    case Updated(tab, change, tabs) => OnUpdatedValid(s, tab, change, tabs);
    case Activated(t) =>
      if t.Some? {
        ConnectIfEnabledValid(s, t.value.id, t.value.url);
      }
    case Completed(i) =>
      if i < |s.pending| {
        CompleteValid(s, i);
      }
  }

  /** Whatever happens from start-up, every pending completion belongs to
      a requested injection and the slot holds only a tab that a connect
      was requested for. */
  lemma {:induction false} RunValid(es: seq<Event>)
    ensures Valid(Run(Initial, es))
  {
    if es != [] {
      RunValid(es[..|es| - 1]);
      StepValid(Run(Initial, es[..|es| - 1]), es[|es| - 1]);
    }
  }
}
