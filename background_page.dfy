/** The background page as the source has it: module-level variables that
    its functions and listeners update in place. Each method is proved to
    change the state exactly as the matching BackgroundModel function
    says, and to keep BackgroundModel.Valid. */
module BackgroundPage {
  import opened Options
  import opened Url
  import opened Numbers
  import M = BackgroundModel
  import P = BackgroundProps

  class Background {
    var port: Option<int>
    var hostnames: set<string>
    var slot: Option<int>
    var trace: seq<M.Injection>
    var pending: seq<M.Injection>
    ghost var writes: seq<M.Write>

    ghost function State(): M.State
      reads this
    {
      M.State(port, hostnames, slot, trace, pending, writes)
    }

    ghost predicate Valid()
      reads this
    {
      M.Valid(State())
    }

    /** The page as loaded, before the stored configuration arrives. */
    constructor ()
      ensures State() == M.Initial && Valid()
    {
      port := None;
      hostnames := {};
      slot := None;
      trace := [];
      pending := [];
      writes := [];
    }

    function GetPort(): (p: Option<int>)
      reads this
      ensures p == M.GetPort(State())
    {
      port
    }

    function IsHostnameEnabled(hostname: string): (enabled: bool)
      reads this
      ensures enabled == M.IsHostnameEnabled(State(), hostname)
    {
      hostname in hostnames
    }

    method AddHostname(hostname: string)
      requires Valid()
      modifies this
      ensures Valid() && State() == M.AddHostname(old(State()), hostname)
    {
      if hostname !in hostnames {
        hostnames := hostnames + {hostname};
        writes := writes + [M.HostnamesWrite(hostnames)];
      }
    }

    method RemoveHostname(hostname: string)
      requires Valid()
      modifies this
      ensures Valid() && State() == M.RemoveHostname(old(State()), hostname)
    {
      if hostname in hostnames {
        hostnames := hostnames - {hostname};
        writes := writes + [M.HostnamesWrite(hostnames)];
      }
    }

    method SetPort(raw: string)
      requires Valid()
      modifies this
      ensures Valid() && State() == M.SetPort(old(State()), raw)
    {
      var parsed := ParseInt(raw);
      if parsed.Some? {
        port := parsed;
        writes := writes + [M.PortWrite(parsed.value)];
        ghost var stored := State();
        assert stored == old(State()).(port := parsed, writes := old(writes) + [M.PortWrite(parsed.value)]);
        assert Valid();
        if slot.Some? && slot.value != 0 {
          ConnectToTab(slot.value);
          assert State() == M.ConnectToTab(stored, stored.slot.value);
        }
      }
    }

    method ToggleTabConnection(tab: int, enable: bool)
      requires Valid()
      modifies this
      ensures Valid() && State() == M.ToggleTabConnection(old(State()), tab, enable)
    {
      P.ToggleValid(State(), tab, enable);
      var inj := if enable then M.Connect(tab, GetPort()) else M.Disconnect(tab, GetPort());
      trace := trace + [inj];
      pending := pending + [inj];
    }

    method ConnectToTab(tab: int)
      requires Valid()
      modifies this
      ensures Valid() && State() == M.ConnectToTab(old(State()), tab)
    {
      if slot != Some(tab) {
        if slot.Some? && slot.value != 0 {
          ToggleTabConnection(slot.value, false);
        }
        ToggleTabConnection(tab, true);
      }
    }

    /** The completion callback of the `i`-th pending injection runs. */
    method Complete(i: nat)
      requires Valid() && i < |pending|
      modifies this
      ensures Valid() && State() == M.Complete(old(State()), i)
    {
      P.CompleteValid(State(), i);
      var inj := pending[i];
      pending := pending[..i] + pending[i + 1..];
      if inj.Connect? {
        slot := Some(inj.tab);
      } else if slot == Some(inj.tab) {
        slot := None;
      }
    }

    method ConnectIfEnabled(tab: int, url: string)
      requires Valid()
      modifies this
      ensures Valid() && State() == M.ConnectIfEnabled(old(State()), tab, url)
    {
      var hostname := GetHostname(url);
      if hostname.Some? && IsHostnameEnabled(hostname.value) {
        ConnectToTab(tab);
      }
    }

    /** The `chrome.tabs.onUpdated` listener; `activeTabs` is what its
        query for the active tab of the focused window answers. */
    method OnUpdated(tab: int, change: M.ChangeInfo, activeTabs: seq<M.Tab>)
      requires Valid()
      modifies this
      ensures Valid() && State() == M.OnUpdated(old(State()), tab, change, activeTabs)
    {
      if change.url.Some? {
        var hostname := GetHostname(change.url.value);
        if hostname.Some? {
          if IsHostnameEnabled(hostname.value) {
            ConnectToTab(tab);
          } else if slot == Some(tab) {
            ToggleTabConnection(tab, false);
          }
        }
      } else if change.status.Some? {
        if change.status.value == "loading" {
          if slot == Some(tab) {
            slot := None;
          }
        } else if change.status.value == "complete" {
          if activeTabs != [] && activeTabs[0].active {
            ConnectIfEnabled(activeTabs[0].id, activeTabs[0].url);
          }
        }
      }
    }

    /** The `chrome.tabs.onActivated` listener; `lookedUp` is what its
        `chrome.tabs.get` answers. */
    method OnActivated(lookedUp: Option<M.Tab>)
      requires Valid()
      modifies this
      ensures Valid() && State() == M.OnActivated(old(State()), lookedUp)
    {
      if lookedUp.Some? {
        ConnectIfEnabled(lookedUp.value.id, lookedUp.value.url);
      }
    }
  }
}
