/**
 Activation of metric groups by several contexts of one device
 (umd/level_zero_driver/source/metric.cpp).
 */
module MetricActivation {
  import opened Jobs

  class MetricGroup {
    const domain: nat
    var activated: bool

    constructor (domain: nat)
      ensures this.domain == domain && !activated
    {
      this.domain, activated := domain, false;
    }
  }

  datatype Entry = Entry(domain: nat, group: MetricGroup, fd: int)

  // -------------------------------------------------------------- the list of active groups

  ghost predicate DomainFree(es: seq<Entry>, domain: nat)
  {
    forall i :: 0 <= i < |es| ==> es[i].domain != domain
  }

  ghost predicate Listed(es: seq<Entry>, g: MetricGroup)
  {
    exists i :: 0 <= i < |es| && es[i].group == g
  }

  /** Entries name groups of the device under their own domain, and no domain twice. */
  ghost predicate WellFormed(es: seq<Entry>, device: set<MetricGroup>)
  {
    && (forall i :: 0 <= i < |es| ==> es[i].group in device && es[i].domain == es[i].group.domain)
    && (forall i, j :: 0 <= i < j < |es| ==> es[i].domain != es[j].domain)
  }

  /** The entries made through other file descriptors, in order. */
  function Others(es: seq<Entry>, fd: int): (os: seq<Entry>)
  {
    if es == [] then []
    else if es[0].fd == fd then Others(es[1..], fd)
    else [es[0]] + Others(es[1..], fd)
  }

  /** The entries made through this one. */
  function Own(es: seq<Entry>, fd: int): (os: seq<Entry>)
  {
    if es == [] then []
    else if es[0].fd != fd then Own(es[1..], fd)
    else [es[0]] + Own(es[1..], fd)
  }

  lemma {:induction false} OthersSnoc(es: seq<Entry>, e: Entry, fd: int)
    ensures Others(es + [e], fd) == Others(es, fd) + (if e.fd == fd then [] else [e])
    ensures Own(es + [e], fd) == Own(es, fd) + (if e.fd == fd then [e] else [])
    decreases |es|
  {
    if es != [] {
      assert (es + [e])[1..] == es[1..] + [e];
      OthersSnoc(es[1..], e, fd);
    }
  }

  lemma {:induction false} OthersMembers(es: seq<Entry>, fd: int)
    ensures forall e :: e in Others(es, fd) <==> e in es && e.fd != fd
    decreases |es|
  {
    if es != [] {
      OthersMembers(es[1..], fd);
      assert forall e :: e in es <==> e == es[0] || e in es[1..];
    }
  }

  lemma WellFormedCons(e: Entry, es: seq<Entry>, device: set<MetricGroup>)
    ensures WellFormed([e] + es, device) <==>
            e.group in device && e.domain == e.group.domain && WellFormed(es, device) && DomainFree(es, e.domain)
  {
    var all := [e] + es;
    assert all[0] == e && all[1..] == es;
    if WellFormed(all, device) {
      forall i | 0 <= i < |es|
        ensures es[i].group in device && es[i].domain == es[i].group.domain && es[i].domain != e.domain
      {
        assert es[i] == all[i + 1];
      }
      forall i, j | 0 <= i < j < |es| ensures es[i].domain != es[j].domain {
        assert es[i] == all[i + 1] && es[j] == all[j + 1];
      }
    }
  }

  lemma {:induction false} OthersFree(es: seq<Entry>, fd: int, domain: nat)
    requires DomainFree(es, domain)
    ensures DomainFree(Others(es, fd), domain)
    decreases |es|
  {
    if es != [] { OthersFree(es[1..], fd, domain); }
  }

  lemma OthersNone(fd: int)
    ensures Others([], fd) == []
  {
  }

  /** Removing entries keeps the list well formed. */
  lemma {:induction false} OthersWellFormed(es: seq<Entry>, fd: int, device: set<MetricGroup>)
    requires WellFormed(es, device)
    ensures WellFormed(Others(es, fd), device)
    decreases |es|
  {
    hide WellFormed, DomainFree;
    if es != [] {
      assert es == [es[0]] + es[1..];
      WellFormedCons(es[0], es[1..], device);
      OthersWellFormed(es[1..], fd, device);
      OthersFree(es[1..], fd, es[0].domain);
      WellFormedCons(es[0], Others(es[1..], fd), device);
    }
  }

  lemma {:induction false} OthersAgain(es: seq<Entry>, fd: int)
    ensures Own(Others(es, fd), fd) == [] && Others(Others(es, fd), fd) == Others(es, fd)
    decreases |es|
  {
    if es != [] {
      OthersAgain(es[1..], fd);
    }
  }

  /** Groups of a well-formed list are listed once, as their domain is. */
  lemma ListedOnce(es: seq<Entry>, device: set<MetricGroup>, i: nat, j: nat)
    requires WellFormed(es, device) && i < |es| && j < |es| && es[i].group == es[j].group
    ensures i == j
  {
  }

  // --------------------------------------------------------------- what an activation does

  /** Requests taken in order; each succeeds if the device has the group and its domain is free. */
  ghost function Activate(es: seq<Entry>, fd: int, gs: seq<MetricGroup?>, device: set<MetricGroup>): (r: seq<Entry>)
    decreases |gs|
  {
    if gs == [] then es
    else Activate(AfterRequest(es, fd, gs[0], device), fd, gs[1..], device)
  }

  ghost predicate Grantable(es: seq<Entry>, g: MetricGroup?, device: set<MetricGroup>)
  {
    g in device && DomainFree(es, g.domain)
  }

  ghost function AfterRequest(es: seq<Entry>, fd: int, g: MetricGroup?, device: set<MetricGroup>): (r: seq<Entry>)
  {
    if Grantable(es, g, device) then es + [Entry(g.domain, g, fd)] else es
  }

  /** Every request is granted in turn. */
  ghost predicate AllGranted(es: seq<Entry>, fd: int, gs: seq<MetricGroup?>, device: set<MetricGroup>)
    decreases |gs|
  {
    gs == [] || (Grantable(es, gs[0], device) && AllGranted(AfterRequest(es, fd, gs[0], device), fd, gs[1..], device))
  }

  lemma RequestKeeps(es: seq<Entry>, fd: int, g: MetricGroup?, device: set<MetricGroup>)
    requires WellFormed(es, device)
    ensures var r := AfterRequest(es, fd, g, device);
            && WellFormed(r, device) && Others(r, fd) == Others(es, fd)
            && (Grantable(es, g, device) ==> Own(r, fd) == Own(es, fd) + [Entry(g.domain, g, fd)])
  {
    if Grantable(es, g, device) {
      OthersSnoc(es, Entry(g.domain, g, fd), fd);
    }
  }

  /** A call leaves the entries of all other file descriptors as they were. */
  lemma {:induction false} ActivateKeeps(es: seq<Entry>, fd: int, gs: seq<MetricGroup?>, device: set<MetricGroup>)
    requires WellFormed(es, device)
    ensures WellFormed(Activate(es, fd, gs, device), device)
    ensures Others(Activate(es, fd, gs, device), fd) == Others(es, fd)
    decreases |gs|
  {
    hide WellFormed, AfterRequest, Others;
    if gs != [] {
      RequestKeeps(es, fd, gs[0], device);
      ActivateKeeps(AfterRequest(es, fd, gs[0], device), fd, gs[1..], device);
    }
  }

  /** The groups can be active together: on the device, in free domains, no two in one domain. */
  ghost predicate Compatible(es: seq<Entry>, gs: seq<MetricGroup?>, device: set<MetricGroup>)
  {
    && (forall i :: 0 <= i < |gs| ==> Grantable(es, gs[i], device))
    && (forall i, j :: 0 <= i < j < |gs| && gs[i] != null && gs[j] != null ==> gs[i].domain != gs[j].domain)
  }

  lemma CompatibleStep(es: seq<Entry>, fd: int, gs: seq<MetricGroup?>, device: set<MetricGroup>)
    requires gs != [] && Grantable(es, gs[0], device)
    ensures Compatible(es, gs, device) <==> Compatible(AfterRequest(es, fd, gs[0], device), gs[1..], device)
  {
    var es', rest := AfterRequest(es, fd, gs[0], device), gs[1..];
    assert forall i :: 0 <= i < |rest| ==> rest[i] == gs[i + 1];
    if Compatible(es', rest, device) {
      forall i | 0 <= i < |gs| ensures Grantable(es, gs[i], device) {
        if i > 0 {
          assert gs[i] == rest[i - 1] && Grantable(es', rest[i - 1], device);
          assert forall k :: 0 <= k < |es| ==> es[k] == es'[k];
        }
      }
      forall i, j | 0 <= i < j < |gs| && gs[i] != null && gs[j] != null ensures gs[i].domain != gs[j].domain {
        assert gs[j] == rest[j - 1];
        if i == 0 {
          assert Grantable(es', rest[j - 1], device) && es'[|es|].domain == gs[0].domain;
        } else {
          assert gs[i] == rest[i - 1];
        }
      }
    }
  }

  /** All requests are granted exactly when the groups are compatible. */
  lemma {:induction false} GrantedExactly(es: seq<Entry>, fd: int, gs: seq<MetricGroup?>, device: set<MetricGroup>)
    ensures AllGranted(es, fd, gs, device) <==> Compatible(es, gs, device)
    decreases |gs|
  {
    hide Grantable, AfterRequest;
    if gs != [] {
      if Grantable(es, gs[0], device) {
        CompatibleStep(es, fd, gs, device);
        GrantedExactly(AfterRequest(es, fd, gs[0], device), fd, gs[1..], device);
      }
    }
  }

  /** Request i is granted: a group of the device, in a free domain, the first one asked for in it. */
  ghost predicate Granted(es: seq<Entry>, gs: seq<MetricGroup?>, device: set<MetricGroup>, i: nat)
    requires i < |gs|
  {
    && gs[i] in device && DomainFree(es, gs[i].domain)
    && forall j :: 0 <= j < i && gs[j] in device ==> gs[j].domain != gs[i].domain
  }

  lemma FreeAfterRequest(es: seq<Entry>, fd: int, g: MetricGroup?, device: set<MetricGroup>, domain: nat)
    ensures DomainFree(AfterRequest(es, fd, g, device), domain) <==>
            DomainFree(es, domain) && (Grantable(es, g, device) ==> g.domain != domain)
  {
    var es' := AfterRequest(es, fd, g, device);
    if Grantable(es, g, device) {
      assert es'[|es|].domain == g.domain && forall i :: 0 <= i < |es| ==> es'[i] == es[i];
    }
  }

  lemma GrantedShift(es: seq<Entry>, fd: int, gs: seq<MetricGroup?>, device: set<MetricGroup>, i: nat)
    requires 0 < i < |gs|
    ensures Granted(es, gs, device, i) <==> Granted(AfterRequest(es, fd, gs[0], device), gs[1..], device, i - 1)
  {
    hide AfterRequest;
    var rest := gs[1..];
    assert rest[i - 1] == gs[i] && forall j :: 0 < j < i ==> gs[j] == rest[j - 1];
    if gs[i] in device { FreeAfterRequest(es, fd, gs[0], device, gs[i].domain); }
    if Granted(AfterRequest(es, fd, gs[0], device), rest, device, i - 1) {
      forall j | 0 <= j < i && gs[j] in device ensures gs[j].domain != gs[i].domain {
        if j > 0 { assert gs[j] == rest[j - 1]; }
      }
    }
    if Granted(es, gs, device, i) {
      assert forall j :: 0 <= j < i - 1 ==> rest[j] == gs[j + 1];
    }
  }

  lemma ListedAfterRequest(es: seq<Entry>, fd: int, g: MetricGroup?, device: set<MetricGroup>, h: MetricGroup)
    ensures Listed(AfterRequest(es, fd, g, device), h) <==> Listed(es, h) || (Grantable(es, g, device) && g == h)
  {
    var es' := AfterRequest(es, fd, g, device);
    if Listed(es, h) {
      var i :| 0 <= i < |es| && es[i].group == h;
      assert es'[i].group == h;
    }
    if Grantable(es, g, device) { assert es'[|es|].group == g; }
  }

  /** After a call a group is active exactly if it was before or one of the requests for it is granted. */
  lemma {:induction false} ActiveExactly(es: seq<Entry>, fd: int, gs: seq<MetricGroup?>, device: set<MetricGroup>,
                                         h: MetricGroup)
    ensures Listed(Activate(es, fd, gs, device), h) <==>
            Listed(es, h) || exists i :: 0 <= i < |gs| && gs[i] == h && Granted(es, gs, device, i)
    decreases |gs|
  {
    hide Listed, Granted, AfterRequest, Grantable;
    if gs != [] {
      var es' := AfterRequest(es, fd, gs[0], device);
      ActiveExactly(es', fd, gs[1..], device, h);
      ListedAfterRequest(es, fd, gs[0], device, h);
      FirstGranted(es, gs, device);
      forall i | 0 < i < |gs| ensures Granted(es, gs, device, i) <==> Granted(es', gs[1..], device, i - 1) {
        GrantedShift(es, fd, gs, device, i);
      }
      assert forall i :: 0 <= i < |gs[1..]| ==> gs[1..][i] == gs[i + 1];
      if i :| 0 <= i < |gs[1..]| && gs[1..][i] == h && Granted(es', gs[1..], device, i) {
        assert gs[i + 1] == h && Granted(es, gs, device, i + 1);
      }
      if i :| 0 <= i < |gs| && gs[i] == h && Granted(es, gs, device, i) {
        if i > 0 { assert gs[1..][i - 1] == h && Granted(es', gs[1..], device, i - 1); }
      }
    }
  }

  lemma FirstGranted(es: seq<Entry>, gs: seq<MetricGroup?>, device: set<MetricGroup>)
    requires gs != []
    ensures Granted(es, gs, device, 0) <==> Grantable(es, gs[0], device)
  {
  }

  ghost function Entries(fd: int, gs: seq<MetricGroup?>): (es: seq<Entry>)
    requires forall i :: 0 <= i < |gs| ==> gs[i] != null
  {
    seq(|gs|, i requires 0 <= i < |gs| => Entry(gs[i].domain, gs[i], fd))
  }

  /** When all are granted, the caller's entries are the requested groups, in order. */
  lemma {:induction false} GrantedEntries(es: seq<Entry>, fd: int, gs: seq<MetricGroup?>, device: set<MetricGroup>)
    requires AllGranted(es, fd, gs, device)
    ensures forall i :: 0 <= i < |gs| ==> gs[i] != null
    ensures Activate(es, fd, gs, device) == es + Entries(fd, gs)
    decreases |gs|
  {
    hide DomainFree;
    if gs != [] {
      var first := AfterRequest(es, fd, gs[0], device);
      GrantedEntries(first, fd, gs[1..], device);
      assert forall i :: 0 < i < |gs| ==> gs[i] == gs[1..][i - 1];
      assert Entries(fd, gs) == [Entry(gs[0].domain, gs[0], fd)] + Entries(fd, gs[1..]);
    }
  }

  // --------------------------------------------------------------------------- the context

  /** How one request ends; ActivatedBeforehand is the branch for a group the caller already holds. */
  datatype Outcome = Activated | NotOnDevice | AlreadyHeld | ActivatedBeforehand | DomainTaken

  class MetricContext {
    const device: set<MetricGroup>
    const loaded: bool
    var activatedMetricGroups: seq<Entry>

    /** A group of the device is marked activated exactly when it is in the list. */
    ghost predicate Valid()
      reads this, device
    {
      && WellFormed(activatedMetricGroups, device)
      && forall g :: g in device ==> (g.activated <==> Listed(activatedMetricGroups, g))
    }

    constructor (device: set<MetricGroup>, loaded: bool)
      requires forall g :: g in device ==> !g.activated
      ensures Valid() && this.device == device && this.loaded == loaded && activatedMetricGroups == []
    {
      this.device, this.loaded, activatedMetricGroups := device, loaded, [];
    }

    method DeactivateMetricGroups(fd: int)
      requires Valid()
      modifies this`activatedMetricGroups, device
      ensures Valid() && activatedMetricGroups == Others(old(activatedMetricGroups), fd)
    {
      hide WellFormed, Others, Own;
      ghost var was := activatedMetricGroups;
      var kept: seq<Entry> := [];
      OthersMembers(was, fd);
      OthersWellFormed(was, fd, device);
      OthersNone(fd);
      assert was[..0] == [];
      for i := 0 to |activatedMetricGroups|
        invariant activatedMetricGroups == was && kept == Others(was[..i], fd)
        invariant forall g :: g in device ==>
                    (g.activated <==> Listed(was, g) && !Removed(was, i, fd, g))
      {
        var e := activatedMetricGroups[i];
        assert was[..i + 1] == was[..i] + [e];
        OthersSnoc(was[..i], e, fd);
        EntryOnDevice(was, device, i);
        if e.fd == fd {
          e.group.activated := false;
        } else {
          kept := kept + [e];
        }
        RemovedStep(was, i, fd);
      }
      assert was[..|was|] == was;
      activatedMetricGroups := kept;
      KeptAreListed(was, fd, device);
    }

    /** activateMetricGroup: granted exactly when the device has the group and its domain is free. */
    method ActivateMetricGroup(fd: int, group: MetricGroup?) returns (o: Outcome)
      requires Valid()
      modifies this`activatedMetricGroups, device
      ensures Valid() && activatedMetricGroups == AfterRequest(old(activatedMetricGroups), fd, group, device)
      ensures o == Activated <==> Grantable(old(activatedMetricGroups), group, device)
      ensures o == NotOnDevice <==> group !in device
      ensures o == AlreadyHeld <==> group in device && Listed(old(activatedMetricGroups), group)
      ensures o != ActivatedBeforehand
    {
      if group !in device { return NotOnDevice; }
      if group.activated {
        HeldBlocksDomain(activatedMetricGroups, device, group);
        return AlreadyHeld;
      }
      var domain := group.domain;
      for i := 0 to |activatedMetricGroups|
        invariant forall j :: 0 <= j < i ==> activatedMetricGroups[j].domain != domain
      {
        var e := activatedMetricGroups[i];
        if e.domain == domain {
          if e.group == group && e.fd == fd { return ActivatedBeforehand; }
          return DomainTaken;
        }
      }
      GrantKeeps(activatedMetricGroups, Entry(domain, group, fd), device);
      group.activated := true;
      activatedMetricGroups := activatedMetricGroups + [Entry(domain, group, fd)];
      o := Activated;
    }

    /** activateMetricGroups: the caller's groups are released, then the requests are taken in order. */
    method ActivateMetricGroups(fd: int, groups: Option<seq<MetricGroup?>>) returns (r: ZeResult)
      requires Valid()
      modifies this`activatedMetricGroups, device
      ensures Valid()
      ensures !loaded ==> r == Uninitialized && activatedMetricGroups == old(activatedMetricGroups)
      ensures loaded && groups.None? ==> r == InvalidSize && activatedMetricGroups == old(activatedMetricGroups)
      ensures loaded && groups.Some? ==>
                activatedMetricGroups == Activate(Others(old(activatedMetricGroups), fd), fd, groups.value, device)
      ensures loaded && groups.Some? ==>
                (r == Success <==> AllGranted(Others(old(activatedMetricGroups), fd), fd, groups.value, device))
                && (r == Success || r == InvalidArgument)
    {
      hide AfterRequest, Grantable;
      if !loaded { return Uninitialized; }
      if groups.None? { return InvalidSize; }
      r := Success;
      DeactivateMetricGroups(fd);
      var gs := groups.value;
      ghost var start := activatedMetricGroups;
      assert gs[0..] == gs;
      for i := 0 to |gs|
        invariant Valid()
        invariant Activate(start, fd, gs, device) == Activate(activatedMetricGroups, fd, gs[i..], device)
        invariant r == Success || r == InvalidArgument
        invariant AllGranted(start, fd, gs, device) <==>
                  r == Success && AllGranted(activatedMetricGroups, fd, gs[i..], device)
      {
        assert gs[i..][0] == gs[i] && gs[i..][1..] == gs[i + 1..];
        var o := ActivateMetricGroup(fd, gs[i]);
        if o != Activated && o != ActivatedBeforehand { r := InvalidArgument; }
      }
    }
  }

  /** Among the first n entries, the group was taken out. */
  ghost predicate Removed(es: seq<Entry>, n: nat, fd: int, g: MetricGroup)
  {
    exists i :: 0 <= i < n && i < |es| && es[i].fd == fd && es[i].group == g
  }

  lemma EntryOnDevice(es: seq<Entry>, device: set<MetricGroup>, i: nat)
    requires WellFormed(es, device) && i < |es|
    ensures es[i].group in device && Listed(es, es[i].group)
  {
  }

  lemma RemovedStep(es: seq<Entry>, n: nat, fd: int)
    requires n < |es|
    ensures forall g :: Removed(es, n + 1, fd, g) <==> Removed(es, n, fd, g) || (es[n].fd == fd && es[n].group == g)
  {
    forall g ensures Removed(es, n + 1, fd, g) <==> Removed(es, n, fd, g) || (es[n].fd == fd && es[n].group == g) {
      if Removed(es, n, fd, g) {
        var i :| 0 <= i < n && es[i].fd == fd && es[i].group == g;
        assert 0 <= i < n + 1;
      }
    }
  }

  lemma KeptAreListed(es: seq<Entry>, fd: int, device: set<MetricGroup>)
    requires WellFormed(es, device)
    ensures forall g :: Listed(Others(es, fd), g) <==> Listed(es, g) && !Removed(es, |es|, fd, g)
  {
    hide Others;
    var os := Others(es, fd);
    OthersMembers(es, fd);
    forall g ensures Listed(os, g) <==> Listed(es, g) && !Removed(es, |es|, fd, g) {
      if Listed(os, g) {
        var i :| 0 <= i < |os| && os[i].group == g;
        assert os[i] in es;
        var k :| 0 <= k < |es| && es[k] == os[i];
        forall j | 0 <= j < |es| && es[j].group == g ensures es[j].fd != fd {
          ListedOnce(es, device, j, k);
        }
      }
      if Listed(es, g) && !Removed(es, |es|, fd, g) {
        var i :| 0 <= i < |es| && es[i].group == g;
        assert es[i] in os;
      }
    }
  }

  lemma HeldBlocksDomain(es: seq<Entry>, device: set<MetricGroup>, g: MetricGroup)
    requires WellFormed(es, device) && Listed(es, g)
    ensures !DomainFree(es, g.domain)
  {
  }

  lemma GrantKeeps(es: seq<Entry>, e: Entry, device: set<MetricGroup>)
    requires WellFormed(es, device) && e.group in device && e.domain == e.group.domain && DomainFree(es, e.domain)
    ensures WellFormed(es + [e], device)
    ensures forall g :: Listed(es + [e], g) <==> Listed(es, g) || g == e.group
  {
    var all := es + [e];
    forall g ensures Listed(all, g) <==> Listed(es, g) || g == e.group {
      if Listed(es, g) {
        var i :| 0 <= i < |es| && es[i].group == g;
        assert all[i].group == g;
      }
      assert all[|es|] == e;
    }
  }

  // ----------------------------------------------------------------------- calls of contexts

  /**
   One call to activate groups: it keeps the list well formed, leaves the entries of every
   other file descriptor alone, and succeeds exactly when the groups are on the device, not in
   a domain another context holds, and pairwise in different domains; then they are what the
   caller holds.
   */
  lemma ActivationExact(es: seq<Entry>, fd: int, gs: seq<MetricGroup?>, device: set<MetricGroup>)
    requires WellFormed(es, device)
    ensures var left, r := Others(es, fd), Activate(Others(es, fd), fd, gs, device);
            && WellFormed(r, device)
            && (forall other :: other != fd ==> Own(r, other) == Own(es, other))
            && (AllGranted(left, fd, gs, device) <==> Compatible(left, gs, device))
            && (AllGranted(left, fd, gs, device) ==>
                  (forall i :: 0 <= i < |gs| ==> gs[i] != null) && Own(r, fd) == Entries(fd, gs))
  {
    hide WellFormed, Activate, AllGranted, Compatible;
    var left := Others(es, fd);
    var r := Activate(left, fd, gs, device);
    OthersWellFormed(es, fd, device);
    OthersAgain(es, fd);
    ActivateKeeps(left, fd, gs, device);
    GrantedExactly(left, fd, gs, device);
    forall other | other != fd ensures Own(r, other) == Own(es, other) {
      OwnOfOthers(r, fd, other);
      OwnOfOthers(es, fd, other);
    }
    if AllGranted(left, fd, gs, device) {
      GrantedEntries(left, fd, gs, device);
      OwnConcat(left, Entries(fd, gs), fd);
      AllOwn(Entries(fd, gs), fd);
    }
  }

  lemma {:induction false} OwnOfOthers(es: seq<Entry>, fd: int, other: int)
    requires other != fd
    ensures Own(Others(es, fd), other) == Own(es, other)
    decreases |es|
  {
    if es != [] { OwnOfOthers(es[1..], fd, other); }
  }

  lemma {:induction false} OwnConcat(a: seq<Entry>, b: seq<Entry>, fd: int)
    ensures Own(a + b, fd) == Own(a, fd) + Own(b, fd)
    decreases |a|
  {
    if a == [] {
      assert a + b == b;
    } else {
      assert (a + b)[1..] == a[1..] + b;
      OwnConcat(a[1..], b, fd);
    }
  }

  lemma {:induction false} AllOwn(es: seq<Entry>, fd: int)
    requires forall i :: 0 <= i < |es| ==> es[i].fd == fd
    ensures Own(es, fd) == es
    decreases |es|
  {
    if es != [] { AllOwn(es[1..], fd); }
  }

  datatype ActivationCall = ActivationCall(fd: int, groups: seq<MetricGroup?>)

  /** The list after a sequence of calls, from any file descriptors. */
  ghost function AfterCalls(es: seq<Entry>, calls: seq<ActivationCall>, device: set<MetricGroup>): (r: seq<Entry>)
    decreases |calls|
  {
    if calls == [] then es
    else AfterCalls(Activate(Others(es, calls[0].fd), calls[0].fd, calls[0].groups, device), calls[1..], device)
  }

  /** In every run the list stays well formed, and nobody else changes what a file descriptor holds. */
  lemma {:induction false} RunKeepsHoldings(es: seq<Entry>, calls: seq<ActivationCall>, device: set<MetricGroup>,
                                            fd: int)
    requires WellFormed(es, device)
    ensures WellFormed(AfterCalls(es, calls, device), device)
    ensures (forall i :: 0 <= i < |calls| ==> calls[i].fd != fd) ==>
              Own(AfterCalls(es, calls, device), fd) == Own(es, fd)
    decreases |calls|
  {
    hide WellFormed, Activate, Own, AllGranted, Compatible, Others;
    if calls != [] {
      var c := calls[0];
      ActivationExact(es, c.fd, c.groups, device);
      RunKeepsHoldings(Activate(Others(es, c.fd), c.fd, c.groups, device), calls[1..], device, fd);
      assert forall i :: 0 <= i < |calls[1..]| ==> calls[1..][i] == calls[i + 1];
    }
  }
}
