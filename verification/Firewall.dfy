/** The VPN firewall: the FORWARD chain as a multiset of ACCEPT rules under default DROP.  With only
    ACCEPT rules the order of the chain does not matter for a decision. */
module Firewall {

  type Address = string

  datatype Rule = Rule(src: Address, dst: Address)

  type Table = multiset<Rule>

  function Reverse(r: Rule): Rule {
    Rule(r.dst, r.src)
  }

  /** iptables keeps a single host as "a/32" and reports it so. */
  function Canon(a: Address): Address {
    if '/' in a then a else a + "/32"
  }

  function Link(a: Address, b: Address): Rule {
    Rule(Canon(a), Canon(b))
  }

  /** Whether a packet is forwarded. */
  predicate Forwards(t: Table, s: Address, d: Address) {
    Rule(s, d) in t
  }

  /** Who may use a remote VPN: `NotChecked` is False, `Everyone` the empty list. */
  datatype Scope = NotChecked | Everyone | Only(members: set<string>) {
    predicate Names(name: string) { Only? && name in members }
  }

  datatype User = User(id: string, role: string, category: string, group: string, address: Address)

  datatype Remote = Remote(
    roles: Scope, categories: Scope, groups: Scope, users: Scope,
    address: Address, nets: seq<Address>)

  predicate Admits(s: Scope, name: string) {
    s.Everyone? || (s.Only? && name in s.members)
  }

  predicate Allowed(user: User, r: Remote) {
    || Admits(r.roles, user.role)
    || Admits(r.categories, user.category)
    || Admits(r.groups, user.group)
    || Admits(r.users, user.id)
  }

  /** The addresses a desktop of this user is linked with: the user's own, then for each allowed remote
      VPN its address and its further networks. */
  function Contacts(user: User, remotes: seq<Remote>): seq<Address> {
    [user.address] + RemoteContacts(user, remotes)
  }

  function RemoteContacts(user: User, remotes: seq<Remote>): seq<Address> {
    if remotes == [] then []
    else (if Allowed(user, remotes[0]) then [remotes[0].address] + remotes[0].nets else [])
         + RemoteContacts(user, remotes[1..])
  }

  /** Both directions between a desktop and each contact. */
  function Both(ip: Address, contacts: seq<Address>): Table {
    if contacts == [] then multiset{}
    else multiset{Link(ip, contacts[0]), Link(contacts[0], ip)} + Both(ip, contacts[1..])
  }

  /** `iptables -D`: take one copy out, if there is one. */
  function Without(t: Table, r: Rule): Table {
    t - multiset{r}
  }

  /** Delete a rule and then its reverse; the second is not tried when the first is not there. */
  function WithoutPair(t: Table, r: Rule): Table {
    if r in t then Without(Without(t, r), Reverse(r)) else t
  }

  function WithoutLinks(t: Table, ip: Address, contacts: seq<Address>): Table {
    if contacts == [] then t else WithoutLinks(WithoutPair(t, Link(ip, contacts[0])), ip, contacts[1..])
  }

  /** Removing a desktop: the rules with its user one by one, those with remote VPNs in pairs. */
  function Removed(t: Table, user: User, ip: Address, remotes: seq<Remote>): Table {
    WithoutLinks(Without(Without(t, Link(user.address, ip)), Link(ip, user.address)), ip, RemoteContacts(user, remotes))
  }

  /** A desktop as a start or a stop sees it: its user's record, if that can be read (`known`), its
      address, and the remote VPNs there are at that moment. */
  datatype Desktop = Desktop(user: User, known: bool, ip: Address, remotes: seq<Remote>)

  /** What a start appends. */
  function Granted(d: Desktop): Table {
    if d.known then Both(d.ip, Contacts(d.user, d.remotes)) else multiset{}
  }

  function Started(t: Table, d: Desktop): Table {
    t + Granted(d)
  }

  function Stopped(t: Table, d: Desktop): Table {
    if d.known then Removed(t, d.user, d.ip, d.remotes) else t
  }

  // ---------- The operations ----------

  class UserIpTools {
    var rules: Table

    constructor ()
      ensures rules == multiset{}
    {
      rules := multiset{};
    }

    method Append(r: Rule)
      modifies this
      ensures rules == old(rules) + multiset{r}
    {
      rules := rules + multiset{r};
    }

    method Delete(r: Rule) returns (ok: bool)
      modifies this
      ensures ok == (r in old(rules)) && rules == Without(old(rules), r)
    {
      ok := r in rules;
      rules := rules - multiset{r};
    }

    method DeletePair(r: Rule)
      modifies this
      ensures rules == WithoutPair(old(rules), r)
    {
      var ok := Delete(r);
      if ok {
        var _ := Delete(Reverse(r));
      }
    }

    /** The remote VPNs a user may use, role first and user last. */
    method GetExtraAlloweds(user: User, remotes: seq<Remote>) returns (allowed: seq<Remote>)
      ensures allowed == Filter(user, remotes)
      ensures forall r :: r in allowed <==> r in remotes && Opens(user, r)
    {
      hide Filter;
      allowed := [];
      FilterNone(user);
      for k := 0 to |remotes|
        invariant allowed + Filter(user, remotes[k..]) == Filter(user, remotes)
      {
        var d := remotes[k];
        FilterStep(user, remotes, k);
        assert (allowed + [d]) + Filter(user, remotes[k + 1..]) == allowed + ([d] + Filter(user, remotes[k + 1..]));
        if d.roles != NotChecked && (d.roles.Everyone? || user.role in d.roles.members) {
          allowed := allowed + [d];
          continue;
        }
        if d.categories != NotChecked && (d.categories.Everyone? || user.category in d.categories.members) {
          allowed := allowed + [d];
          continue;
        }
        if d.groups != NotChecked && (d.groups.Everyone? || user.group in d.groups.members) {
          allowed := allowed + [d];
          continue;
        }
        if d.users != NotChecked && (d.users.Everyone? || user.id in d.users.members) {
          allowed := allowed + [d];
        }
      }
      assert remotes[|remotes|..] == [];
      FilteredOpens(user, remotes);
    }

    /** Append both directions for each contact. */
    method AppendLinks(ip: Address, contacts: seq<Address>)
      modifies this
      ensures rules == old(rules) + Both(ip, contacts)
    {
      for k := 0 to |contacts|
        invariant rules + Both(ip, contacts[k..]) == old(rules) + Both(ip, contacts)
      {
        assert contacts[k..][1..] == contacts[k + 1..];
        Append(Link(ip, contacts[k]));
        Append(Link(contacts[k], ip));
      }
    }

    method DeleteLinks(ip: Address, contacts: seq<Address>)
      modifies this
      ensures rules == WithoutLinks(old(rules), ip, contacts)
    {
      for k := 0 to |contacts|
        invariant WithoutLinks(rules, ip, contacts[k..]) == WithoutLinks(old(rules), ip, contacts)
      {
        assert contacts[k..][1..] == contacts[k + 1..];
        DeletePair(Link(ip, contacts[k]));
      }
    }

    method ApplyRemoteVpn(user: User, ip: Address, remotes: seq<Remote>)
      modifies this
      ensures rules == old(rules) + Both(ip, RemoteContacts(user, remotes))
    {
      var allowed := GetExtraAlloweds(user, remotes);
      ContactsOfFiltered(user, remotes);
      for k := 0 to |allowed|
        invariant rules + Both(ip, Flatten(allowed[k..])) == old(rules) + Both(ip, Flatten(allowed))
      {
        assert allowed[k..][1..] == allowed[k + 1..];
        BothAppend(ip, [allowed[k].address] + allowed[k].nets, Flatten(allowed[k + 1..]));
        AppendLinks(ip, [allowed[k].address] + allowed[k].nets);
      }
    }

    method RemoveRemoteVpn(user: User, ip: Address, remotes: seq<Remote>)
      modifies this
      ensures rules == WithoutLinks(old(rules), ip, RemoteContacts(user, remotes))
    {
      var allowed := GetExtraAlloweds(user, remotes);
      ContactsOfFiltered(user, remotes);
      for k := 0 to |allowed|
        invariant WithoutLinks(rules, ip, Flatten(allowed[k..])) == WithoutLinks(old(rules), ip, Flatten(allowed))
      {
        assert allowed[k..][1..] == allowed[k + 1..];
        WithoutAppend(rules, ip, [allowed[k].address] + allowed[k].nets, Flatten(allowed[k + 1..]));
        DeleteLinks(ip, [allowed[k].address] + allowed[k].nets);
      }
    }

    /** A user that cannot be read leaves the table alone. */
    method DesktopAdd(user: User, known: bool, ip: Address, remotes: seq<Remote>)
      modifies this
      ensures rules == Started(old(rules), Desktop(user, known, ip, remotes))
    {
      if !known {
        return;
      }
      Append(Link(user.address, ip));
      Append(Link(ip, user.address));
      ApplyRemoteVpn(user, ip, remotes);
      assert Contacts(user, remotes)[1..] == RemoteContacts(user, remotes);
    }

    method DesktopRemove(user: User, known: bool, ip: Address, remotes: seq<Remote>)
      modifies this
      ensures rules == Stopped(old(rules), Desktop(user, known, ip, remotes))
    {
      if !known {
        return;
      }
      var _ := Delete(Link(user.address, ip));
      var _ := Delete(Link(ip, user.address));
      RemoveRemoteVpn(user, ip, remotes);
    }

    /** The rules as a list, each as often as it is in the table. */
    method Dump() returns (dump: seq<Rule>)
      ensures multiset(dump) == rules
    {
      dump := [];
      var left := rules;
      while left != multiset{}
        invariant multiset(dump) + left == rules
        decreases |left|
      {
        var r :| r in left;
        dump := dump + [r];
        left := left - multiset{r};
      }
    }

    method RemoveMatchingRules(address: Address, nets: seq<Address>)
      modifies this
      ensures exists dump :: multiset(dump) == old(rules) && rules == Purged(old(rules), dump, nets + [address])
    {
      var ips := nets + [address];
      var dump := Dump();
      hide Purged, PurgedBy, WithoutPair, Contains, HostPart;
      assert dump[0..] == dump;
      for k := 0 to |dump|
        invariant Purged(rules, dump[k..], ips) == Purged(old(rules), dump, ips)
      {
        var rule := dump[k];
        assert dump[k..][0] == rule && dump[k..][1..] == dump[k + 1..];
        ghost var before := rules;
        PurgedStep(before, dump[k..], ips);
        for j := 0 to |ips|
          invariant PurgedBy(rules, rule, ips, j) == PurgedBy(before, rule, ips, 0)
        {
          PurgedByStep(rules, rule, ips, j);
          if Contains(ips[j], HostPart(rule.dst)) || HostPart(rule.src) in ips {
            DeletePair(rule);
          }
        }
        PurgedByEnd(rules, rule, ips);
      }
      PurgedEnd(rules, ips);
    }
  }

  function Filter(user: User, remotes: seq<Remote>): seq<Remote> {
    if remotes == [] then []
    else (if Allowed(user, remotes[0]) then [remotes[0]] else []) + Filter(user, remotes[1..])
  }

  function Flatten(remotes: seq<Remote>): seq<Address> {
    if remotes == [] then [] else ([remotes[0].address] + remotes[0].nets) + Flatten(remotes[1..])
  }

  lemma {:induction false} ContactsOfFiltered(user: User, remotes: seq<Remote>)
    ensures Flatten(Filter(user, remotes)) == RemoteContacts(user, remotes)
  {
    if remotes != [] {
      ContactsOfFiltered(user, remotes[1..]);
      var rest := Filter(user, remotes[1..]);
      if Allowed(user, remotes[0]) {
        assert Filter(user, remotes)[1..] == rest;
      } else {
        assert Filter(user, remotes) == rest;
        assert RemoteContacts(user, remotes) == RemoteContacts(user, remotes[1..]);
      }
    }
  }

  /** Whom a remote VPN is for: at least one of its scopes is the empty list, or names the user's value
      of that very field. */
  predicate Opens(user: User, r: Remote) {
    || r.roles == Everyone || r.roles.Names(user.role)
    || r.categories == Everyone || r.categories.Names(user.category)
    || r.groups == Everyone || r.groups.Names(user.group)
    || r.users == Everyone || r.users.Names(user.id)
  }

  lemma {:induction false} FilteredOpens(user: User, remotes: seq<Remote>)
    ensures forall r :: r in Filter(user, remotes) <==> r in remotes && Opens(user, r)
    decreases |remotes|
  {
    if remotes != [] {
      FilteredOpens(user, remotes[1..]);
      assert Allowed(user, remotes[0]) <==> Opens(user, remotes[0]);
      hide Allowed, Opens;
      assert forall r :: r in remotes <==> r == remotes[0] || r in remotes[1..];
    }
  }

  /** Each scope alone decides by its own field of the user; and with no scope checked nobody is let
      in. */
  lemma EachScopeAlone(user: User, s: Scope, a: Address, nets: seq<Address>)
    ensures var no := NotChecked;
            && Filter(user, [Remote(no, no, no, no, a, nets)]) == []
            && (Filter(user, [Remote(s, no, no, no, a, nets)]) != [] <==> s == Everyone || s.Names(user.role))
            && (Filter(user, [Remote(no, s, no, no, a, nets)]) != [] <==> s == Everyone || s.Names(user.category))
            && (Filter(user, [Remote(no, no, s, no, a, nets)]) != [] <==> s == Everyone || s.Names(user.group))
            && (Filter(user, [Remote(no, no, no, s, a, nets)]) != [] <==> s == Everyone || s.Names(user.id))
  {
    assert Filter(user, []) == [];
    forall r: Remote ensures Filter(user, [r]) != [] <==> Allowed(user, r) {
      assert [r][1..] == [];
    }
  }

  lemma FilterNone(user: User)
    ensures Filter(user, []) == []
  {
  }

  lemma FilterStep(user: User, remotes: seq<Remote>, k: nat)
    requires k < |remotes|
    ensures Allowed(user, remotes[k]) ==> Filter(user, remotes[k..]) == [remotes[k]] + Filter(user, remotes[k + 1..])
    ensures !Allowed(user, remotes[k]) ==> Filter(user, remotes[k..]) == Filter(user, remotes[k + 1..])
  {
    assert remotes[k..][1..] == remotes[k + 1..];
  }

  lemma {:induction false} BothAppend(ip: Address, a: seq<Address>, b: seq<Address>)
    ensures Both(ip, a + b) == Both(ip, a) + Both(ip, b)
  {
    if a == [] {
      assert a + b == b;
    } else {
      assert (a + b)[1..] == a[1..] + b;
      BothAppend(ip, a[1..], b);
    }
  }

  lemma {:induction false} WithoutAppend(t: Table, ip: Address, a: seq<Address>, b: seq<Address>)
    ensures WithoutLinks(t, ip, a + b) == WithoutLinks(WithoutLinks(t, ip, a), ip, b)
    decreases |a|
  {
    if a == [] {
      assert a + b == b;
    } else {
      assert (a + b)[1..] == a[1..] + b;
      WithoutAppend(WithoutPair(t, Link(ip, a[0])), ip, a[1..], b);
    }
  }

  // ---------- Adding and removing desktops ----------

  lemma TakeTwo(t: Table, r: Rule, q: Rule)
    ensures t + multiset{r, q} - multiset{r} - multiset{q} == t
  {
    forall x: Rule ensures (t + multiset{r, q} - multiset{r} - multiset{q})[x] == t[x] {
    }
  }

  lemma PairUndo(t: Table, r: Rule)
    ensures WithoutPair(t + multiset{r, Reverse(r)}, r) == t
    ensures Without(Without(t + multiset{r, Reverse(r)}, r), Reverse(r)) == t
  {
    hide Reverse;
    TakeTwo(t, r, Reverse(r));
  }

  lemma {:induction false} LinksUndo(t: Table, ip: Address, contacts: seq<Address>)
    ensures WithoutLinks(t + Both(ip, contacts), ip, contacts) == t
  {
    hide WithoutPair;
    if contacts != [] {
      var r := Link(ip, contacts[0]);
      var rest := t + Both(ip, contacts[1..]);
      assert t + Both(ip, contacts) == rest + multiset{r, Reverse(r)};
      PairUndo(rest, r);
      LinksUndo(t, ip, contacts[1..]);
    }
  }

  /** Adding a desktop and removing it again, with the same user and remote VPNs, restores the table,
      whatever else it holds. */
  lemma RemoveUndoesAdd(t: Table, user: User, ip: Address, remotes: seq<Remote>)
    ensures Removed(t + Both(ip, Contacts(user, remotes)), user, ip, remotes) == t
  {
    hide Without, WithoutLinks, RemoteContacts;
    var cs := RemoteContacts(user, remotes);
    var r := Link(user.address, ip);
    assert Contacts(user, remotes)[1..] == cs;
    assert t + Both(ip, Contacts(user, remotes)) == (t + Both(ip, cs)) + multiset{r, Reverse(r)};
    PairUndo(t + Both(ip, cs), r);
    LinksUndo(t, ip, cs);
  }

  function CanonAll(contacts: seq<Address>): (cs: seq<Address>)
    ensures |cs| == |contacts|
  {
    if contacts == [] then [] else [Canon(contacts[0])] + CanonAll(contacts[1..])
  }

  /** The same contacts, each as often, in whatever order and notation. */
  predicate SameContacts(a: seq<Address>, b: seq<Address>) {
    multiset(CanonAll(a)) == multiset(CanonAll(b))
  }

  /** How often a rule occurs between a desktop and its contacts. */
  lemma {:induction false} BothCount(ip: Address, contacts: seq<Address>, s: Address, d: Address)
    ensures var cs := multiset(CanonAll(contacts));
            Both(ip, contacts)[Rule(s, d)] ==
            (if s == Canon(ip) then cs[d] else 0) + (if d == Canon(ip) then cs[s] else 0)
    decreases |contacts|
  {
    hide Canon;
    if contacts != [] {
      BothCount(ip, contacts[1..], s, d);
    }
  }

  lemma BothIsSameIff(ip: Address, a: seq<Address>, b: seq<Address>)
    ensures Both(ip, a) == Both(ip, b) <==> SameContacts(a, b)
  {
    hide Both, CanonAll, Canon;
    if SameContacts(a, b) {
      forall r: Rule ensures Both(ip, a)[r] == Both(ip, b)[r] {
        BothCount(ip, a, r.src, r.dst);
        BothCount(ip, b, r.src, r.dst);
      }
    } else if Both(ip, a) == Both(ip, b) {
      forall x: Address ensures multiset(CanonAll(a))[x] == multiset(CanonAll(b))[x] {
        BothCount(ip, a, Canon(ip), x);
        BothCount(ip, b, Canon(ip), x);
      }
    }
  }

  lemma StopUndoesStart(t: Table, d: Desktop)
    ensures Stopped(Started(t, d), d) == t
  {
    hide Both, Removed, Contacts;
    if d.known {
      RemoveUndoesAdd(t, d.user, d.ip, d.remotes);
    }
  }

  /** A start that can read its user grants something. */
  lemma SomethingGranted(d: Desktop)
    ensures Granted(d) == multiset{} <==> !d.known
  {
    if d.known {
      assert Link(d.ip, d.user.address) in Both(d.ip, Contacts(d.user, d.remotes));
    }
  }

  /** The user's record may come, change or go, and the remote VPNs may change, while a desktop runs.
      Stopping it (as d') undoes starting it (as d), in every table, if and only if the record could be
      read both times or neither time, and then the contacts have stayed the same. */
  lemma RemoveUndoesAddIff(d: Desktop, d': Desktop)
    requires d.ip == d'.ip
    ensures (forall t :: Stopped(Started(t, d), d') == t)
            <==> d.known == d'.known
                 && (d.known ==> SameContacts(Contacts(d.user, d.remotes), Contacts(d'.user, d'.remotes)))
  {
    SomethingGranted(d);
    SomethingGranted(d');
    hide Both, Contacts, SameContacts, Stopped;
    BothIsSameIff(d.ip, Contacts(d.user, d.remotes), Contacts(d'.user, d'.remotes));
    if Granted(d) == Granted(d') {
      forall t ensures Stopped(Started(t, d), d') == t {
        StopUndoesStart(t, d');
      }
    } else {
      StopUndoesStart(Granted(d), d');
      assert Started(Granted(d'), d) == Started(Granted(d), d');
      assert Stopped(Started(Granted(d'), d), d') != Granted(d');
    }
  }

  /** The condition can fail in two ways.  If the user's record is gone when the desktop stops, all its
      rules stay. */
  lemma UnreadableUserLeavesRules(t: Table, d: Desktop)
    requires d.known
    ensures Stopped(Started(t, d), d.(known := false)) == t + Granted(d) != t
  {
    SomethingGranted(d);
    hide Granted;
    assert |t + Granted(d)| == |t| + |Granted(d)|;
  }

  /** And what a remote VPN could reach while it was allowed, it still can after its permission has been
      withdrawn and the desktop stopped. */
  lemma RevokedAccessStays(t: Table, user: User, ip: Address, r: Remote)
    requires Allowed(user, r)
    ensures Removed(t + Both(ip, Contacts(user, [r])), user, ip, []) == t + Both(ip, [r.address] + r.nets)
  {
    var left := Both(ip, [r.address] + r.nets);
    assert RemoteContacts(user, [r]) == [r.address] + r.nets by {
      assert [r][1..] == [] && RemoteContacts(user, []) == [];
      assert [r.address] + r.nets + [] == [r.address] + r.nets;
    }
    BothAppend(ip, [user.address], [r.address] + r.nets);
    assert Contacts(user, []) == [user.address];
    assert Both(ip, Contacts(user, [r])) == Both(ip, [user.address]) + left;
    assert t + (Both(ip, [user.address]) + left) == (t + left) + Both(ip, [user.address]);
    RemoveUndoesAdd(t + left, user, ip, []);
  }

  // ---------- Symmetry ----------

  ghost predicate Symmetric(t: Table) {
    forall r: Rule :: t[r] == t[Reverse(r)]
  }

  lemma {:induction false} BothIsSymmetric(ip: Address, contacts: seq<Address>)
    ensures Symmetric(Both(ip, contacts))
  {
    if contacts != [] {
      BothIsSymmetric(ip, contacts[1..]);
    }
  }

  lemma PairKeepsSymmetry(t: Table, r: Rule)
    requires Symmetric(t)
    ensures Symmetric(WithoutPair(t, r))
  {
    assert t[r] == t[Reverse(r)];
  }

  // ---------- Any starts, stops and peer removals ----------

  /** A step of the firewall, whether or not what it removes is there. */
  datatype Step =
    | DesktopAdded(d: Desktop)
    | DesktopRemoved(d: Desktop)
    | PeerRemoved(dump: seq<Rule>, ips: seq<Address>)

  function Effect(t: Table, step: Step): Table {
    match step
    case DesktopAdded(d) => Started(t, d)
    case DesktopRemoved(d) => Stopped(t, d)
    case PeerRemoved(dump, ips) => Purged(t, dump, ips)
  }

  function Effects(t: Table, steps: seq<Step>): Table
    decreases |steps|
  {
    if steps == [] then t else Effects(Effect(t, steps[0]), steps[1..])
  }

  lemma PairIsDifference(t: Table, r: Rule)
    requires Symmetric(t)
    ensures WithoutPair(t, r) == t - multiset{r, Reverse(r)}
  {
    assert t[r] == t[Reverse(r)];
  }

  lemma MinusTwice(t: Table, a: Table, b: Table)
    ensures t - a - b == t - (a + b)
  {
  }

  lemma BothFirst(ip: Address, contacts: seq<Address>)
    requires contacts != []
    ensures var r := Link(ip, contacts[0]); Both(ip, contacts) == multiset{r, Reverse(r)} + Both(ip, contacts[1..])
  {
  }

  /** In a symmetric table, deleting link by link takes out exactly as much of the links as there is,
      although the second deletion of a pair depends on the first. */
  lemma {:induction false} LinksAreDifference(t: Table, ip: Address, contacts: seq<Address>)
    requires Symmetric(t)
    ensures WithoutLinks(t, ip, contacts) == t - Both(ip, contacts)
    decreases |contacts|
  {
    if contacts != [] {
      hide Symmetric, Both, WithoutPair, Link, Reverse;
      var r := Link(ip, contacts[0]);
      var pair := multiset{r, Reverse(r)};
      BothFirst(ip, contacts);
      PairIsDifference(t, r);
      PairKeepsSymmetry(t, r);
      LinksAreDifference(t - pair, ip, contacts[1..]);
      MinusTwice(t, pair, Both(ip, contacts[1..]));
    }
  }

  /** Deleting the two rules with the user one by one: neither depends on the other. */
  lemma UserLinkIsDifference(t: Table, r: Rule)
    requires Symmetric(t)
    ensures Without(Without(t, r), Reverse(r)) == t - multiset{r, Reverse(r)}
    ensures Symmetric(t - multiset{r, Reverse(r)})
  {
    hide Symmetric;
    BothWithout(t, r);
    MinusTwice(t, multiset{r}, multiset{Reverse(r)});
    assert multiset{r} + multiset{Reverse(r)} == multiset{r, Reverse(r)};
  }

  /** Stopping a desktop takes out of a symmetric table what starting it would grant now. */
  lemma StopIsDifference(t: Table, d: Desktop)
    requires Symmetric(t)
    ensures Stopped(t, d) == t - Granted(d)
  {
    if d.known {
      var cs := RemoteContacts(d.user, d.remotes);
      var r := Link(d.user.address, d.ip);
      assert Contacts(d.user, d.remotes)[0] == d.user.address && Contacts(d.user, d.remotes)[1..] == cs;
      BothFirst(d.ip, Contacts(d.user, d.remotes));
      assert Reverse(r) == Link(d.ip, d.user.address) && Reverse(Reverse(r)) == r;
      hide RemoteContacts, Contacts, Symmetric, Both, WithoutLinks, Link, Reverse, Without;
      UserLinkIsDifference(t, r);
      var pair := multiset{r, Reverse(r)};
      LinksAreDifference(t - pair, d.ip, cs);
      MinusTwice(t, pair, Both(d.ip, cs));
    }
  }

  /** Taking a rule and its reverse out, whether or not they are there, keeps a table symmetric. */
  lemma BothWithout(t: Table, r: Rule)
    requires Symmetric(t)
    ensures Symmetric(Without(Without(t, r), Reverse(r)))
  {
    assert t[r] == t[Reverse(r)];
  }

  lemma GrantedIsSymmetric(d: Desktop)
    ensures Symmetric(Granted(d))
  {
    hide Both;
    if d.known {
      BothIsSymmetric(d.ip, Contacts(d.user, d.remotes));
    }
  }

  lemma EffectKeepsSymmetry(t: Table, step: Step)
    requires Symmetric(t)
    ensures Symmetric(Effect(t, step))
  {
    hide Granted, Stopped, Purged;
    match step
    case DesktopAdded(d) => GrantedIsSymmetric(d);
    case DesktopRemoved(d) =>
      GrantedIsSymmetric(d);
      StopIsDifference(t, d);
    case PeerRemoved(dump, ips) => PurgeKeepsSymmetry(t, dump, ips);
  }

  /** Over every run of desktop additions, removals (also of desktops never added) and peer removals,
      there are as many rules from s to d as from d to s; so traffic is forwarded both ways or not at
      all. */
  lemma {:induction false} AlwaysSymmetric(t: Table, steps: seq<Step>)
    requires Symmetric(t)
    ensures Symmetric(Effects(t, steps))
    ensures forall s, d :: Forwards(Effects(t, steps), s, d) <==> Forwards(Effects(t, steps), d, s)
    decreases |steps|
  {
    hide Effect;
    if steps == [] {
      forall s, d ensures Forwards(t, s, d) <==> Forwards(t, d, s) {
        assert t[Rule(s, d)] == t[Reverse(Rule(s, d))];
      }
    } else {
      EffectKeepsSymmetry(t, steps[0]);
      AlwaysSymmetric(Effect(t, steps[0]), steps[1..]);
    }
  }

  /** The rules that the given desktops account for. */
  function RulesOf(ds: seq<Desktop>): Table {
    if ds == [] then multiset{} else Granted(ds[0]) + RulesOf(ds[1..])
  }

  lemma {:induction false} RulesOfAppend(a: seq<Desktop>, b: seq<Desktop>)
    ensures RulesOf(a + b) == RulesOf(a) + RulesOf(b)
  {
    hide Granted;
    if a == [] {
      assert a + b == b;
    } else {
      assert (a + b)[1..] == a[1..] + b;
      RulesOfAppend(a[1..], b);
    }
  }

  lemma RulesOfSnoc(ds: seq<Desktop>, d: Desktop)
    ensures RulesOf(ds + [d]) == RulesOf(ds) + Granted(d)
  {
    RulesOfAppend(ds, [d]);
    assert [d][1..] == [] && RulesOf([]) == multiset{};
  }

  lemma {:induction false} RulesOfIsSymmetric(ds: seq<Desktop>)
    ensures Symmetric(RulesOf(ds))
  {
    hide Granted;
    if ds != [] {
      GrantedIsSymmetric(ds[0]);
      RulesOfIsSymmetric(ds[1..]);
    }
  }

  /** The desktops that a run has started, as they were then. */
  function StartedIn(steps: seq<Step>): seq<Desktop> {
    if steps == [] then []
    else (if steps[0].DesktopAdded? then [steps[0].d] else []) + StartedIn(steps[1..])
  }

  lemma StepGrantsAtMost(t: Table, step: Step)
    requires Symmetric(t)
    ensures Effect(t, step) <= if step.DesktopAdded? then t + Granted(step.d) else t
  {
    hide Granted, Stopped, Purged, Symmetric;
    match step
    case DesktopAdded(d) =>
    case DesktopRemoved(d) => StopIsDifference(t, d);
    case PeerRemoved(dump, ips) => PurgedShrinks(t, dump, ips);
  }

  /** In any run at all, also one whose stops find other users and remote VPNs than its starts, the
      table never holds a rule more often than the desktops started so far account for. */
  lemma {:induction false} NeverMoreThanTheStarted(t: Table, before: seq<Desktop>, steps: seq<Step>)
    requires Symmetric(t) && t <= RulesOf(before)
    ensures Effects(t, steps) <= RulesOf(before + StartedIn(steps))
    decreases |steps|
  {
    hide Effect, Symmetric, RulesOf, Granted;
    if steps == [] {
      assert before + [] == before;
    } else {
      EffectKeepsSymmetry(t, steps[0]);
      StepGrantsAtMost(t, steps[0]);
      var rest := StartedIn(steps[1..]);
      if steps[0].DesktopAdded? {
        var d := steps[0].d;
        RulesOfSnoc(before, d);
        NeverMoreThanTheStarted(Effect(t, steps[0]), before + [d], steps[1..]);
        assert (before + [d]) + rest == before + ([d] + rest);
      } else {
        NeverMoreThanTheStarted(Effect(t, steps[0]), before, steps[1..]);
        assert before + ([] + rest) == before + rest;
      }
    }
  }

  lemma {:induction false} PurgedShrinks(t: Table, dump: seq<Rule>, ips: seq<Address>)
    ensures Purged(t, dump, ips) <= t
    decreases |dump|
  {
    hide PurgedBy;
    if dump != [] {
      PurgedByFacts(t, dump[0], ips, 0);
      PurgedShrinks(PurgedBy(t, dump[0], ips, 0), dump[1..], ips);
    }
  }

  // ---------- Desktops that come and go ----------

  /** Start a desktop; stop the k-th of those that are running, seen as it is then; or remove the rules
      of a VPN peer. */
  datatype Op = Add(d: Desktop) | Remove(k: nat, now: Desktop) | PeerGone(dump: seq<Rule>, ips: seq<Address>)

  /** `running`: the desktops that are running, as they were when they were started. */
  datatype State = State(rules: Table, running: seq<Desktop>)

  const NOTHING_RUNS: State := State(multiset{}, [])

  predicate Legal(s: State, op: Op) {
    match op
    case Add(_) => true
    case Remove(k, now) => k < |s.running| && now.ip == s.running[k].ip
    case PeerGone(dump, _) => multiset(dump) == s.rules
  }

  function Others(ds: seq<Desktop>, k: nat): seq<Desktop>
    requires k < |ds|
  {
    ds[..k] + ds[k + 1..]
  }

  function Apply(s: State, op: Op): State
    requires Legal(s, op)
  {
    match op
    case Add(d) => State(Started(s.rules, d), s.running + [d])
    case Remove(k, now) => State(Stopped(s.rules, now), Others(s.running, k))
    case PeerGone(dump, ips) => s.(rules := Purged(s.rules, dump, ips))
  }

  predicate AllLegal(s: State, ops: seq<Op>)
    decreases |ops|
  {
    ops == [] || (Legal(s, ops[0]) && AllLegal(Apply(s, ops[0]), ops[1..]))
  }

  function Exec(s: State, ops: seq<Op>): State
    requires AllLegal(s, ops)
    decreases |ops|
  {
    if ops == [] then s else Exec(Apply(s, ops[0]), ops[1..])
  }

  lemma RulesOfOthers(ds: seq<Desktop>, k: nat)
    requires k < |ds|
    ensures RulesOf(ds) == RulesOf(Others(ds, k)) + Granted(ds[k])
  {
    hide RulesOf, Granted;
    var a, d, b := ds[..k], ds[k], ds[k + 1..];
    assert ds == (a + [d]) + b;
    RulesOfAppend(a + [d], b);
    RulesOfSnoc(a, d);
    RulesOfAppend(a, b);
  }

  /** The table holds exactly the rules that the running desktops account for. */
  predicate Accounted(s: State) {
    s.rules == RulesOf(s.running)
  }

  /** A stop is clean when it finds each rule as often as the start granted it, or more often but then
      no other running desktop has it; a peer removal when it touches no rule. */
  ghost predicate Clean(s: State, op: Op)
    requires Legal(s, op)
  {
    match op
    case Add(_) => true
    case Remove(k, now) =>
      forall r: Rule ::
        || Granted(now)[r] == Granted(s.running[k])[r]
        || (Granted(now)[r] > Granted(s.running[k])[r] && r !in RulesOf(Others(s.running, k)))
    case PeerGone(_, ips) => forall r :: r in s.rules ==> !Touches(r, ips)
  }

  lemma DifferenceIff(rest: Table, before: Table, now: Table)
    ensures (rest + before) - now == rest
            <==> forall r: Rule :: now[r] == before[r] || (now[r] > before[r] && r !in rest)
  {
    if (rest + before) - now == rest {
      forall r: Rule ensures now[r] == before[r] || (now[r] > before[r] && r !in rest) {
        assert ((rest + before) - now)[r] == rest[r];
      }
    }
  }

  lemma PurgeIsIdleIff(t: Table, dump: seq<Rule>, ips: seq<Address>)
    requires Symmetric(t) && multiset(dump) == t
    ensures Purged(t, dump, ips) == t <==> forall r :: r in t ==> !Touches(r, ips)
  {
    hide Purged, Touches, Matches, Symmetric;
    forall r: Rule ensures Purged(t, dump, ips)[r] == if Touches(r, ips) then 0 else t[r] {
      PurgeIsExact(t, dump, ips, r);
      MatchesIsTouches(r, ips);
    }
  }

  lemma StepKeepsAccountIff(s: State, op: Op)
    requires Accounted(s) && Legal(s, op)
    ensures Accounted(Apply(s, op)) <==> Clean(s, op)
  {
    hide Granted, Stopped, RulesOf, Purged, Touches, Symmetric, Others;
    RulesOfIsSymmetric(s.running);
    match op
    case Add(d) => RulesOfSnoc(s.running, d);
    case Remove(k, now) =>
      RulesOfOthers(s.running, k);
      StopIsDifference(s.rules, now);
      DifferenceIff(RulesOf(Others(s.running, k)), Granted(s.running[k]), Granted(now));
    case PeerGone(dump, ips) => PurgeIsIdleIff(s.rules, dump, ips);
  }

  ghost predicate AlwaysAccounted(s: State, ops: seq<Op>)
    requires AllLegal(s, ops)
    decreases |ops|
  {
    Accounted(s) && (ops != [] ==> AlwaysAccounted(Apply(s, ops[0]), ops[1..]))
  }

  ghost predicate AllClean(s: State, ops: seq<Op>)
    requires AllLegal(s, ops)
    decreases |ops|
  {
    ops != [] ==> Clean(s, ops[0]) && AllClean(Apply(s, ops[0]), ops[1..])
  }

  /** Conservation, exactly: in any interleaving of starts, stops and peer removals, in any order and
      with shared users, contacts and addresses, the table holds exactly the rules of the running
      desktops all the time if and only if every step is clean. */
  lemma {:induction false} TableIsTheRunningDesktops(s: State, ops: seq<Op>)
    requires Accounted(s) && AllLegal(s, ops)
    ensures AlwaysAccounted(s, ops) <==> AllClean(s, ops)
    ensures AlwaysAccounted(s, ops) ==> Accounted(Exec(s, ops))
    decreases |ops|
  {
    hide Legal, Apply, Accounted, Clean;
    if ops != [] {
      StepKeepsAccountIff(s, ops[0]);
      if Accounted(Apply(s, ops[0])) {
        TableIsTheRunningDesktops(Apply(s, ops[0]), ops[1..]);
      } else {
        NotAccounted(Apply(s, ops[0]), ops[1..]);
      }
    }
  }

  lemma NotAccounted(s: State, ops: seq<Op>)
    requires AllLegal(s, ops) && !Accounted(s)
    ensures !AlwaysAccounted(s, ops)
  {
  }

  /** Symmetric, and no rule more often than the running desktops account for. */
  ghost predicate Within(s: State) {
    Symmetric(s.rules) && s.rules <= RulesOf(s.running)
  }

  /** A stop covers when what it leaves of a rule is accounted for by the desktops that go on running. */
  ghost predicate Covers(s: State, op: Op)
    requires Legal(s, op)
  {
    op.Remove? ==> forall r: Rule :: s.rules[r] <= RulesOf(Others(s.running, op.k))[r] + Granted(op.now)[r]
  }

  lemma SubsetIff(t: Table, now: Table, rest: Table)
    ensures t - now <= rest <==> forall r: Rule :: t[r] <= rest[r] + now[r]
  {
    if t - now <= rest {
      forall r: Rule ensures t[r] <= rest[r] + now[r] {
        assert (t - now)[r] <= rest[r];
      }
    }
  }

  lemma StepStaysWithinIff(s: State, op: Op)
    requires Within(s) && Legal(s, op)
    ensures Within(Apply(s, op)) <==> Covers(s, op)
  {
    hide Granted, Stopped, RulesOf, Purged, Symmetric, Others;
    match op {
      case Add(d) =>
        RulesOfSnoc(s.running, d);
        EffectKeepsSymmetry(s.rules, DesktopAdded(d));
      case Remove(k, now) =>
        EffectKeepsSymmetry(s.rules, DesktopRemoved(now));
        StopIsDifference(s.rules, now);
        SubsetIff(s.rules, Granted(now), RulesOf(Others(s.running, k)));
      case PeerGone(dump, ips) =>
        EffectKeepsSymmetry(s.rules, PeerRemoved(dump, ips));
        PurgedShrinks(s.rules, dump, ips);
    }
  }

  ghost predicate AlwaysWithin(s: State, ops: seq<Op>)
    requires AllLegal(s, ops)
    decreases |ops|
  {
    Within(s) && (ops != [] ==> AlwaysWithin(Apply(s, ops[0]), ops[1..]))
  }

  ghost predicate AllCover(s: State, ops: seq<Op>)
    requires AllLegal(s, ops)
    decreases |ops|
  {
    ops != [] ==> Covers(s, ops[0]) && AllCover(Apply(s, ops[0]), ops[1..])
  }

  /** Nothing beyond the running desktops, exactly: whatever peers are removed in between, the table
      never holds a rule more often than the running desktops account for if and only if every stop
      covers. */
  lemma {:induction false} NeverMoreThanTheRunning(s: State, ops: seq<Op>)
    requires Within(s) && AllLegal(s, ops)
    ensures AlwaysWithin(s, ops) <==> AllCover(s, ops)
    ensures AlwaysWithin(s, ops) ==> Within(Exec(s, ops))
    decreases |ops|
  {
    hide Legal, Apply, Within, Covers;
    if ops != [] {
      StepStaysWithinIff(s, ops[0]);
      if Within(Apply(s, ops[0])) {
        NeverMoreThanTheRunning(Apply(s, ops[0]), ops[1..]);
      } else {
        NotWithin(Apply(s, ops[0]), ops[1..]);
      }
    }
  }

  lemma NotWithin(s: State, ops: seq<Op>)
    requires AllLegal(s, ops) && !Within(s)
    ensures !AlwaysWithin(s, ops)
  {
  }

  /** A stop that can read the user like its start, and finds the same contacts, is clean and covers. */
  lemma FaithfulStop(s: State, k: nat, now: Desktop)
    requires Within(s) && Legal(s, Remove(k, now)) && now.known == s.running[k].known
    requires now.known ==>
               SameContacts(Contacts(s.running[k].user, s.running[k].remotes), Contacts(now.user, now.remotes))
    ensures Clean(s, Remove(k, now)) && Covers(s, Remove(k, now))
  {
    hide Both, Contacts, SameContacts, RulesOf, Symmetric, Others;
    var d := s.running[k];
    BothIsSameIff(d.ip, Contacts(d.user, d.remotes), Contacts(now.user, now.remotes));
    assert Granted(d) == Granted(now);
    RulesOfOthers(s.running, k);
    assert s.rules <= RulesOf(Others(s.running, k)) + Granted(now);
  }

  // ---------- Who can talk to whom ----------

  /** The rules as iptables reports them: a single host with the mask of a host, a network as it is. */
  lemma RulesAsReported()
    ensures Both("10.2.0.5", ["10.0.0.2", "10.1.0.0/24"])
            == multiset{Rule("10.2.0.5/32", "10.0.0.2/32"), Rule("10.0.0.2/32", "10.2.0.5/32")}
             + multiset{Rule("10.2.0.5/32", "10.1.0.0/24"), Rule("10.1.0.0/24", "10.2.0.5/32")}
  {
    assert "10.1.0.0/24"[8] == '/';
    assert Link("10.2.0.5", "10.0.0.2") == Rule("10.2.0.5/32", "10.0.0.2/32");
    assert Link("10.2.0.5", "10.1.0.0/24") == Rule("10.2.0.5/32", "10.1.0.0/24");
    var cs := ["10.0.0.2", "10.1.0.0/24"];
    assert cs[1..] == ["10.1.0.0/24"] && cs[1..][1..] == [];
  }

  /** Who may talk to a desktop: its user, and the address and networks of each remote VPN the user may use. */
  predicate Entitled(user: User, remotes: seq<Remote>, a: Address) {
    a == user.address || exists r :: r in remotes && Opens(user, r) && (a == r.address || a in r.nets)
  }

  lemma {:induction false} ContactsAreEntitled(user: User, remotes: seq<Remote>, a: Address)
    ensures a in Contacts(user, remotes) <==> Entitled(user, remotes, a)
    decreases |remotes|
  {
    if remotes != [] {
      assert Allowed(user, remotes[0]) <==> Opens(user, remotes[0]);
      hide Allowed, Opens;
      ContactsAreEntitled(user, remotes[1..], a);
      assert forall r :: r in remotes <==> r == remotes[0] || r in remotes[1..];
    }
  }

  lemma {:induction false} RulesBetween(ip: Address, contacts: seq<Address>, r: Rule)
    ensures r in Both(ip, contacts) <==> exists c :: c in contacts && (r == Link(ip, c) || r == Link(c, ip))
    decreases |contacts|
  {
    if contacts != [] {
      RulesBetween(ip, contacts[1..], r);
      assert forall c :: c in contacts <==> c == contacts[0] || c in contacts[1..];
    }
  }

  /** The rule is one between one of the desktops and one of its contacts. */
  predicate Justified(ds: seq<Desktop>, r: Rule) {
    exists d, c ::
      && d in ds && d.known && c in Contacts(d.user, d.remotes)
      && (r == Link(d.ip, c) || r == Link(c, d.ip))
  }

  lemma {:induction false} RulesAreJustified(ds: seq<Desktop>, r: Rule)
    ensures r in RulesOf(ds) <==> Justified(ds, r)
    decreases |ds|
  {
    hide Both, Contacts, Link;
    if ds != [] {
      RulesAreJustified(ds[1..], r);
      RulesBetween(ds[0].ip, Contacts(ds[0].user, ds[0].remotes), r);
      assert forall d :: d in ds <==> d == ds[0] || d in ds[1..];
    }
  }

  /** The addresses are those of one of the desktops and of somebody entitled to it. */
  ghost predicate EntitledPair(ds: seq<Desktop>, s: Address, d: Address) {
    exists k, c ::
      && k in ds && k.known && Entitled(k.user, k.remotes, c)
      && (Rule(s, d) == Link(k.ip, c) || Rule(s, d) == Link(c, k.ip))
  }

  lemma AccountedIsEntitled(ds: seq<Desktop>, s: Address, d: Address)
    ensures Rule(s, d) in RulesOf(ds) <==> EntitledPair(ds, s, d)
  {
    hide Entitled, Contacts, Link, RulesOf;
    RulesAreJustified(ds, Rule(s, d));
    forall k: Desktop, c: Address ensures c in Contacts(k.user, k.remotes) <==> Entitled(k.user, k.remotes, c) {
      ContactsAreEntitled(k.user, k.remotes, c);
    }
  }

  /** Safety in any run at all, from an empty chain: nothing passes except between a desktop that was
      started in the run and an address that was entitled to it then. */
  lemma OnlyOnceEntitledTrafficPasses(steps: seq<Step>, s: Address, d: Address)
    ensures Forwards(Effects(multiset{}, steps), s, d) ==> EntitledPair(StartedIn(steps), s, d)
  {
    hide Effects, EntitledPair, RulesOf;
    assert [] + StartedIn(steps) == StartedIn(steps);
    NeverMoreThanTheStarted(multiset{}, [], steps);
    AccountedIsEntitled(StartedIn(steps), s, d);
  }

  /** Isolation: after starts, stops and peer removals from an empty chain, if every stop covers then
      nothing passes except between a running desktop and an address entitled to it; and if every step
      is clean then all of that passes. */
  lemma OnlyEntitledTrafficPasses(ops: seq<Op>, s: Address, d: Address)
    requires AllLegal(NOTHING_RUNS, ops)
    ensures var end := Exec(NOTHING_RUNS, ops);
            && (AllCover(NOTHING_RUNS, ops) && Forwards(end.rules, s, d) ==> EntitledPair(end.running, s, d))
            && (AllClean(NOTHING_RUNS, ops) ==>
                  (Forwards(end.rules, s, d) <==> EntitledPair(end.running, s, d)))
  {
    hide Exec, AllLegal, EntitledPair, AllCover, AllClean;
    NeverMoreThanTheRunning(NOTHING_RUNS, ops);
    TableIsTheRunningDesktops(NOTHING_RUNS, ops);
    AccountedIsEntitled(Exec(NOTHING_RUNS, ops).running, s, d);
  }

  // ---------- Removing a peer ----------

  /** The part of an address before '/'. */
  function HostPart(a: Address): Address {
    if a == "" || a[0] == '/' then "" else [a[0]] + HostPart(a[1..])
  }

  predicate OccursAt(hay: string, needle: string, i: nat) {
    i + |needle| <= |hay| && hay[i..i + |needle|] == needle
  }

  /** Python's `needle in hay` on strings. */
  predicate Contains(hay: string, needle: string) {
    exists i :: 0 <= i <= |hay| && OccursAt(hay, needle, i)
  }

  lemma ContainsMeans(hay: string, needle: string)
    ensures Contains(hay, needle) <==> exists a: string, c: string :: hay == a + needle + c
  {
    if Contains(hay, needle) {
      var i :| 0 <= i <= |hay| && OccursAt(hay, needle, i);
      assert hay == hay[..i] + needle + hay[i + |needle|..];
    }
    if a: string, c: string :| hay == a + needle + c {
      assert hay[|a|..|a| + |needle|] == needle;
      assert OccursAt(hay, needle, |a|);
    }
  }

  /** The test of `remove_matching_rules` for one of the peer's addresses: the destination is a
      substring of it, or the source is one of the addresses. */
  predicate Hits(r: Rule, ips: seq<Address>, j: nat)
    requires j < |ips|
  {
    Contains(ips[j], HostPart(r.dst)) || HostPart(r.src) in ips
  }

  predicate Matches(r: Rule, ips: seq<Address>) {
    exists j :: 0 <= j < |ips| && Hits(r, ips, j)
  }

  /** The inner loop from the j-th address on. */
  function PurgedBy(t: Table, r: Rule, ips: seq<Address>, j: nat): Table
    requires j <= |ips|
    decreases |ips| - j
  {
    if j == |ips| then t
    else PurgedBy(if Hits(r, ips, j) then WithoutPair(t, r) else t, r, ips, j + 1)
  }

  /** The outer loop over a dump of the chain. */
  function Purged(t: Table, dump: seq<Rule>, ips: seq<Address>): Table
    decreases |dump|
  {
    if dump == [] then t else Purged(PurgedBy(t, dump[0], ips, 0), dump[1..], ips)
  }

  lemma PurgedByStep(t: Table, r: Rule, ips: seq<Address>, j: nat)
    requires j < |ips|
    ensures PurgedBy(t, r, ips, j) == PurgedBy(if Hits(r, ips, j) then WithoutPair(t, r) else t, r, ips, j + 1)
  {
    hide Hits, WithoutPair;
  }

  lemma PurgedByEnd(t: Table, r: Rule, ips: seq<Address>)
    ensures PurgedBy(t, r, ips, |ips|) == t
  {
  }

  lemma PurgedStep(t: Table, dump: seq<Rule>, ips: seq<Address>)
    requires dump != []
    ensures Purged(t, dump, ips) == Purged(PurgedBy(t, dump[0], ips, 0), dump[1..], ips)
  {
    hide PurgedBy;
  }

  lemma PurgedEnd(t: Table, ips: seq<Address>)
    ensures Purged(t, [], ips) == t
  {
  }

  lemma PairFacts(t: Table, r: Rule)
    ensures var u := WithoutPair(t, r);
            && u <= t && (forall x :: x != r && x != Reverse(r) ==> u[x] == t[x])
            && u[r] <= (if t[r] > 0 then t[r] - 1 else 0)
  {
  }

  /** Copies of r are only taken out, and at least one if some address hits. */
  lemma {:induction false} PurgedByFacts(t: Table, r: Rule, ips: seq<Address>, j: nat)
    requires j <= |ips|
    ensures var u := PurgedBy(t, r, ips, j);
            && u <= t && (forall x :: x != r && x != Reverse(r) ==> u[x] == t[x])
            && ((exists k :: j <= k < |ips| && Hits(r, ips, k)) ==> u[r] <= (if t[r] > 0 then t[r] - 1 else 0))
            && (!(exists k :: j <= k < |ips| && Hits(r, ips, k)) ==> u == t)
    decreases |ips| - j
  {
    hide Hits, WithoutPair, Reverse;
    if j < |ips| {
      var next := if Hits(r, ips, j) then WithoutPair(t, r) else t;
      PairFacts(t, r);
      PurgedByFacts(next, r, ips, j + 1);
    }
  }

  lemma {:induction false} PurgedByKeepsSymmetry(t: Table, r: Rule, ips: seq<Address>, j: nat)
    requires j <= |ips| && Symmetric(t)
    ensures Symmetric(PurgedBy(t, r, ips, j))
    decreases |ips| - j
  {
    hide Hits, WithoutPair, Symmetric;
    if j < |ips| {
      PairKeepsSymmetry(t, r);
      PurgedByKeepsSymmetry(if Hits(r, ips, j) then WithoutPair(t, r) else t, r, ips, j + 1);
    }
  }

  lemma {:induction false} PurgeKeepsSymmetry(t: Table, dump: seq<Rule>, ips: seq<Address>)
    requires Symmetric(t)
    ensures Symmetric(Purged(t, dump, ips))
    decreases |dump|
  {
    hide PurgedBy, Symmetric;
    if dump != [] {
      PurgedByKeepsSymmetry(t, dump[0], ips, 0);
      PurgeKeepsSymmetry(PurgedBy(t, dump[0], ips, 0), dump[1..], ips);
    }
  }

  /** A rule that matches loses one copy for each time it is listed, until none is left. */
  lemma {:induction false} PurgeTakes(t: Table, dump: seq<Rule>, ips: seq<Address>, r: Rule)
    requires Matches(r, ips)
    ensures Purged(t, dump, ips)[r] <= (if t[r] > multiset(dump)[r] then t[r] - multiset(dump)[r] else 0)
    decreases |dump|
  {
    hide Hits, PurgedBy;
    if dump != [] {
      PurgedByFacts(t, dump[0], ips, 0);
      var k :| 0 <= k < |ips| && Hits(r, ips, k);
      assert dump == [dump[0]] + dump[1..];
      PurgeTakes(PurgedBy(t, dump[0], ips, 0), dump[1..], ips, r);
    }
  }

  /** A rule that matches in neither direction is not touched. */
  lemma {:induction false} PurgeSpares(t: Table, dump: seq<Rule>, ips: seq<Address>, r: Rule)
    requires !Matches(r, ips) && !Matches(Reverse(r), ips)
    ensures Purged(t, dump, ips)[r] == t[r]
    decreases |dump|
  {
    hide Hits, PurgedBy;
    if dump != [] {
      PurgedByFacts(t, dump[0], ips, 0);
      PurgeSpares(PurgedBy(t, dump[0], ips, 0), dump[1..], ips, r);
    }
  }

  /** Removing a peer from a symmetric table removes every copy of exactly the rules that match in one
      direction or the other, in whatever order the chain is listed. */
  lemma PurgeIsExact(t: Table, dump: seq<Rule>, ips: seq<Address>, r: Rule)
    requires Symmetric(t) && multiset(dump) == t
    ensures Purged(t, dump, ips)[r] == if Matches(r, ips) || Matches(Reverse(r), ips) then 0 else t[r]
  {
    hide Matches, Purged;
    PurgeKeepsSymmetry(t, dump, ips);
    assert Purged(t, dump, ips)[r] == Purged(t, dump, ips)[Reverse(r)];
    assert Reverse(Reverse(r)) == r;
    if Matches(r, ips) {
      PurgeTakes(t, dump, ips, r);
    } else if Matches(Reverse(r), ips) {
      PurgeTakes(t, dump, ips, Reverse(r));
    } else {
      PurgeSpares(t, dump, ips, r);
    }
  }

  /** A rule is about a peer when one of its ends is one of the peer's addresses or networks. */
  predicate About(r: Rule, ips: seq<Address>) {
    exists j :: 0 <= j < |ips| && (HostPart(ips[j]) == HostPart(r.src) || HostPart(ips[j]) == HostPart(r.dst))
  }

  /** One of its ends occurs inside one of the peer's addresses. */
  predicate Touches(r: Rule, ips: seq<Address>) {
    exists j :: 0 <= j < |ips| && (Contains(ips[j], HostPart(r.src)) || Contains(ips[j], HostPart(r.dst)))
  }

  lemma {:induction false} HostPartIsPrefix(a: Address)
    ensures HostPart(a) <= a
  {
    if a != "" && a[0] != '/' {
      HostPartIsPrefix(a[1..]);
      assert a == [a[0]] + a[1..];
    }
  }

  lemma PrefixOccurs(a: Address, x: string)
    requires x <= a
    ensures Contains(a, x)
  {
    assert OccursAt(a, x, 0);
  }

  lemma MatchesIsTouches(r: Rule, ips: seq<Address>)
    ensures Matches(r, ips) || Matches(Reverse(r), ips) <==> Touches(r, ips)
    ensures About(r, ips) ==> Touches(r, ips)
  {
    hide Contains, HostPart;
    forall j | 0 <= j < |ips|
      ensures Contains(ips[j], HostPart(ips[j])) && Contains(ips[j], ips[j])
    {
      HostPartIsPrefix(ips[j]);
      PrefixOccurs(ips[j], HostPart(ips[j]));
      PrefixOccurs(ips[j], ips[j]);
    }
    if Touches(r, ips) {
      var j :| 0 <= j < |ips| && (Contains(ips[j], HostPart(r.src)) || Contains(ips[j], HostPart(r.dst)));
      assert Hits(r, ips, j) || Hits(Reverse(r), ips, j);
    }
  }

  /** Removing a peer never leaves a rule about it; and it removes only such rules if and only if no
      other rule of the table has an end that occurs inside one of the peer's addresses. */
  lemma PeerRemovalIsCleanIff(t: Table, dump: seq<Rule>, ips: seq<Address>)
    requires Symmetric(t) && multiset(dump) == t
    ensures forall r :: About(r, ips) ==> Purged(t, dump, ips)[r] == 0
    ensures (forall r :: r in t ==> (r !in Purged(t, dump, ips) <==> About(r, ips)))
            <==> forall r :: r in t && Touches(r, ips) ==> About(r, ips)
  {
    hide Purged, About, Touches, Matches, Symmetric;
    forall r
      ensures About(r, ips) ==> Touches(r, ips)
      ensures Purged(t, dump, ips)[r] == if Touches(r, ips) then 0 else t[r]
    {
      MatchesIsTouches(r, ips);
      PurgeIsExact(t, dump, ips, r);
    }
  }

  lemma {:induction false} HostPartStops(x: string, rest: string)
    requires '/' !in x
    ensures HostPart(x + "/" + rest) == x && HostPart(x) == x
  {
    if x == "" {
      assert ("" + "/" + rest)[0] == '/';
    } else {
      HostPartStops(x[1..], rest);
      assert (x + "/" + rest)[1..] == x[1..] + "/" + rest;
      assert x == [x[0]] + x[1..];
    }
  }

  /** The condition can fail: removing 10.0.0.12 also removes the rules of 10.0.0.1. */
  lemma StrangersAreRemovedToo()
    ensures var r := Rule("10.2.0.5/32", "10.0.0.1/32");
            !About(r, ["10.0.0.12"]) && Purged(multiset{r, Reverse(r)}, [r, Reverse(r)], ["10.0.0.12"])[r] == 0
  {
    hide HostPart, Purged;
    var r := Rule("10.2.0.5/32", "10.0.0.1/32");
    var ips := ["10.0.0.12"];
    HostPartStops("10.0.0.1", "32");
    HostPartStops("10.2.0.5", "32");
    HostPartStops("10.0.0.12", "");
    assert "10.0.0.1" + "/" + "32" == r.dst && "10.2.0.5" + "/" + "32" == r.src;
    PrefixOccurs(ips[0], "10.0.0.1");
    assert Touches(r, ips);
    MatchesIsTouches(r, ips);
    var t := multiset{r, Reverse(r)};
    assert Symmetric(t);
    PurgeIsExact(t, [r, Reverse(r)], ips, r);
  }
}
